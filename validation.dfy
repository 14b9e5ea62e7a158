/**
 * The declarative form-validation engine: a list of field schemas, each with
 * an ordered list of rules, checked against a record.
 */
module Validation {
  import opened Wrappers
  import opened Js
  import opened Utils
  import opened Lists

  /** The four rule types, with the options each one reads. */
  datatype RuleKind = Required | MinLen(len: int) | Email | IsEqual(compareTo: string)

  /** One rule of a field; an empty `hint` stands for a rule without a hint. */
  datatype Rule = Rule(kind: RuleKind, hint: string)

  /** A field to check, named by a plain key or a dotted path. */
  datatype FieldSchema = FieldSchema(name: string, validations: Option<seq<Rule>>)

  datatype ValidationResult = ValidationResult(isValid: bool, invalidFields: seq<string>, hints: seq<string>)

  /** How checking one rule ends: it holds, it fails, or evaluating it throws. */
  datatype Check = Pass | Fail | Thrown

  /** The verdict on one field: valid, or invalid with the hint of the failing rule. */
  datatype FieldResult = Valid | Invalid(hint: string)

  // ---- Reading a field: `getValue` ----

  /**
   * `v[key]`: `None` when it throws (reading a property of `undefined` or
   * `null`). Strings and arrays expose `length` and their elements under index
   * keys; other own properties of primitives read as `undefined`.
   */
  function Prop(v: Value, key: string): (r: Option<Value>)
    ensures r.None? <==> v.Undefined? || v.Null?
    ensures v.Obj? ==> r == Some(Get(v.fields, key))
    ensures (v.Str? || v.Arr?) && key == "length" ==> r == Some(Num(if v.Str? then |v.s| else |v.items|))
  {
    match v
    case Undefined => None
    case Null => None
    case Obj(fields) => Some(Get(fields, key))
    case Str(s) =>
      var i := IndexKey(key);
      Some(if key == "length" then Num(|s|) else if i.Some? && i.value < |s| then Str([s[i.value]]) else Undefined)
    case Arr(items) =>
      var i := IndexKey(key);
      Some(if key == "length" then Num(|items|) else if i.Some? && i.value < |items| then items[i.value] else Undefined)
    case _ => Some(Undefined)
  }

  /** Index `i`, written in decimal, reads character `i` of a string and element `i` of an array, and `undefined` past the end. */
  lemma PropIndex(v: Value, i: nat)
    ensures v.Str? ==> Prop(v, NatToString(i)) == Some(if i < |v.s| then Str([v.s[i]]) else Undefined)
    ensures v.Arr? ==> Prop(v, NatToString(i)) == Some(if i < |v.items| then v.items[i] else Undefined)
  {
    IndexKeyOfNat(i);
    assert NatToString(i) != "length" by {
      assert IsDigit(NatToString(i)[0]);
    }
  }

  /** Follows a path of property names from `v`; `None` when a step throws. */
  function Walk(v: Value, path: seq<string>): Option<Value>
    decreases |path|
  {
    if |path| == 0 then Some(v)
    else
      match Prop(v, path[0])
      case None => None
      case Some(w) => Walk(w, path[1..])
  }

  /** What `getValue(model, fieldName)` gives: a plain key, or the walk along the dotted path. */
  function ResolvePath(model: Record, fieldName: string): Option<Value> {
    if '.' !in fieldName then Some(Get(model, fieldName))
    else Walk(Obj(model), Split(fieldName, '.'))
  }

  /** `getValue`: shifts the path segments off one by one, reading one property each time. */
  method GetValue(model: Record, fieldName: string) returns (value: Option<Value>)
    ensures value == ResolvePath(model, fieldName)
  {
    if '.' !in fieldName {
      return Some(Get(model, fieldName));
    }
    var path := Split(fieldName, '.');
    var v := Obj(model);
    while |path| > 0
      invariant Walk(v, path) == ResolvePath(model, fieldName)
    {
      var next := Prop(v, path[0]);
      if next.None? {
        return None;
      }
      v := next.value;
      path := path[1..];
    }
    return Some(v);
  }

  /**
   * A two-segment path reads the inner property of the outer object, throws when
   * the outer value is `undefined` or `null`, and reads `undefined` through other primitives.
   */
  lemma DottedPath(model: Record, outer: string, inner: string)
    requires '.' !in outer && '.' !in inner
    ensures var o := Get(model, outer);
      && (o.Obj? ==> ResolvePath(model, outer + "." + inner) == Some(Get(o.fields, inner)))
      && (o.Undefined? || o.Null? ==> ResolvePath(model, outer + "." + inner) == None)
      && (o.Num? || o.Bool? ==> ResolvePath(model, outer + "." + inner) == Some(Undefined))
  {
    var name := outer + "." + inner;
    assert name[|outer|] == '.';
    SplitAfterPiece(outer, inner, '.');
    SplitWithoutSep(inner, '.');
    assert Split(name, '.') == [outer, inner];
    assert [outer, inner][1..] == [inner];
    assert [inner][1..] == [];
    var o := Get(model, outer);
    assert ResolvePath(model, name) == Walk(Obj(model), [outer, inner]);
    assert Walk(Obj(model), [outer, inner]) == Walk(o, [inner]);
    match Prop(o, inner) {
      case None =>
      case Some(w) => assert Walk(o, [inner]) == Walk(w, []) == Some(w);
    }
  }

  // ---- The rule checks ----

  /**
   * `isEmpty`, which passes a Required rule: `undefined`/`null` pass; other values
   * that are not `''` and that `isNaN` accepts pass unless they are the number 0;
   * otherwise the value must trim to a non-empty string (`trim` throws on non-strings).
   */
  function CheckRequired(v: Value): (r: Check)
    ensures v.Undefined? || v.Null? ==> r == Pass
    ensures r == Thrown ==> v.Obj? || v.Arr?
  {
    if v.Undefined? || v.Null? then Pass
    else if v != Str("") && IsNumericValue(v) then
      (if StrictEquals(v, Num(0)) then Fail else Pass)
    else if v.Str? then
      (if |Trim(v.s)| != 0 then Pass else Fail)
    else Thrown
  }

  /** Required fails for exactly two values: the number 0 and the empty string. */
  lemma RequiredFailsIff(v: Value)
    ensures CheckRequired(v) == Fail <==> v == Num(0) || v == Str("")
  {
    if v.Str? && v.s != "" && !IsNumericValue(v) {
      assert Trim(v.s) != "";
    }
  }

  /** On strings and numbers Required never throws; it throws on plain objects and on arrays that do not read as a number. */
  lemma RequiredThrowsIff(v: Value)
    ensures CheckRequired(v) == Thrown <==> v.Obj? || (v.Arr? && !IsNumericValue(v))
  {
    if v.Str? && v.s != "" && !IsNumericValue(v) {
      assert Trim(v.s) != "";
    }
  }

  /** `hasMinLen`: the trimmed string is at least `len` long; `trim` throws on non-strings. */
  function CheckMinLen(v: Value, len: int): (c: Check)
    ensures c == Thrown <==> !v.Str?
    ensures v.Str? ==> (c == Pass <==> |Trim(v.s)| >= len)
  {
    if !v.Str? then Thrown
    else if |Trim(v.s)| >= len then Pass
    else Fail
  }

  // `isEmail`: the site's own e-mail pattern, matched case-insensitively.

  predicate IsLocalChar(c: char) {
    IsLowerAlnum(c) || c in "-~!$%^&*_=+}{'?"
  }

  predicate IsLabelChar(c: char) {
    IsLowerAlnum(c) || c == '-' || c == '_'
  }

  predicate AllSatisfy(s: string, p: char -> bool) {
    forall i :: 0 <= i < |s| ==> p(s[i])
  }

  /** Non-empty runs of the allowed characters separated by single dots. */
  predicate IsLocalPart(s: string) {
    var runs := Split(s, '.');
    forall i :: 0 <= i < |runs| ==> runs[i] != "" && AllSatisfy(runs[i], IsLocalChar)
  }

  const TopLevelDomains: seq<string> :=
    ["aero", "arpa", "biz", "com", "coop", "edu", "gov", "info", "int", "mil",
     "museum", "name", "net", "org", "pro", "travel", "mobi"]

  predicate IsTopLevel(t: string) {
    t in TopLevelDomains || (|t| == 2 && 'a' <= t[0] <= 'z' && 'a' <= t[1] <= 'z')
  }

  /** Two or more labels, the first not starting with `-`, the last a listed domain or two letters. */
  predicate IsDomainName(h: string) {
    var labels := Split(h, '.');
    && |labels| >= 2
    && (forall i :: 0 <= i < |labels| ==> labels[i] != "" && AllSatisfy(labels[i], IsLabelChar))
    && labels[0][0] != '-'
    && IsTopLevel(labels[|labels| - 1])
  }

  /** Four dot-separated groups of one to three digits (no range check). */
  predicate IsDottedQuad(h: string) {
    var groups := Split(h, '.');
    |groups| == 4 && forall i :: 0 <= i < 4 ==> 1 <= |groups[i]| <= 3 && AllSatisfy(groups[i], IsDigit)
  }

  /** A host with an optional `:` and one to five digits. */
  predicate IsHostAndPort(s: string) {
    var parts := Split(s, ':');
    && (|parts| == 1 || (|parts| == 2 && 1 <= |parts[1]| <= 5 && AllSatisfy(parts[1], IsDigit)))
    && (IsDomainName(parts[0]) || IsDottedQuad(parts[0]))
  }

  /** `isEmail`: exactly one `@`, a local part before it, a host and optional port after it. */
  predicate IsEmail(s: string) {
    var halves := Split(Lower(s), '@');
    |halves| == 2 && IsLocalPart(halves[0]) && IsHostAndPort(halves[1])
  }

  lemma LowerIdempotent(s: string)
    ensures Lower(Lower(s)) == Lower(s)
  {
  }

  /** The pattern ignores case. */
  lemma EmailIgnoresCase(s: string)
    ensures IsEmail(s) <==> IsEmail(Lower(s))
  {
    LowerIdempotent(s);
  }

  lemma LowerAppend(a: string, b: string)
    ensures Lower(a + b) == Lower(a) + Lower(b)
  {
  }

  /** With a single `@`, the pattern splits into its local part and its host part. */
  lemma EmailShape(local: string, host: string)
    requires '@' !in local && '@' !in host
    ensures IsEmail(local + "@" + host) <==> IsLocalPart(Lower(local)) && IsHostAndPort(Lower(host))
  {
    LowerAppend(local + "@", host);
    LowerAppend(local, "@");
    assert Lower("@") == "@";
    assert '@' !in Lower(local) by {
      forall i | 0 <= i < |local| ensures Lower(local)[i] != '@' { }
    }
    assert '@' !in Lower(host) by {
      forall i | 0 <= i < |host| ensures Lower(host)[i] != '@' { }
    }
    SplitAfterPiece(Lower(local), Lower(host), '@');
    SplitWithoutSep(Lower(host), '@');
  }

  /** A host name of two labels without a port. */
  lemma TwoLabelHost(a: string, b: string)
    requires '.' !in a && '.' !in b && ':' !in a && ':' !in b
    ensures IsHostAndPort(a + "." + b) <==>
      (a != "" && b != "" && AllSatisfy(a, IsLabelChar) && AllSatisfy(b, IsLabelChar) && a[0] != '-' && IsTopLevel(b))
  {
    var h := a + "." + b;
    assert ':' !in h by {
      forall i | 0 <= i < |h| ensures h[i] != ':' {
        if i < |a| { assert h[i] == a[i]; } else if i > |a| { assert h[i] == b[i - |a| - 1]; }
      }
    }
    SplitWithoutSep(h, ':');
    SplitAfterPiece(a, b, '.');
    SplitWithoutSep(b, '.');
    assert Split(h, '.') == [a, b];
  }

  /** Lowering case leaves a string without upper-case letters unchanged. */
  lemma LowerUnchanged(s: string)
    requires forall i :: 0 <= i < |s| ==> !('A' <= s[i] <= 'Z')
    ensures Lower(s) == s
  {
  }

  /**
   * A lower-case address `local@a.b` whose local part and first label are letters
   * and digits and whose last label is a top-level domain is accepted, as `john@doe.com` is.
   */
  lemma PlainAddressAccepted(local: string, a: string, b: string)
    requires local != "" && a != "" && b != ""
    requires AllSatisfy(local, IsLowerAlnum) && AllSatisfy(a, IsLowerAlnum) && AllSatisfy(b, IsLowerAlnum)
    requires IsTopLevel(b)
    ensures IsEmail(local + "@" + a + "." + b)
  {
    assert local + "@" + a + "." + b == local + "@" + (a + "." + b);
    PlainLocalPart(local);
    PlainHost(a, b);
    EmailShape(local, a + "." + b);
  }

  lemma PlainLocalPart(local: string)
    requires local != "" && AllSatisfy(local, IsLowerAlnum)
    ensures '@' !in local && Lower(local) == local && IsLocalPart(local)
  {
    assert forall i :: 0 <= i < |local| ==> IsLowerAlnum(local[i]) && IsLocalChar(local[i]);
    LowerUnchanged(local);
    SplitWithoutSep(local, '.');
  }

  lemma PlainHost(a: string, b: string)
    requires a != "" && b != "" && AllSatisfy(a, IsLowerAlnum) && AllSatisfy(b, IsLowerAlnum) && IsTopLevel(b)
    ensures '@' !in a + "." + b && Lower(a + "." + b) == a + "." + b && IsHostAndPort(a + "." + b)
  {
    var host := a + "." + b;
    assert forall i :: 0 <= i < |a| ==> IsLowerAlnum(a[i]) && IsLabelChar(a[i]);
    assert forall i :: 0 <= i < |b| ==> IsLowerAlnum(b[i]) && IsLabelChar(b[i]);
    forall i | 0 <= i < |host|
      ensures host[i] != '@' && !('A' <= host[i] <= 'Z')
    {
      if i < |a| { assert host[i] == a[i]; } else if i > |a| { assert host[i] == b[i - |a| - 1]; }
    }
    LowerUnchanged(host);
    TwoLabelHost(a, b);
  }

  /** An address whose host has no dot is rejected, as `john@doe` is. */
  lemma DotlessHostRejected(local: string, host: string)
    requires '@' !in local && '@' !in host && '.' !in host && ':' !in host
    ensures !IsEmail(local + "@" + host)
  {
    EmailShape(local, host);
    LowerKeepsNonLetter(host, '.');
    LowerKeepsNonLetter(host, ':');
    SingleLabelHostRejected(Lower(host));
  }

  /** Lowering case neither adds nor removes a character that is not a letter. */
  lemma LowerKeepsNonLetter(s: string, c: char)
    requires c !in s && !('A' <= c <= 'Z') && !('a' <= c <= 'z')
    ensures c !in Lower(s)
  {
    forall i | 0 <= i < |s|
      ensures Lower(s)[i] != c
    {
      assert s[i] != c;
    }
  }

  /** A host without a dot is neither a domain name nor a dotted quad. */
  lemma SingleLabelHostRejected(h: string)
    requires '.' !in h && ':' !in h
    ensures !IsHostAndPort(h)
  {
    SplitWithoutSep(h, ':');
    SplitWithoutSep(h, '.');
  }


  /** Checks one rule of the field `fieldName`; reading the field may throw. */
  function CheckRule(rule: Rule, fieldName: string, model: Record): (r: Check)
    ensures ResolvePath(model, fieldName).None? ==> r == Thrown
    ensures r == Thrown ==> ResolvePath(model, fieldName).None? || rule.kind.Required? || rule.kind.MinLen?
  {
    match ResolvePath(model, fieldName)
    case None => Thrown
    case Some(v) =>
      match rule.kind
      case Required => CheckRequired(v)
      case MinLen(len) => CheckMinLen(v, len)
      case Email => if IsEmail(ToJsString(v)) then Pass else Fail
      case IsEqual(compareTo) => if StrictEquals(v, Get(model, compareTo)) then Pass else Fail
  }

  /** `checkFieldValid`: reads the field, then applies the rule's test. */
  method CheckFieldValid(rule: Rule, fieldName: string, model: Record) returns (c: Check)
    ensures c == CheckRule(rule, fieldName, model)
  {
    var value := GetValue(model, fieldName);
    if value.None? {
      return Thrown;
    }
    var v := value.value;
    match rule.kind {
      case Required => c := CheckRequired(v);
      case MinLen(len) => c := CheckMinLen(v, len);
      case Email => c := if IsEmail(ToJsString(v)) then Pass else Fail;
      case IsEqual(compareTo) => c := if StrictEquals(v, Get(model, compareTo)) then Pass else Fail;
    }
  }

  /** IsEqual compares with the plain key `compareTo` of the record, never with a dotted path. */
  lemma IsEqualReadsPlainKey(fieldName: string, compareTo: string, model: Record, v: Value)
    requires ResolvePath(model, fieldName) == Some(v)
    ensures CheckRule(Rule(IsEqual(compareTo), ""), fieldName, model) == Pass
            <==> StrictEquals(v, Get(model, compareTo))
  {
  }

  // ---- `validate` ----

  /**
   * The verdict on one field's rules, in order: the first failing rule makes it
   * invalid with that rule's hint; a rule that throws ends the checks and leaves it valid.
   */
  function FieldOutcome(rules: seq<Rule>, fieldName: string, model: Record): FieldResult {
    if |rules| == 0 then Valid
    else
      match CheckRule(rules[0], fieldName, model)
      case Pass => FieldOutcome(rules[1..], fieldName, model)
      case Fail => Invalid(rules[0].hint)
      case Thrown => Valid
  }

  /** An entry without validations is skipped. */
  function EntryOutcome(schema: FieldSchema, model: Record): FieldResult {
    match schema.validations
    case None => Valid
    case Some(rules) => FieldOutcome(rules, schema.name, model)
  }

  /** How one entry changes the running result. */
  function Step(acc: ValidationResult, schema: FieldSchema, model: Record): (r: ValidationResult)
    ensures r.isValid <==> acc.isValid && EntryOutcome(schema, model) == Valid
    ensures acc.invalidFields <= r.invalidFields && |r.invalidFields| <= |acc.invalidFields| + 1
    ensures acc.hints <= r.hints && |r.hints| <= |acc.hints| + 1
  {
    match EntryOutcome(schema, model)
    case Valid => acc
    case Invalid(hint) =>
      ValidationResult(
        false,
        if NotContains(acc.invalidFields, schema.name) then acc.invalidFields + [schema.name] else acc.invalidFields,
        if hint != "" then acc.hints + [hint] else acc.hints)
  }

  /** The result of `validate(model, schemas)`, entry by entry. */
  function ValidateSpec(model: Record, schemas: seq<FieldSchema>): (r: ValidationResult)
    ensures |r.invalidFields| <= |schemas| && |r.hints| <= |schemas|
    ensures r.isValid ==> r.invalidFields == [] && r.hints == []
  {
    if |schemas| == 0 then ValidationResult(true, [], [])
    else Step(ValidateSpec(model, schemas[..|schemas| - 1]), schemas[|schemas| - 1], model)
  }

  /**
   * The `try` around one entry's rules: checks them in order until one fails,
   * pushing its hint when it has one, or one throws.
   */
  method CheckRules(rules: seq<Rule>, fieldName: string, model: Record, hints: seq<string>)
    returns (isFieldValid: bool, hints': seq<string>)
    ensures var outcome := FieldOutcome(rules, fieldName, model);
      && (isFieldValid <==> outcome == Valid)
      && hints' == if outcome.Invalid? && outcome.hint != "" then hints + [outcome.hint] else hints
  {
    ghost var outcome := FieldOutcome(rules, fieldName, model);
    hints' := hints;
    isFieldValid := true;
    var stop := false;
    var j := 0;
    while j < |rules| && !stop
      invariant 0 <= j <= |rules|
      invariant !stop ==> isFieldValid && outcome == FieldOutcome(rules[j..], fieldName, model) && hints' == hints
      invariant stop ==> (isFieldValid <==> outcome == Valid)
      invariant stop ==> hints' == if outcome.Invalid? && outcome.hint != "" then hints + [outcome.hint] else hints
    {
      assert rules[j..][1..] == rules[j + 1..];
      var c := CheckFieldValid(rules[j], fieldName, model);
      if c == Thrown {
        // the exception is swallowed by the surrounding catch
        stop := true;
      } else {
        isFieldValid := isFieldValid && c == Pass;
        if !isFieldValid {
          if rules[j].hint != "" {
            hints' := hints' + [rules[j].hint];
          }
          stop := true;
        }
      }
      j := j + 1;
    }
  }

  /**
   * `validate`: walks the schemas, runs each field's rules until one fails or
   * throws, records the failing field once and the failing rule's hint.
   */
  method Validate(model: Record, schemas: seq<FieldSchema>) returns (result: ValidationResult)
    ensures result == ValidateSpec(model, schemas)
  {
    var invalidFields: seq<string> := [];
    var hints: seq<string> := [];
    var isFormValid := true;
    var i := 0;
    while i < |schemas|
      invariant 0 <= i <= |schemas|
      invariant ValidationResult(isFormValid, invalidFields, hints) == ValidateSpec(model, schemas[..i])
    {
      var schema := schemas[i];
      assert schemas[..i + 1][..i] == schemas[..i];
      assert ValidateSpec(model, schemas[..i + 1]) == Step(ValidateSpec(model, schemas[..i]), schema, model);
      if schema.validations.Some? {
        var isFieldValid;
        isFieldValid, hints := CheckRules(schema.validations.value, schema.name, model, hints);
        assert isFieldValid <==> EntryOutcome(schema, model) == Valid;
        if !isFieldValid && NotContains(invalidFields, schema.name) {
          invalidFields := invalidFields + [schema.name];
        }
        isFormValid := isFormValid && isFieldValid;
      }
      i := i + 1;
    }
    assert schemas[..|schemas|] == schemas;
    result := ValidationResult(isFormValid, invalidFields, hints);
  }

  // ---- Properties of `validate` ----

  predicate NoRules(schema: FieldSchema) {
    schema.validations.None? || schema.validations == Some([])
  }

  /** Entries without rules are skipped: a list made only of them validates with empty lists. */
  lemma {:induction false} NoRulesIsValid(model: Record, schemas: seq<FieldSchema>)
    requires forall i :: 0 <= i < |schemas| ==> NoRules(schemas[i])
    ensures ValidateSpec(model, schemas) == ValidationResult(true, [], [])
  {
    if |schemas| > 0 {
      NoRulesIsValid(model, schemas[..|schemas| - 1]);
    }
  }

  /**
   * The form is valid exactly when no entry fails; the invalid fields are the
   * names of the failing entries, each once, in order of first failure; every
   * hint is the hint of a failing entry.
   */
  lemma ValidateSummary(model: Record, schemas: seq<FieldSchema>)
    ensures var r := ValidateSpec(model, schemas);
      && (r.isValid <==> forall i :: 0 <= i < |schemas| ==> EntryOutcome(schemas[i], model) == Valid)
      && (forall name :: name in r.invalidFields <==>
            exists i :: 0 <= i < |schemas| && schemas[i].name == name && EntryOutcome(schemas[i], model).Invalid?)
      && (forall i, j :: 0 <= i < j < |r.invalidFields| ==> r.invalidFields[i] != r.invalidFields[j])
      && r.invalidFields == Dedup(Map(Filter(schemas, FailsIn(model)), NameOf))
      && (forall h :: h in r.hints ==>
            h != "" && exists i :: 0 <= i < |schemas| && EntryOutcome(schemas[i], model) == Invalid(h))
      && |r.hints| <= |schemas|
      && (r.isValid ==> r.invalidFields == [] && r.hints == [])
  {
    ValidIffNoFailure(model, schemas);
    InvalidFieldsSummary(model, schemas);
    InvalidFieldsInFailureOrder(model, schemas);
    HintsSummary(model, schemas);
    ValidHasNoReports(model, schemas);
  }

  /** Whether an entry fails with a hint to show. */
  function HasHint(model: Record): FieldSchema -> bool {
    schema => EntryOutcome(schema, model).Invalid? && EntryOutcome(schema, model).hint != ""
  }

  /** The hint an entry fails with, `''` when it passes. */
  function HintOf(model: Record): FieldSchema -> string {
    schema => match EntryOutcome(schema, model) case Valid => "" case Invalid(hint) => hint
  }

  /** The hints are those of the entries that fail with one, in schema order: each entry's first failing rule. */
  lemma {:induction false} HintsInSchemaOrder(model: Record, schemas: seq<FieldSchema>)
    ensures ValidateSpec(model, schemas).hints == Map(Filter(schemas, HasHint(model)), HintOf(model))
  {
    if |schemas| > 0 {
      var n := |schemas| - 1;
      var prev := schemas[..n];
      var last := schemas[n];
      HintsInSchemaOrder(model, prev);
      assert schemas == prev + [last];
      HintsSnoc(model, schemas);
      MapFilterSnoc(prev, last, HasHint(model), HintOf(model));
    }
  }

  /** The last entry's hint, if it has one, follows the hints of the entries before it. */
  lemma HintsSnoc(model: Record, schemas: seq<FieldSchema>)
    requires |schemas| > 0
    ensures var n := |schemas| - 1;
      ValidateSpec(model, schemas).hints ==
        ValidateSpec(model, schemas[..n]).hints + if HasHint(model)(schemas[n]) then [HintOf(model)(schemas[n])] else []
  {
    var n := |schemas| - 1;
    StepHints(ValidateSpec(model, schemas[..n]), schemas[n], model);
  }

  /** One entry adds its hint to the list exactly when it fails with one. */
  lemma StepHints(acc: ValidationResult, schema: FieldSchema, model: Record)
    ensures Step(acc, schema, model).hints ==
      acc.hints + if HasHint(model)(schema) then [HintOf(model)(schema)] else []
  {
  }

  /** Whether an entry fails. */
  function FailsIn(model: Record): FieldSchema -> bool {
    schema => EntryOutcome(schema, model).Invalid?
  }

  /** An entry's field name. */
  function NameOf(schema: FieldSchema): string {
    schema.name
  }

  /**
   * The invalid fields are the names of the failing entries in schema order,
   * each kept at its first failure.
   */
  lemma {:induction false} InvalidFieldsInFailureOrder(model: Record, schemas: seq<FieldSchema>)
    ensures ValidateSpec(model, schemas).invalidFields == Dedup(Map(Filter(schemas, FailsIn(model)), NameOf))
  {
    if |schemas| > 0 {
      var n := |schemas| - 1;
      var prev := schemas[..n];
      var last := schemas[n];
      InvalidFieldsInFailureOrder(model, prev);
      assert schemas == prev + [last];
      DedupMapFilterSnoc(prev, last, FailsIn(model), NameOf);
      StepInvalidFields(ValidateSpec(model, prev), last, model);
    }
  }

  /** A failing entry's name is pushed unless it is already listed; a passing entry adds none. */
  lemma StepInvalidFields(acc: ValidationResult, schema: FieldSchema, model: Record)
    ensures Step(acc, schema, model).invalidFields ==
      if FailsIn(model)(schema) && schema.name !in acc.invalidFields then acc.invalidFields + [schema.name]
      else acc.invalidFields
  {
  }

  /** The invalid fields are the names of the failing entries, each once. */
  lemma {:induction false} InvalidFieldsSummary(model: Record, schemas: seq<FieldSchema>)
    ensures forall name :: name in ValidateSpec(model, schemas).invalidFields <==>
      exists i :: 0 <= i < |schemas| && schemas[i].name == name && EntryOutcome(schemas[i], model).Invalid?
    ensures forall i, j :: 0 <= i < j < |ValidateSpec(model, schemas).invalidFields| ==>
      ValidateSpec(model, schemas).invalidFields[i] != ValidateSpec(model, schemas).invalidFields[j]
  {
    if |schemas| > 0 {
      var n := |schemas| - 1;
      var prev := schemas[..n];
      InvalidFieldsSummary(model, prev);
      var acc := ValidateSpec(model, prev);
      var last := schemas[n];
      ContainsIsMembership(acc.invalidFields, last.name);
      forall i | 0 <= i < n
        ensures schemas[i] == prev[i]
      {
      }
      var r := ValidateSpec(model, schemas);
      assert r == Step(acc, last, model);
      if EntryOutcome(last, model).Invalid? {
        assert r.invalidFields == if last.name in acc.invalidFields then acc.invalidFields else acc.invalidFields + [last.name];
      } else {
        assert r.invalidFields == acc.invalidFields;
      }
      forall name | name in r.invalidFields
        ensures exists i :: 0 <= i < |schemas| && schemas[i].name == name && EntryOutcome(schemas[i], model).Invalid?
      {
        if name in acc.invalidFields {
          var i :| 0 <= i < n && prev[i].name == name && EntryOutcome(prev[i], model).Invalid?;
          assert schemas[i] == prev[i];
        } else {
          assert name == last.name && EntryOutcome(schemas[n], model).Invalid?;
        }
      }
    }
  }

  /** Every hint is the non-empty hint of a failing entry, at most one per entry. */
  lemma {:induction false} HintsSummary(model: Record, schemas: seq<FieldSchema>)
    ensures forall h :: h in ValidateSpec(model, schemas).hints ==>
      h != "" && exists i :: 0 <= i < |schemas| && EntryOutcome(schemas[i], model) == Invalid(h)
    ensures |ValidateSpec(model, schemas).hints| <= |schemas|
  {
    if |schemas| > 0 {
      var n := |schemas| - 1;
      var prev := schemas[..n];
      HintsSummary(model, prev);
      var acc := ValidateSpec(model, prev);
      forall i | 0 <= i < n
        ensures schemas[i] == prev[i]
      {
      }
      var r := ValidateSpec(model, schemas);
      forall h | h in r.hints
        ensures h != "" && exists i :: 0 <= i < |schemas| && EntryOutcome(schemas[i], model) == Invalid(h)
      {
        if h !in acc.hints {
          assert EntryOutcome(schemas[n], model) == Invalid(h);
        }
      }
    }
  }

  /** A valid result reports no field and no hint. */
  lemma {:induction false} ValidHasNoReports(model: Record, schemas: seq<FieldSchema>)
    ensures ValidateSpec(model, schemas).isValid ==>
      ValidateSpec(model, schemas).invalidFields == [] && ValidateSpec(model, schemas).hints == []
  {
    if |schemas| > 0 {
      ValidHasNoReports(model, schemas[..|schemas| - 1]);
    }
  }

  /** The form is valid exactly when no entry fails. */
  lemma {:induction false} ValidIffNoFailure(model: Record, schemas: seq<FieldSchema>)
    ensures ValidateSpec(model, schemas).isValid <==> forall i :: 0 <= i < |schemas| ==> EntryOutcome(schemas[i], model) == Valid
  {
    if |schemas| > 0 {
      var n := |schemas| - 1;
      ValidIffNoFailure(model, schemas[..n]);
      assert forall i :: 0 <= i < n ==> schemas[..n][i] == schemas[i];
    }
  }

  /** The same, for a schema given as its field names and their rule lists. */
  lemma ValidIffFields(model: Record, schemas: seq<FieldSchema>, names: seq<string>, rules: seq<seq<Rule>>)
    requires |schemas| == |names| == |rules|
    requires forall i :: 0 <= i < |schemas| ==> schemas[i] == FieldSchema(names[i], Some(rules[i]))
    ensures ValidateSpec(model, schemas).isValid <==> forall i :: 0 <= i < |names| ==> FieldOutcome(rules[i], names[i], model) == Valid
  {
    ValidIffNoFailure(model, schemas);
  }

  /** A two-field schema is valid exactly when both fields are. */
  lemma TwoFieldsValidIff(model: Record, n0: string, r0: seq<Rule>, n1: string, r1: seq<Rule>)
    ensures ValidateSpec(model, [FieldSchema(n0, Some(r0)), FieldSchema(n1, Some(r1))]).isValid <==>
      FieldOutcome(r0, n0, model) == Valid && FieldOutcome(r1, n1, model) == Valid
  {
    var s := [FieldSchema(n0, Some(r0)), FieldSchema(n1, Some(r1))];
    ValidIffNoFailure(model, s);
    assert EntryOutcome(s[0], model) == FieldOutcome(r0, n0, model);
    assert EntryOutcome(s[1], model) == FieldOutcome(r1, n1, model);
  }

  /** A three-field schema is valid exactly when all three fields are. */
  lemma ThreeFieldsValidIff(model: Record, n0: string, r0: seq<Rule>, n1: string, r1: seq<Rule>, n2: string, r2: seq<Rule>)
    ensures ValidateSpec(model, [FieldSchema(n0, Some(r0)), FieldSchema(n1, Some(r1)), FieldSchema(n2, Some(r2))]).isValid <==>
      FieldOutcome(r0, n0, model) == Valid && FieldOutcome(r1, n1, model) == Valid && FieldOutcome(r2, n2, model) == Valid
  {
    var s := [FieldSchema(n0, Some(r0)), FieldSchema(n1, Some(r1)), FieldSchema(n2, Some(r2))];
    assert s[..2] == [FieldSchema(n0, Some(r0)), FieldSchema(n1, Some(r1))];
    TwoFieldsValidIff(model, n0, r0, n1, r1);
    assert ValidateSpec(model, s) == Step(ValidateSpec(model, s[..2]), s[2], model);
  }

  /** Reading a field through a missing object throws, and the field then counts as valid. */
  lemma ThrowingRuleLeavesFieldValid(outer: string, inner: string, hint: string)
    requires '.' !in outer && '.' !in inner
    ensures ValidateSpec(map[], [FieldSchema(outer + "." + inner, Some([Rule(Required, hint)]))])
            == ValidationResult(true, [], [])
  {
    DottedPath(map[], outer, inner);
    var schemas := [FieldSchema(outer + "." + inner, Some([Rule(Required, hint)]))];
    assert schemas[..0] == [];
  }

  /** MinLen on a missing field throws after Required passed on `undefined`: the field is valid. */
  lemma MinLenOnMissingFieldIsValid(name: string)
    requires '.' !in name
    ensures ValidateSpec(map[], [FieldSchema(name, Some([Rule(Required, "required"), Rule(MinLen(6), "short")]))])
            == ValidationResult(true, [], [])
  {
    var rules := [Rule(Required, "required"), Rule(MinLen(6), "short")];
    assert rules[1..] == [Rule(MinLen(6), "short")];
    assert ResolvePath(map[], name) == Some(Undefined);
    assert CheckRule(rules[0], name, map[]) == Pass;
    assert FieldOutcome(rules[1..], name, map[]) == Valid;
    var schemas := [FieldSchema(name, Some(rules))];
    assert schemas[..0] == [];
  }

  /** A field whose first rule fails is invalid with that rule's hint, whatever the later rules say. */
  lemma FirstRuleFails(rules: seq<Rule>, name: string, model: Record)
    requires |rules| > 0 && CheckRule(rules[0], name, model) == Fail
    ensures FieldOutcome(rules, name, model) == Invalid(rules[0].hint)
  {
  }

  /** Validating one entry is one step from the empty result. */
  lemma SingleSchema(model: Record, schema: FieldSchema)
    ensures ValidateSpec(model, [schema]) == Step(ValidationResult(true, [], []), schema, model)
  {
    assert [schema][..0] == [];
  }

  /** From the empty result, an invalid entry with a hint reports its name and that hint. */
  lemma FirstInvalidEntry(schema: FieldSchema, model: Record, hint: string)
    requires EntryOutcome(schema, model) == Invalid(hint) && hint != ""
    ensures Step(ValidationResult(true, [], []), schema, model) == ValidationResult(false, [schema.name], [hint])
  {
    ContainsIsMembership([], schema.name);
  }

  /** Rules stop at the first failure: only that rule's hint is reported. */
  lemma FirstFailureStops(model: Record, name: string)
    requires '.' !in name && Get(model, name) == Str("")
    ensures ValidateSpec(model, [FieldSchema(name, Some([Rule(Required, "needed"), Rule(Email, "bad e-mail")]))])
            == ValidationResult(false, [name], ["needed"])
  {
    var rules := [Rule(Required, "needed"), Rule(Email, "bad e-mail")];
    var schema := FieldSchema(name, Some(rules));
    RequiredFailsIff(Str(""));
    assert ResolvePath(model, name) == Some(Str(""));
    FirstRuleFails(rules, name, model);
    SingleSchema(model, schema);
    FirstInvalidEntry(schema, model, "needed");
  }

  /** A name listed twice is reported once, while each failing entry still adds its hint. */
  lemma RepeatedNameReportedOnce(model: Record, name: string)
    requires '.' !in name && Get(model, name) == Num(0)
    ensures ValidateSpec(model, [FieldSchema(name, Some([Rule(Required, "a")])), FieldSchema(name, Some([Rule(Required, "b")]))])
            == ValidationResult(false, [name], ["a", "b"])
  {
    var schemas := [FieldSchema(name, Some([Rule(Required, "a")])), FieldSchema(name, Some([Rule(Required, "b")]))];
    assert schemas[..1] == [schemas[0]];
    assert schemas[..1][..0] == [];
    RequiredFailsIff(Num(0));
    assert ValidateSpec(model, schemas[..1]) == ValidationResult(false, [name], ["a"]);
    ContainsIsMembership([name], name);
  }

  // ---- The rule combinations the site's schemas use ----

  lemma EmptyIsNotEmail()
    ensures !IsEmail("")
  {
    assert Lower("") == "";
  }

  /** A field with the single rule Required fails exactly on `0` and `''`. */
  lemma RequiredEntry(model: Record, name: string, v: Value, h: string)
    requires ResolvePath(model, name) == Some(v)
    ensures FieldOutcome([Rule(Required, h)], name, model) == if v == Num(0) || v == Str("") then Invalid(h) else Valid
  {
    RequiredFailsIff(v);
    assert [Rule(Required, h)][1..] == [];
  }

  /** Required then Email on a string: valid exactly for the strings the e-mail pattern accepts. */
  lemma RequiredEmailEntry(model: Record, name: string, e: string, h1: string, h2: string)
    requires ResolvePath(model, name) == Some(Str(e))
    ensures FieldOutcome([Rule(Required, h1), Rule(Email, h2)], name, model)
            == if IsEmail(e) then Valid else if e == "" then Invalid(h1) else Invalid(h2)
  {
    EmptyIsNotEmail();
    RequiredOnString(model, name, e, h1);
    EmailOnString(model, name, e, h2);
    TwoRules(Rule(Required, h1), Rule(Email, h2), name, model);
  }

  /** Required on a string field passes unless the string is empty, and never throws. */
  lemma RequiredOnString(model: Record, name: string, e: string, h: string)
    requires ResolvePath(model, name) == Some(Str(e))
    ensures CheckRule(Rule(Required, h), name, model) == if e == "" then Fail else Pass
  {
    RequiredFailsIff(Str(e));
    assert CheckRule(Rule(Required, h), name, model) == CheckRequired(Str(e));
  }

  /** Email on a string field passes exactly when the pattern accepts the string. */
  lemma EmailOnString(model: Record, name: string, e: string, h: string)
    requires ResolvePath(model, name) == Some(Str(e))
    ensures CheckRule(Rule(Email, h), name, model) == if IsEmail(e) then Pass else Fail
  {
  }

  /** Two rules: the first one's failure or exception decides, otherwise the second one's. */
  lemma TwoRules(r1: Rule, r2: Rule, name: string, model: Record)
    ensures FieldOutcome([r1, r2], name, model) ==
      match CheckRule(r1, name, model)
      case Fail => Invalid(r1.hint)
      case Thrown => Valid
      case Pass => match CheckRule(r2, name, model) case Pass => Valid case Thrown => Valid case Fail => Invalid(r2.hint)
  {
    assert [r1, r2][1..] == [r2] && [r2][1..] == [];
    assert FieldOutcome([], name, model) == Valid;
    assert FieldOutcome([r2], name, model) ==
      match CheckRule(r2, name, model) case Pass => Valid case Thrown => Valid case Fail => Invalid(r2.hint);
  }

  /** Required then MinLen on a string: valid exactly when the trimmed string is long enough. */
  lemma RequiredMinLenEntry(model: Record, name: string, p: string, len: int, h1: string, h2: string)
    requires ResolvePath(model, name) == Some(Str(p)) && len >= 1
    ensures FieldOutcome([Rule(Required, h1), Rule(MinLen(len), h2)], name, model)
            == if |Trim(p)| >= len then Valid else if p == "" then Invalid(h1) else Invalid(h2)
  {
    RequiredFailsIff(Str(p));
    var rules := [Rule(Required, h1), Rule(MinLen(len), h2)];
    assert rules[1..] == [Rule(MinLen(len), h2)] && rules[1..][1..] == [];
    var first := CheckRule(rules[0], name, model);
    var second := CheckRule(rules[1], name, model);
    assert first == CheckRequired(Str(p));
    assert first == Fail <==> p == "";
    assert first != Thrown;
    assert second == CheckMinLen(Str(p), len);
    assert FieldOutcome(rules[1..], name, model) == if second == Pass then Valid else Invalid(h2);
    if p == "" {
      assert Trim(p) == "";
    }
  }

  /** A value the Required rule accepts: anything but the number 0 and the empty string. */
  predicate Filled(v: Value) {
    v != Num(0) && v != Str("")
  }

  /** A schema giving each named field a single Required rule without a hint. */
  function RequiredSchema(names: seq<string>): (r: seq<FieldSchema>)
    ensures |r| == |names|
    ensures forall i :: 0 <= i < |names| ==> r[i] == FieldSchema(names[i], Some([Rule(Required, "")]))
  {
    seq(|names|, i requires 0 <= i < |names| => FieldSchema(names[i], Some([Rule(Required, "")])))
  }

  /** Such a schema accepts a record exactly when each field passes its Required rule. */
  lemma RequiredSchemaValidIff(model: Record, names: seq<string>)
    ensures ValidateSpec(model, RequiredSchema(names)).isValid <==>
      forall i :: 0 <= i < |names| ==> FieldOutcome([Rule(Required, "")], names[i], model) == Valid
  {
    var rules := seq(|names|, i => [Rule(Required, "")]);
    ValidIffFields(model, RequiredSchema(names), names, rules);
  }

  /** Over plain keys, such a schema accepts a record exactly when none of the fields is `0` or `''`. */
  lemma AllRequiredValidIff(model: Record, names: seq<string>)
    requires forall i :: 0 <= i < |names| ==> '.' !in names[i]
    ensures ValidateSpec(model, RequiredSchema(names)).isValid <==> forall i :: 0 <= i < |names| ==> Filled(Get(model, names[i]))
  {
    RequiredSchemaValidIff(model, names);
    forall i | 0 <= i < |names|
      ensures FieldOutcome([Rule(Required, "")], names[i], model) == Valid <==> Filled(Get(model, names[i]))
    {
      RequiredEntry(model, names[i], Get(model, names[i]), "");
    }
  }
}

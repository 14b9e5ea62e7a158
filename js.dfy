/** Optional values, standing for a JavaScript `undefined`/`null` or a present value. */
module Wrappers {
  datatype Option<+T> = None | Some(value: T)
}

/**
 * The JavaScript values the site's records are made of, and the few built-in
 * string operations the code relies on (`trim`, `toLowerCase`, `indexOf`,
 * `startsWith`, `isNaN`, string conversion, `===`).
 */
module Js {
  import opened Wrappers

  /** A JavaScript value as stored in a document or a form record. Numbers are integers. */
  datatype Value =
    | Undefined
    | Null
    | Bool(b: bool)
    | Num(n: int)
    | Str(s: string)
    | Arr(items: seq<Value>)
    | Obj(fields: map<string, Value>)

  /** A plain object: property name to value. */
  type Record = map<string, Value>

  /** `obj[key]` on a plain object: an absent property reads as `undefined`. */
  function Get(r: Record, key: string): Value {
    if key in r then r[key] else Undefined
  }

  /** JavaScript truthiness (`if (v)`, `v || d`, `!v`). */
  predicate Truthy(v: Value) {
    match v
    case Undefined => false
    case Null => false
    case Bool(b) => b
    case Num(n) => n != 0
    case Str(s) => s != ""
    case Arr(_) => true
    case Obj(_) => true
  }

  /** Truthiness of an optional string (`undefined` and `''` are falsy). */
  predicate Given(s: Option<string>) {
    s.Some? && s.value != ""
  }

  /** `s || d` for an optional string. */
  function OrElse(s: Option<string>, d: string): (r: string)
    ensures Given(s) ==> r == s.value
    ensures !Given(s) ==> r == d
  {
    if Given(s) then s.value else d
  }

  /** ECMAScript WhiteSpace and LineTerminator code points: what `trim` removes and `\s` matches. */
  predicate IsSpace(c: char) {
    || c == '\t' || c == '\n' || c == '\U{000B}' || c == '\U{000C}' || c == '\r' || c == ' '
    || c == '\U{00A0}' || c == '\U{1680}' || ('\U{2000}' <= c <= '\U{200A}')
    || c == '\U{2028}' || c == '\U{2029}' || c == '\U{202F}' || c == '\U{205F}'
    || c == '\U{3000}' || c == '\U{FEFF}'
  }

  function TrimStart(s: string): (r: string)
    ensures |r| <= |s| && r == s[|s| - |r|..]
    ensures r == "" || !IsSpace(r[0])
    ensures forall i :: 0 <= i < |s| - |r| ==> IsSpace(s[i])
  {
    if |s| > 0 && IsSpace(s[0]) then TrimStart(s[1..]) else s
  }

  function TrimEnd(s: string): (r: string)
    ensures |r| <= |s| && r == s[..|r|]
    ensures r == "" || !IsSpace(r[|r| - 1])
    ensures forall i :: |r| <= i < |s| ==> IsSpace(s[i])
  {
    if |s| > 0 && IsSpace(s[|s| - 1]) then TrimEnd(s[..|s| - 1]) else s
  }

  /** `String.prototype.trim`. */
  function Trim(s: string): (r: string)
    ensures |r| <= |s|
    ensures r == "" || (!IsSpace(r[0]) && !IsSpace(r[|r| - 1]))
  {
    TrimEnd(TrimStart(s))
  }

  /** `trim` gives the empty string exactly for strings made only of white space. */
  lemma TrimEmptyIff(s: string)
    ensures Trim(s) == "" <==> forall i :: 0 <= i < |s| ==> IsSpace(s[i])
  {
  }

  /** A string that neither starts nor ends with white space is its own trim. */
  lemma TrimUnchanged(s: string)
    requires s == "" || (!IsSpace(s[0]) && !IsSpace(s[|s| - 1]))
    ensures Trim(s) == s
  {
  }

  /** ASCII lower-casing of one character. */
  function LowerChar(c: char): char {
    if 'A' <= c <= 'Z' then (c as int + 32) as char else c
  }

  /** `toLowerCase`, on the ASCII letters. */
  function Lower(s: string): (r: string)
    ensures |r| == |s|
    ensures forall i :: 0 <= i < |s| ==> r[i] == LowerChar(s[i])
  {
    seq(|s|, i requires 0 <= i < |s| => LowerChar(s[i]))
  }

  predicate StartsWith(s: string, prefix: string) {
    |prefix| <= |s| && s[..|prefix|] == prefix
  }

  /** `s.indexOf(sub) !== -1`. */
  predicate Includes(s: string, sub: string)
    decreases |s|
  {
    StartsWith(s, sub) || (|s| > 0 && Includes(s[1..], sub))
  }

  predicate OccursAt(s: string, sub: string, i: int) {
    0 <= i <= |s| - |sub| && s[i..i + |sub|] == sub
  }

  /** `Includes` holds exactly when `sub` occurs at some position of `s`. */
  lemma {:induction false} IncludesIff(s: string, sub: string)
    ensures Includes(s, sub) <==> exists i :: OccursAt(s, sub, i)
  {
    if |s| > 0 {
      IncludesIff(s[1..], sub);
      if exists i :: OccursAt(s, sub, i) {
        var i :| OccursAt(s, sub, i);
        if i > 0 {
          assert s[1..][i - 1..i - 1 + |sub|] == s[i..i + |sub|];
          assert OccursAt(s[1..], sub, i - 1);
        }
      }
      if Includes(s[1..], sub) {
        var i :| OccursAt(s[1..], sub, i);
        assert s[1..][i..i + |sub|] == s[i + 1..i + 1 + |sub|];
        assert OccursAt(s, sub, i + 1);
      }
    } else {
      if exists i :: OccursAt(s, sub, i) {
        assert StartsWith(s, sub);
      }
    }
    if StartsWith(s, sub) {
      assert OccursAt(s, sub, 0);
    }
  }

  /** The admin lists' text filters: `!q || field.toLowerCase().indexOf(q.toLowerCase()) !== -1`. */
  predicate MatchesQuery(field: string, q: string) {
    q == "" || Includes(Lower(field), Lower(q))
  }

  /** The empty query matches every field, and a field always matches itself. */
  lemma MatchesQueryBasics(field: string)
    ensures MatchesQuery(field, "")
    ensures MatchesQuery(field, field)
  {
    assert StartsWith(Lower(field), Lower(field));
  }

  /** `a.join(sep)` over strings. */
  function Join(parts: seq<string>, sep: string): (r: string)
    ensures |parts| == 1 ==> r == parts[0]
  {
    if |parts| == 0 then ""
    else if |parts| == 1 then parts[0]
    else parts[0] + sep + Join(parts[1..], sep)
  }

  predicate IsDigit(c: char) { '0' <= c <= '9' }

  function DigitChar(d: nat): char
    requires d < 10
  {
    "0123456789"[d]
  }

  /** Decimal representation of a natural number. */
  function NatToString(n: nat): (r: string)
    ensures |r| > 0
    ensures forall i :: 0 <= i < |r| ==> IsDigit(r[i])
  {
    if n < 10 then [DigitChar(n)] else NatToString(n / 10) + [DigitChar(n % 10)]
  }

  /** The number a string of decimal digits denotes. */
  function DigitsValue(s: string): nat
    requires forall i :: 0 <= i < |s| ==> IsDigit(s[i])
  {
    if |s| == 0 then 0
    else
      assert IsDigit(s[|s| - 1]);
      DigitsValue(s[..|s| - 1]) * 10 + (s[|s| - 1] as int - '0' as int)
  }

  /**
   * The array index a property key names: a canonical decimal numeral such as
   * `"0"` or `"12"`, but not `"012"` or `""`.
   */
  function IndexKey(key: string): (r: Option<nat>)
    ensures r.Some? ==> |key| > 0 && forall i :: 0 <= i < |key| ==> IsDigit(key[i])
  {
    if |key| > 0 && (forall i :: 0 <= i < |key| ==> IsDigit(key[i])) && (key == "0" || key[0] != '0')
    then Some(DigitsValue(key))
    else None
  }

  lemma {:induction false} NatToStringLeading(n: nat)
    ensures n > 0 ==> NatToString(n)[0] != '0'
    ensures n == 0 ==> NatToString(n) == "0"
  {
    if n >= 10 {
      NatToStringLeading(n / 10);
    }
  }

  lemma {:induction false} DigitsValueOfNat(n: nat)
    ensures DigitsValue(NatToString(n)) == n
  {
    var r := NatToString(n);
    if n >= 10 {
      DigitsValueOfNat(n / 10);
      assert r[..|r| - 1] == NatToString(n / 10);
      assert r[|r| - 1] == DigitChar(n % 10);
    } else {
      assert r[..0] == [];
    }
  }

  /** Every natural number's decimal numeral is the index key of that number. */
  lemma IndexKeyOfNat(n: nat)
    ensures IndexKey(NatToString(n)) == Some(n)
  {
    NatToStringLeading(n);
    DigitsValueOfNat(n);
  }

  /** `String(n)` for an integer. */
  function IntToString(n: int): string {
    if n < 0 then "-" + NatToString(-n) else NatToString(n)
  }

  /** `String(v)`: the string a value converts to (a plain object gives "[object Object]"). */
  function ToJsString(v: Value): string
    decreases v, 1
  {
    match v
    case Undefined => "undefined"
    case Null => "null"
    case Bool(b) => if b then "true" else "false"
    case Num(n) => IntToString(n)
    case Str(s) => s
    case Arr(items) => Join(ElementStrings(items), ",")
    case Obj(_) => "[object Object]"
  }

  /** Array elements as `join` converts them: `undefined` and `null` become the empty string. */
  function ElementStrings(items: seq<Value>): (r: seq<string>)
    ensures |r| == |items|
    decreases items, 0
  {
    if |items| == 0 then []
    else
      [if items[0].Undefined? || items[0].Null? then "" else ToJsString(items[0])]
      + ElementStrings(items[1..])
  }

  // ---- JavaScript's StringToNumber grammar, to decide what `isNaN` says of a string ----

  predicate IsHexDigit(c: char) { IsDigit(c) || 'a' <= c <= 'f' || 'A' <= c <= 'F' }

  predicate AllChars(t: string, from: nat, p: char -> bool)
    requires from <= |t|
  {
    forall i :: from <= i < |t| ==> p(t[i])
  }

  /** `0x…`, `0o…` or `0b…` with at least one digit. */
  predicate IsNonDecimalInteger(t: string) {
    && |t| >= 3 && t[0] == '0'
    && (|| ((t[1] == 'x' || t[1] == 'X') && AllChars(t, 2, IsHexDigit))
        || ((t[1] == 'o' || t[1] == 'O') && AllChars(t, 2, c => '0' <= c <= '7'))
        || ((t[1] == 'b' || t[1] == 'B') && AllChars(t, 2, c => c == '0' || c == '1')))
  }

  /** Length of the run of decimal digits starting at `from`. */
  function DigitRun(t: string, from: nat): (n: nat)
    requires from <= |t|
    ensures from + n <= |t|
    ensures forall i :: from <= i < from + n ==> IsDigit(t[i])
    ensures from + n == |t| || !IsDigit(t[from + n])
    decreases |t| - from
  {
    if from < |t| && IsDigit(t[from]) then 1 + DigitRun(t, from + 1) else 0
  }

  /** Optional sign followed by at least one digit. */
  predicate IsSignedInteger(t: string) {
    var body := if |t| > 0 && (t[0] == '+' || t[0] == '-') then t[1..] else t;
    |body| > 0 && DigitRun(body, 0) == |body|
  }

  predicate IsExponentPartOrEmpty(t: string) {
    t == "" || (|t| >= 2 && (t[0] == 'e' || t[0] == 'E') && IsSignedInteger(t[1..]))
  }

  /** StrUnsignedDecimalLiteral: `Infinity`, or digits with an optional fraction and exponent. */
  predicate IsUnsignedDecimal(t: string) {
    if t == "Infinity" then true
    else
      var d1 := DigitRun(t, 0);
      if d1 < |t| && t[d1] == '.' then
        var d2 := DigitRun(t, d1 + 1);
        (d1 > 0 || d2 > 0) && IsExponentPartOrEmpty(t[d1 + 1 + d2..])
      else
        d1 > 0 && IsExponentPartOrEmpty(t[d1..])
  }

  predicate IsStrNumericLiteral(t: string) {
    || IsNonDecimalInteger(t)
    || (if |t| > 0 && (t[0] == '+' || t[0] == '-') then IsUnsignedDecimal(t[1..]) else IsUnsignedDecimal(t))
  }

  /** `!isNaN(s)` for a string `s`: white space around a numeric literal, or only white space. */
  predicate IsNumericString(s: string) {
    var t := Trim(s);
    t == "" || IsStrNumericLiteral(t)
  }

  /** `!isNaN(v)` for every value: numbers of this model are never NaN. */
  predicate IsNumericValue(v: Value) {
    match v
    case Undefined => false
    case Null => true
    case Bool(_) => true
    case Num(_) => true
    case Str(s) => IsNumericString(s)
    case Arr(_) => IsNumericString(ToJsString(v))
    case Obj(_) => false
  }

  /**
   * Strict equality `===`: value equality on primitives. Objects and arrays compare by
   * identity, which values do not carry: they are never equal here.
   */
  predicate StrictEquals(a: Value, b: Value): (r: bool)
    ensures r <==> a == b && !a.Obj? && !a.Arr?
  {
    match (a, b)
    case (Undefined, Undefined) => true
    case (Null, Null) => true
    case (Bool(x), Bool(y)) => x == y
    case (Num(x), Num(y)) => x == y
    case (Str(x), Str(y)) => x == y
    case _ => false
  }

  /** Lexicographic order on strings by code point, the order Firestore gives document keys. */
  predicate CodePointLess(a: string, b: string) {
    if |a| == 0 then |b| > 0
    else if |b| == 0 then false
    else if a[0] != b[0] then a[0] < b[0]
    else CodePointLess(a[1..], b[1..])
  }

  lemma {:induction false} CodePointLessTotal(a: string, b: string)
    ensures CodePointLess(a, b) || a == b || CodePointLess(b, a)
  {
    if |a| > 0 && |b| > 0 && a[0] == b[0] {
      CodePointLessTotal(a[1..], b[1..]);
      if a[1..] == b[1..] {
        assert a == [a[0]] + a[1..] && b == [b[0]] + b[1..];
      }
    }
  }

  lemma {:induction false} CodePointLessTransitive(a: string, b: string, c: string)
    requires CodePointLess(a, b) && CodePointLess(b, c)
    ensures CodePointLess(a, c)
  {
    if |a| > 0 && a[0] == b[0] && b[0] == c[0] {
      CodePointLessTransitive(a[1..], b[1..], c[1..]);
    }
  }

  lemma {:induction false} CodePointLessIrreflexive(a: string)
    ensures !CodePointLess(a, a)
  {
    if |a| > 0 {
      CodePointLessIrreflexive(a[1..]);
    }
  }

  /** The first UTF-16 code unit of a character: itself below U+10000, else its high surrogate. */
  function LeadUnit(c: char): int {
    if c as int < 0x1_0000 then c as int else 0xD800 + (c as int - 0x1_0000) / 0x400
  }

  /** The second UTF-16 code unit of a character above U+FFFF (its low surrogate); -1 for one unit. */
  function TrailUnit(c: char): int {
    if c as int < 0x1_0000 then -1 else 0xDC00 + (c as int - 0x1_0000) % 0x400
  }

  /**
   * A character's place in UTF-16 code-unit order, given as a character: those below U+D800 stay,
   * those above U+FFFF (whose high surrogates come next) move to U+E000 onwards, and U+E000-U+FFFF
   * move to the top.
   */
  function Utf16Rank(c: char): char {
    var n := c as int;
    if n < 0xD800 then c
    else if n >= 0x1_0000 then (n - 0x1_0000 + 0xE000) as char
    else (n - 0xE000 + 0x10_E000) as char
  }

  /** Ranks order distinct characters as their UTF-16 code units do, first unit first. */
  lemma Utf16RankOrder(c: char, d: char)
    requires c != d
    ensures Utf16Rank(c) != Utf16Rank(d)
    ensures Utf16Rank(c) < Utf16Rank(d) <==>
      LeadUnit(c) < LeadUnit(d) || (LeadUnit(c) == LeadUnit(d) && TrailUnit(c) < TrailUnit(d))
  {
  }

  function Ranked(s: string): (r: string)
    ensures |r| == |s| && forall i :: 0 <= i < |s| ==> r[i] == Utf16Rank(s[i])
  {
    seq(|s|, i requires 0 <= i < |s| => Utf16Rank(s[i]))
  }

  /**
   * JavaScript's `<` on strings: lexicographic on UTF-16 code units. A string of characters is
   * compared through the ranks of its characters, since the code units of a character never form
   * a prefix of another's.
   */
  predicate StrLess(a: string, b: string) {
    CodePointLess(Ranked(a), Ranked(b))
  }

  predicate StrLessEq(a: string, b: string) {
    StrLess(a, b) || a == b
  }

  lemma StrLessTotal(a: string, b: string)
    ensures StrLess(a, b) || a == b || StrLess(b, a)
  {
    CodePointLessTotal(Ranked(a), Ranked(b));
    if Ranked(a) == Ranked(b) {
      forall i | 0 <= i < |a|
        ensures a[i] == b[i]
      {
        if a[i] != b[i] {
          Utf16RankOrder(a[i], b[i]);
        }
      }
    }
  }

  lemma StrLessTransitive(a: string, b: string, c: string)
    requires StrLess(a, b) && StrLess(b, c)
    ensures StrLess(a, c)
  {
    CodePointLessTransitive(Ranked(a), Ranked(b), Ranked(c));
  }

  lemma StrLessIrreflexive(a: string)
    ensures !StrLess(a, a)
  {
    CodePointLessIrreflexive(Ranked(a));
  }

  /** Where code-point order and JavaScript's differ: U+FF01 sorts before U+1F600 by code point only. */
  lemma StrLessByCodeUnits()
    ensures CodePointLess("\U{FF01}", "\U{1F600}") && StrLess("\U{1F600}", "\U{FF01}")
  {
    assert Ranked("\U{1F600}")[0] < Ranked("\U{FF01}")[0];
  }
}

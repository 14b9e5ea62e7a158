/** Users: their validation schema, approval status, lookup by e-mail and approval change. */
module UserModel {
  import opened Wrappers
  import opened Js
  import opened Validation
  import opened Repository

  /** The status filter of the user list: `All`, `Approved`, `NotApproved`. */
  datatype ApprovalStatus = All | Approved | NotApproved

  /** `name` [Required]; `email` [Required, Email]; `password` [Required, MinLen 6]. */
  const UserSchema: seq<FieldSchema> := [
    FieldSchema("name", Some([Rule(Required, "")])),
    FieldSchema("email", Some([Rule(Required, ""), Rule(Email, "")])),
    FieldSchema("password", Some([Rule(Required, ""), Rule(MinLen(6), "")]))
  ]

  /** For string fields: a non-empty name, an address the e-mail pattern accepts and a password of six characters once trimmed. */
  lemma UserValidIff(user: Record, name: string, email: string, password: string)
    requires Get(user, "name") == Str(name) && Get(user, "email") == Str(email) && Get(user, "password") == Str(password)
    ensures ValidateSpec(user, UserSchema).isValid <==> name != "" && IsEmail(email) && |Trim(password)| >= 6
  {
    ThreeFieldsValidIff(user, "name", [Rule(Required, "")], "email", [Rule(Required, ""), Rule(Email, "")],
      "password", [Rule(Required, ""), Rule(MinLen(6), "")]);
    NameValidIff(user, name);
    EmailValidIff(user, email);
    PasswordValidIff(user, password);
  }

  lemma NameValidIff(user: Record, name: string)
    requires Get(user, "name") == Str(name)
    ensures FieldOutcome([Rule(Required, "")], "name", user) == Valid <==> name != ""
  {
    RequiredEntry(user, "name", Str(name), "");
  }

  lemma EmailValidIff(user: Record, email: string)
    requires Get(user, "email") == Str(email)
    ensures FieldOutcome([Rule(Required, ""), Rule(Email, "")], "email", user) == Valid <==> IsEmail(email)
  {
    RequiredEmailEntry(user, "email", email, "", "");
  }

  lemma PasswordValidIff(user: Record, password: string)
    requires Get(user, "password") == Str(password)
    ensures FieldOutcome([Rule(Required, ""), Rule(MinLen(6), "")], "password", user) == Valid <==> |Trim(password)| >= 6
  {
    RequiredMinLenEntry(user, "password", password, 6, "", "");
  }

  /**
   * `FindByEmail`: nothing for a missing or empty address; otherwise the data of the
   * first user, in key order, stored with exactly that `email`, without an id overlay.
   */
  function FindByEmail(users: Collection, email: Option<string>): (r: Option<Record>)
    reads users
    requires users.Valid()
    ensures !Given(email) ==> r.None?
    ensures r.Some? ==> Get(r.value, "email") == Str(email.value) && r.value in users.docs.Values
    ensures Given(email) && r.None? ==> forall k :: k in users.docs ==> Get(users.docs[k], "email") != Str(email.value)
    ensures r.Some? ==> exists i :: (0 <= i < |users.order| && users.order[i] in users.docs && users.docs[users.order[i]] == r.value
              && forall j :: 0 <= j < i ==> users.order[j] in users.docs && Get(users.docs[users.order[j]], "email") != Str(email.value))
  {
    if !Given(email) then None
    else users.FirstWhere("email", email.value)
  }

  /** When exactly one stored user has the address, that user is the one found. */
  lemma FindsTheOnlyMatch(users: Collection, email: string, key: string)
    requires users.Valid() && email != "" && key in users.docs
    requires forall k :: k in users.docs && Get(users.docs[k], "email") == Str(email) <==> k == key
    ensures FindByEmail(users, Some(email)) == Some(users.docs[key])
  {
  }

  /** `SetApprovalStatus`: merges `{ approved }` into the user's document. */
  method SetApprovalStatus(users: Collection, id: string, approved: bool)
    requires users.Valid() && id != ""
    modifies users
    ensures users.Valid() && users.docs == SetMerged(old(users.docs), id, map["approved" := Bool(approved)])
  {
    users.SetMerge(id, map["approved" := Bool(approved)]);
  }

  /** Changing the approval sets `approved` and keeps every other field and every other user. */
  lemma ApprovalChangeKeepsFields(docs: map<string, Record>, id: string, approved: bool)
    ensures var after := SetMerged(docs, id, map["approved" := Bool(approved)]);
      && after[id]["approved"] == Bool(approved)
      && (id in docs ==> forall f :: f in docs[id] && f != "approved" ==> after[id][f] == docs[id][f])
      && (forall k :: k in docs && k != id ==> after[k] == docs[k])
  {
  }
}

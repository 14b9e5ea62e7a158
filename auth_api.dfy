/**
 * Account admission: registering and signing in with e-mail, Google or
 * Facebook, against the authentication session and the users collection.
 */
module AuthApi {
  import opened Wrappers
  import opened Js
  import opened Repository
  import opened UserModel

  /** The identity the authentication service reports for the signed-in user. */
  datatype AuthUser = AuthUser(uid: string, displayName: Option<string>, email: Option<string>, photoUrl: Option<string>)

  /** How the authentication service answers a sign-in or sign-up: an error code, or the signed-in user. */
  datatype Attempt = Rejected(code: string) | Accepted(user: AuthUser)

  /** The authentication session: the signed-in user, if any. */
  class AuthSession {
    var current: Option<AuthUser>

    constructor ()
      ensures current.None?
    {
      current := None;
    }

    method SignOut()
      modifies this
      ensures current.None?
    {
      current := None;
    }
  }

  const EmailInUse := "auth/email-already-in-use"
  const NotApproved := "auth/user-not-approved"
  const JustCreated := "auth/user-just-created"

  /** The record `registerWithEmail` saves; the display name was just set to `name`. */
  function EmailUserRecord(u: AuthUser, name: string): (r: Record)
    ensures Get(r, "approved") == Bool(false) && Get(r, "provider") == Str("email")
    ensures Get(r, "name") == Str(name) && Get(r, "email") == Str(OrElse(u.email, ""))
    ensures "picture" !in r
  {
    map["name" := Str(name), "email" := Str(OrElse(u.email, "")), "uid" := Str(u.uid),
        "approved" := Bool(false), "provider" := Str("email")]
  }

  /** The record a Google or Facebook registration or first sign-in saves. */
  function ProviderUserRecord(u: AuthUser, provider: string): (r: Record)
    ensures Get(r, "approved") == Bool(false) && Get(r, "provider") == Str(provider)
    ensures Get(r, "name") == Str(OrElse(u.displayName, "")) && Get(r, "email") == Str(OrElse(u.email, ""))
    ensures Get(r, "picture") == Str(OrElse(u.photoUrl, ""))
  {
    map["name" := Str(OrElse(u.displayName, "")), "email" := Str(OrElse(u.email, "")), "uid" := Str(u.uid),
        "approved" := Bool(false), "picture" := Str(OrElse(u.photoUrl, "")), "provider" := Str(provider)]
  }

  /** `!user.approved` decides whether a stored user is let in. */
  predicate IsApproved(stored: Record): (r: bool)
    ensures Get(stored, "approved") == Bool(true) ==> r
    ensures Get(stored, "approved") in {Undefined, Null, Bool(false)} ==> !r
  {
    Truthy(Get(stored, "approved"))
  }

  /**
   * `registerWithEmail`: creates the account (which signs it in), saves the new
   * user as not approved, and signs out.
   */
  method RegisterWithEmail(session: AuthSession, users: Collection, name: string, attempt: Attempt, newId: string)
    returns (thrown: Option<string>)
    requires users.Valid() && newId != "" && newId !in users.docs
    modifies session, users
    ensures users.Valid()
    ensures attempt.Rejected? ==>
      (thrown == Some(attempt.code) && session.current == old(session.current) && users.docs == old(users.docs))
    ensures attempt.Accepted? ==>
      (thrown.None? && session.current.None? && users.docs == old(users.docs)[newId := EmailUserRecord(attempt.user, name)])
  {
    if attempt.Rejected? {
      return Some(attempt.code);
    }
    session.current := Some(attempt.user);
    var _ := users.Save(EmailUserRecord(attempt.user, name), newId);
    session.SignOut();
    return None;
  }

  /**
   * `registerWithGoogle` / `registerWithFacebook`: after the pop-up sign-in, an
   * address already stored is refused without signing out; otherwise the user is
   * saved as not approved and signed out.
   */
  method RegisterWithProvider(session: AuthSession, users: Collection, provider: string, attempt: Attempt, newId: string)
    returns (thrown: Option<string>)
    requires users.Valid() && newId != "" && newId !in users.docs
    modifies session, users
    ensures users.Valid()
    ensures attempt.Rejected? ==>
      (thrown == Some(attempt.code) && session.current == old(session.current) && users.docs == old(users.docs))
    ensures attempt.Accepted? && old(FindByEmail(users, attempt.user.email)).Some? ==>
      thrown == Some(EmailInUse) && session.current == Some(attempt.user) && users.docs == old(users.docs)
    ensures attempt.Accepted? && old(FindByEmail(users, attempt.user.email)).None? ==>
      thrown.None? && session.current.None?
      && users.docs == old(users.docs)[newId := ProviderUserRecord(attempt.user, provider)]
  {
    if attempt.Rejected? {
      return Some(attempt.code);
    }
    var u := attempt.user;
    session.current := Some(u);
    if FindByEmail(users, u.email).Some? {
      return Some(EmailInUse);
    }
    var _ := users.Save(ProviderUserRecord(u, provider), newId);
    session.SignOut();
    return None;
  }

  /**
   * `signInWithGoogle` / `signInWithFacebook`: a stored user not yet approved is
   * signed out and refused; an approved one stays signed in; an unknown address
   * is saved as not approved, signed out, and told the account was just created.
   */
  method SignInWithProvider(session: AuthSession, users: Collection, provider: string, attempt: Attempt, newId: string)
    returns (thrown: Option<string>)
    requires users.Valid() && newId != "" && newId !in users.docs
    modifies session, users
    ensures users.Valid()
    ensures attempt.Rejected? ==>
      (thrown == Some(attempt.code) && session.current == old(session.current) && users.docs == old(users.docs))
    ensures attempt.Accepted? ==> var found := old(FindByEmail(users, attempt.user.email));
      && (found.Some? && !IsApproved(found.value) ==>
            thrown == Some(NotApproved) && session.current.None? && users.docs == old(users.docs))
      && (found.Some? && IsApproved(found.value) ==>
            thrown.None? && session.current == Some(attempt.user) && users.docs == old(users.docs))
      && (found.None? ==>
            thrown == Some(JustCreated) && session.current.None?
            && users.docs == old(users.docs)[newId := ProviderUserRecord(attempt.user, provider)])
  {
    if attempt.Rejected? {
      return Some(attempt.code);
    }
    var u := attempt.user;
    session.current := Some(u);
    var found := FindByEmail(users, u.email);
    if found.Some? {
      if !IsApproved(found.value) {
        session.SignOut();
        return Some(NotApproved);
      }
      return None;
    }
    var _ := users.Save(ProviderUserRecord(u, provider), newId);
    session.SignOut();
    return Some(JustCreated);
  }

  /**
   * `signInWithEmail`: a stored user not yet approved is signed out and refused;
   * otherwise, stored or not, the user stays signed in and nothing is saved.
   */
  method SignInWithEmail(session: AuthSession, users: Collection, attempt: Attempt)
    returns (thrown: Option<string>)
    requires users.Valid()
    modifies session
    ensures attempt.Rejected? ==> thrown == Some(attempt.code) && session.current == old(session.current)
    ensures attempt.Accepted? ==> var found := FindByEmail(users, attempt.user.email);
      && (found.Some? && !IsApproved(found.value) ==> thrown == Some(NotApproved) && session.current.None?)
      && (found.None? || IsApproved(found.value) ==> thrown.None? && session.current == Some(attempt.user))
  {
    if attempt.Rejected? {
      return Some(attempt.code);
    }
    var u := attempt.user;
    session.current := Some(u);
    var found := FindByEmail(users, u.email);
    if found.Some? && !IsApproved(found.value) {
      session.SignOut();
      return Some(NotApproved);
    }
    return None;
  }

  datatype LoggedUser = LoggedUser(name: string, email: string)

  /** `getCurrUser`: nothing when signed out; otherwise the name and address, each defaulting to `''`. */
  function CurrUser(session: AuthSession): (r: Option<LoggedUser>)
    reads session
    ensures r.None? <==> session.current.None?
    ensures r.Some? ==>
      (r.value.name == OrElse(session.current.value.displayName, "") && r.value.email == OrElse(session.current.value.email, ""))
  {
    match session.current
    case None => None
    case Some(u) => Some(LoggedUser(OrElse(u.displayName, ""), OrElse(u.email, "")))
  }

  /**
   * Every record a registration or a first sign-in saves is not approved: once it
   * is the only user with that address, signing in with the address is refused.
   */
  lemma SavedUserIsPending(users: Collection, key: string, u: AuthUser, provider: string, name: string)
    requires users.Valid() && key in users.docs && Given(u.email)
    requires users.docs[key] == ProviderUserRecord(u, provider) || users.docs[key] == EmailUserRecord(u, name)
    requires forall k :: k in users.docs && Get(users.docs[k], "email") == Str(u.email.value) <==> k == key
    ensures FindByEmail(users, u.email) == Some(users.docs[key])
    ensures !IsApproved(users.docs[key])
  {
    FindsTheOnlyMatch(users, u.email.value, key);
  }
}

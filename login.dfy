/** The login form: its validation schema and how it reacts to the outcome of a sign-in. */
module Login {
  import opened Wrappers
  import opened Js
  import opened Validation
  import opened AuthApi

  /** `email` [Required, Email] and `password` [Required, MinLen 6]. */
  const LoginSchema: seq<FieldSchema> := [
    FieldSchema("email", Some([Rule(Required, ""), Rule(Email, "")])),
    FieldSchema("password", Some([Rule(Required, ""), Rule(MinLen(6), "")]))
  ]

  /** The form can be submitted exactly when the address matches the e-mail pattern and the trimmed password has six characters. */
  lemma LoginValidIff(form: Record, email: string, password: string)
    requires Get(form, "email") == Str(email) && Get(form, "password") == Str(password)
    ensures ValidateSpec(form, LoginSchema).isValid <==> IsEmail(email) && |Trim(password)| >= 6
  {
    TwoFieldsValidIff(form, "email", [Rule(Required, ""), Rule(Email, "")], "password", [Rule(Required, ""), Rule(MinLen(6), "")]);
    EmailValidIff(form, email);
    PasswordValidIff(form, password);
  }

  lemma EmailValidIff(form: Record, email: string)
    requires Get(form, "email") == Str(email)
    ensures FieldOutcome([Rule(Required, ""), Rule(Email, "")], "email", form) == Valid <==> IsEmail(email)
  {
    RequiredEmailEntry(form, "email", email, "", "");
  }

  lemma PasswordValidIff(form: Record, password: string)
    requires Get(form, "password") == Str(password)
    ensures FieldOutcome([Rule(Required, ""), Rule(MinLen(6), "")], "password", form) == Valid <==> |Trim(password)| >= 6
  {
    RequiredMinLenEntry(form, "password", password, 6, "", "");
  }

  /** What the form does, in order: call `login`, call the caller's `onCatch`, or set one of its state fields. */
  datatype FormEffect = CallLogin | CallOnCatch | SetError(message: string) | ShowSuccess | SetAlert(message: string)

  const GenericError := "Sorry, we couldn't log you in this time. Please, try again later!"

  /** The error text for a failure code, or `None` for the two codes that do not set it. */
  function ErrorMessage(code: string): (r: Option<string>)
    ensures r.None? <==> code == JustCreated || code == NotApproved
    ensures r == Some(GenericError) <==> code !in {EmailInUse, JustCreated, NotApproved, "auth/user-not-found",
      "auth/account-exists-with-different-credential", "auth/wrong-password"}
  {
    if code == EmailInUse then Some("E-mail already registered!")
    else if code == JustCreated then None
    else if code == "auth/user-not-found" then Some("You are not registered yet.")
    else if code == "auth/account-exists-with-different-credential" then Some("This e-mail is registered by another authentication method.")
    else if code == "auth/wrong-password" then Some("Wrong user and password combination.")
    else if code == NotApproved then None
    else Some(GenericError)
  }

  /** The `switch` on the failure code. */
  function Dispatch(code: string): (e: FormEffect)
    ensures e.SetError? <==> ErrorMessage(code).Some?
    ensures e.SetError? ==> e.message == ErrorMessage(code).value
  {
    if code == JustCreated then ShowSuccess
    else if code == NotApproved then SetAlert("Your user is pending approval.")
    else SetError(ErrorMessage(code).value)
  }

  /** `signInUser`: `login()` after a sign-in that did not throw; otherwise `onCatch` first, then the dispatch. */
  function SignInEffects(thrown: Option<string>): (effects: seq<FormEffect>)
    ensures CallLogin in effects <==> thrown.None?
    ensures thrown.Some? ==> effects == [CallOnCatch, Dispatch(thrown.value)]
  {
    match thrown
    case None => [CallLogin]
    case Some(code) => [CallOnCatch, Dispatch(code)]
  }

  /** The failure codes with their own message get four different messages, none of them the generic one. */
  lemma MessagesDistinct(c1: string, c2: string)
    requires c1 in [EmailInUse, "auth/user-not-found", "auth/account-exists-with-different-credential", "auth/wrong-password"]
    requires c2 in [EmailInUse, "auth/user-not-found", "auth/account-exists-with-different-credential", "auth/wrong-password"]
    ensures ErrorMessage(c1).Some? && ErrorMessage(c1).value != GenericError
    ensures c1 != c2 ==> ErrorMessage(c1) != ErrorMessage(c2)
  {
    MessageLength(c1);
    MessageLength(c2);
  }

  /** The five messages differ in length. */
  lemma MessageLength(c: string)
    requires c in [EmailInUse, "auth/user-not-found", "auth/account-exists-with-different-credential", "auth/wrong-password"]
    ensures ErrorMessage(c).Some? && |GenericError| == 65
    ensures |ErrorMessage(c).value| ==
      if c == EmailInUse then 26 else if c == "auth/user-not-found" then 27
      else if c == "auth/account-exists-with-different-credential" then 59 else 36
  {
  }

  /** Every other code, apart from the two that do not set the error, gets the generic message. */
  lemma OtherCodesGeneric(code: string)
    requires code !in [EmailInUse, JustCreated, "auth/user-not-found", "auth/account-exists-with-different-credential", "auth/wrong-password", NotApproved]
    ensures Dispatch(code) == SetError(GenericError)
  {
  }

  /** The login form's state. */
  class LoginForm {
    var error: string
    var alert: string
    var displaySuccess: bool
    var effects: seq<FormEffect>

    constructor ()
      ensures error == "" && alert == "" && !displaySuccess && effects == []
    {
      error := "";
      alert := "";
      displaySuccess := false;
      effects := [];
    }

    /** Reacts to the outcome of the sign-in call `exec`, given as the code it threw, if any. */
    method SignInUser(thrown: Option<string>)
      modifies this
      ensures effects == old(effects) + SignInEffects(thrown)
      ensures thrown.None? ==> error == old(error) && alert == old(alert) && displaySuccess == old(displaySuccess)
      ensures thrown.Some? ==> var e := Dispatch(thrown.value);
        && error == (if e.SetError? then e.message else old(error))
        && alert == (if e.SetAlert? then e.message else old(alert))
        && displaySuccess == (e.ShowSuccess? || old(displaySuccess))
    {
      if thrown.None? {
        effects := effects + [CallLogin];
        return;
      }
      effects := effects + [CallOnCatch];
      var e := Dispatch(thrown.value);
      match e {
        case SetError(message) => error := message;
        case SetAlert(message) => alert := message;
        case ShowSuccess => displaySuccess := true;
        case _ =>
      }
      effects := effects + [e];
    }
  }
}

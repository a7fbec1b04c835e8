/** The login screen: the form's required-field rules and the username
    lookup in the shared user list. The password is collected and checked
    for presence, but never compared with the stored one. */
module Login {
  import opened Accounts
  import Signup

  /** The two values the login form submits. */
  datatype LoginForm = LoginForm(username: string, password: string)

  /** What a login submission ends in. `Invalid` is the form refusing to
      submit; the other two are the exits of the submit handler (the
      navigation to the book list on success is not modelled). */
  datatype LoginOutcome = Invalid(errors: seq<FieldError>) | Authenticated | UnknownUsername

  /** The errors the login schema reports: both fields are required. */
  function LoginErrors(form: LoginForm): (errs: seq<FieldError>)
    ensures errs == [] <==> form.username != "" && form.password != ""
    ensures Required(Username) in errs <==> form.username == ""
    ensures Required(Password) in errs <==> form.password == ""
    ensures |errs| <= 2
  {
    RequiredError(Username, form.username) + RequiredError(Password, form.password)
  }

  /** The submit handler: succeed when some stored user has the username. */
  function HandleLogin(users: seq<User>, username: string, password: string): (r: LoginOutcome)
    ensures r == Authenticated || r == UnknownUsername
    ensures r == Authenticated <==> exists i :: 0 <= i < |users| && users[i].username == username
  {
    if HasUsername(users, username) then Authenticated else UnknownUsername
  }

  /** A press of the login button: the form validates first and calls the
      submit handler only when it has no errors. Reading the list is all it
      does with it. */
  function SubmitLogin(users: seq<User>, form: LoginForm): (r: LoginOutcome)
    ensures r.Invalid? <==> form.username == "" || form.password == ""
    ensures r == Authenticated <==>
      form.username != "" && form.password != ""
      && exists i :: 0 <= i < |users| && users[i].username == form.username
  {
    var errs := LoginErrors(form);
    if errs != [] then Invalid(errs) else HandleLogin(users, form.username, form.password)
  }

  /** Two submissions that differ only in a (present) password end the same way. */
  lemma LoginIgnoresPassword(users: seq<User>, username: string, p1: string, p2: string)
    requires p1 != "" && p2 != ""
    ensures SubmitLogin(users, LoginForm(username, p1)) == SubmitLogin(users, LoginForm(username, p2))
  {
  }

  /** A stored username logs in with any non-empty password, even one that
      differs from the password stored with it. */
  lemma LoginAcceptsWrongPassword(users: seq<User>, k: nat, password: string)
    requires k < |users| && users[k].username != ""
    requires password != "" && password != users[k].password
    ensures SubmitLogin(users, LoginForm(users[k].username, password)) == Authenticated
  {
  }

  /** After a registration of a username, logging in with it succeeds,
      whatever password is typed. */
  lemma {:induction false} SignupThenLogin(users: seq<User>, form: Signup.SignupForm, password: string)
    requires Signup.Signup(users, form).outcome == Signup.Registered
    requires password != ""
    ensures SubmitLogin(Signup.Signup(users, form).users, LoginForm(form.username, password)) == Authenticated
  {
    var after := Signup.Signup(users, form).users;
    assert after[|users|].username == form.username;
  }

  /** A registration never makes a login that succeeded before fail. */
  lemma {:induction false} SignupKeepsLogins(users: seq<User>, form: Signup.SignupForm, login: LoginForm)
    requires SubmitLogin(users, login) == Authenticated
    ensures SubmitLogin(Signup.Signup(users, form).users, login) == Authenticated
  {
    var after := Signup.Signup(users, form).users;
    var k :| 0 <= k < |users| && users[k].username == login.username;
    assert after[k] == users[k];
  }
}

/** The signup screen: the form's validation rules, the duplicate-username
    check, and the append to the shared user list. */
module Signup {
  import opened Accounts

  /** The three values the signup form submits. */
  datatype SignupForm = SignupForm(username: string, password: string, confirmPassword: string)

  /** What a signup submission ends in. `Invalid` is the form refusing to
      submit; `UsernameInUse` and `Registered` are the two exits of the
      submit handler (its alert texts and the navigation are not modelled). */
  datatype SignupOutcome = Invalid(errors: seq<FieldError>) | UsernameInUse | Registered

  /** The state a submission leaves behind: its outcome and the user list. */
  datatype SignupResult = SignupResult(outcome: SignupOutcome, users: seq<User>)

  /** The form is accepted exactly when all three fields are present and the
      confirmation equals the password. */
  predicate SignupFormValid(form: SignupForm) {
    form.username != "" && form.password != "" && form.confirmPassword != ""
    && form.confirmPassword == form.password
  }

  /** The errors the signup schema reports, in field order: each field is
      required, and a present confirmation must equal the password. */
  function SignupErrors(form: SignupForm): (errs: seq<FieldError>)
    ensures errs == [] <==> SignupFormValid(form)
    ensures Required(Username) in errs <==> form.username == ""
    ensures Required(Password) in errs <==> form.password == ""
    ensures Required(ConfirmPassword) in errs <==> form.confirmPassword == ""
    ensures PasswordsDiffer in errs <==> form.confirmPassword != "" && form.confirmPassword != form.password
    ensures forall i, j :: 0 <= i < j < |errs| ==> ErrorField(errs[i]) != ErrorField(errs[j])
  {
    RequiredError(Username, form.username)
    + RequiredError(Password, form.password)
    + (if form.confirmPassword == "" then [Required(ConfirmPassword)]
       else if form.confirmPassword != form.password then [PasswordsDiffer]
       else [])
  }

  /** The effect of one signup submission on the user list: rejected by the
      form, rejected as a duplicate, or appended at the end. */
  function Signup(users: seq<User>, form: SignupForm): SignupResult {
    var errs := SignupErrors(form);
    if errs != [] then SignupResult(Invalid(errs), users)
    else if HasUsername(users, form.username) then SignupResult(UsernameInUse, users)
    else SignupResult(Registered, users + [User(form.username, form.password)])
  }

  /** The shared, mutable user list (`usersData.users`). */
  class Registry {
    var users: seq<User>

    /** The list starts as whatever users.json holds. */
    constructor (seed: seq<User>)
      ensures users == seed
    {
      users := seed;
    }

    /** The submit handler: refuse a username already taken, otherwise push
        the new user onto the list. It runs only after the form validated. */
    method HandleSignup(form: SignupForm) returns (outcome: SignupOutcome)
      modifies this
      ensures outcome == UsernameInUse <==> HasUsername(old(users), form.username)
      ensures outcome == UsernameInUse || outcome == Registered
      ensures outcome == UsernameInUse ==> users == old(users)
      ensures outcome == Registered ==> users == old(users) + [User(form.username, form.password)]
      ensures SignupFormValid(form) ==> SignupResult(outcome, users) == Signup(old(users), form)
    {
      var userExists := HasUsername(users, form.username);
      if userExists {
        outcome := UsernameInUse;
        return;
      }
      users := users + [User(form.username, form.password)];
      outcome := Registered;
    }

    /** A press of the signup button: the form validates first and calls the
        submit handler only when it has no errors. */
    method Submit(form: SignupForm) returns (outcome: SignupOutcome)
      modifies this
      ensures SignupResult(outcome, users) == Signup(old(users), form)
      ensures DistinctUsernames(old(users)) ==> DistinctUsernames(users)
    {
      var errs := SignupErrors(form);
      if errs != [] {
        outcome := Invalid(errs);
        return;
      }
      outcome := HandleSignup(form);
      if DistinctUsernames(old(users)) {
        SignupKeepsDistinct(old(users), form);
      }
    }
  }

  /** A submission registers the user exactly when the form is valid and the
      username is not yet taken. */
  lemma SignupAcceptedIff(users: seq<User>, form: SignupForm)
    ensures Signup(users, form).outcome == Registered
            <==> SignupFormValid(form) && forall i :: 0 <= i < |users| ==> users[i].username != form.username
  {
  }

  /** An invalid form is refused with its errors, and the list is unchanged. */
  lemma SignupInvalidRejected(users: seq<User>, form: SignupForm)
    requires !SignupFormValid(form)
    ensures Signup(users, form) == SignupResult(Invalid(SignupErrors(form)), users)
    ensures Signup(users, form).outcome.errors != []
  {
  }

  /** A valid form naming a stored username is refused, and the list is unchanged. */
  lemma SignupDuplicateRejected(users: seq<User>, form: SignupForm, k: nat)
    requires SignupFormValid(form)
    requires k < |users| && users[k].username == form.username
    ensures Signup(users, form) == SignupResult(UsernameInUse, users)
  {
  }

  /** A registration adds exactly one entry, at the end, holding the submitted
      username and password; every earlier entry stays where it was. */
  lemma SignupAppends(users: seq<User>, form: SignupForm)
    requires Signup(users, form).outcome == Registered
    ensures |Signup(users, form).users| == |users| + 1
    ensures Signup(users, form).users[..|users|] == users
    ensures Signup(users, form).users[|users|] == User(form.username, form.password)
  {
  }

  /** Whatever the outcome, the old list is a prefix of the new one, and
      nothing but the submitted user can be added. */
  lemma SignupOnlyGrows(users: seq<User>, form: SignupForm)
    ensures users <= Signup(users, form).users
    ensures |Signup(users, form).users| <= |users| + 1
    ensures |Signup(users, form).users| == |users| + 1 ==> Signup(users, form).users[|users|].username == form.username
  {
  }

  /** Signup keeps the usernames of the list pairwise distinct. */
  lemma SignupKeepsDistinct(users: seq<User>, form: SignupForm)
    requires DistinctUsernames(users)
    ensures DistinctUsernames(Signup(users, form).users)
  {
    var r := Signup(users, form);
    if r.outcome == Registered {
      forall i, j | 0 <= i < j < |r.users|
        ensures r.users[i].username != r.users[j].username
      {
        if j == |users| {
          assert r.users[i] == users[i];
        }
      }
    }
  }

  /** Right after a registration, a valid submission with the same username
      (whatever its password) is refused as a duplicate. */
  lemma SignupTwiceRejected(users: seq<User>, form: SignupForm, form2: SignupForm)
    requires Signup(users, form).outcome == Registered
    requires SignupFormValid(form2) && form2.username == form.username
    ensures Signup(Signup(users, form).users, form2) == SignupResult(UsernameInUse, Signup(users, form).users)
  {
    var after := Signup(users, form).users;
    SignupAppends(users, form);
    SignupDuplicateRejected(after, form2, |users|);
  }
}

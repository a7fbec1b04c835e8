/** The user records shared by the signup and login screens, and the
    per-field form errors both screens report. */
module Accounts {

  /** One entry of the in-memory user list seeded from users.json. */
  datatype User = User(username: string, password: string)

  /** The fields of the signup and login forms. */
  datatype Field = Username | Password | ConfirmPassword

  /** The error a form field shows; at most one per field, and a missing
      value takes precedence over a confirmation that does not match. */
  datatype FieldError = Required(field: Field) | PasswordsDiffer

  /** The field an error is reported against. */
  function ErrorField(e: FieldError): Field {
    match e
    case Required(f) => f
    case PasswordsDiffer => ConfirmPassword
  }

  /** The "required" rule of a string field: the empty string is missing,
      any other string (whitespace included) is present. */
  function RequiredError(f: Field, value: string): (errs: seq<FieldError>)
    ensures |errs| <= 1
    ensures errs == [] <==> value != ""
    ensures forall i :: 0 <= i < |errs| ==> errs[i] == Required(f)
  {
    if value == "" then [Required(f)] else []
  }

  /** Some stored user carries `name`: the `users.some(user => user.username === name)`
      test both screens run, walked from the front of the list. */
  function HasUsername(users: seq<User>, name: string): (b: bool)
    ensures b <==> exists i :: 0 <= i < |users| && users[i].username == name
  {
    if users == [] then false
    else users[0].username == name || HasUsername(users[1..], name)
  }

  /** No two entries of the list share a username. */
  predicate DistinctUsernames(users: seq<User>) {
    forall i, j :: 0 <= i < j < |users| ==> users[i].username != users[j].username
  }
}

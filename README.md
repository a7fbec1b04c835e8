# Bookify: accounts and book loans, in Dafny

Bookify is a small React Native app. Users create an account, log in, browse a catalogue and borrow or return a book. Three pieces of its behaviour are more than UI, and this project models them:

- **The user registry** (`Accounts.dfy`, `Signup.dfy`, `Login.dfy`). The signup and login screens share one in-memory list of `{username, password}` records, seeded from `users.json`.
  - Signup validates the form. Every field is required, and the confirmation must equal the password.
  - It then refuses a username that is already taken. Otherwise it pushes the new user onto the list.
  - The list is the class `Signup.Registry`. Its methods are `HandleSignup` (the submit handler) and `Submit` (validation followed by the handler). `Submit` is proved equal to the pure function `Signup.Signup`. `HandleSignup` states its two exits directly, and on a valid form it too is proved equal to `Signup.Signup`. The properties are proved as lemmas about that function.
  - Login validates that both fields are present. It succeeds exactly when some stored user has the given username. The password is never compared. Login only reads the list, so it is written as pure functions over the list's contents.
- **The loan state of one book** (`BookDetails.dfy`, class `BookDetails.BookView`). The details screen holds three local fields: `isAvailable`, `returnDate` and `duration`, the text typed as the loan length. The model keeps the first two as fields and turns `duration` into a parameter of `Borrow`.
  - Borrow sets the book unavailable and puts the return date `duration` days after now.
  - Return sets the book available and leaves the return date as it was.
  - The screen offers each button only in the matching state. These are the methods' preconditions.
- **The remaining-time split** (`BookDetails.RemainingTime`). The time from now to the return date is split into floored days, then hours within the day, then minutes within the hour.

Instants are whole milliseconds since the epoch. A day is 86 400 000 ms. Dafny's `/` by a positive constant is floor division, which is what `Math.floor` gives on the source's quotients.

In `src/screens/BookDetailsScreen.tsx:16-18`, return leaves `returnDate` untouched, and the model follows that.

## Model

| member | source | states |
|---|---|---|
| Accounts.HasUsername | src/screens/SignupScreen.tsx:32-34 | the `some` test over the user list holds exactly when some stored entry has the given username |
| Accounts.RequiredError | src/screens/LoginScreen.tsx:14-15 | a required string field reports one `Required` error exactly when it is empty, and none otherwise |
| Signup.SignupErrors | src/screens/SignupScreen.tsx:21-27 | no errors exactly when all three fields are non-empty and the confirmation equals the password; each field's error appears exactly under its rule; at most one error per field |
| Signup.Registry.constructor | src/screens/SignupScreen.tsx:7 | the registry starts as the seed list, whatever it holds |
| Signup.Registry.HandleSignup | src/screens/SignupScreen.tsx:30-51 | a taken username is refused and the list is unchanged; otherwise the list becomes the old list plus the submitted user at the end; on a valid form the outcome and list are those of `Signup.Signup` |
| Signup.Registry.Submit | src/screens/SignupScreen.tsx:21-51 | the outcome and new list are those of `Signup.Signup` on the old list; distinct usernames stay distinct |
| Signup.SignupAcceptedIff | src/screens/SignupScreen.tsx:21-45 | registration happens if and only if the form is valid and no stored user has the username |
| Signup.SignupInvalidRejected | src/screens/SignupScreen.tsx:21-27 | an invalid form is refused with its non-empty error list, and the registry is unchanged |
| Signup.SignupDuplicateRejected | src/screens/SignupScreen.tsx:32-38 | a valid form naming a stored username is refused as in use, and the registry is unchanged |
| Signup.SignupAppends | src/screens/SignupScreen.tsx:41-45 | a registration grows the list by exactly one entry, at the end, holding the submitted username and password; earlier entries keep their values and order |
| Signup.SignupOnlyGrows | src/screens/SignupScreen.tsx:32-45 | whatever the outcome, the old list is a prefix of the new one, which is at most one longer and can only gain the submitted username |
| Signup.SignupKeepsDistinct | src/screens/SignupScreen.tsx:32-45 | pairwise distinct usernames stay pairwise distinct after a signup |
| Signup.SignupTwiceRejected | src/screens/SignupScreen.tsx:32-45 | right after a successful signup, any valid signup with the same username is refused as in use and changes nothing |
| Login.LoginErrors | src/screens/LoginScreen.tsx:13-16 | no errors exactly when username and password are both non-empty; each empty field reports `Required` |
| Login.HandleLogin | src/screens/LoginScreen.tsx:19-29 | authenticated exactly when some stored user has the username; otherwise unknown username |
| Login.SubmitLogin | src/screens/LoginScreen.tsx:13-29 | refused by the form exactly when a field is empty; authenticated exactly when both are present and some stored user has the username |
| Login.LoginIgnoresPassword | src/screens/LoginScreen.tsx:19-22 | two logins that differ only in a non-empty password end the same way |
| Login.LoginAcceptsWrongPassword | src/screens/LoginScreen.tsx:19-24 | a stored username logs in even with a password different from the stored one |
| Login.SignupThenLogin | src/screens/LoginScreen.tsx:20-24 | after a successful signup of a username, logging in with it succeeds with any non-empty password |
| Login.SignupKeepsLogins | src/screens/SignupScreen.tsx:45 | a signup never makes a previously successful login fail |
| BookDetails.BookView.constructor | src/screens/BookDetailsScreen.tsx:6-8 | the book starts available exactly when its record is not borrowed; the return date is the record's, or the opening instant when the record has none; the record is kept as given |
| BookDetails.BookView.Borrow | src/screens/BookDetailsScreen.tsx:11-14 | offered only while available; leaves the book unavailable with return date `now + d` days, and, measured at the lending instant itself, exactly `d` days, 0 hours, 0 minutes remaining |
| BookDetails.BookView.Return | src/screens/BookDetailsScreen.tsx:16-18 | offered only while borrowed; leaves the book available with the return date unchanged |
| BookDetails.RemainingTime | src/screens/BookDetailsScreen.tsx:20-27 | hours lie in [0, 23] and minutes in [0, 59], for overdue books too; days, hours and minutes add up to the floor of the difference in minutes; days is the floor of the difference in days |
| BookDetails.RemainingTimeUnique | src/screens/BookDetailsScreen.tsx:22-25 | any split with hours in [0, 23] and minutes in [0, 59] that adds up to the floored minutes is the one computed |
| BookDetails.RemainingAtReturnDate | src/screens/BookDetailsScreen.tsx:20-27 | at the return instant the time left is 0 days, 0 hours, 0 minutes |
| BookDetails.BorrowedForDays | src/screens/BookDetailsScreen.tsx:13 | at the lending instant itself, a loan of `d` days has exactly `d` days, 0 hours and 0 minutes left |
| BookDetails.FirstRenderAfterBorrow | src/screens/BookDetailsScreen.tsx:13-27 | the remaining time reads the clock again, so at any instant within the first minute after lending for `d` days it shows `d - 1` days, 23 hours, 59 minutes |
| BookDetails.RemainingTimeMonotonic | src/screens/BookDetailsScreen.tsx:20-25 | as now advances, neither the total minutes left nor the days left grow |
| BookDetails.LoanScenario | src/screens/BookDetailsScreen.tsx:11-25 | lent on 2024-01-01T00:00Z for 3 days, at 2024-01-02T12:00Z the time left is 1 day, 12 hours, 0 minutes |

## Left out

- Rendering, styling, icons and list views are pure UI.
- Navigation, alerts and `resetForm` calls into React Navigation, React Native and Formik are not modelled. They survive only as the outcome values `Invalid`, `UsernameInUse`, `Registered`, `Authenticated` and `UnknownUsername`.
- The Formik and Yup libraries are not modelled. Each schema is a plain function from the form's strings to its field errors. Formik shows the first error per field, so a missing confirmation is reported as `Required`, not as a mismatch.
- Loading `users.json` is not modelled. The registry starts from an arbitrary seed list, which may itself hold duplicate usernames.
- The arithmetic of the moment library is not modelled.
  - The source computes with floating-point durations (`asDays`, `asHours`, `asMinutes`). The model uses exact integer milliseconds.
  - The model adds days as 24-hour spans, so daylight-saving shifts in local time are not captured.
  - Date formatting and the Portuguese display string are not modelled. The model returns the (days, hours, minutes) triple.
- BookDetails.BookView.Borrow takes the duration as an already-parsed integer, so the raw string from the text field is not modelled. An empty field counts as 0 days in the source, and moment rounds fractional days.
- BookDetails.BookView.Borrow and BookDetails.BookView.Return take the screen's button gating as preconditions. The handlers themselves have no guard, so a second press before the screen re-renders would run the same handler again; that double press is not modelled.
- The clock is a parameter. `now` is passed to the constructor and to `Borrow`.
- Remote persistence and live updates are not part of this model. Neither appears in the modelled screens.
- The search screen, the welcome screen and the navigator in `App.tsx` are not part of this model. They only seed a fixed list, log and navigate.

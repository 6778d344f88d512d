# University admissions portal: the scoring, screening, quota and account logic

This project models the parts of a Next.js admissions portal that compute
something, and proves properties of them in Dafny:

- **Score calculator** (`applicant/scores/page.tsx`):
  - the grade table A1 80 … F9 0;
  - the form schema (score range, required and optional subjects, the three uploads);
  - the best-five SSCE selection;
  - the composite `jamb·75/400 + best5·25/400 + bonus`, rounded to hundredths;
  - the query string handed to the eligibility page.
- **Eligibility page** (`applicant/eligibility/page.tsx`):
  - the credit grades and the department requirement table;
  - the screening verdict read from the query;
  - the display name derived from a department key.
- **Supplementary options** (`applicant/supplementary/page.tsx`):
  - the scan of every other department, in table order;
  - the Apply button;
  - `handleApply`, which rewrites the `department` parameter of a copy of the query.
- **Quota management** (`dashboard/quotas/page.tsx`):
  - the 45 % / 35 % / 20 % split (floor, floor, ceiling);
  - the page state (`departmentData`, `editingId`, `currentValue`) and its Edit, change and Save handlers.
- **User store** (`lib/user-db.ts`):
  - case-insensitive search by id, and by id or e-mail;
  - the duplicate-refusing append;
  - the exact password check;
  - the seeding of an empty store.
- **Account pages** (sign-up, log-in, forgot-password):
  - the password regular expression and the sign-up guard chain;
  - the outcome of a credential log-in;
  - the two reset paths.

Layout, one module per file:

| file | module | what it holds |
|---|---|---|
| `strings.dfy` | `Strings` | ASCII case mapping; decimal text; models of `Number` and `parseInt(_, 10)`; `split` and `join` |
| `search_params.dfy` | `SearchParams` | `URLSearchParams` as an ordered list of pairs; the class `Params` whose `Set` rewrites it in place |
| `scores.dfy` | `Scores` | the score calculator |
| `eligibility.dfy` | `Eligibility` | the eligibility page |
| `supplementary.dfy` | `Supplementary` | the supplementary options |
| `quotas.dfy` | `Quotas` | the quota page; its state is the class `QuotaBoard` |
| `user_db.dfy` | `UserDb` | the store; the class `UserDB` holds a `seq<User>` |
| `signup.dfy` | `SignUp` | the sign-up page |
| `login.dfy` | `Login` | the log-in page |
| `forgot_password.dfy` | `ForgotPassword` | the forgot-password page |

Where the code changes state, the model is imperative:

- the quota page is a class whose methods reassign its fields;
- the store is a class whose `AddUser` appends to its list;
- the searches of the store are `while` loops that stop at the first match;
- `URLSearchParams.set` is a loop over the pairs;
- the `reduce` that builds the forwarded query is a loop over the entries.

Each of these is proved against a specification function, and the properties are proved about that function.

What the proofs bring out about the code:

- **Nobody is ever eligible with the tables as shipped.**
  - The eligibility page counts credits only among a department's required subjects.
  - Every department in both tables lists four of them.
  - The threshold is five credits.
  - So the verdict and every supplementary row are "not eligible", and no Apply button is ever enabled (`Eligibility.NobodyEligible`, `Supplementary.NoRowEligible`).
- **The composite reaches 105, not 100.** With the physically-challenged bonus the composite lies in [5, 105]; without it, in [0, 100]. A bound of 100 for every applicant does not hold for the code as written.
- **A new account's own id can be shadowed at log-in.** Log-in searches by id *or* e-mail and takes the first match. An older account of the same role whose e-mail equals the new id therefore wins:
  - `Login.SignUpShadowedByEmail` exhibits such a store;
  - `Login.SignUpThenLogIn` proves log-in works whenever no such account exists.
- **The seeded passwords could not have been chosen on the sign-up page.** Both contain '!', which the password expression refuses.
- **`addUser` never fails after sign-up's own existence check.** Its failure branch (`Sign-up failed`) cannot be reached (`SignUp.GuardOrder`).

## Model

| member | source | states |
|---|---|---|
| `Strings.LowerIdempotent` | download/src/lib/user-db.ts:55 | lower-casing twice is lower-casing once, so the case-insensitive comparisons do not depend on whether a key was already lower-cased |
| `Strings.NumberOf` | download/src/app/applicant/eligibility/page.tsx:31 | `Number` of a missing parameter (null) and of "" is 0 |
| `Strings.NumberOfIntToString` | download/src/app/applicant/eligibility/page.tsx:31 | `Number(String(i)) == i` for the model's integers (in JavaScript, below 2^53): a score stringified into the query reads back unchanged |
| `Strings.ParseIntNoDigit` | download/src/app/dashboard/quotas/page.tsx:117 | `parseInt` is NaN exactly for text that does not go on, after white space and an optional sign, with a digit |
| `Strings.ParseIntIntToString` | download/src/app/dashboard/quotas/page.tsx:117 | `parseInt(String(i), 10) == i` for the model's integers (in JavaScript, below 2^53) |
| `Strings.JoinSplit` | download/src/app/applicant/eligibility/page.tsx:36 | joining the parts of a split with the same separator gives back the string, and no part contains the separator |
| `SearchParams.Get` | download/src/app/applicant/eligibility/page.tsx:30 | `get` is null exactly when no pair has the name; otherwise it is the value of the first pair with that name |
| `SearchParams.SetParamGet` | download/src/app/applicant/supplementary/page.tsx:34 | after `set(name, value)`, `get(name)` is `value` and exactly one pair carries the name |
| `SearchParams.SetParamKeepsOthers` | download/src/app/applicant/supplementary/page.tsx:34 | `set` changes no other parameter: `get` of every other name is unchanged, and so are the other pairs and their order |
| `SearchParams.Params.constructor` | download/src/app/applicant/supplementary/page.tsx:33 | the copy of the query holds the same pairs |
| `SearchParams.Params.Set` | download/src/app/applicant/supplementary/page.tsx:34 | the in-place `set` loop leaves exactly the pairs of the specification `SetParam`: first pair replaced, later ones dropped, appended when absent |
| `Scores.PointsTable` | download/src/app/applicant/scores/page.tsx:25-27 | A1 80, B2 72, B3 64, C4 56, C5 48, C6 40, D7 32, E8 24, F9 0; strictly falling in table order; every grade is in the table; never above 80 |
| `Scores.ParseGrade` | download/src/app/applicant/scores/page.tsx:28 | a text is read as a grade exactly when it is one of the nine keys, and then as the grade with that key |
| `Scores.SubjectsComplete` | download/src/app/applicant/scores/page.tsx:30-33 | the subject list holds each of the nine subjects exactly once |
| `Scores.HeaderIssues` | download/src/app/applicant/scores/page.tsx:36-59 | the non-subject fields reported are exactly those that fail: score outside [0, 400], empty department, and each upload that is not one file of at most 5 MB of an accepted type |
| `Scores.SubjectIssues` | download/src/app/applicant/scores/page.tsx:61-69 | a subject is reported exactly when its grade is not one of the keys, or it is one of the five required subjects and left empty |
| `Scores.IssuesExact` | download/src/app/applicant/scores/page.tsx:35-70 | the issues listed are exactly the failing fields |
| `Scores.NothingFails` | download/src/app/applicant/scores/page.tsx:61-69 | a form with no failing field has every grade readable and the five required subjects graded |
| `Scores.Validate` | download/src/app/applicant/scores/page.tsx:35-70 | accepted iff no field fails, with every value carried over and each grade text read as its grade; otherwise rejected with a non-empty list of exactly the failing fields |
| `Scores.ReadGrades` | download/src/app/applicant/scores/page.tsx:61-69 | the grades read keep the same subjects and each has the text that was entered |
| `Scores.Insert` | download/src/app/applicant/scores/page.tsx:101 | inserting into a list sorted largest first keeps it sorted and adds exactly the one value |
| `Scores.SortDesc` | download/src/app/applicant/scores/page.tsx:101 | `sort((a, b) => b - a)` returns a permutation of its input, sorted largest first |
| `Scores.PrefixIsLargest` | download/src/app/applicant/scores/page.tsx:101-104 | no choice of at most k values from a descending list sums to more than its first k |
| `Scores.Best5IsLargest` | download/src/app/applicant/scores/page.tsx:97-104 | the academic total is at least the sum of any choice of at most five of the points given; the best five are drawn from the points given and number min(5, n) |
| `Scores.Best5OrderIndependent` | download/src/app/applicant/scores/page.tsx:97-104 | the academic total depends only on the multiset of points, not on subject order |
| `Scores.Best5Raise` | download/src/app/applicant/scores/page.tsx:97-104 | raising one point value, the others fixed, never lowers the total |
| `Scores.GradesGivenUpdate` | download/src/app/applicant/scores/page.tsx:97-99 | changing the grade of a graded subject changes exactly one entry of the filtered grade list |
| `Scores.RaiseGradeNeverLowers` | download/src/app/applicant/scores/page.tsx:97-104 | raising one subject's grade, the others fixed, never lowers the academic total of the form |
| `Scores.Best5TotalBound` | download/src/app/applicant/scores/page.tsx:103-104 | with every point at most 80, the total is at most 80 per subject taken, hence at most 400 |
| `Scores.AcademicTotalBound` | download/src/app/applicant/scores/page.tsx:97-107 | the academic total of any form lies in [0, 400] |
| `Scores.CompositeInSixteenths` | download/src/app/applicant/scores/page.tsx:106-110 | the composite equals (3·jamb + academic)/16 plus the bonus, and does not decrease as jamb or academic grows |
| `Scores.CompositeBounds` | download/src/app/applicant/scores/page.tsx:106-110 | for jamb and academic in [0, 400] the composite lies in [0, 100] without the bonus and in [5, 105] with it |
| `Scores.RoundHundredths` | download/src/app/applicant/scores/page.tsx:114 | rounding to hundredths moves the value by at most half a hundredth |
| `Scores.RoundMonotone` | download/src/app/applicant/scores/page.tsx:114 | rounding to hundredths preserves order |
| `Scores.TotalScoreBounds` | download/src/app/applicant/scores/page.tsx:106-115 | the displayed total of an accepted form is within half a hundredth of the exact composite and stays in [0, 100], or [5, 105] with the bonus |
| `Scores.BuildQuery` | download/src/app/applicant/scores/page.tsx:122-127 | the accumulator loop of the `reduce` yields exactly the entries that are not uploads and not falsy, stringified, in order |
| `Scores.GetForwarded` | download/src/app/applicant/scores/page.tsx:121-128 | with distinct keys, a parameter of the forwarded query is absent for an upload or a falsy value, and otherwise is the `String` of the value |
| `Scores.ForwardedQueryFields` | download/src/app/applicant/scores/page.tsx:121-128 | the forwarded query carries: the score unless it is 0; the department unless it is empty; the bonus flag only when set, as "true" |
| `Scores.ForwardedQueryNoUploads` | download/src/app/applicant/scores/page.tsx:123 | none of the three uploads is forwarded |
| `Scores.ForwardedQueryGrade` | download/src/app/applicant/scores/page.tsx:121-128 | each graded subject is forwarded as its grade key; an ungraded subject is absent |
| `Eligibility.CreditGradesExact` | download/src/app/applicant/eligibility/page.tsx:19 | the credit grades are exactly the grades worth 40 points or more (A1 to C6), and every credit text is a grade key |
| `Eligibility.Lookup` | download/src/app/applicant/eligibility/page.tsx:33 | a table lookup is undefined exactly when no entry has the key |
| `Eligibility.RequiredSubjectsAt` | download/src/app/applicant/eligibility/page.tsx:21-26 | each department of the table is found under its own key, with its own subjects |
| `Eligibility.CreditCount` | download/src/app/applicant/eligibility/page.tsx:33-41 | the credit count never exceeds the number of required subjects |
| `Eligibility.Evaluate` | download/src/app/applicant/eligibility/page.tsx:29-46 | no verdict iff the department parameter is missing or empty; otherwise the verdict has that department, its display name `DeptName` (characterised by `DeptNameIsTitled`), the school from the requirement table (none for an unknown key), its required subjects, and the credit count over those subjects; it has the score read by `Number` and the 180 test; eligible iff the score is at least 180 and there are at least five credits |
| `Eligibility.CreditCountReadsRequiredOnly` | download/src/app/applicant/eligibility/page.tsx:33-41 | two queries that agree on the required subjects give the same credit count |
| `Eligibility.OtherSubjectNeverCounts` | download/src/app/applicant/eligibility/page.tsx:34-41 | setting a subject the department does not require, to any grade, leaves the credit count unchanged |
| `Eligibility.FourSubjectsEach` | download/src/app/applicant/eligibility/page.tsx:21-26 | every department of the table requires exactly four subjects |
| `Eligibility.NobodyEligible` | download/src/app/applicant/eligibility/page.tsx:21-44 | every verdict has at most four credits and is not eligible |
| `Eligibility.UnknownDepartment` | download/src/app/applicant/eligibility/page.tsx:33-44 | a non-empty department outside the table gets a verdict with no school, no credit, not eligible |
| `Eligibility.MissingJambFails` | download/src/app/applicant/eligibility/page.tsx:31-40 | a missing score reads as 0 and fails the threshold |
| `Eligibility.CreditCountOfForwarded` | download/src/app/applicant/eligibility/page.tsx:34-41 | on the query the score page forwards, the credit count is the number of listed subjects graded 40 points or more |
| `Eligibility.ScreensSubmittedForm` | download/src/app/applicant/eligibility/page.tsx:29-44 | for an accepted transcript, the page screens the department entered; it reads back the score entered (0 included), applies the 180 test to it, and counts the required subjects graded 40 points or more |
| `Eligibility.DeptNameIsTitled` | download/src/app/applicant/eligibility/page.tsx:36 | the display name equals the reference reading of the key up to its last '-' |
| `Eligibility.DeptNameReadsKey` | download/src/app/applicant/eligibility/page.tsx:36 | a key without '-' (so "" too) has an empty name; otherwise the name has the length of the key up to its last '-', with each '-' a space and the first letter of each word upper-cased, all else unchanged |
| `Supplementary.Except` | download/src/app/applicant/supplementary/page.tsx:57-58 | the keys kept are exactly those different from the omitted one |
| `Supplementary.RowFor` | download/src/app/applicant/supplementary/page.tsx:60-65 | a row's credit count never exceeds its number of subjects |
| `Supplementary.RowsOf` | download/src/app/applicant/supplementary/page.tsx:57-65 | every row shown is the row computed for some department of the table |
| `Supplementary.RowKeysOf` | download/src/app/applicant/supplementary/page.tsx:57-58 | the rows are the table's departments other than the original one, in table order |
| `Supplementary.RowsAreOtherDepartments` | download/src/app/applicant/supplementary/page.tsx:57-58 | the page's rows are every department except the one first chosen, in table order |
| `Supplementary.AbsentOriginalListsAll` | download/src/app/applicant/supplementary/page.tsx:30-58 | with no department, or one outside the table, all six departments are listed |
| `Supplementary.KnownOriginalOmitted` | download/src/app/applicant/supplementary/page.tsx:57-58 | with a department of the table first chosen, five rows are listed and that one is not |
| `Supplementary.FourSubjectsEach` | download/src/app/applicant/supplementary/page.tsx:17-24 | each of the six departments lists exactly four subjects |
| `Supplementary.NoRowEligible` | download/src/app/applicant/supplementary/page.tsx:60-65 | every row has at most four credits, is not eligible and has its Apply button disabled |
| `Supplementary.ApplyEnabledIff` | download/src/app/applicant/supplementary/page.tsx:85 | for each of the four departments both pages know, the row's Apply button is enabled iff the eligibility page, given the same query with that department set, screens the applicant as eligible |
| `Supplementary.RowAgreesWithEligibility` | download/src/app/applicant/supplementary/page.tsx:57-65 | for the four departments both pages know, a row gives the same credit count and verdict as the eligibility page on the query naming that department |
| `Supplementary.HandleApply` | download/src/app/applicant/supplementary/page.tsx:32-36 | the new query is the copy with `department` set: it reads the chosen key, has one `department` pair, and every other parameter is unchanged |
| `Quotas.SplitIsRounded` | download/src/app/dashboard/quotas/page.tsx:36-38 | merit and catchment are the floors of 45 % and 35 % of the quota; ELDS is the ceiling of 20 %; for every integer quota |
| `Quotas.SplitWithinQuota` | download/src/app/dashboard/quotas/page.tsx:36-38 | the three parts sum to at most the quota and lose at most one place; for a quota of 0 or more no part is negative |
| `Quotas.WithQuota` | download/src/app/dashboard/quotas/page.tsx:57-64 | the recomputed row has the new quota and its split, and keeps id, name, school and filled |
| `Quotas.InitialSplit` | download/src/app/dashboard/quotas/page.tsx:16-40 | the initial table has six rows, each split from its quota, with distinct ids |
| `Quotas.InitialSplitValues` | download/src/app/dashboard/quotas/page.tsx:33-40 | the initial splits are 45/35/20, 33/26/15, 36/28/16, 27/21/12, 40/31/18 and 40/31/18 |
| `Quotas.SaveSpec` | download/src/app/dashboard/quotas/page.tsx:54-68 | the table after Save: the row with the edited id takes the new quota and its split, every other row is unchanged, and the number and order of rows are kept (the properties are proved in `Quotas.SaveChangesOnlyEditedRow`) |
| `Quotas.SaveChangesOnlyEditedRow` | download/src/app/dashboard/quotas/page.tsx:54-68 | Save leaves every other row untouched and keeps the order; the edited row keeps id, name, school and filled, and takes the new quota with its split |
| `Quotas.SaveKeepsWellFormed` | download/src/app/dashboard/quotas/page.tsx:54-68 | Save keeps every split matching its quota and the ids distinct |
| `Quotas.SaveIdempotent` | download/src/app/dashboard/quotas/page.tsx:54-68 | saving the same value twice is saving it once |
| `Quotas.SaveUnchangedIsNoOp` | download/src/app/dashboard/quotas/page.tsx:44-68 | Edit followed by Save without a change leaves a well-formed table as it was |
| `Quotas.NonNumericEditIsZero` | download/src/app/dashboard/quotas/page.tsx:117 | text that does not start, after white space and a sign, with a digit puts 0 in the box; the box holds 0 only for such text or for text that `parseInt` reads as 0 |
| `Quotas.EditValueOfNumber` | download/src/app/dashboard/quotas/page.tsx:117 | typing the decimal text of one of the model's integers puts that integer in the box (in JavaScript, below 2^53) |
| `Quotas.QuotaBoard.constructor` | download/src/app/dashboard/quotas/page.tsx:33-42 | the page starts with the initial table, well formed, nothing being edited, value 0 |
| `Quotas.QuotaBoard.HandleEdit` | download/src/app/dashboard/quotas/page.tsx:44-48 | Edit records the row's id and puts its quota in the box; the table is unchanged |
| `Quotas.QuotaBoard.OnChange` | download/src/app/dashboard/quotas/page.tsx:117 | the box holds `parseInt(text, 10)`, or 0 when that is NaN; the table and the edited id are unchanged |
| `Quotas.QuotaBoard.HandleSave` | download/src/app/dashboard/quotas/page.tsx:50-70 | the table becomes the specification `SaveSpec` of the old table with the box's value; editing closes; well-formedness is kept |
| `UserDb.FindIn` | download/src/lib/user-db.ts:53-56 | the search by id finds nothing exactly when no user matches (id case-insensitively, role exactly); otherwise it returns the first matching user |
| `UserDb.FindByIdOrEmailIn` | download/src/lib/user-db.ts:58-65 | the search by id or e-mail finds nothing exactly when no user matches either case-insensitively (in the role, when one is given); otherwise it returns the first match |
| `UserDb.WithPassword` | download/src/lib/user-db.ts:75-78 | the stored record keeps the new user's id and role, and its password field holds the given password |
| `UserDb.DefaultUsersFacts` | download/src/lib/user-db.ts:38-41 | the seeded accounts do not clash and each verifies with its seeded password |
| `UserDb.FindIgnoresCase` | download/src/lib/user-db.ts:55 | lower-casing the id before a search changes nothing |
| `UserDb.FindUnique` | download/src/lib/user-db.ts:53-56 | in a store without clashes, the user found is the one user with that id and role |
| `UserDb.FindByIdOrEmailFirst` | download/src/lib/user-db.ts:58-65 | the search by id or e-mail returns the first matching user |
| `UserDb.FindAppend` | download/src/lib/user-db.ts:67-82 | an appended user is found only when no earlier one matches; appending a user of another role changes no search for this role |
| `UserDb.AddSpecFacts` | download/src/lib/user-db.ts:67-83 | `addUser` fails iff a user with the same id (any case) and role exists, and then the store is unchanged; otherwise it appends exactly the one new user, whose password then verifies |
| `UserDb.AddKeepsUnique` | download/src/lib/user-db.ts:67-83 | `addUser` keeps ids unique per role |
| `UserDb.SameIdOtherRole` | download/src/lib/user-db.ts:69 | the same id may be registered once under each role |
| `UserDb.UserDB.constructor` | download/src/lib/user-db.ts:21-25 | the store holds the users read at page load |
| `UserDb.UserDB.Initialize` | download/src/lib/user-db.ts:34-44 | an empty store receives the two default accounts; a non-empty one is left as it is |
| `UserDb.UserDB.FindUser` | download/src/lib/user-db.ts:53-56 | the scan returns the first user matching id and role, as `FindIn` specifies |
| `UserDb.UserDB.FindUserByIdOrEmail` | download/src/lib/user-db.ts:58-65 | the scan returns the first user matching id or e-mail, as `FindByIdOrEmailIn` specifies |
| `UserDb.UserDB.AddUser` | download/src/lib/user-db.ts:67-83 | the store and result are those of `AddSpec`: refused iff a matching user exists, else one user appended; uniqueness per role is kept |
| `UserDb.UserDB.VerifyPassword` | download/src/lib/user-db.ts:85-91 | true iff the user found by id and role has exactly that password (case-sensitive) |
| `SignUp.RegexIsPolicy` | download/src/app/signup/page.tsx:37-38 | the expression accepts exactly the passwords of at least eight characters, all ASCII letters or digits, with a lower-case letter, an upper-case letter and a digit |
| `SignUp.SymbolRejected` | download/src/app/signup/page.tsx:37 | any password with a character other than an ASCII letter or digit is refused |
| `SignUp.SeededPasswordsRefused` | download/src/app/signup/page.tsx:37 | the two seeded passwords would be refused by the policy |
| `SignUp.PasswordWithoutSymbolAccepted` | download/src/app/signup/page.tsx:37 | the seeded applicant password without its '!' is accepted |
| `SignUp.GuardOrder` | download/src/app/signup/page.tsx:37-111 | the outcomes follow the checks in order: policy, then confirmation, then gender, then existing account; each outcome is given as an iff over the inputs; `Sign-up failed` never happens |
| `SignUp.StoreChangesOnlyOnCreate` | download/src/app/signup/page.tsx:93-123 | the store changes only when the account is created, and then by exactly the new account at its end, whose password verifies; the route is the Face ID set-up page when Face ID was chosen, else the start page |
| `SignUp.SignUpKeepsUnique` | download/src/app/signup/page.tsx:93-101 | sign-up keeps ids unique per role |
| `SignUp.HandleSignUp` | download/src/app/signup/page.tsx:32-124 | the handler's outcome and the store after it are those of `SignUpSpec` |
| `Login.LoginNotFoundIff` | download/src/app/login/page.tsx:95-121 | in any store, not found iff no user of the role has the identifier as id or e-mail |
| `Login.LoginOutcomes` | download/src/app/login/page.tsx:95-121 | when a user of the role matches, the first match decides: logged in iff its stored password is the one typed, to that user's route, else wrong password |
| `Login.OtherRoleNotFound` | download/src/app/login/page.tsx:95 | a user registered only under the other role is not found |
| `Login.DefaultAdminLogsIn` | download/src/app/login/page.tsx:95-105 | the seeded administrator logs in with its seeded password and goes to the dashboard |
| `Login.DefaultApplicantLogsInById` | download/src/app/login/page.tsx:95-102 | the seeded applicant logs in by id in lower case and goes to `/applicant?userId=` with the stored id |
| `Login.DefaultApplicantLogsInByEmail` | download/src/app/login/page.tsx:95-102 | the seeded applicant logs in by e-mail |
| `Login.DefaultApplicantNotAdmin` | download/src/app/login/page.tsx:95 | the applicant account is not found under the administrator role |
| `Login.SignUpThenLogIn` | download/src/app/login/page.tsx:95-102 | after a sign-up, log-in with the new id and password succeeds when no older account of that role has the id as its e-mail |
| `Login.SignUpShadowedByEmail` | download/src/app/login/page.tsx:95-98 | an older account whose e-mail is the new id shadows the new account: log-in with the new password is refused |
| `Login.HandleLogin` | download/src/app/login/page.tsx:95-121 | the handler's outcome is `LoginSpec` of the store, which it does not change |
| `ForgotPassword.ResetLinkNotFoundIff` | download/src/app/forgot-password/page.tsx:83-88 | the reset link reports "not found" iff no user of any role has the identifier as id or e-mail |
| `ForgotPassword.RolesIgnored` | download/src/app/forgot-password/page.tsx:58-83 | neither path looks at roles: changing every user's role changes neither outcome |
| `ForgotPassword.FaceIdGate` | download/src/app/forgot-password/page.tsx:58-75 | refused iff nobody matches or the user found has not enabled Face ID, and then the camera answer does not matter; verified iff the user has enabled it and the camera is granted |
| `ForgotPassword.DefaultAccountsReset` | download/src/app/forgot-password/page.tsx:56-99 | the seeded accounts cannot reset by Face ID but can ask for a link |
| `ForgotPassword.FaceIdButtonNeedsIdentifier` | download/src/app/forgot-password/page.tsx:148 | the Face ID button is disabled for an empty identifier, which in a store whose users all have an id and an e-mail would find nobody: the reset link says User Not Found and the Face ID reset is refused before the camera |
| `ForgotPassword.HandleResetLink` | download/src/app/forgot-password/page.tsx:79-99 | the handler's outcome is `ResetLinkSpec` of the store, which it does not change |
| `ForgotPassword.HandleFaceIdReset` | download/src/app/forgot-password/page.tsx:56-77 | the handler's outcome is `FaceIdResetSpec` of the store and the camera answer; it does not change the store |

## Left out

- Double-precision arithmetic in the quota split: the split is computed exactly, as ⌊45q/100⌋, ⌊35q/100⌋ and ⌈20q/100⌉. JavaScript multiplies by 0.45, 0.35 and 0.20 in doubles, so `Math.floor(180 * 0.35)` is 62, not 63. The same happens for the catchment of 340, 360, 660, 680, 700 and 720, among the quotas up to 1000. `Quotas.SplitIsRounded` and `Quotas.SplitWithinQuota` hold for the exact split only.
- Double-precision arithmetic in the score: the composite is an exact rational and `Math.round(x * 100) / 100` is half-up rounding of that rational. A double can land on the other side of a half-hundredth.
- The JAMB score field: `z.coerce.number` is modelled as already yielding an integer. A fractional JAMB score (for example 180.5), and the text-to-number coercion itself, are left out.
- Strings.NumberOf: only the decimal integers the pages themselves produce are read as numbers. Exponents, hexadecimal, surrounding white space, fractions and "Infinity", all of which `Number` accepts, are read as NaN.
- Strings.ParseInt and Strings.NumberOf: JavaScript numbers are doubles, but the model reads every digit string as an exact integer. In JavaScript a digit string above 2^53 rounds (`parseInt("9007199254740993", 10)` is 9007199254740992), and `String(n)` for |n| ≥ 10^21 uses exponent notation, which `parseInt` stops reading at the `e` (`parseInt(String(1e21), 10)` is 1). So `Strings.NumberOfIntToString`, `Strings.ParseIntIntToString` and `Quotas.EditValueOfNumber` hold in JavaScript only below 2^53, and a longer number typed into the quota box is stored exactly here but rounded by the page.
- Strings.ParseInt: only the ASCII white space is skipped; the Unicode spaces `parseInt` also skips are not.
- Strings.Lower and Strings.UpperChar: `toLowerCase` and `toUpperCase` act on the ASCII letters only, with no Unicode case mapping.
- Percent-encoding in `URLSearchParams.toString` and the parse back: the query is a list of pairs throughout. `handleApply`'s copy via `searchParams.toString()` is taken to give back the same pairs.
- `localStorage` and JSON: each `userDB` call re-reads the stored list. The model keeps the list in the `users` field of one store object, so another tab writing in between is not modelled. `getUsers` on the server (no `window`) is left out too.
- Login.LoginOutcomes: its password and route clauses require the store to have no two users with the same lower-cased id and role. `addUser` and the seeding keep that invariant, but a hand-edited stored list could break it; then `verifyPassword`'s second search could find a different user.
- The Face ID log-in (`handleFaceIdLogin`, login page lines 61-86) and the Face ID set-up page are left out. They consist of camera access, a timed simulated scan and a role-based route.
- In the forgot-password page, whether the browser grants the camera is a parameter `cameraGranted`, and the stream, the timer and the scan are left out.
- UI state is left out: the toasts, activity logging, timers and the `isLoading` / `isLoggingIn` / `isProcessing` flags. So is the router; routes are kept as the strings pushed.
- The score page's mock `status: 'verified'` and the file names it logs are left out.
- The supplementary page uses the eligibility page's `CreditCount` and `MeetsJamb`. Its own copy of `creditGrades` has the same six grades, and its own `Number(jambScore)` is the same expression.

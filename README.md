# School attendance backend: a Dafny model

This project models the core of a multi-tenant school-attendance system. Schools register, and teachers and students sign up against a school's code. A school admin lists the pending accounts of the admin's own school and approves them. Approval gives a teacher a staff id and a student a fresh registration number. Users and admins then log in to one school at a time. On the client, the login helpers keep the session in the browser's `localStorage`.

The model has these parts:

- `Documents` is an abstract document collection: a map from ids to documents plus the natural insertion order. `FindOne` picks the first match in that order, as Mongo's `findOne` does with no sort.
- `SchoolSchema` and `AccountSchema` model the two Mongoose schemas. They cover required fields, defaults, the enums, the lowercase and trim setters, the school-email pattern, and the unique and sparse-unique indexes.
- `JsText` models the JavaScript string functions those setters use: `trim` over the ECMAScript whitespace set, and lowercasing.
- `IdGenerator` models `generateStudentRegNo` and `generateStaffId` as functions of the clock value and the random draw.
- `Store` holds the database: both collections, the next fresh id, and the invariant every handler keeps (indexes respected, documents valid, every account's school exists).
- `Server` models the HTTP handlers:
  - The read-only ones are functions of the database: `/searchSchools`, `/userLogin`, `/adminLogin` and `/pendingUsers/:schoolId`.
  - The writing ones are methods of the class `Backend`, which owns the database: `/register`, `/teacherSignup`, `/studentSignup` and `/approveUser`. The approval step updates the loaded account field by field before saving it.
- `ClientAuth` models the session code of `auth.js`. `LocalStorage` is a class over a string map. The login helpers and logout are methods that call `setItem` and `removeItem` in the order the source does.

Password hashing, token signing and verification, the clock, random draws, mail delivery and the network are parameters of the operations:

- a `passwordMatches` function stands for `bcrypt.compare`;
- a `Bearer` value stands for the header token after `jwt.verify`;
- `now`, `rand`, `mailSent` and the `LoginReply` a client `fetch` ends in are plain inputs.

Strings are sequences of Unicode code points. Where the source compares a JavaScript `length` (the search query) or counts with a regular expression without the `u` flag (the school email pattern), the model counts UTF-16 code units: a character above U+FFFF counts twice.

Where the code and the design description of the system disagree, the model follows the code:

- Signup already stores a `STU-` registration number, for teachers too (server.js:282, server.js:341). Approval overwrites a student's number and does not check the prior status, so approving twice produces a new identifier (server.js:559-580). The design says identifiers are assigned once, at approval.
- A save that breaks a unique index, such as a school code that is already used under a new email, ends in the handler's catch block with 500 "Server error", not with a 400-class "already exists" (server.js:70, 96-98, 285, 344, 580).

## Model

| member | source | states |
|---|---|---|
| JsText.TrimStart | models/admin.js:13 | the result is a suffix of the input, everything dropped is whitespace, and the result does not start with whitespace |
| JsText.TrimEnd | models/admin.js:13 | the result is a prefix of the input, everything dropped is whitespace, and the result does not end with whitespace |
| JsText.TrimIsTrimmed | models/admin.js:13 | `trim` leaves no whitespace at either end |
| JsText.TrimOfTrimmed | models/admin.js:13 | `trim` leaves a string with no surrounding whitespace unchanged |
| JsText.TrimIdempotent | models/admin.js:13 | applying `trim` twice is the same as applying it once |
| JsText.LowerIsLower | models/admin.js:20 | lowercasing leaves no upper-case letter and keeps every other character where it was |
| JsText.LowerCharKeepsWhitespace | models/admin.js:20-21 | lowercasing a character neither creates nor removes whitespace |
| JsText.TrimStartLower | models/admin.js:20-21 | trimming the start commutes with lowercasing |
| JsText.TrimEndLower | models/admin.js:20-21 | trimming the end commutes with lowercasing |
| JsText.LowerTrimCommute | models/admin.js:20-21 | the order of the lowercase and trim setters does not matter |
| JsText.LowerTrim | models/school.js:10-11 | the stored form of an email is lower-case and trimmed |
| JsText.TrimKeepsLower | models/admin.js:20-21 | trimming a lower-case string keeps it lower-case |
| JsText.LowerOfLower | models/admin.js:20 | lowercasing a string with no upper-case letter leaves it unchanged |
| JsText.LowerTrimIdempotent | models/admin.js:20-21 | normalising an already stored email changes nothing, so a query filter normalised by the setters matches the stored value |
| JsText.LowerTrimOfNormalised | models/admin.js:20-21 | an email that is lower-case and trimmed is its own normal form |
| JsText.Utf16Length | server.js:376 | the JavaScript `length` of a string lies between its number of characters and twice that |
| JsText.Utf16LengthOfSuffix | models/school.js:13 | a shorter suffix of a string never has more UTF-16 code units than a longer one |
| JsText.AtLeastTwoUnitsIff | models/school.js:13 | looking at the first two characters decides whether a string has at least two UTF-16 code units |
| JsText.IndexOfFirst | models/school.js:13 | a position holding the character, with none before it, is the one `IndexOf` returns |
| JsText.IndexOf | models/school.js:13 | the first position of a character, or None exactly when the character does not occur |
| JsText.Contains | server.js:384-385 | true exactly when the needle occurs at some position of the haystack |
| IdGenerator.DecimalLengthBelow | utils/idGenerator.js:3 | a number below 10^w has at most w decimal digits, so `padStart` gives exactly w characters |
| IdGenerator.DecimalLengthAtLeast | utils/idGenerator.js:2 | a number of at least 10^k has more than k digits, so `slice(-k)` takes exactly k characters |
| IdGenerator.ValueOfDecimal | utils/idGenerator.js:2-3 | `toString` gives digits that denote the number |
| IdGenerator.ValueOfZerosPrefix | utils/idGenerator.js:3 | leading zeros from `padStart` do not change the value |
| IdGenerator.ValueOfInjective | utils/idGenerator.js:1-11 | digit strings of the same length and value are equal |
| IdGenerator.ValueOfLastDigits | utils/idGenerator.js:2 | the last k digits of a decimal denote the number mod 10^k |
| IdGenerator.PaddedDecimal | utils/idGenerator.js:3 | the padded random draw has exactly w digits and denotes the draw |
| IdGenerator.LastClockDigits6 | utils/idGenerator.js:2 | `slice(-6)` of the clock's decimal form is six digits denoting the clock mod 10^6 |
| IdGenerator.LastClockDigits5 | utils/idGenerator.js:8 | `slice(-5)` of the clock's decimal form is five digits denoting the clock mod 10^5 |
| IdGenerator.StudentRegNo | utils/idGenerator.js:1-5 | what a student number looks like is stated by IdGenerator.StudentRegNoShape and IdGenerator.StudentRegNoCollision |
| IdGenerator.StaffId | utils/idGenerator.js:7-11 | what a staff id looks like is stated by IdGenerator.StaffIdShape and IdGenerator.StaffIdCollision |
| IdGenerator.StudentRegNoShape | utils/idGenerator.js:1-5 | a student number has 13 characters: `STU-`, six digits denoting the clock mod 10^6, then three digits denoting the draw |
| IdGenerator.StaffIdShape | utils/idGenerator.js:7-11 | a staff id has 11 characters: `TCH-`, five digits denoting the clock mod 10^5, then two digits denoting the draw |
| IdGenerator.StudentRegNoCollision | utils/idGenerator.js:1-5 | two student numbers are equal exactly when the clocks agree mod 10^6 and the draws agree, so nothing prevents collisions |
| IdGenerator.StaffIdCollision | utils/idGenerator.js:7-11 | two staff ids are equal exactly when the clocks agree mod 10^5 and the draws agree |
| IdGenerator.StaffIdIsNotStudentRegNo | utils/idGenerator.js:4-10 | a staff id never equals a student number |
| Documents.Collection.Insert | server.js:70 | saving a new document adds exactly that id, keeps every other document and the collection's consistency |
| Documents.Collection.Replace | server.js:580 | saving a loaded document replaces only that document |
| Documents.FirstMatch | server.js:50 | a found id is stored, listed in the order and matches; None means no listed document matches |
| Documents.FindOne | server.js:50 | a found document matches, and None holds exactly when no document matches |
| Documents.FindOneUnique | server.js:409-413 | when exactly one document matches, `findOne` returns it |
| Documents.FirstMatches | server.js:381-387 | at most `limit` matching stored ids, each listed once, and every match when fewer than `limit` are returned |
| Documents.AllMatches | server.js:529-533 | exactly the stored ids whose documents match, each listed once |
| Documents.StoredAt | server.js:529-535 | each listed id paired with the document stored under it, in the same order |
| SchoolSchema.ValidSchoolEmail | models/school.js:12-15 | the validator as a matcher runs it; what it accepts is stated by SchoolSchema.ValidSchoolEmailIffPattern |
| SchoolSchema.ValidSchoolEmailIffPattern | models/school.js:12-15 | the executable email check accepts exactly the strings `^[^\s@]+@[^\s@]+\.[^\s@]{2,}$` matches, with `{2,}` counted in UTF-16 code units as the pattern has no `u` flag |
| SchoolSchema.MatcherFindsSplit | models/school.js:12-15 | every address the matcher accepts splits as the pattern requires |
| SchoolSchema.SplitPassesMatcher | models/school.js:12-15 | every address the pattern matches passes the matcher |
| SchoolSchema.AstralTopLevelDomainAccepted | models/school.js:13 | a single character above U+FFFF after the last dot is enough, since it is two code units |
| SchoolSchema.OneUnitTopLevelDomainRefused | models/school.js:13 | a single character of the Basic Multilingual Plane after the last dot is refused |
| SchoolSchema.ValidSchoolEmailShape | models/school.js:12-15 | a valid school email has no whitespace and exactly one `@`, with text before it |
| SchoolSchema.NewSchool | models/school.js:1-89 | the document validates exactly when the required fields are present and the normalised email fits the pattern; the stored email is normalised and the school starts unverified |
| SchoolSchema.InsertKeepsSchoolsUnique | models/school.js:9-24 | a save with no email or code clash keeps both unique indexes |
| SchoolSchema.SaveConflictIsCodeClash | models/school.js:22-25 | once the email is known to be free, a save fails exactly when the code is taken |
| AccountSchema.ParseRole | models/admin.js:4-8 | only the three role names are accepted, and each maps back to its name |
| AccountSchema.ParseRoleName | models/admin.js:4-8 | every role's name parses back to that role |
| AccountSchema.NewAccount | models/admin.js:3-90 | the document validates exactly when name, email and password are present; name trimmed, email normalised, status active, approval pending by default, no staff id, no approval date or approver |
| AccountSchema.SaveKeepsAccountsUnique | models/admin.js:16-47 | a save with no clash keeps the unique email index and the sparse unique registrationNumber and staffId indexes |
| Store.SaveKeepsAccountFields | models/admin.js:29-34 | saving a valid account whose school exists keeps every account valid and resolvable |
| Store.AddSchoolKeepsSchoolSide | server.js:58-70 | a new school under the next id keeps the school ids bounded, every school valid, both school indexes, and every account's school resolvable |
| Store.AddAccountKeepsAccountSide | server.js:273-285 | a new account under the next id keeps the account ids bounded, every account valid, the account indexes, and its school resolvable |
| Store.AddSchoolKeepsInvariant | server.js:58-70 | inserting a valid, non-clashing school under the next id keeps the database invariant |
| Store.AddAccountKeepsInvariant | server.js:273-285 | inserting a valid, non-clashing account of an existing school keeps the database invariant |
| Store.ReplaceAccountKeepsInvariant | server.js:565-580 | replacing an account by a valid, non-clashing version keeps the database invariant |
| Server.SchoolEmailLookup | server.js:50-53 | the `findOne({schoolEmail})` guard finds a school exactly when the normalised email is stored |
| Server.SchoolCodeLookup | server.js:258-261 | the `findOne({schoolCode})` guard finds a school exactly when the code is stored, and the school found has it |
| Server.AccountEmailLookup | server.js:264-267 | the `findOne({email})` guard finds an account exactly when the normalised email is stored |
| Server.Summaries | server.js:387 | each selected school becomes its id, name, code, type and state |
| Server.MatchesSearch | server.js:381-386 | the search filter; what it selects is stated by Server.SearchSchools |
| Server.SearchSchools | server.js:372-395 | a query shorter than 2 UTF-16 code units gives 400; otherwise 200 with at most 10 summaries of stored, unverified schools whose name or code contains the query ignoring case, no school twice, and all of them when fewer than 10 are listed |
| Server.IsLoginCandidate | server.js:409-413 | the `/userLogin` filter; its effect is stated by Server.UserLoginTenantIsolation and Server.PendingAccountIsRefused |
| Server.UserLogin | server.js:398-457 | 400 for an unknown school or no candidate; 403 only for an existing unapproved candidate; 500 only when an approved candidate presents no password; 200 only for an approved candidate whose password matches, with a token and profile naming that account and the requested school |
| Server.AdminLogin | server.js:460-510 | 400 for an unknown school or bad credentials; 500 only when an admin of the school exists and no password is given; 200 only for an admin of that school whose password matches, and 200 whenever exactly one such admin exists |
| Server.IsPendingIn | server.js:529-533 | the `/pendingUsers` filter; what it selects is stated by Server.PendingUsers and Server.ListedPendingUserCannotLogIn |
| Server.PendingUsers | server.js:513-541 | no token gives 401, a token that fails verification 500, a token that is not this school's admin 401; otherwise 200 listing every pending teacher and student of the school exactly once, each with its id and stored document, and nothing else |
| Server.UserLoginTenantIsolation | server.js:409-417 | an account of one school is refused with 400 at any other school |
| Server.UnapprovedAccountIsRefused | server.js:419-424 | an unapproved candidate gets the 403 reply whatever password it presents |
| Server.ApprovedAccountLogsIn | server.js:426-451 | an approved candidate with a matching password gets 200 and a token for itself and the school |
| Server.AdminLoginIgnoresApproval | server.js:470-488 | an admin of the school with a matching password gets 200 whatever its approval status |
| Server.ListedPendingUserCannotLogIn | server.js:529-533 | every account `/pendingUsers` lists gets 403 from `/userLogin` at that school, with or without a password |
| Server.PendingAccountIsRefused | server.js:409-424 | a pending teacher or student gets 403 at its own school when no role is named |
| Server.Approve | server.js:565-578 | the fields `/approveUser` assigns; their effect is stated by Server.ApproveEffect |
| Server.GeneratedId | server.js:583-584 | the identifier the approval reply returns; which one it is is stated by Server.ApproveEffect |
| Server.ApproveEffect | server.js:565-578 | approval sets status, time and approver, gives a teacher a staff id and a student a new registration number, changes nothing else, keeps the account valid and ignores the prior status |
| Server.SignupAccount | server.js:273-283 | the new account is built exactly when name, email and password are present: the given role, the school's id, pending, the given registration number, no staff id, department only for teachers |
| Server.SignupGivesStudentNumber | server.js:282 | signup gives teachers and students alike a 13-character `STU-` number and no staff id |
| Server.Backend.SaveNewSchool | server.js:70 | a clashing school is not written; otherwise it is inserted under the next id and the invariant holds |
| Server.Backend.SaveNewAccount | server.js:285 | a clashing account is not written; otherwise it is inserted under the next id and the invariant holds |
| Server.Backend.SaveAccount | server.js:580 | a clashing account is not written; otherwise it replaces the stored one and the invariant holds |
| Server.Backend.Register | server.js:35-100 | a taken email gives 400 and writes nothing; an invalid document or a taken code gives 500 and writes nothing; otherwise exactly one unverified school is added, and the reply is 201, or 500 when the mail fails |
| Server.Backend.Signup | server.js:253-369 | an unknown code gives 400, then a taken email gives 400, both writing nothing; an invalid or clashing account gives 500; otherwise exactly one pending account of the school is added, and the reply is 201 with its id, or 500 when the mail fails |
| Server.Backend.ApproveUser | server.js:544-610 | 401, 500 and 401 for a missing, failing or foreign token; 404 for an unknown user or one of another school; 500 for an account without a school; otherwise the approved account replaces the stored one, and the reply is 200 with the staff id of a teacher or the registration number of anyone else |
| ClientAuth.LocalStorage.SetItem | auth.js:102-106 | the key holds the value and every other key reads as before |
| ClientAuth.LocalStorage.RemoveItem | auth.js:179-187 | the key reads as null and every other key reads as before |
| ClientAuth.IsUserAuthenticated | auth.js:194-196 | true exactly when a user token is stored |
| ClientAuth.IsAdminAuthenticated | auth.js:201-203 | true exactly when an admin token is stored |
| ClientAuth.UserLogin | auth.js:87-114 | a thrown fetch or a non-ok reply leaves storage unchanged; success stores token, id, role, email and school, so `getCurrentUser` returns them and the user is authenticated; the admin keys are untouched |
| ClientAuth.AdminLogin | auth.js:122-148 | a thrown fetch or a non-ok reply leaves storage unchanged; success stores token, id, the typed email and the school, overwriting a user's schoolId; the user keys are untouched |
| ClientAuth.Logout | auth.js:178-189 | all nine session keys are removed and nothing else; afterwards nobody is authenticated and both views are all null |

## Left out

- Express wiring, CORS, `mongoose.connect` and the mail transporter are I/O. Mail delivery is the boolean `mailSent`. A failed mail after a save gives 500, and the saved document stays.
- `bcrypt.hash` and `bcrypt.compare`: the stored hash is a parameter and the comparison is the `passwordMatches` function. A login request without a password is modelled: `bcrypt.compare` throws on it, so `/userLogin` and `/adminLogin` answer 500 once a candidate is found. At signup and registration, a request with no password, which makes `bcrypt.hash` throw and gives 500, is not distinguished from a missing field, which also gives 500 at save.
- `jwt.sign` and `jwt.verify`: a token is the `Claims` record it carries, and a header token is a `Bearer`. Expiry and signatures are not modelled.
- `/verify/:token` and `/login` refer to an undeclared `School`, so they always end in their catch blocks. School verification is therefore never modelled as succeeding, and `isVerified` stays false for every school the model creates.
- `/adminRegister` is not modelled. Its duplicate check looks up `{email, password}`, and it stores the plaintext password. Admin accounts come only from the initial database the `Backend` constructor takes.
- Server.SearchSchools: the query is a regular expression in the source. The model treats it as a plain, case-insensitive substring, which is exact only for queries without regex metacharacters.
- Server.SearchSchools: the 10 results are the first matches in insertion order. The source gives no sort, so the order is the store's.
- Mongoose casting: a malformed ObjectId in a request throws a cast error and gives 500. The model's ids are always well formed, so that path is absent. A school phone number that does not cast to a number is a missing field.
- JsText.Lower: lowercasing covers ASCII letters only. Non-ASCII case mapping is not modelled.
- Concurrency: the lost update between two concurrent approvals, and the race between a duplicate check and the save, are out of scope. The model is sequential.
- `Date.now()` and `Math.random()` are parameters. `/approveUser` uses one `now` for both the generated identifier and `approvedAt`.
- IdGenerator.StudentRegNoShape: stated for clock values of at least 10^5, and IdGenerator.StaffIdShape for at least 10^4, since `Date.now()` always has far more digits. Server.SignupGivesStudentNumber and the collision lemmas carry the same bound.
- The DOM form handlers of `auth.js` (auth.js:4-75), its network calls, `console.error` and the `window.location` redirect in logout are I/O. Each login helper receives the outcome of its `fetch` as a `LoginReply`.
- ClientAuth.GetCurrentUser and ClientAuth.GetCurrentAdmin only read keys, so they carry no contract of their own. What they return after each login and after logout is stated in the login and logout methods.

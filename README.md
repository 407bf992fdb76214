# Cohort portal: submission ledger, request gates and list logic

This project is a Dafny model of the core of a cohort-based learning portal. Administrators create cohorts, enroll participants into them and publish checkpoints worth points. Participants log in with a matriculation number and upload two proof files per checkpoint. Administrators approve or reject the submissions, and an approval credits the checkpoint's points to the participant.

The model covers five parts:

- **Matriculation numbers** (`MatricNumber`). The cohort number padded to two digits, followed by the participant's index padded to three.
- **The services** (`AdminService`, `UsersService`). Each operation is a function from the database before the call (`Database.Tables`, five tables in insertion order) to the result and the database after it. Enrollment, review and submission are modelled this way, as are the sorted and filtered reads.
- **The database object** (`Store.Store`). A class whose table fields the write operations change step by step. Each method is proved to produce the result and the tables that the matching service function describes. Each method is also proved to keep the database well-formed: unique keys, resolving references, and one submission per participant and checkpoint.
- **The request gates** (`AdminApi`, `UsersApi`, `Auth`, with `Http` for JSON values). A handler is a function from the request fields and the database to a status code, a body and the new database. The authentication middleware is a decision: 401, 403, or pass on with the caller's id.
- **The client list logic** (`Client`). The leaderboard is a stable sort by points, highest first, with ranks 1 to n. After a review, the page drops the reviewed entry from its pending list.

Shared pieces:

- `Seqs` holds first-match, filter and a stable insertion sort, with its permutation and stability lemmas.
- `Decimal` holds the decimal text of integers and its parser.
- The enrollment batch and the store's creation loop take the numbering function as a parameter. The service and the store method pass `MatricNumber.GenerateMatricNumber`, as generateMatricNumber is called in the code.
- `Outcomes` holds `Option` and `Result`.

Parameters stand in for what the code gets from outside:

- Password hashing and comparison are function parameters (`hash`, `compare`).
- Token signing and verification are function parameters (`sign`, `verify`).
- The clock is an integer `now`.
- Database-generated ids are parameters (`id`, `newId`, `newIds`).
- Date parsing (`toDate`) is a parameter.
- The request's protocol and host are parameters.

## Model

| member | source | states |
|---|---|---|
| MatricNumber.PadStartShape | server/src/utils/matricNumber.ts:3-4 | padStart keeps the text as its suffix, prepends only the fill character, and reaches at least the target width without truncating |
| MatricNumber.PartsPadWithoutTruncation | server/src/utils/matricNumber.ts:3-5 | the cohort part is the decimal of the cohort number padded to at least 2; the index part is the decimal of the index padded to at least 3; the result is their concatenation |
| MatricNumber.PaddedRoundTrip | server/src/utils/matricNumber.ts:3-4 | a number below 10^width pads to exactly width digits, and reading them back gives the number |
| MatricNumber.MatricNumberRoundTrip | server/src/utils/matricNumber.ts:2-6 | for cohort < 100 and index < 1000 the number is 5 digits; the first 2 read back as the cohort, the last 3 as the index |
| MatricNumber.MatricNumberInjective | server/src/utils/matricNumber.ts:2-6 | in range, two numbers are equal if and only if their cohorts and indices are equal |
| MatricNumber.FirstOfCohortThree | server/src/utils/matricNumber.ts:2-6 | cohort 3, index 1 gives "03001" |
| MatricNumber.OutOfRangeCollision | server/src/utils/matricNumber.ts:3-5 | out of range the fixed-width reading fails: (10, 1001) and (101, 1) both give "101001" |
| Decimal.NatToDecimalDigits | server/src/utils/matricNumber.ts:3-4 | `String(n)` of a natural number is made of decimal digits only |
| Decimal.ParseNatToDecimal | server/src/utils/matricNumber.ts:3-4 | `String(n)` of a natural number reads back as n |
| Seqs.Sort | server/src/api/admin/admin.service.ts:68-71 | an `orderBy`: the result is a permutation of the input, ordered by the key |
| Seqs.SortStable | client/src/pages/CohortDetailsPage.tsx:73 | sorting keeps elements with equal keys in their input order |
| Seqs.Filter | client/src/pages/SubmissionReviewPage.tsx:43 | a filter keeps exactly the elements that pass, with their multiplicities |
| Seqs.FilterIsSubsequence | client/src/pages/SubmissionReviewPage.tsx:43 | the elements a filter keeps stay in their original relative order |
| Database.UserClash | server/src/api/admin/admin.service.ts:32-39 | a participant insert is refused exactly when its id, username or matriculation number is taken |
| Database.SameKeysWellFormed | server/src/api/admin/admin.service.ts:138-156 | updates that keep every key and reference keep the database well-formed |
| AdminService.AddCohortOutcome | server/src/api/admin/admin.service.ts:9-16 | createCohort succeeds exactly when neither the id nor the cohort number is taken, and then appends the cohort; a refusal changes nothing |
| AdminService.AddCohortPreservesWellFormed | server/src/api/admin/admin.service.ts:9-16 | createCohort keeps the database well-formed |
| AdminService.AddCheckpointOutcome | server/src/api/admin/admin.service.ts:93-97 | createCheckpoint succeeds exactly when the id is free, and then appends the checkpoint; a refusal changes nothing |
| AdminService.AddCheckpointPreservesWellFormed | server/src/api/admin/admin.service.ts:93-97 | createCheckpoint keeps the database well-formed |
| AdminService.Batch | server/src/api/admin/admin.service.ts:25-41 | the rows enrollment tries to create: one per input user, all in the requested cohort |
| AdminService.BatchEntry | server/src/api/admin/admin.service.ts:25-41 | batch row i is input user i with matriculation number (cohort number, count + 1 + i) |
| AdminService.CreateAllPrefix | server/src/api/admin/admin.service.ts:28-42 | creating rows one by one leaves the old rows plus a prefix of the batch; it stops exactly at the first row a unique key refuses, and names that key |
| AdminService.EnrollOutcome | server/src/api/admin/admin.service.ts:18-45 | an unknown cohort is "Cohort not found" and creates nobody; otherwise only the participants table grows, by a prefix of the batch; rows created before a refusal stay; success returns the whole batch in input order |
| AdminService.EnrollNumbering | server/src/api/admin/admin.service.ts:25-41 | row i of the batch enrollment tries to create has input user i's username, the hashed password, no points, status active, the requested cohort and matriculation number (cohort number, count + 1 + i) |
| AdminService.EnrollCreated | server/src/api/admin/admin.service.ts:18-45 | a successful enrollment returns one participant per input user, appended in input order, participant i numbered (cohort number, count + 1 + i) |
| AdminService.EnrollOkAppends | server/src/api/admin/admin.service.ts:18-45 | a successful enrollment adds exactly one participant per input user |
| AdminService.EnrollKeepsRows | server/src/api/admin/admin.service.ts:18-45 | enrollment leaves every table but the participants alone and keeps the existing participants as they were, at the front |
| AdminService.BatchMatricNumbersDistinct | server/src/api/admin/admin.service.ts:25-41 | for cohort < 100 and at most 999 participants, one batch's matriculation numbers are pairwise distinct |
| AdminService.EnrollPreservesWellFormed | server/src/api/admin/admin.service.ts:18-45 | enrollment keeps every key unique and every reference resolving |
| AdminService.LoginAdmin | server/src/api/admin/admin.service.ts:47-65 | a token exactly for a known username whose password matches, signed over the admin's id, username and role |
| AdminService.AllCohorts | server/src/api/admin/admin.service.ts:67-78 | every cohort once, with its participant count, by cohort number ascending |
| AdminService.CohortById | server/src/api/admin/admin.service.ts:80-91 | nothing for an unknown id; otherwise the cohort with exactly its participants, by matriculation number ascending |
| AdminService.AllCheckpoints | server/src/api/admin/admin.service.ts:99-105 | every checkpoint, by deadline ascending |
| AdminService.PendingSubmissions | server/src/api/admin/admin.service.ts:107-122 | exactly the pending submissions, oldest first |
| AdminService.PendingQueue | server/src/api/admin/admin.service.ts:107-122 | each pending row joined with its own participant's username and matriculation number and its checkpoint's title and points |
| AdminService.ReviewFailureChangesNothing | server/src/api/admin/admin.service.ts:126-135 | an unknown submission is "Submission not found"; any failure inside the transaction leaves the database unchanged |
| AdminService.ReviewEffect | server/src/api/admin/admin.service.ts:124-160 | on a well-formed database, the submission gets the new status and review time and nothing else; approval credits its owner exactly the checkpoint's points; rejection credits nobody; nothing else changes |
| AdminService.ApprovingTwiceCreditsTwice | server/src/api/admin/admin.service.ts:124-160 | nothing checks the prior status, so approving one submission twice credits its owner twice |
| AdminService.ReviewPreservesWellFormed | server/src/api/admin/admin.service.ts:124-160 | review keeps the database well-formed |
| AdminService.ReviewedLeavesPendingQueue | server/src/api/admin/admin.service.ts:138-144 | after a successful review the submission is no longer pending |
| UsersService.LoginUser | server/src/api/users/users.sevice.ts:6-29 | a token exactly for a known matriculation number, an active participant and a matching password, signed over id, matriculation number and cohort |
| UsersService.InactiveNeverLogsIn | server/src/api/users/users.sevice.ts:12-15 | an inactive participant never gets a token, whatever the password check says |
| UsersService.ActiveCheckpoints | server/src/api/users/users.sevice.ts:31-44 | exactly the checkpoints with deadline >= now (inclusive), by deadline ascending |
| UsersService.SubmitOutcome | server/src/api/users/users.sevice.ts:46-71 | only the submissions table changes; an earlier row for the pair is overwritten in place, keeping its id, creation time and review time; otherwise a pending row is appended, or the insert is refused and nothing changes |
| UsersService.SubmitPreservesWellFormed | server/src/api/users/users.sevice.ts:46-71 | submission keeps the database well-formed, in particular one row per participant and checkpoint |
| UsersService.PairCountAtMostOne | server/src/api/users/users.sevice.ts:47-49 | with one row per pair, a pair occurs once if its lookup finds it and never otherwise |
| UsersService.SubmitLeavesOneRow | server/src/api/users/users.sevice.ts:46-71 | after a successful submission the participant has exactly one row for the checkpoint |
| UsersService.SubmittedIsPending | server/src/api/users/users.sevice.ts:51-55 | the submitted row is in the pending queue, even when it had been reviewed before |
| UsersService.ResubmitReplaces | server/src/api/users/users.sevice.ts:57-61 | submitting twice leaves one row, with the first row's id and the second upload's files |
| Store.Store.CreateCohort | server/src/api/admin/admin.service.ts:9-16 | the method's result and tables are those of AddCohort; it keeps the database well-formed |
| Store.Store.CreateCheckpoint | server/src/api/admin/admin.service.ts:93-97 | the method's result and tables are those of AddCheckpoint; it keeps the database well-formed |
| Store.Store.AddUsersToCohort | server/src/api/admin/admin.service.ts:18-45 | the method's result and tables are those of Enroll; it keeps the database well-formed |
| Store.Store.CreateParticipants | server/src/api/admin/admin.service.ts:25-42 | the loop with a running userIndex creates the batch row by row, numbering each row with the given numbering function, stops at the first refused row and leaves the other tables alone |
| Store.Store.ReviewSubmission | server/src/api/admin/admin.service.ts:124-160 | the method's result and tables are those of Review, undoing its first write when the second fails; it keeps the database well-formed |
| Store.Store.CreateSubmission | server/src/api/users/users.sevice.ts:46-71 | the method's result and tables are those of Submit; it keeps the database well-formed |
| Http.TrimStart | server/src/api/admin/admin.controller.ts:83 | `parseInt` first drops leading white space: the result is a suffix that does not start with white space, and only white space was dropped |
| Http.ParseIntSkipsSpace | server/src/api/admin/admin.controller.ts:83 | white space in front of a number text does not change what `parseInt` reads |
| Http.ParseIntSkipsUnicodeSpace | server/src/api/admin/admin.controller.ts:83 | the vertical tab, the form feed and the no-break space are such white space: "\v5" reads what "5" reads |
| Http.ParseIntOfDecimal | server/src/api/admin/admin.controller.ts:83 | `parseInt` of the decimal text of n is n, the same as `parseInt` of the number n |
| Http.OrDefault | server/src/api/admin/admin.controller.ts:30 | `message || fallback` is the message when it is non-empty and is never empty when the fallback is not |
| Records.ErrorMessage | server/src/api/admin/admin.service.ts:21-23 | every thrown error has a non-empty message |
| AdminApi.CreateCohortHandlerOutcome | server/src/api/admin/admin.controller.ts:5-16 | a missing or zero cohort number is a 400 that changes nothing; a 201 happens exactly for a non-zero integer, a text or absent name and a free id and number, and appends the cohort; anything else is a 500 that changes nothing |
| AdminApi.LeadingCredentials | server/src/api/admin/admin.service.ts:28-32 | the elements processed before the first one without a text username and password |
| AdminApi.AddUsersHandlerOutcome | server/src/api/admin/admin.controller.ts:18-32 | a missing, non-array or empty `users` is a 400 that changes nothing; otherwise only new participants are appended; an unknown cohort is a 500 "Cohort not found" |
| AdminApi.AddUsersHandlerSucceeded | server/src/api/admin/admin.controller.ts:18-32 | a 201 happens exactly when `users` is a non-empty array whose every element has a text username and password and the service succeeds; the reply then carries what the service returned |
| AdminApi.AddUsersHandlerEnrolls | server/src/api/admin/admin.controller.ts:24-31 | a non-empty array goes to the service, whose tables the handler keeps; an unknown cohort is a 500 "Cohort not found"; any refusal by the service, a taken username or matriculation number included, is a 500 carrying the thrown message |
| AdminApi.AddUsersHandlerCreated | server/src/api/admin/admin.controller.ts:27-28 | a 201 returns one new participant per element, appended in input order, each with its element's username, hashed password and the next matriculation number |
| AdminApi.MalformedEntryKeepsEarlierRows | server/src/api/admin/admin.controller.ts:29-31 | an element the service cannot process is a 500 with the thrown message, and the participants created before it stay |
| AdminApi.LoginAdminHandlerOutcome | server/src/api/admin/admin.controller.ts:34-48 | the right password is a 200 with the admin's token; a wrong password or an unknown username is a 401 |
| AdminApi.GetCohortByIdHandler | server/src/api/admin/admin.controller.ts:59-70 | a 404 exactly when no cohort has the id; a 200 carries that cohort and exactly its participants, with their multiplicities, by matriculation number |
| AdminApi.CreateCheckpointHandlerOutcome | server/src/api/admin/admin.controller.ts:72-89 | a falsy title, deadline or points value, 0 included, is a 400; a 201 appends the checkpoint with the parsed date and the points parsed in base 10; truthy fields the insert accepts, with a free id, are a 201; anything else changes nothing |
| AdminApi.CheckpointPointsAsText | server/src/api/admin/admin.controller.ts:76-83 | points sent as the decimal text of a non-zero n create exactly what the number n creates |
| AdminApi.CheckpointZeroPointsAsText | server/src/api/admin/admin.controller.ts:76-83 | the number 0 as points is always a 400, while the text "0" parses to 0 and is a 400 only when the title or the deadline is missing |
| AdminApi.ReviewStatus | server/src/api/admin/admin.controller.ts:114-116 | only "approved" and "rejected" are accepted, and neither means pending |
| AdminApi.ReviewStatusRoundTrip | server/src/api/admin/admin.controller.ts:114-119 | the text of a decision reads back as that decision |
| AdminApi.ReviewHandlerOutcome | server/src/api/admin/admin.controller.ts:109-123 | an invalid status is a 400 that changes nothing; an unknown submission is a 500 "Submission not found" that changes nothing; on a well-formed database a known submission is a 200 "Submission approved" or "Submission rejected" with the reviewed database |
| UsersApi.LoginUserHandlerOutcome | server/src/api/users/users.controller.ts:6-19 | an inactive participant is a 401 whatever the password field; an active one is a 200 with their token for the right password and a 401 otherwise; an unknown number is a 401 |
| UsersApi.FileUrl | server/src/api/users/users.controller.ts:44-45 | the address is protocol, "://", host, "/" and the stored path, each at its own position |
| UsersApi.FileUrlInjective | server/src/api/users/users.controller.ts:44-45 | for one protocol and host, distinct stored files have distinct addresses |
| UsersApi.CreateSubmissionHandlerOutcome | server/src/api/users/users.controller.ts:30-52 | a missing user id, checkpoint id or file field is a 400 that changes nothing; every other refusal is a 500 that changes nothing; a 201 returns the participant's pending submission carrying the first file of each field; a request that passes the checks and that the service accepts is a 201 with the service's submission |
| Auth.Split | server/src/middleware/auth.middleware.ts:16 | `split` gives at least one field |
| Auth.JoinSplit | server/src/middleware/auth.middleware.ts:16 | joining the fields of a split gives back the text |
| Auth.SplitFieldsFree | server/src/middleware/auth.middleware.ts:16 | no field contains the separator |
| Auth.BearerTokenIsNextWord | server/src/middleware/auth.middleware.ts:16 | the token is the text after "Bearer " up to the next space |
| Auth.Authenticate | server/src/middleware/auth.middleware.ts:9-25 | no bearer header is a 401; a token that does not verify is a 403; a verified token passes with its id, whatever the account's role |
| Client.RankedUsers | client/src/pages/CohortDetailsPage.tsx:73 | the leaderboard is a permutation of the cohort's participants, by points, highest first |
| Client.RankedUsersStable | client/src/pages/CohortDetailsPage.tsx:73 | participants with equal points keep the order the server sent them in |
| Client.LeaderboardRanks | client/src/pages/CohortDetailsPage.tsx:107-117 | ranks are 1 to n in table order; a better rank never has fewer points; more points always give a better rank |
| Client.HandleReviewOutcome | client/src/pages/SubmissionReviewPage.tsx:39-48 | the request addresses the submission and carries the chosen decision; on success the entry leaves the list and every other entry stays in order; on failure the list is unchanged and the alert names the decision |
| Client.ReviewFromQueue | client/src/pages/SubmissionReviewPage.tsx:80-81 | on a well-formed database, reviewing an entry of the pending queue gets a 200, the entry leaves the page and the submission leaves the server's pending queue |

## Left out

- Persistence, the transaction mechanism and concurrency are not modelled. Tables are values. A transaction is "all writes or none" (`Store.Store.ReviewSubmission` restores its snapshot). Races are outside the model: between simultaneous enrollments into one cohort, between concurrent reviews of one submission, and in the check-then-write of createSubmission.
- Cryptography and the clock are parameters: bcrypt hashing and comparison, JWT signing and verification (including the 8-hour expiry), and `new Date()`. The `hash` parameter is a deterministic function, while bcrypt salts every hash; no lemma compares two hashes, so nothing proved depends on this.
- The Prisma schema is not part of this model, so the model assumes its constraints:
  - a new participant starts with 0 points and status "active";
  - the unique keys are participant username and matriculation number, cohort number, and admin username;
  - ids are unique.
- Rows that tie under an `orderBy` come out in insertion order. The database does not promise any order for ties.
- AdminService.CohortById, AdminService.StringLe: text is ordered by code point, while the database orders `matricNumber` by its collation. The two agree on matriculation numbers made of digits only; a negative cohort number (a leading "-") can order differently.
- UsersApi.CreateSubmissionHandler: a checkpoint id that is truthy but not text is narrowed to a 500 that changes nothing. In the code an object value (a `checkpointId[not]` form field, say) reaches `findFirst` as a query filter and can match and update an existing submission with a 201; query filters are not modelled.
- `AdminService.Review` with a submission whose participant or checkpoint row is missing fails with "Record to update not found." In the code, a missing checkpoint is a type error with a different message. Neither can happen on a well-formed database.
- JavaScript coercions are narrowed:
  - JSON numbers are integers;
  - `parseInt` is modelled on integers and on text with leading white space (the characters ECMAScript's StrWhiteSpaceChar names, the Unicode space separators as of Unicode 15), an optional sign and decimal digits;
  - fractions, exponents and arrays are not modelled;
  - `new Date(deadline)` is the parameter `toDate`.
- AdminService.AddCheckpoint, AdminApi.CreateCheckpointHandler, AdminApi.CreateCohortHandler, AdminService.Review: integers are unbounded. Prisma's `Int` columns are 32-bit on the common databases (the schema is not part of this model), so points of 3000000000 or a points total pushed past 2^31 - 1 by repeated approvals would be refused by the database; the model accepts them.
- Http.ParseInt, Decimal.IntToDecimal, MatricNumber.GenerateMatricNumber: JavaScript numbers are doubles. Integers above 2^53 lose precision there and `String(n)` switches to exponent form from 10^21; the model computes exactly, so it differs from the code on such inputs.
- Records.ErrorMessage: the messages of database refusals are reduced to the line that names the constraint. Prisma's thrown messages are longer multi-line texts that also name the failing call and its source position; AdminApi.AddUsersHandler and the other handlers that reply with `error.message` carry the shortened text.
- The library messages thrown for malformed enrollment elements are the parameter `libraryMessage`. The `error` object that the createCohort 500 reply also carries is not modelled.
- The read handlers getAllCohortsHandler, getAllCheckpointsHandler, getPendingSubmissionsHandler and getCheckpointsHandler (server/src/api/admin/admin.controller.ts:50-57, 91-107; server/src/api/users/users.controller.ts:21-28) are not modelled as handlers. Each replies 200 with its service's view, which is modelled, and their only other path is a 500 on a database failure.
- Express wiring and routing are not modelled. This covers server/src/index.ts and the route files.
- The upload middleware's storage is not modelled: file names, directories and randomness. An uploaded file is its stored path.
- The seed script is not modelled.
- React rendering, hooks, local storage and every page other than the two list updates are not modelled.
- The HTTP reply of a failed review request in the client is reduced to its status code. Axios rejects any status outside 2xx.

## Code and intended behaviour differ

In each case below the code departs from the intended behaviour. The model follows the code.

- **Review time on resubmission.** The intended behaviour is that a resubmission clears the review time. The code keeps it (`UsersService.SubmitOutcome`).
- **Checkpoint visibility.** The intended behaviour is to show checkpoints while `now < deadline`. The code's filter is inclusive, `deadline >= now` (`UsersService.ActiveCheckpoints`).
- **Re-review.** Nothing stops a second review, so a second approval credits again (`AdminService.ApprovingTwiceCreditsTwice`).
- **Enrollment failures.** Enrollment stops at the first refused participant but keeps those already created (`AdminService.EnrollOutcome`, `AdminApi.MalformedEntryKeepsEarlierRows`).
- **Roles and account status.** The middleware checks neither the account's role nor its status. Any verified token passes, a participant's on admin routes included (`Auth.Authenticate`).
- **Positive values.** Checkpoint points and cohort numbers are not required to be positive. A negative number passes the falsy check, and so does the text "0" (`AdminApi.CheckpointZeroPointsAsText`).
- **Submission inputs.** createSubmission does not check that the checkpoint exists before writing. A missing checkpoint surfaces only as the database's foreign-key refusal, a 500.

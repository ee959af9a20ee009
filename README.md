# Attendms in Dafny

Attendms is a classroom attendance system. A lecturer registers, creates
courses and asks for a short attendance code. Students registered with a
face image sign in and present that code from their phones. A code is
redeemed only while it is unexpired. The student must also stand within
100 m of where the lecturer stood when issuing it, and can be marked at
most once per course per day. Lecturers then read per-day session reports,
record listings and course statistics.

The system exists in two deployments, and the model covers both:

- the serverless handlers `api/*.js`, with the helpers in `lib/utils.js` and the Bearer gate of `lib/auth.js`;
- the single Express application `server.js`.

## Project layout

| file | module | what it holds |
|---|---|---|
| `wrappers.dfy` | `Wrappers` | `Option` |
| `seqs.dfy` | `Seqs` | first index, first element and filter over sequences |
| `sorting.dfy` | `Sorting` | insertion sort by a total preorder (the `ORDER BY` clauses) |
| `js.dfy` | `Js` | JavaScript values and truthiness, `trim`, `toUpperCase`, `String(n)`, `substring`, `split`, `join` |
| `store.dfy` | `Store` | the tables as rows, `DATE()` at a zone offset, and the class `Db` whose methods append rows |
| `http.dfy` | `Http` | responses, the errors an async handler rejects with, and the three `asyncHandler` wrappers |
| `utils.dfy` | `Utils` | `validateInput` (both variants) and the coordinate guard of `getDistance` |
| `auth.dfy` | `Auth` | `verifyToken`: the Bearer-header gate |
| `codes.dfy` | `CodeIssue` | issuing an attendance code |
| `attendance.dfy` | `Attendance` | redeeming a code: the gated pipeline and the one-record-per-day ledger invariant |
| `courses.dfy` | `Courses` | creating and listing courses |
| `reports.dfy` | `Reports` | session aggregation, statistics and record listings |
| `registration.dfy` | `Registration` | student and lecturer registration |
| `login.dfy` | `Login` | the sign-in decision tree and the tokens it issues |

## How the system is modelled

**Store and handlers.**

- The store is the class `Store.Db`. It has one `seq` field per table: codes, records, courses, students, lecturers and admins.
  - Its invariant `Valid` says the ids are `AUTO_INCREMENT` values with no deletions.
  - Each insert method appends one row and leaves the other tables unchanged.
- Each handler has two parts:
  - a function. It returns a `Decision` made of the outcome (a response or a rejection) and the row to insert, if any. The lemmas are about this function.
  - a method on `Db`. It runs the handler's statements against the tables. Its `ensures` ties the new tables and the response to that function of the old tables.
- A rejection of an async handler becomes a response through the deployment's own `asyncHandler`:
  - lib/utils.js answers with a generic 500;
  - api/register.js and api/login.js answer with a 500 that carries `error.message`;
  - server.js passes the rejection to Express, which answers with its error page.

**Parameters and time.**

- Inputs that the handlers obtain from outside are parameters:
  - `parseFloat` and `parseInt` of the body fields;
  - the text of `Math.random().toString(36)`;
  - `UTC_TIMESTAMP()` as seconds;
  - the haversine formula on four finite coordinates;
  - `jwt.sign` and `jwt.verify`.
- A bcrypt digest is the free constructor `Hashed(password)`. Only the password that was hashed matches it.
- The civil day of an instant is `DayOf(t, offset)`.
  - `DATE(marked_at)` reads the stored UTC value.
  - `CURDATE()` in api/mark-attendance.js reads the store's session zone.
  - server.js converts both sides to UTC+01:00.

## Model

| member | source | states |
|---|---|---|
| Utils.FirstFailing | lib/utils.js:22-25 | the position of the first field that fails the test; none exactly when every field passes, and every field before it passes |
| Utils.FirstFailingIs | lib/utils.js:22-25 | a failing field with no failing field before it is the one the loop stops at |
| Utils.FindFirstFailing | lib/utils.js:22-27 | the `for` loop of `validateInput` returns the first failing field's position, or none when every field passes |
| Utils.ValidationError | lib/utils.js:21-28 | null iff every listed field is truthy and non-blank once printed and trimmed; otherwise "`field` is required" for the first missing field in list order |
| Utils.ValidateInput | server.js:177-184 | the loop of server.js's copy of `validateInput` returns exactly the result lib/utils.js specifies |
| Utils.StringValidationError | api/login.js:28-35 | null iff every field is a truthy, non-blank string; otherwise "`field` is required and cannot be empty" for the first failing field |
| Utils.MissingIff | lib/utils.js:23 | a value counts as missing exactly when it is falsy (so 0, NaN, false and "" do) or a string of whitespace; a truthy number never does |
| Utils.StringValidationStricter | api/login.js:28-35 | whatever the lib/utils.js validation rejects, the api/login.js validation rejects too |
| Utils.GetDistance | lib/utils.js:9-19 | `Infinity` exactly when some coordinate is falsy (including 0 and NaN); a measured distance only from four finite coordinates; NaN only when one is infinite |
| Utils.FalsyCoordinateFailsGate | api/mark-attendance.js:26-32 | a falsy coordinate always fails the `> 100` geofence, under the written gate and the corrected one |
| Utils.InfiniteCoordinatePassesAsWrittenGate | lib/utils.js:10-18 | an "Infinity" latitude yields NaN, and `NaN > 100` is false: the written gate lets the student through |
| Utils.GeofencePassIff | server.js:910-928 | with NaN rejected, a student passes iff all four coordinates are finite and non-zero and the haversine distance is at most 100 m |
| Utils.GatesAgreeExceptOnNaN | api/mark-attendance.js:30 | the written and the corrected gate decide alike on every distance except NaN |
| Http.ErrorMessage | api/register.js:31-38 | `error.message` of each rejection; it is non-empty except for a library error without text |
| Http.GenericGuard | lib/utils.js:30-35 | a rejection becomes 500 "An internal server error occurred"; a written response passes through unchanged |
| Http.MessageGuard | api/login.js:19-26 | a rejection becomes 500 with `error.message`, or "Internal server error" when that is empty; a written response passes through |
| Http.ExpressGuard | server.js:187-189 | a rejection goes to `next`, and Express answers 500 with its error page; a written response passes through |
| Http.TrimValue | api/courses/index.js:16 | `v.trim()` gives the trimmed string exactly when `v` is a string, and throws a TypeError naming the call otherwise |
| Js.TrimIdempotent | api/mark-attendance.js:14 | trimming twice is trimming once |
| Js.UpperIdempotent | api/mark-attendance.js:14 | upper-casing twice is upper-casing once |
| Js.Split | lib/auth.js:11 | `split(' ')` yields at least one segment, and no segment contains the separator |
| Js.Substring | api/generate-code.js:13 | `substring` is the slice between its bounds when they are in range, clamped otherwise |
| Store.DayOf | server.js:931-943 | the day number of an instant read at a zone offset: the instant falls within that day |
| Store.SerialIdsUnique | api/register.js:91-96 | rows numbered by `AUTO_INCREMENT` never share an id |
| Store.Db.InsertCode | api/generate-code.js:15-19 | the code table grows by exactly the given row; every other table is unchanged and the ids stay serial |
| Store.Db.InsertRecord | api/mark-attendance.js:43-46 | the ledger grows by exactly the given row; nothing else changes |
| Store.Db.InsertCourse | api/courses/index.js:19-20 | the course table grows by exactly the given row; nothing else changes |
| Store.Db.InsertStudent | api/register.js:91-96 | the student table grows by exactly the given row; nothing else changes |
| Store.Db.InsertLecturer | api/register.js:117-122 | the lecturer table grows by exactly the given row; nothing else changes |
| Auth.FirstSpaceEndsPrefix | lib/auth.js:7-11 | in a header that starts with `Bearer `, the prefix's space is the header's first space |
| Auth.BearerToken | lib/auth.js:11 | the second space-separated segment of the header; it contains no space |
| Auth.BearerTokenAfterPrefix | lib/auth.js:11 | the token is the first space-separated segment of what follows the prefix |
| Auth.PrefixThenSegment | lib/auth.js:11 | what follows the prefix splits at its first space into the token and a rest that is empty or starts with a space |
| Auth.BearerTokenShape | lib/auth.js:11 | the header is `Bearer `, the token, then nothing or a space and whatever follows |
| Auth.BearerTokenOfSigned | lib/auth.js:7-11 | `Bearer ` followed by a token without spaces passes the prefix test and yields exactly that token |
| Auth.VerifyToken | lib/auth.js:4-17 | an absent header, or one without the case-sensitive `Bearer ` prefix, gives 403 "Token required"; a token the verifier rejects gives 401 "Invalid token"; otherwise the handler receives the decoded claims |
| Auth.AdmittedIff | server.js:131-149 | the handler runs iff the header has the prefix and the verifier accepts its token |
| Auth.RejectionStatus | lib/auth.js:7-16 | a refusal is always 401 or 403 |
| Auth.SignedTokenAdmits | lib/auth.js:11-13 | a token from `sign`, sent as `Bearer <token>`, admits exactly its own claims when `verify` inverts `sign` |
| Auth.Guarded | lib/auth.js:12-13 | a refused request answers with the gate's response and the handler is not called; an admitted one answers with the handler's response to the claims |
| CodeIssue.CodeFromRandom | api/generate-code.js:13 | the code has at most six characters, exactly six when the random text is long enough, each an upper-case base-36 digit |
| CodeIssue.IssuedRow | api/generate-code.js:15-19 | the inserted row expires exactly 600 seconds after the issue instant and carries the code and the course |
| CodeIssue.Issue | api/generate-code.js:5-22 | a row is inserted iff the request is POST, the caller is a lecturer, courseId, lat and lon are present, the values can be stored and the course exists; the row is the issued row and the answer 200 with its code; every other answered request is 400, 403 or 405 |
| CodeIssue.IssueCode | api/generate-code.js:5-22 | run against the store, the code table grows by the decided row at most, the answer is the guarded outcome, and no other table changes |
| CodeIssue.IssueGates | api/generate-code.js:6-7 | a non-POST request gets 405 before anything else, then a non-lecturer gets 403; neither inserts |
| CodeIssue.IssueMissingField | api/generate-code.js:10-11 | a missing or blank courseId, lat or lon gives 400 naming the first missing field, and nothing is inserted |
| CodeIssue.IssueIgnoresOwnership | api/generate-code.js:5-21 | two different lecturers get the same decision for the same course: ownership and existing live codes are never consulted |
| CodeIssue.ServerIssue | server.js:736-805 | a row is inserted iff the caller is a lecturer, the fields are present, the values can be stored and the course exists; the answer also carries the expiry; a missing course gives 400 "Invalid course ID. Course does not exist." |
| CodeIssue.ServerIssueCode | server.js:736-805 | run against the store, the code table grows by the decided row at most and no other table changes |
| CodeIssue.IssueVersionsAgreeOnRow | server.js:754-757 | both deployments insert the same row for the same request |
| Attendance.Normalize | api/mark-attendance.js:14 | the normalised code is no longer than the input and neither starts nor ends with whitespace |
| Attendance.NormalizeIdempotent | api/mark-attendance.js:14 | normalising a normalised code changes nothing |
| Attendance.IssuedCodeIsNormal | api/generate-code.js:13 | an issued code is already in normal form, so presenting it verbatim finds it |
| Attendance.PlainCodeIsNormal | api/mark-attendance.js:14 | a string of upper-case base-36 digits is left unchanged by normalisation |
| Attendance.CodeCharIsPlain | api/mark-attendance.js:14 | an upper-case base-36 digit is not whitespace and upper-casing leaves it alone |
| Attendance.LiveCodes | api/mark-attendance.js:16-19 | every row the lookup returns is a stored row carrying the code and expiring strictly after now |
| Attendance.FirstLive | api/mark-attendance.js:16-26 | none iff no stored row carrying the code is unexpired; otherwise the earliest such row |
| Attendance.FirstLiveIsHead | api/mark-attendance.js:26 | the row used is the head of the lookup's result, and there is none exactly when the lookup is empty |
| Attendance.AppendKeepsOnePerDay | api/mark-attendance.js:34-46 | appending a record that the dedup query did not match keeps at most one record per student, course and day |
| Attendance.Round | api/mark-attendance.js:31 | `Math.round` of a distance lies within half a metre of it |
| Attendance.Redeem | api/mark-attendance.js:5-49 | a record is inserted only for a POST by a student with all fields present, and only when the first live row with the code is not beyond 100 m by the written `distance > 100` test (so also at a NaN distance) and the student has no record for its course today; the record is (next id, student, that course, now) and the answer 200; every refusal is a non-200 answer |
| Attendance.CorrectedRedeem | api/mark-attendance.js:27-32 | the handler with NaN refused: it inserts only what the written handler inserts, and only when the distance is a measured one within 100 m; every refusal is a non-200 answer |
| Attendance.MarkAttendance | api/mark-attendance.js:5-49 | run against the store, as written: the ledger grows by exactly the record `Redeem` decides, the answer is the guarded outcome, and no other table changes |
| Attendance.MarkAttendanceRoute | lib/auth.js:4-17 | behind the Bearer gate: a refused request gets the gate's answer and leaves the ledger alone; an admitted one runs the handler with the claims |
| Attendance.RedeemMethodAndRoleGates | api/mark-attendance.js:6-7 | a non-POST request gets 405 before any other check, then a non-student gets 403 |
| Attendance.RedeemExpiredCode | api/mark-attendance.js:16-24 | when every row with the code expired at or before now, the answer is 400 "Invalid or expired attendance code" and nothing is inserted |
| Attendance.ExpiryBoundary | api/mark-attendance.js:18 | a code is live one second before its expiry and not at its expiry |
| Attendance.IssuedCodeLiveWindow | api/generate-code.js:15-19 | a code issued at t is live exactly at the instants before t + 600 |
| Attendance.RedeemUsesFirstLiveRow | api/mark-attendance.js:26 | when several live rows share the code, the record goes to the course of the first of them |
| Attendance.DuplicateIssueShadowed | api/generate-code.js:13-19 | a newly issued code that repeats a live one is shadowed by the older row |
| Attendance.RedeemTooFar | api/mark-attendance.js:27-32 | beyond 100 m by the written test (a measured distance over 100 m, or `Infinity`) the answer is 403 with the rounded distance, whatever the ledger holds |
| Attendance.RedeemAtExactly100m | api/mark-attendance.js:30 | a distance of exactly 100 m passes, and a student not yet marked today is marked |
| Attendance.RedeemAccepts | api/mark-attendance.js:43-48 | a request that passes every gate, the written geofence included, inserts a record |
| Attendance.RedeemAlreadyMarked | api/mark-attendance.js:34-41 | a student who passes the written geofence and already has a record for the course today gets 409 and nothing is inserted |
| Attendance.RedeemTwiceConflicts | api/mark-attendance.js:34-48 | when `CURDATE()` and `DATE(marked_at)` agree on today, repeating a successful request gets 409 and inserts nothing |
| Attendance.RedeemTwiceAcceptedAcrossMidnight | api/mark-attendance.js:35 | when the session zone's date differs from the UTC date, the repeat is accepted a second time |
| Attendance.AppendOtherDayNotMarked | api/mark-attendance.js:35-37 | a record dated on another day does not make the dedup query match |
| Attendance.MidnightWitness | server.js:933 | 23:30 UTC falls on different dates at UTC and at UTC+01:00 |
| Attendance.RedeemGateOrder | api/mark-attendance.js:16-41 | gate order is expiry, then geofence, then dedup: an unmatched code gets 400 wherever the student stands, and a student beyond 100 m by the written test gets 403, not 409 |
| Attendance.RedeemKeepsOnePerDay | api/mark-attendance.js:34-46 | with the session zone at UTC, the handler keeps at most one record per student, course and day |
| Attendance.NaNDistanceMarkedAsWritten | api/mark-attendance.js:27-48 | a student who sends the latitude "Infinity" for a live code is answered 200 and recorded wherever they stand; the corrected handler answers 403 "(NaNm away)" |
| Attendance.ServerAttendanceCatch | server.js:967-978 | every error inside the route's `try` becomes a 500 |
| Attendance.ServerUnmatchedAsWritten | server.js:876 | as written, an unmatched code reads the undeclared `expiredCodes` and ends in the route's 500 |
| Attendance.ExpiryMessage | server.js:876-890 | the expiry message is never the invalid-code message |
| Attendance.ServerUnmatched | server.js:865-899 | the intended unmatched-code branch always answers 400 |
| Attendance.ExpiredTextIsNotInvalid | server.js:876-899 | the "expired" text differs from the "invalid" text for every elapsed time |
| Attendance.ServerUnmatchedDistinguishes | server.js:865-899 | the corrected branch calls a code invalid iff no row with the code has expired |
| Attendance.ServerUnmatchedReportsFirstExpired | server.js:876-890 | the corrected branch reports the time since expiry of the first expired row with the code |
| Attendance.JsonDistance | server.js:962 | `Math.round(distance)` as `res.json` writes it: a number within half a metre of a measured distance, `null` otherwise |
| Attendance.ServerRedeem | server.js:808-979 | as written: a record is inserted only for a student with all fields present, whose first live row is not beyond 100 m by the written test (so also at a NaN distance), and who has no record for its course on this UTC+01:00 day; the answer then carries `Math.round` of the distance (null when it is NaN), the course and the instant; an unmatched code never inserts |
| Attendance.CorrectedServerRedeem | server.js:865-928 | the route with both defects corrected never answers 500; it inserts only what the written route inserts, and only at a measured distance within 100 m, whose rounded value the answer carries |
| Attendance.UnmatchedCodeAnswers500AsWritten | server.js:865-899 | every unmatched or expired code gets 500 from the route as written and 400 from the corrected one |
| Attendance.ServerNaNDistanceMarkedAsWritten | server.js:909-966 | a student who sends the latitude "Infinity" for a live code is recorded and answered 200 with a null distance; the corrected route answers 403 |
| Attendance.ServerMarkAttendance | server.js:808-979 | run against the store, as written: the ledger grows by exactly the record `ServerRedeem` decides, the answer is the outcome passed through Express, and no other table changes |
| Attendance.ServerRedeemAlreadyMarked | server.js:931-943 | a student who passes the written geofence and is already marked on this UTC+01:00 day gets 409 "Attendance already marked for today" |
| Attendance.ServerRedeemKeepsOnePerDay | server.js:931-949 | the server route keeps at most one record per student, course and UTC+01:00 day, and repeating a success gets 409 |
| Attendance.VersionsShareLookupAndGeofence | server.js:832-949 | when both deployments insert, they insert the same record |
| Courses.CreateCourse | api/courses/index.js:11-21 | a missing field gives 400; a row is inserted iff both fields are strings and the trimmed code is not yet the caller's; the row holds the trimmed code and title and the caller's id, with 201; a code the caller already holds gives 409; only a truthy non-string field throws |
| Courses.Owned | api/courses/index.js:25 | a course is listed iff the caller owns it |
| Courses.OwnedSnoc | api/courses/index.js:25 | the listing keeps table order: a course appended to the table is appended to its owner's listing and to no other |
| Courses.ByCodeTotalPreorder | api/courses/index.js:26 | ordering by course code is a total preorder |
| Courses.Summarize | api/courses/index.js:25 | each listed course shows its id, code and title |
| Courses.OwnedByCodeIsSortedListing | api/courses/index.js:24-27 | the listing is sorted by code, is a permutation of the caller's courses, and contains a course iff the caller owns it |
| Courses.CoursesApi | api/courses/index.js:5-30 | a non-lecturer gets 403 whatever the method; POST creates; GET lists the caller's courses sorted by code; any other method gets 405 |
| Courses.InsertCourseIfNew | api/courses/index.js:11-21 | run against the store, the course table grows by the decided row at most and no other table changes |
| Courses.CoursesHandler | api/courses/index.js:5-30 | the serverless handler against the store: only the course table can change, by the decided row |
| Courses.ServerCreate | server.js:506-541 | the server route inserts exactly what the shared steps insert, and answers a rejection with its own 500 |
| Courses.ServerCreateCourse | server.js:506-541 | run against the store, the course table grows by the decided row at most and no other table changes |
| Courses.ServerListCourses | server.js:545-578 | a lecturer gets 200 with their own rows, sorted by code; anyone else gets 403 |
| Courses.CodeTakenAppend | api/courses/index.js:16-17 | after one insert, the dedup query matches the old rows or the new one |
| Courses.AppendKeepsCodesUnique | api/courses/index.js:16-20 | appending a course whose code its lecturer does not hold yet keeps codes unique per lecturer |
| Courses.CreateKeepsCodesUnique | api/courses/index.js:16-20 | creating a course keeps codes unique per lecturer |
| Courses.CreateTwiceConflicts | api/courses/index.js:16-20 | repeating a successful creation gets 409 and inserts nothing |
| Courses.CodeReusableByAnotherLecturer | api/courses/index.js:16 | another lecturer's course with the same code does not block creation |
| Courses.CreateVersionsAgree | server.js:506-541 | both deployments insert the same row, and answer alike when nothing throws |
| Reports.CourseRecords | api/courses/sessions.js:28 | exactly the records of the course |
| Reports.RecordsOn | api/courses/sessions.js:29 | exactly the records dated on the given day |
| Reports.Least | api/courses/sessions.js:22 | `MIN`: no greater than any row's key, and some row's key |
| Reports.Greatest | api/courses/sessions.js:23 | `MAX`: no smaller than any row's key, and some row's key |
| Reports.At | api/courses/sessions.js:29 | the session dated on a day is in the report, and there is none iff no session has that date |
| Reports.Add | api/courses/sessions.js:29-30 | counting one more record keeps the sessions in strictly descending date order |
| Reports.Tally | api/courses/sessions.js:18-31 | the sessions are in strictly descending date order, so there is one per date |
| Reports.AtAfterNewest | api/courses/sessions.js:30 | a date later than the newest session has no session |
| Reports.AddAt | api/courses/sessions.js:29 | counting a record changes the session of its own date and no other |
| Reports.GroupOnSnoc | api/courses/sessions.js:21-23 | a day's group grows by one record: count plus one, start and end widened |
| Reports.GroupOfSnoc | api/courses/sessions.js:21-23 | the grouped row over one more record of the day is the merge of the old row with it |
| Reports.ExtremesSnoc | api/courses/sessions.js:22-23 | `MIN` and `MAX` over one more row |
| Reports.GroupOnSnocOther | api/courses/sessions.js:29 | a record on another day leaves a group alone |
| Reports.TallyGroups | api/courses/sessions.js:18-31 | date by date, the aggregation agrees with the grouped query |
| Reports.AtMember | api/courses/sessions.js:30 | in descending date order, each session is the one found for its date |
| Reports.TallySessionsAreGroups | api/courses/sessions.js:20-29 | every session is the grouped query's row for its date: that day's count, earliest and latest instant |
| Reports.SessionShape | api/courses/sessions.js:21-25 | each session counts at least one record, its start is no later than its end, both fall on its date, and it names the course |
| Reports.EveryRecordedDayHasSession | api/courses/sessions.js:29 | every day with a record of the course has a session |
| Reports.AddTotal | api/courses/sessions.js:21 | counting a record raises the sum of the totals by one |
| Reports.TallyTotal | api/courses/sessions.js:21 | the session totals add up to the number of the course's records |
| Reports.TallyDates | api/courses/sessions.js:20 | the session dates are exactly the days that have records |
| Reports.DistinctDates | api/courses/sessions.js:29-30 | dates in descending order are distinct |
| Reports.SessionCount | api/courses/sessions.js:29 | there are as many sessions as distinct record days |
| Reports.KeySetBound | server.js:1122-1124 | a distinct count is at most the number of records |
| Reports.StatsBounds | server.js:1120-1129 | neither distinct students nor distinct dates outnumber the records, and there is a session iff there is a record |
| Reports.KeysBetween | server.js:1125-1126 | the least and greatest keys are keys, and every key lies between them |
| Reports.DatesBetween | api/courses/sessions.js:30 | every date of a descending list lies between its last and its first |
| Reports.ExtremeDates | server.js:1125-1126 | the latest record date is the newest session's and the first is the oldest's |
| Reports.StatsMatchSessions | server.js:1120-1129 | the statistics agree with the session report: session count, record total, first and latest date |
| Reports.SessionsOf | api/courses/sessions.js:18-31 | the sessions of the course, newest first; none when no course carries the id, since the join drops every record |
| Reports.JoinOne | server.js:606-623 | a record joins to at most one row, which shows it, and to exactly one when its student exists |
| Reports.Joined | server.js:606-623 | the join has at most one row per record and every row shows one of the records |
| Reports.JoinedComplete | server.js:606-623 | with every student present, the join keeps every record, in order |
| Reports.RecordOrdersTotal | server.js:621 | ordering by `marked_at`, ascending or descending, is a total preorder |
| Reports.ServerRecords | server.js:581-640 | 200 iff the caller is a lecturer, the parameter is non-empty and the caller owns the course; the listing then holds the course's joined records, newest first; a 403 is the role refusal or the ownership refusal |
| Reports.ListingOrdered | server.js:606-623 | the listing is ordered newest first, is a permutation of the course's joined records, and every row shows a record of that course |
| Reports.ServerRecordsOnDate | server.js:1041-1099 | 200 iff the caller is a lecturer and both parameters are non-empty, with no ownership check; an unknown course or date lists nothing |
| Reports.ServerSessions | server.js:985-1038 | 200 iff the caller is a lecturer and the parameter is non-empty, with no ownership check; the body is the course's sessions |
| Reports.SessionsApi | api/courses/sessions.js:5-34 | a non-GET request gets 405; otherwise it answers as the server route |
| Reports.DateListingMatchesSession | server.js:1041-1099 | with every student present, the date listing has as many rows as that date's session counts |
| Reports.DayListingCount | server.js:1041-1099 | with every student present, the date listing has one row per record of that date |
| Reports.StatsApi | server.js:1102-1150 | the serverless copy of this route first refuses any method but GET with 405, and otherwise answers as the server route |
| Reports.ServerStats | server.js:1102-1150 | 200 iff the caller is a lecturer who owns the course, with the statistics of its records; 404 only when the caller owns no course with that id |
| Reports.StatsAgreeWithSessionReport | server.js:1102-1150 | a lecturer reading both reports of a course sees the same session count, record total, and first and latest date |
| Reports.OwnedSessions | server.js:985-1038 | the sessions route with the ownership check of the other report routes: a 200 only for the course owner, who gets the route's answer; a lecturer who does not own the course gets 403 |
| Reports.OwnedRecordsOnDate | server.js:1041-1099 | the date listing with the same ownership check |
| Reports.SessionsIgnoreOwnership | server.js:985-1013 | another lecturer reads the session report of a course they do not own; the corrected route refuses |
| Reports.RecordsOnDateIgnoreOwnership | server.js:1041-1073 | another lecturer reads the names and matriculation numbers of those present on a day of a course they do not own |
| Registration.Lift | api/register.js:69-126 | a decision about one table, read as a decision about the registrant: same outcome, the same row |
| Registration.StudentSteps | api/register.js:69-96 | missing fields or a missing image give 400; a row is inserted iff the fields are strings and the trimmed number and email are both unused; the row holds the trimmed fields and the image; answered statuses are 201, 400 or 409 |
| Registration.LecturerSteps | api/register.js:105-122 | a row is inserted iff the fields are strings and the trimmed staff id and email are both unused; the row stores only the digest of the trimmed password; answered statuses are 201 or 409 |
| Registration.LecturerRest | api/register.js:116-122 | once the staff id and email are free, a row is inserted iff the password, name and phone are strings |
| Registration.ApiLecturer | api/register.js:98-122 | a missing lecturer field gives 400; otherwise the shared lecturer steps |
| Registration.RegisterApi | api/register.js:45-130 | OPTIONS gets 200 with no body; other non-POST methods 405; student and lecturer take their branches; any other userType gets 400 |
| Registration.ServerStudent | server.js:349-391 | inserts exactly what the shared student steps insert, and answers a rejection with 500 |
| Registration.ServerRegister | server.js:317-346 | a missing userType gives 400, an unknown one 400, a student takes the student steps, and a lecturer rejects with a ReferenceError |
| Registration.Answer | server.js:219-247 | a request is answered iff the handler settled with a response |
| Registration.BlankFields | server.js:257-269 | the scan rejects only with the TypeError of `value.trim` |
| Registration.BlankFieldsFails | server.js:258-260 | the scan throws iff some required field is a truthy non-string |
| Registration.BlankFieldsLists | server.js:258-260 | otherwise it lists exactly the blank fields, in the order given |
| Registration.BlankFieldsAgreeWithValidation | server.js:257-269 | the list is empty iff `validateInput` passes, and otherwise starts with the field it names |
| Registration.ServerLecturer | server.js:251-315 | a throwing scan rejects; a non-empty list gives 400 joining the missing fields; an empty list runs the shared lecturer steps |
| Registration.NoBlankMeansStrings | server.js:258-260 | with nothing listed, every required field is a string |
| Registration.ServerLecturerRejectsOnlyUntrimmable | server.js:251-315 | the route rejects iff some field is a truthy non-string |
| Registration.NoBlankLecturerForm | server.js:257-269 | with nothing listed, the five lecturer fields are strings |
| Registration.CorrectedServerRegister | server.js:317-346 | the intended `handleRegistration`: the lecturer branch runs the lecturer registration route |
| Registration.LecturerRegistrationUnanswered | server.js:344 | as written, no lecturer registration through `/api/register` is answered or inserts |
| Registration.CorrectedRegistrationAnswers | server.js:317-346 | once corrected, every request is answered except a lecturer registration carrying a truthy non-string field |
| Registration.AppendKeepsStudentsUnique | api/register.js:77-96 | appending a student whose number and email are both new keeps them unique |
| Registration.AppendKeepsLecturersUnique | api/register.js:105-122 | appending a lecturer whose staff id and email are both new keeps them unique |
| Registration.StudentStepsKeepUnique | api/register.js:77-96 | student registration keeps matriculation numbers and emails unique |
| Registration.LecturerStepsKeepUnique | api/register.js:105-122 | lecturer registration keeps staff ids and emails unique |
| Registration.StudentTwiceConflicts | api/register.js:77-86 | repeating a successful student registration gets 409 and inserts nothing |
| Registration.LecturerTwiceConflicts | api/register.js:105-114 | repeating a successful lecturer registration gets 409 and inserts nothing |
| Registration.RunStudentSteps | api/register.js:69-96 | the student steps run one `trim` at a time give the specified outcome and row |
| Registration.InsertStudentIfNew | api/register.js:69-96 | run against the store, the student table grows by the decided row at most and no other table changes |
| Registration.RunLecturerSteps | api/register.js:105-122 | the lecturer steps run one `trim` at a time give the specified outcome and row |
| Registration.InsertLecturerIfNew | api/register.js:105-122 | run against the store, the lecturer table grows by the decided row at most and no other table changes |
| Registration.RegisterHandler | api/register.js:45-130 | run against the store, at most one row is added, in the table that userType names |
| Registration.ApiRegisterLecturer | api/register.js:98-122 | run against the store, the lecturer branch adds the decided row at most |
| Registration.ServerRegistration | server.js:219-247 | run against the store, the answer, or none when the request is never answered; only the student table can change |
| Registration.ServerRegisterLecturer | server.js:251-315 | run against the store, the lecturer table grows by the decided row at most |
| Login.AccountsOf | api/login.js:93 | userType lecturer reads the lecturers, every other type the admins |
| Login.Compare | api/login.js:101 | the comparison succeeds exactly on the password that was hashed, and rejects a non-string candidate |
| Login.FindStudent | api/login.js:63-71 | a missing matNo gives 400; a truthy non-string throws at `trim`; a student is found iff one has the trimmed number, otherwise 404 "Student not found" |
| Login.FindAccount | api/login.js:94-105 | a non-string email throws at `trim`; 404 "User not found" iff no account has the trimmed email; a found account has the trimmed email and a digest of the password as sent; 401 "Invalid credentials" only when an account with that email holds another digest |
| Login.FindAccountUnique | api/login.js:94-105 | with one account per email, the account with that email is found when the digest matches, and 401 follows otherwise |
| Login.AccountLogin | api/login.js:87-115 | every refusal of the lookup (404 unknown email, 401 wrong password) is the answer; 200 iff the lookup finds the account, and it carries a token for that account and its row without the digest; a rejection comes only from comparing a non-string password |
| Login.ApiStudentLogin | api/login.js:63-85 | every refusal of the lookup (400 missing matNo, 404 unknown matNo, the `trim` TypeError) is the answer; 200 iff a student with the trimmed number exists, carrying a token, the face image and a summary of only id, name and mat_no |
| Login.ServerStudentLogin | server.js:404-435 | every refusal of the lookup (400, 404, the `trim` TypeError) is the answer; 200 iff a student with the trimmed number exists, carrying a token and the profile without the face path |
| Login.ApiLogin | api/login.js:42-119 | OPTIONS gets 200, other non-POST 405; a student gets the student lookup's refusal, or 200 iff found; every other userType gets 400 for a missing or non-string field, then the account lookup's refusal, or 200 iff found; only the student path can reject |
| Login.ApiLoginResponse | api/login.js:19-26 | after the wrapper, statuses are 200, 400, 401, 404, 405 or a 500 naming the failed `trim` |
| Login.ApiLoginAdmitsAccount | api/login.js:87-115 | a registered account with unique emails and the right password gets 200 with its own token and row |
| Login.ServerLogin | server.js:395-483 | a userType outside student, lecturer and admin gets 400; a student gets the student lookup's refusal, or 200 iff found; a lecturer or admin gets 400 for a missing field, then the account lookup's refusal, or 200 iff found; a 200 carries the matched student's profile or the matched account |
| Login.ServerLoginResponse | server.js:395-483 | after Express, statuses are 200, 400, 401, 404 or the 500 error page |
| Login.NumericEmailValidation | server.js:177-184 | a non-zero number as email passes the server's validation and fails the string validation of api/login.js |
| Login.NumericEmailDiverges | server.js:437-482 | on such an email the server answers 500 and api/login.js answers 400 |
| Login.AccountTokenAdmits | api/login.js:107-111 | the token of a successful account login admits claims with the requested userType, the trimmed email and an account id |
| Login.StudentTokenAdmits | api/login.js:73-85 | the token of a successful student login admits claims with the student type and the trimmed number |
| Login.LecturerAccountsUnique | api/register.js:105-114 | unique lecturer emails give unique account emails |
| Login.RegisteredLecturerAccount | api/register.js:116-122 | a newly registered lecturer is the last account, with the trimmed email and the digest of the trimmed password |
| Login.UntrimmedPasswordLocksOut | api/login.js:101 | a lecturer registered with a password that trimming changes gets 401 signing in with that same password, from both deployments |
| Login.LeadingSpacePasswordLocksOut | server.js:456 | signing in with " pw" after that registration gets 401 |
| Login.CorrectedFindAccount | api/login.js:101 | the corrected lookup compares the trimmed candidate; it agrees with the original when the candidate is already trimmed |
| Login.RegisteredLecturerSignsIn | api/register.js:116 | with the corrected lookup, a newly registered lecturer signs in with the password they registered |

## Left out

- The haversine arithmetic of `getDistance` is floating-point trigonometry. It is a parameter on finite coordinates. The falsy guard, and the NaN that an infinite coordinate produces, are modelled; a NaN from the formula itself on finite coordinates is not.
- `parseFloat`, `parseInt` and `Number` parsing of the body fields are parameters; courseId strings are compared with course ids as the parsed number.
- `Math.random` is a parameter: the raw base-36 text.
- bcrypt has no salt in the model: a digest is the hashed password itself, and comparison is equality.
- JWT signing, expiry and the secret are left out. `sign` and `verify` are parameters, and the token lemmas assume `verify` inverts `sign`.
- The check-then-insert races between the dedup queries and the inserts are not modelled. The model is sequential, one request at a time.
- SQL and connection plumbing: pools, connections and their closing, and failures to connect. The 500 answers of the catch branches are modelled only where a statement of the model can fail.
- multer upload parsing, the upload filename and file filter, CORS headers, logging, and the diagnostic fields some error bodies carry.
- Routes outside the core: `/api/login/student` (server.js:485-502), `/api/student/attendance` (server.js:643-680), and the debug and health routes.
- The browser code of public/js: the camera, face matching, geolocation and report printing.
- Server startup and shutdown.
- The phone-column fallback of `/api/register/lecturer` (server.js:292-302) is not modelled: the insert is taken to succeed with the phone column.
- Store semantics:
  - string comparison is exact equality, with no collation;
  - `toUpperCase` covers the ASCII letters only;
  - coordinates are stored as given;
  - rows that tie under `ORDER BY` keep table order, and a `SELECT` without `ORDER BY` returns rows in table order. So `codes[0]` in api/mark-attendance.js:26 and server.js:900 is taken to be the earliest live row (Attendance.FirstLive), which the store does not promise.
- `delete user.password_hash` and `delete student.face_scan_path` (api/login.js:113, server.js:428) mutate the fetched row. They are modelled as answering with a view that lacks the field.
- Http.ErrorMessage: a store error's message is written as "store error" and its code, not the driver's own text. No handler in the model prints the message of a store error.
- JavaScript values (Js.Value) are strings, integers, booleans, null and undefined. Fractional numbers, arrays and objects in a request body are not modelled, so a body such as `{"code": 1.5}` lies outside the model.
- Attendance.Redeem: `CURDATE()` is taken at the store's session zone, a parameter. When it differs from UTC the dedup can miss the record just written; this is stated as a lemma, not ruled out.

## Findings

| source | as written | input that shows it | evidently intended | confidence | as-written member | corrected member |
|---|---|---|---|---|---|---|
| server.js:865-899 | an unmatched or expired code reads the undeclared `expiredCodes` (server.js:876), and the ReferenceError ends in the route's 500 | any code with no live row | 400, saying how long ago the code expired, or that it is invalid | not executed | Attendance.UnmatchedCodeAnswers500AsWritten | Attendance.ServerUnmatchedDistinguishes |
| server.js:344 | `handleRegistration` calls the undeclared `handleLecturerRegistration`; the rejection reaches no `next`, so the request is never answered, and with no `unhandledRejection` handler a Node version of 15 or later also ends the process (the Node version is not pinned) | `POST /api/register` with userType "lecturer" | register the lecturer as `/api/register/lecturer` does | not executed | Registration.LecturerRegistrationUnanswered | Registration.CorrectedRegistrationAnswers |
| lib/utils.js:10-18 | a coordinate of "Infinity" is truthy, the haversine value is NaN, and `NaN > 100` is false, so the geofence passes: both deployments record the student (api/mark-attendance.js:43-48, server.js:944-966), server.js answering with a null distance | a student latitude of "Infinity" with a live code | a student whose distance cannot be measured is refused | not executed | Attendance.NaNDistanceMarkedAsWritten | Attendance.CorrectedRedeem |
| server.js:985-1038 | the sessions route (and api/courses/sessions.js) does not check that the caller owns the course | lecturer 2 asks for the sessions of lecturer 1's course 1 | 403, as the records route answers | not executed | Reports.SessionsIgnoreOwnership | Reports.OwnedSessions |
| server.js:1041-1099 | the by-date listing does not check ownership and reveals names and matriculation numbers | lecturer 2 asks for day 1970-01-01 of lecturer 1's course 1 | 403 | not executed | Reports.RecordsOnDateIgnoreOwnership | Reports.OwnedRecordsOnDate |
| api/login.js:101 | registration stores the digest of `password.trim()` (api/register.js:116, server.js:283), but login compares the password as sent | a lecturer registered with password " pw" signs in with " pw" | the lecturer signs in with the password they registered | not executed | Login.LeadingSpacePasswordLocksOut | Login.RegisteredLecturerSignsIn |

# Classroom attendance: the backend's attendance rules and the client's rate

A professor opens a class session by asking the backend for a QR code
(`generate_qr`). Students scan it, and the backend records each student as
present (`mark_attendance`). Both roles read back counts and percentages: the
professor's per-session list (`professor_attendance`) and each user's profile
(`profile`). The mobile client also has its own percentage helper
(`calculateAttendanceRate`).

This project models those rules in Dafny:

- `Schema` (`schema.dfy`) has one datatype per row of the three tables `users`,
  `sessions` and `attendance`. It also holds their primary-key and foreign-key
  constraints.
- `Backend` (`backend.dfy`) holds the two writing handlers. Each one is first a
  step function from the tables before a request to the tables after it and the
  reply (`GenerateQrStep`, `MarkAttendanceStep`). Lemmas on those functions
  state what holds across several requests. Next, the class
  `AttendanceServer` keeps the tables in sequence fields. Its methods
  `GenerateQr` and `MarkAttendance` update those fields in place. Each method is
  proved to return the step function's reply and leave the step function's
  tables.
- A reply is the JSON `status` field (`Success`/`Error`), the HTTP code and the
  rest of the body. The body is the message text, or the new QR text and
  session id.
- `Stats` (`stats.dfy`) is the read side. It computes the per-session
  present/total/rate list and the profile statistics as pure functions of the
  tables.
- `Rounding` (`rounding.dfy`) rounds an exact quotient n/d in two ways:
  - half to even, as Python's `round` does;
  - half up, as JavaScript's `Math.round` does (floor of x + 1/2).

  Each is specified by where n/d lies relative to the result, and that
  specification is proved to fix the result uniquely.
- `Helpers` (`helpers.dfy`) is the client's `calculateAttendanceRate`.
  `RateComparison` (`rate_comparison.dfy`) proves where it disagrees with the
  backend's rate: only on an exact .5 with an even whole part, where the client
  shows one more. For example, 1 of 8 is 13 on the client and 12 on the
  backend.
- `Decimal` (`decimal.dfy`) renders a professor id the way Python's `str(int)`
  does, for the QR text. `Wrappers` holds `Option`.

Modelling choices:

- The timestamp that `generate_qr` puts at the end of the QR text is taken as
  an input string: the text of `datetime.now().timestamp()`.
- The SERIAL id sequences of `sessions` and `attendance` are two counters in
  the state. Each id handed out is the counter's value, and the counter then
  moves on.
- `qr_code_data` is not declared unique. `mark_attendance` takes whichever row
  the database returns first. The model takes the first matching session in
  table order. Two lemmas say how far QR texts are distinct:
  - `QrDataDistinctTimestamps`: different timestamps (without '-') always give
    different texts.
  - `QrDataAmbiguousAtSameTimestamp`: at one timestamp, two different sessions
    can share a text, because the date itself contains '-'.
- The `attendance` table declares a foreign key from `student_id` to `users`.
  An unknown student therefore makes the INSERT fail, and the handler's
  exception path answers 500. The model keeps this case as the reply
  `UnknownStudent`:
  - `attendance` is unchanged;
  - the attendance id counter still advances, because PostgreSQL draws the
    SERIAL value before it checks the key.
- `professor_attendance` lists each session with two counts: the rows whose
  status is 'present', and all rows. `mark_attendance` only ever writes
  'present'. So while it is the only writer, every session's rate is 0 or 100,
  and a student's profile rate is 100 once they have any mark.

## Model

| member | source | states |
|---|---|---|
| `Rounding.RoundHalfEven` | Back_end/app.py:158 | the result is within one half of n/d, and is even when n/d is exactly halfway (Python's round) |
| `Rounding.RoundHalfEvenUnique` | Back_end/app.py:158 | any integer meeting that contract is the result, so the contract fixes the rounding |
| `Rounding.RoundHalfUp` | Front_end/utils/helpers.ts:30 | the result r satisfies n/d - 1/2 < r <= n/d + 1/2, i.e. floor(n/d + 1/2) (Math.round) |
| `Rounding.RoundHalfUpUnique` | Front_end/utils/helpers.ts:30 | any integer meeting that contract is the result |
| `Rounding.RoundHalfUpByRemainder` | Front_end/utils/helpers.ts:30 | half up is the floor quotient, plus one when twice the remainder reaches d |
| `Rounding.HalfUpVersusHalfEven` | Back_end/app.py:158 | half up equals half to even except on a tie with an even floor, where it is one more |
| `Rounding.RoundHalfEvenMonotonic` | Back_end/app.py:158 | half-to-even rounding never decreases as the numerator grows |
| `Rounding.RoundHalfUpMonotonic` | Front_end/utils/helpers.ts:30 | half-up rounding never decreases as the numerator grows |
| `Rounding.RoundExact` | Back_end/app.py:158 | an exact whole quotient is returned unchanged by both roundings |
| `Decimal.IntToString` | Back_end/app.py:68 | str(professor_id) is non-empty, starts with '-' exactly for negatives, and has no '-' otherwise |
| `Decimal.ParseIntToString` | Back_end/app.py:68 | reading the rendered id back gives the id |
| `Decimal.IntToStringInjective` | Back_end/app.py:68 | two ids render the same only if they are equal |
| `Stats.Rate` | Back_end/app.py:158 | 0 when total is 0; otherwise 100*present/total rounded to nearest, ties to even |
| `Stats.RateBounds` | Back_end/app.py:158 | for present <= total the rate lies in 0..100 |
| `Stats.RateExtremes` | Back_end/app.py:158 | nobody present gives 0, everybody present gives 100 |
| `Stats.RateTieGoesToEven` | Back_end/app.py:158 | 1 present of 8 gives 12 |
| `Stats.SessionStatsOf` | Back_end/app.py:139-159 | the entry carries the session's id, course name, course type and date; its total is the session's number of attendance rows (0 without any), present is the number of those rows with status 'present', the rate is Rate(present, total), present <= total and the rate is in 0..100 |
| `Stats.ProfessorAttendance` | Back_end/app.py:139-159 | one entry per session of that professor, the i-th being SessionStatsOf of the professor's i-th session (its id, name, type and date, its row count, its 'present' row count and Rate(present, total)), with present <= total and a rate in 0..100 |
| `Stats.AllPresentSessionRates` | Back_end/app.py:141-142 | when every row is 'present', each session has present == total and rate 0 (no rows) or 100 |
| `Stats.AllPresentRows` | Back_end/app.py:141 | counting the 'present' rows of an all-'present' table counts every row |
| `Stats.ProfessorSessionIds` | Back_end/app.py:175-178 | the distinct session ids counted are exactly the ids of that professor's sessions |
| `Stats.ClassesCountsSessions` | Back_end/app.py:174-181 | with session ids unique, 'classes' is the number of the professor's sessions |
| `Stats.ProfessorStudentIds` | Back_end/app.py:175-178 | the distinct students counted are exactly those with a mark in one of the professor's sessions |
| `Stats.StudentsAtMostMarks` | Back_end/app.py:175-181 | 'students' never exceeds the number of marks in the professor's sessions |
| `Stats.FindUser` | Back_end/app.py:167-171 | finds nothing exactly when no user has the id; otherwise a user with that id |
| `Stats.Profile` | Back_end/app.py:163-202 | 'User not found' exactly for an unknown id; otherwise the reply carries the found user's full name, email, user id and role, and professor stats exactly when that role is 'professor', with classes = the number of distinct session ids of that professor and students = the number of distinct students marked in them; otherwise total = the user's marks, present = those with status 'present', rate = Rate(present, total), present <= total, rate in 0..100 |
| `Stats.AllPresentStudentRate` | Back_end/app.py:183-190 | when every row is 'present', a student's present equals total and the rate is 100 once they have a mark, else 0 |
| `Backend.QrDataEndsWithTimestamp` | Back_end/app.py:68 | a timestamp without '-' is exactly the last '-'-separated field of the QR text |
| `Backend.QrDataDistinctTimestamps` | Back_end/app.py:68 | QR texts built at two different timestamps differ, whatever the other fields |
| `Backend.QrDataAmbiguousAtSameTimestamp` | Back_end/app.py:68 | at one timestamp, date "2025-01-10" with course "Math" and date "2025-01" with course "10-Math" give the same QR text |
| `Backend.FindSessionByQr` | Back_end/app.py:90-92 | no result exactly when no session has the QR text; otherwise the first session that has it |
| `Backend.CountMarks` | Back_end/app.py:97-98 | the count is positive exactly when a mark for (session, student) exists |
| `Backend.CountMarksAtMostOne` | Back_end/app.py:97-100 | with marks unique per (session, student), the count is at most one |
| `Backend.QrData` | Back_end/app.py:68 | the QR text starts with the session date and a '-', ends with a '-' and the timestamp, and is as long as its five fields plus four separators |
| `Backend.GenerateQrStep` | Back_end/app.py:59-76 | 'Session already exists' exactly when a session with the same (name, type, date, professor) exists, and then the tables are unchanged; otherwise success, 200, the QR text and the next session id, with exactly that session appended and the id sequence advanced; users, attendance and the attendance ids never change; afterwards the key is always taken |
| `Backend.MarkAttendanceStep` | Back_end/app.py:89-106 | the reply is one of the four outcomes; 'Invalid QR Code' exactly when no session has the text; 'Already marked' only when a matching session already holds a mark of the student, and then nothing changes; the unknown-student 500 leaves the tables unchanged but uses up one attendance id; success appends exactly one 'present' row for a matching session; a known student without a mark in the matching sessions always gets 'Invalid QR Code' or success; users and sessions never change |
| `Backend.GenerateQrKeepsInvariants` | Back_end/app.py:60-76 | generate_qr keeps the key constraints and never creates a second session for one (name, type, date, professor) |
| `Backend.MarkAttendanceKeepsInvariants` | Back_end/app.py:90-106 | mark_attendance keeps the key constraints, at most one mark per (session, student), and writes only 'present' |
| `Backend.MarkAttendanceRepeat` | Back_end/app.py:97-103 | repeating a successful mark gets 'Already marked' and changes nothing |
| `Backend.GenerateThenMark` | Back_end/app.py:68-106 | a session just created, with a QR text no older session has, accepts an existing user's first mark and records it against the new session id |
| `Backend.MarkAttendanceCounts` | Back_end/app.py:102-103 | a successful mark adds one to its session's total and present count and leaves other sessions' counts alone |
| `Backend.AttendanceServer.constructor` | Back_end/reset_db.py:22-53 | empty sessions and attendance tables over distinct users satisfy every invariant |
| `Backend.AttendanceServer.GenerateQr` | Back_end/app.py:50-76 | duplicate (name, type, date, professor): error, 409, 'Session already exists', sessions unchanged; otherwise success, 200, the QR text date-name-type-professor-timestamp and the new id, with exactly that one session appended; users and attendance unchanged |
| `Backend.AttendanceServer.MarkAttendance` | Back_end/app.py:82-106 | unknown QR text: error, 400, 'Invalid QR Code', nothing changed; existing mark: error, 409, 'Already marked', nothing changed; unknown student: 500, attendance unchanged; otherwise success, 200, 'Attendance marked', exactly one 'present' row appended; users and sessions never change |
| `Helpers.CalculateAttendanceRate` | Front_end/utils/helpers.ts:28-30 | 0 when total is 0; otherwise 100*present/total rounded half up (floor of x + 1/2), for either sign of total |
| `Helpers.CalculateAttendanceRateBounds` | Front_end/utils/helpers.ts:28-30 | for 0 <= present <= total the result lies in 0..100 |
| `Helpers.CalculateAttendanceRateExtremes` | Front_end/utils/helpers.ts:29-30 | present 0 gives 0; present == total > 0 gives 100 |
| `Helpers.CalculateAttendanceRateMonotonic` | Front_end/utils/helpers.ts:30 | for a fixed positive total the result never decreases as present grows |
| `Helpers.CalculateAttendanceRateTieGoesUp` | Front_end/utils/helpers.ts:30 | 1 present of 8 gives 13 |
| `RateComparison.ClientVersusBackendRate` | Front_end/utils/helpers.ts:29-30 | client and backend rates agree except on an exact .5 with an even whole part, where the client's is one more |
| `RateComparison.ClientAndBackendRatesClose` | Front_end/utils/helpers.ts:30 | the client's rate is the backend's or one more |
| `RateComparison.OneOfEightDiffers` | Front_end/utils/helpers.ts:30 | for 1 of 8 the backend gives 12 and the client 13 |

## Left out

- Flask routing, Swagger, CORS, the psycopg2 connection and the SQL text (Back_end/app.py:1-22) are transport and database plumbing. The tables are sequences here.
- Except for the foreign-key failure above, the `except ... 500` paths of both handlers (Back_end/app.py:77-79, 107-109) are left out. They catch database errors raised inside the `try`: a NOT NULL violation from a missing JSON field (the model's parameters are never missing) and a value the column type rejects (next line). `get_connection()` runs before the `try` (Back_end/app.py:57, 87), so a failed connection never reaches these paths.
- Backend.GenerateQrStep: ids are unbounded integers here, but the source's `INTEGER` and `SERIAL` columns (Back_end/reset_db.py:24-48) hold 32-bit values. A `professor_id` outside -2147483648..2147483647 passes the duplicate SELECT, then the INSERT fails with 'integer out of range' and the source answers 500 with `sessions` unchanged. The model answers 200 and appends the session. The same applies to `Backend.AttendanceServer.GenerateQr`, and to the id sequences running past 2147483647.
- Backend.MarkAttendanceStep: a `student_id` outside the 32-bit range cannot be a user's id in the source, and its INSERT fails with a 500. The model answers it with the unknown-student 500 whenever no user has that id, and it does not model whether the source draws an attendance id in that case.
- Concurrent requests are left out. `mark_attendance` does COUNT then INSERT without a lock or a unique constraint. So "at most one mark per (session, student)" holds only for requests handled one after another, which is what the model's step functions and methods describe.
- `login` (Back_end/app.py:24-47) is left out. It hashes the password with SHA-256 and looks up the pair, and the hash is a foreign call.
- `student_attendance` (Back_end/app.py:111-133) is a join listing with no rule to state.
- `health` is left out.
- The seeding in Back_end/reset_db.py is left out. The constructor starts from a given list of users instead.
- `datetime.now()` is an input string, as is its textual rendering.
- Both rates divide in floating point (Back_end/app.py:158, 189; Front_end/utils/helpers.ts:30). Here they are exact rational roundings over integers, so a quotient that floating point lands just off a .5 tie is rounded as the exact value would be.
- `Stats.ProfessorAttendance`: the SQL has GROUP BY without ORDER BY, so the database may return sessions in any order. The model lists them in table order.
- `generateUniqueId` (Math.random) and `formatDate` (locale-dependent Date formatting) in Front_end/utils/helpers.ts are left out.
- Front_end/utils/api.ts (fetch wrappers), the React contexts and the screens are UI and network code.
- The client-side scan cooldown controller is not part of this model.

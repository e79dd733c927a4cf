# Teacher/student registration service — Dafny model

This project models the business layer of a small teacher/student
registration service. It also models the request validation in front of that
layer. The relational database is replaced by an abstract, immutable store
(`store.dfy`). The store has three parts:

- a map from student email to its `suspended` flag;
- the set of teacher emails;
- the sequence of (teacher, student) registration rows, in insertion order.

This is the shape of the in-memory database the integration tests put in place
of the ORM. Each mutating operation (registration, suspension) is a pure
function from a store to a new store and a result. Each query (common
students, recipients) is a pure function from a store to a result. The two
listing projections are methods with loops that read the store.

Files and modules:

- `collections.dfy` (`Collections`): `Option`, `NoDup`, the subsequence
  relation, order-preserving de-duplication (`Array.from(new Set(xs))`) and
  `a.filter((c) => b.includes(c))`.
- `store.dfy` (`Store`): the store, its well-formedness (`Valid`: every row
  refers to an existing teacher and student), and a teacher's student list as
  reached through the junction rows.
- `mentions.dfy` (`Mentions`): the `@`-mention scanner. It is the regular
  expression `/@([a-zA-Z0-9._%+-]+@[a-zA-Z0-9.-]+\.[a-zA-Z]{2,})/g` under the
  `exec` loop, written as a recursive scan over `seq<char>`.
- `mention_examples.dfy` (`MentionExamples`): the scanner worked through on
  one concrete text.
- `service.dfy` (`TeacherService`) covers:
  - registration (find-or-create);
  - common students (left fold of list filtering);
  - one-way suspension;
  - notification recipients;
  - the listing projections.
- `controller.dfy` (`TeacherController`) covers:
  - payload validation and the mapping to 400/404/201/204/200;
  - the comma splitting of the common-students query.

Where the model had to choose an order that the database decides, it does so
as follows:

- The teachers found by the common-students query are taken in request order,
  each once. A SQL `IN` query returns each row once, in an order the database
  picks.
- Mentioned students are taken in order of first mention.

Two behaviours of the code worth knowing:

- An empty `teacher` query string is not rejected. `"".split(",")` is `[""]`,
  which has one element, so the handler answers 200 with the common students
  of the (unknown) teacher `""`, which is `[]`. Only an absent parameter or an
  empty repeated-parameter list gets 400.
- Registering an existing pair again adds another junction row. The source
  has no duplicate guard, and the in-memory store appends a row on every
  `addStudent`. The model does the same (`RegisterTwiceDuplicates`).

## Model

| member | source | states |
|---|---|---|
| `TeacherService.FindOrCreateStudent` | src/services/teacher.service.ts:53-55 | the email is a student afterwards; an existing student keeps its flag; a new one starts not suspended; nobody else changes |
| `TeacherService.EnrollEach` | src/services/teacher.service.ts:52-57 | the per-student loop: teachers unchanged, students = old ∪ listed (old flags kept, new ones not suspended), old rows kept as a prefix, then exactly one row (t, ss[i]) per listed student in list order |
| `TeacherService.Register` | src/services/teacher.service.ts:45-59 | teacher created or found even for an empty list; every listed email becomes a student without disturbing existing flags; exactly one new row per listed student in order; result message "Register Successfully!" |
| `TeacherService.RegisterExtendsStudentList` | src/services/teacher.service.ts:49-58 | the teacher's student list becomes the old list followed by the listed students (duplicates included); every other teacher's list is unchanged |
| `TeacherService.RegisterPreservesValid` | src/services/teacher.service.ts:49-57 | after registration every junction row still refers to an existing teacher and student |
| `TeacherService.RegisterTwiceDuplicates` | src/services/teacher.service.ts:52-57 | there is no duplicate guard: registering the same list twice lists every student twice for that teacher |
| `Store.StudentsOf` | src/services/teacher.service.ts:63-71 | a student is in a teacher's list iff a junction row links them; one entry per row |
| `Store.StudentsOfAreStudents` | __test__/teacher.controller.integration.test.ts:164-171 | in a well-formed store every student reached from a teacher through the rows is a stored student, so dropping rows with a missing student (the `filter(Boolean)` of the in-memory store) drops nothing |
| `Store.StudentsOfAppend` | src/services/teacher.service.ts:56 | appending rows appends exactly the new rows' students to each teacher's list |
| `Collections.KeepIn` | src/services/teacher.service.ts:76 | `a.filter(c => b.includes(c))`: exactly the elements of a that are in b, each kept as many times as it occurs in a, as a subsequence of a |
| `Collections.Dedup` | src/services/teacher.service.ts:132-134 | `Array.from(new Set(xs))`: no duplicates, the same elements as xs |
| `TeacherService.KeepCommon` | src/services/teacher.service.ts:75-77 | reference definition of the intersection: elements of the first list that are in every list, as a subsequence of the first list |
| `TeacherService.ReduceIntersect` | src/services/teacher.service.ts:75-77 | the fold keeps a student exactly as often as it occurs in the first list when every list contains it, and drops it otherwise |
| `TeacherService.ReduceIsKeepCommon` | src/services/teacher.service.ts:75-77 | the left fold `reduce((a, b) => a.filter(c => b.includes(c)))` equals the reference intersection |
| `TeacherService.KeepInOfKeepCommon` | src/services/teacher.service.ts:75-77 | one more fold step is one more list in the reference intersection |
| `TeacherService.FetchTeachers` | src/services/teacher.service.ts:63-66 | the found teachers are exactly the requested emails that are teachers, each once |
| `TeacherService.CommonStudents` | src/services/teacher.service.ts:62-79 | `[]` when no requested teacher exists; otherwise the first found teacher's list filtered by membership in every found teacher's list |
| `TeacherService.CommonStudentsMembership` | src/services/teacher.service.ts:69-78 | the result is a subsequence of the first teacher's list; each result student is registered to every found teacher; each student of the first list registered to every found teacher is in the result |
| `TeacherService.CommonStudentsAreStudents` | src/services/teacher.service.ts:62-79 | in a well-formed store every common student is a stored student |
| `TeacherService.CommonStudentsOfOne` | src/services/teacher.service.ts:73-78 | with exactly one found teacher the result is that teacher's whole list, unchanged |
| `TeacherService.Suspend` | src/services/teacher.service.ts:82-86 | returns true; the student is suspended afterwards; no student is added or removed, no other flag changes, teachers and rows unchanged |
| `TeacherService.SuspendIdempotent` | src/services/teacher.service.ts:82-86 | suspending twice gives the same store and result as suspending once |
| `TeacherService.SuspendPreservesValid` | src/services/teacher.service.ts:82-86 | suspension keeps every junction row referring to existing records |
| `TeacherService.RegisteredActive` | src/services/teacher.service.ts:94-108 | exactly the non-suspended students linked to the teacher, and nothing for an unknown teacher |
| `TeacherService.KeepActive` | src/services/teacher.service.ts:117-129 | exactly the listed emails that are existing, non-suspended students |
| `TeacherService.Recipients` | src/services/teacher.service.ts:89-136 | no duplicates; a student is a recipient iff it exists, is not suspended, and is registered to the (existing) teacher or mentioned in the text |
| `TeacherService.SuspendedNeverNotified` | src/services/teacher.service.ts:94-129 | after a student is suspended it receives no notification, whether registered or mentioned |
| `TeacherService.NoMentionNoExtra` | src/services/teacher.service.ts:110-118 | a text without `@` reaches exactly the teacher's non-suspended registered students |
| `TeacherService.AllStudents` | src/services/teacher.service.ts:20-28 | one row per student, each with the student's flag, no email twice |
| `TeacherService.AllTeachers` | src/services/teacher.service.ts:30-37 | one row per teacher, no email twice |
| `Mentions.RunEnd` | src/services/teacher.service.ts:110 | end of the maximal run of one character class: everything before is in the class, the character at the end is not |
| `Mentions.LastTldDot` | src/services/teacher.service.ts:110 | the backtracking of `[a-zA-Z0-9.-]+\.`: the last dot in range followed by two letters, or none |
| `Mentions.MatchAt` | src/services/teacher.service.ts:110-115 | a match starts with `@` and its capture is local@domain.tld over the pattern's character classes, with a top-level part of at least two letters |
| `Mentions.MatchAtIsLongestCapture` | src/services/teacher.service.ts:110-115 | the scanner matches at a position iff some e-mail shaped capture follows an `@` there, and then takes the longest one, as the greedy pattern does |
| `Mentions.Scan` | src/services/teacher.service.ts:111-115 | every collected mention is e-mail shaped; a stretch without `@` yields none |
| `Mentions.ScanEmptyIffNoCapture` | src/services/teacher.service.ts:111-115 | the scan from a position collects nothing iff no position from there on starts a capture, so no match is missed |
| `Mentions.ScanFirstCapture` | src/services/teacher.service.ts:111-115 | the scan first reports the longest capture at the leftmost position that has one, then resumes where that capture ends |
| `Mentions.Extract` | src/services/teacher.service.ts:110-115 | every mention is e-mail shaped; a text with no `@` has no mentions |
| `Mentions.ExtractEmptyIffNoCapture` | src/services/teacher.service.ts:110-115 | a text has mentions iff some `@` in it is followed by an e-mail shaped capture |
| `Mentions.ExtractFirstMention` | src/services/teacher.service.ts:110-115 | the first mention is the longest capture at the leftmost `@` that has one, and the remaining mentions are scanned from its end |
| `MentionExamples.TwoMentions` | src/services/teacher.service.ts:110-115 | "Hi @a@b.com and @c@d.org" yields ["a@b.com", "c@d.org"] |
| `TeacherController.Split` | src/controllers/teacher.controller.ts:77-78 | `split(",")` yields at least one piece, no piece holds a comma, and joining the pieces with commas gives back the string |
| `TeacherController.SplitJoin` | src/controllers/teacher.controller.ts:77-78 | splitting comma-joined comma-free pieces gives back the pieces |
| `TeacherController.SplitCount` | src/controllers/teacher.controller.ts:77-78 | the number of pieces is the number of commas plus one |
| `TeacherController.QueryEmails` | src/controllers/teacher.controller.ts:74-79 | a repeated parameter is passed through; a string is split into at least one comma-free piece, and the pieces join back to the string; an absent parameter gives none |
| `TeacherController.HandleRegister` | src/controllers/teacher.controller.ts:47-67 | 400 "Invalid payload" with the store untouched unless the teacher is non-empty and students is a list; otherwise 201 with the acknowledgement; the teacher is the only teacher added; the students are the old ones plus the listed ones, existing flags kept and new students not suspended; the teacher's list grows by exactly the listed students and every other teacher's list is unchanged |
| `TeacherController.HandleCommonStudents` | src/controllers/teacher.controller.ts:70-87 | 400 "Missing teacher emails" iff the parameter is absent or an empty list; otherwise 200 with the common students of the named teachers |
| `TeacherController.HandleSuspend` | src/controllers/teacher.controller.ts:90-107 | 400 for a missing or empty email and 404 "Student not found" for an unknown one, both without mutation; otherwise 204 with that student suspended and nothing else changed |
| `TeacherController.HandleSuspendTwice` | src/controllers/teacher.controller.ts:98-106 | suspending through the handler twice answers 204 both times and ends in the same store as once |
| `TeacherController.HandleNotification` | src/controllers/teacher.controller.ts:110-127 | 400 unless both teacher and notification are non-empty; otherwise 200 with duplicate-free recipients that are exactly the non-suspended registered or mentioned students |

## Left out

- Storage failures and the 500 responses they lead to. The abstract store
  cannot fail, so the `catch` branches of the handlers are not modelled.
- The listing handlers (`getAllStudents`, `getAllTeachers`,
  `getAllRegistraions` in the controller). Each only wraps a projection in a
  200 response.
- `getAllRegistrations`: it returns the stored rows as they are. In the model
  that is the store's `registrations` sequence itself, so it has no member of
  its own.
- The order in which the database returns rows. The listing methods leave it
  open. Teacher lookup uses request order. Mentioned students use first-mention
  order. The recipients contract is stated as a set (plus no duplicates).
- `CommonStudents` with duplicate rows: the first fetched teacher's list
  supplies the repeats, so the request order can change the length of the
  result as well as its order. With rows (t1, x), (t1, x), (t2, x), asking
  for `t2,t1` gives `["x"]` and asking for `t1,t2` gives `["x", "x"]`. The
  in-memory store returns teachers in creation order, so there both requests
  give `["x", "x"]` when t1 was created first.
- Sequelize's own association `add` may leave an existing (teacher, student)
  pair alone instead of inserting a second row. The model follows the
  in-memory store, which appends a row every time.
- Async execution, the lack of a transaction around the registration loop, and
  find-or-create races. These are concurrency concerns with no sequential
  content.
- Non-string JSON values in fields the handlers declare as strings
  (`teacher`, `student`, `notification`). These are modelled as an optional
  string. For the `students` body field and the `teacher` query parameter,
  only absent, string and string-list values are modelled.
- The 204 response body: HTTP drops it, and the model keeps the message only
  for completeness.
- Email equality is exact, as in the in-memory test store: map keys, set
  membership and `==` compare characters one by one. The program's backend is
  MySQL, whose default collation compares case-insensitively, so there
  `A@b.com` finds, registers and notifies the student `a@b.com`. In the model
  they are two different emails.
- JavaScript strings are UTF-16 code units. The scanner works on Dafny `char`s
  and has no notion of surrogate pairs (the pattern is ASCII-only either way).
- The ORM model definitions, database connection, application bootstrap, seed
  script, routing and message constants are not part of this model. The
  messages appear as literals where a contract needs them.

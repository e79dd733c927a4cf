/**
 The request handlers: payload validation, the comma splitting of the
 common-students query, the call into the service, and the mapping to a
 status code and response body.
 */
module TeacherController {
  import opened Collections
  import opened Store
  import TeacherService

  /** A request field that may be absent, a string, or a list of strings
      (a JSON array in a body, a repeated parameter in a query). */
  datatype Field = Absent | Text(s: string) | List(items: seq<string>)

  datatype Body =
    | Created(message: TeacherService.Acknowledgement)
    | Error(error: string)
    | Students(students: seq<Email>)
    | Recipients(recipients: seq<Email>)
    | Message(text: string)

  datatype Response = Response(status: int, body: Body)

  /** JavaScript truthiness of an optional string field: present and non-empty. */
  predicate Truthy(f: Option<string>) {
    f.Some? && f.value != ""
  }

  // ---------------------------------------------------------------------
  // Comma splitting of the teacher query

  /** The pieces joined back with commas. */
  function Join(parts: seq<string>): (s: string)
    requires |parts| > 0
    decreases |parts|
  {
    if |parts| == 1 then parts[0] else parts[0] + "," + Join(parts[1..])
  }

  /** `s.split(",")`: the pieces between commas, including empty ones; never
      an empty list. */
  function Split(s: string): (parts: seq<string>)
    ensures |parts| > 0
    ensures forall j :: 0 <= j < |parts| ==> ',' !in parts[j]
    ensures Join(parts) == s
    decreases |s|
  {
    if s == [] then [""]
    else
      var rest := Split(s[1..]);
      if s[0] == ',' then
        assert s == [','] + s[1..];
        [""] + rest
      else
        var parts := [[s[0]] + rest[0]] + rest[1..];
        assert parts[1..] == rest[1..];
        assert s == [s[0]] + s[1..];
        parts
  }

  /** The number of pieces is one more than the number of commas. */
  lemma {:induction false} SplitCount(s: string)
    ensures |Split(s)| == CommaCount(s) + 1
    decreases |s|
  {
    if s != [] {
      SplitCount(s[1..]);
    }
  }

  function CommaCount(s: string): nat
    decreases |s|
  {
    if s == [] then 0 else (if s[0] == ',' then 1 else 0) + CommaCount(s[1..])
  }

  /** Splitting undoes joining for comma-free pieces. */
  lemma {:induction false} SplitJoin(parts: seq<string>)
    requires |parts| > 0
    requires forall j :: 0 <= j < |parts| ==> ',' !in parts[j]
    ensures Split(Join(parts)) == parts
    decreases |parts|, |parts[0]|
  {
    if |parts| == 1 {
      SplitNoComma(parts[0]);
    } else if parts[0] == "" {
      var tail := Join(parts[1..]);
      assert Join(parts) == [','] + tail;
      assert Join(parts)[1..] == tail;
      SplitJoin(parts[1..]);
      assert parts == [""] + parts[1..];
    } else {
      var c := parts[0][0];
      var shorter := [parts[0][1..]] + parts[1..];
      assert shorter[1..] == parts[1..];
      assert forall j :: 1 <= j < |shorter| ==> shorter[j] == parts[j];
      assert ',' !in shorter[0] by {
        assert forall k :: 0 <= k < |parts[0][1..]| ==> parts[0][1..][k] == parts[0][k + 1];
      }
      SplitJoin(shorter);
      assert Join(parts) == [c] + Join(shorter);
      assert Join(parts)[1..] == Join(shorter);
      assert c != ',';
      assert [c] + parts[0][1..] == parts[0];
    }
  }

  /** A comma-free string splits into itself. */
  lemma {:induction false} SplitNoComma(s: string)
    requires ',' !in s
    ensures Split(s) == [s]
    decreases |s|
  {
    if s != [] {
      assert ',' !in s[1..];
      SplitNoComma(s[1..]);
      assert [s[0]] + s[1..] == s;
    }
  }

  /** The teacher emails a query names: a repeated parameter as given, a
      string split on commas, nothing when the parameter is absent. */
  function QueryEmails(q: Field): (emails: seq<Email>)
    ensures q.Absent? ==> emails == []
    ensures q.List? ==> emails == q.items
    ensures q.Text? ==>
      (&& |emails| > 0
       && (forall j :: 0 <= j < |emails| ==> ',' !in emails[j])
       && Join(emails) == q.s)
  {
    match q
    case List(items) => items
    case Text(s) => Split(s)
    case Absent => []
  }

  // ---------------------------------------------------------------------
  // Handlers

  /** POST /register: a non-empty teacher and a students array are required;
      an empty array is accepted. */
  function HandleRegister(st: Store, teacher: Option<string>, students: Field): (r: (Store, Response))
    ensures !(Truthy(teacher) && students.List?) ==>
      r.0 == st && r.1 == Response(400, Error("Invalid payload"))
    ensures Truthy(teacher) && students.List? ==>
      && r.1 == Response(201, Created(TeacherService.Acknowledgement("Register Successfully!")))
      && r.0.teachers == st.teachers + {teacher.value}
      && r.0.students.Keys == st.students.Keys + (set s | s in students.items)
      && (forall e :: e in st.students ==> r.0.students[e] == st.students[e])
      && (forall e :: e in r.0.students && e !in st.students ==> !r.0.students[e])
      && StudentsOf(r.0.registrations, teacher.value) == StudentsOf(st.registrations, teacher.value) + students.items
      && (forall u :: u != teacher.value ==>
            StudentsOf(r.0.registrations, u) == StudentsOf(st.registrations, u))
  {
    if !Truthy(teacher) || !students.List? then
      (st, Response(400, Error("Invalid payload")))
    else
      var (st', ack) := TeacherService.Register(st, teacher.value, students.items);
      TeacherService.RegisterExtendsStudentList(st, teacher.value, students.items);
      (st', Response(201, Created(ack)))
  }

  /** GET /commonstudents: at least one teacher email is required. An empty
      string still splits into one (empty) email and is not rejected. */
  function HandleCommonStudents(st: Store, q: Field): (r: Response)
    ensures r.status == 400 <==> q.Absent? || (q.List? && q.items == [])
    ensures r.status == 400 ==> r.body == Error("Missing teacher emails")
    ensures r.status != 400 ==>
      r.status == 200 && r.body == Students(TeacherService.CommonStudents(st, QueryEmails(q)))
  {
    var emails := QueryEmails(q);
    if |emails| == 0 then Response(400, Error("Missing teacher emails"))
    else Response(200, Students(TeacherService.CommonStudents(st, emails)))
  }

  /** POST /suspend: a non-empty email is required and the student must exist;
      then the student is suspended and the response has no content. */
  function HandleSuspend(st: Store, student: Option<string>): (r: (Store, Response))
    ensures !Truthy(student) ==> r == (st, Response(400, Error("No student email provided")))
    ensures Truthy(student) && student.value !in st.students ==>
      r == (st, Response(404, Error("Student not found")))
    ensures Truthy(student) && student.value in st.students ==>
      r.1.status == 204 &&
      r.0.students.Keys == st.students.Keys && r.0.students[student.value] &&
      (forall e :: e in st.students && e != student.value ==> r.0.students[e] == st.students[e]) &&
      r.0.teachers == st.teachers && r.0.registrations == st.registrations
  {
    if !Truthy(student) then (st, Response(400, Error("No student email provided")))
    else if student.value !in st.students then (st, Response(404, Error("Student not found")))
    else
      var (st', suspended) := TeacherService.Suspend(st, student.value);
      if !suspended then (st', Response(404, Error("Some Error Occurred")))
      else (st', Response(204, Message("Suspend Student Successfully!")))
  }

  /** POST /retrievefornotifications: both a teacher and a non-empty text are
      required. */
  function HandleNotification(st: Store, teacher: Option<string>, notification: Option<string>): (r: Response)
    ensures !(Truthy(teacher) && Truthy(notification)) ==>
      r == Response(400, Error("Missing teacher or notification"))
    ensures Truthy(teacher) && Truthy(notification) ==>
      r.status == 200 && r.body.Recipients? && NoDup(r.body.recipients) &&
      forall s :: s in r.body.recipients <==>
        TeacherService.IsRecipient(st, teacher.value, notification.value, s)
  {
    if !Truthy(teacher) || !Truthy(notification) then
      Response(400, Error("Missing teacher or notification"))
    else
      Response(200, Recipients(TeacherService.Recipients(st, teacher.value, notification.value)))
  }

  /** Suspending the same student twice through the handler ends in the same
      store as suspending once, and both calls answer 204. */
  lemma HandleSuspendTwice(st: Store, s: string)
    requires s != "" && s in st.students
    ensures HandleSuspend(HandleSuspend(st, Some(s)).0, Some(s)).0 == HandleSuspend(st, Some(s)).0
    ensures HandleSuspend(HandleSuspend(st, Some(s)).0, Some(s)).1.status == 204
  {
    TeacherService.SuspendIdempotent(st, s);
  }
}

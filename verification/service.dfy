/**
 The business service: registration (find-or-create), common students,
 suspension, notification recipients and the listing projections, each a
 pure operation over the abstract store.
 */
module TeacherService {
  import opened Collections
  import opened Store
  import Mentions

  /** The acknowledgement the registration returns. */
  datatype Acknowledgement = Acknowledgement(message: string)

  const RegisterSuccess := "Register Successfully!"

  // ---------------------------------------------------------------------
  // Registration

  /** Find-or-create of a student: a new student starts not suspended, an
      existing one keeps its flag. */
  function FindOrCreateStudent(students: map<Email, bool>, s: Email): (r: map<Email, bool>)
    ensures r.Keys == students.Keys + {s}
    ensures forall e :: e in students ==> r[e] == students[e]
    ensures s !in students ==> !r[s]
  {
    if s in students then students else students[s := false]
  }

  /** The loop body of registration, once per listed student: find-or-create
      the student, then add one junction row. */
  function EnrollEach(st: Store, t: Email, ss: seq<Email>): (r: Store)
    ensures r.teachers == st.teachers
    ensures r.students.Keys == st.students.Keys + set s | s in ss
    ensures forall e :: e in st.students ==> r.students[e] == st.students[e]
    ensures forall e :: e in r.students && e !in st.students ==> !r.students[e]
    ensures |r.registrations| == |st.registrations| + |ss|
    ensures r.registrations[..|st.registrations|] == st.registrations
    ensures forall i :: 0 <= i < |ss| ==>
      r.registrations[|st.registrations| + i] == Registration(t, ss[i])
    decreases |ss|
  {
    if ss == [] then st
    else
      var next := Store(
        FindOrCreateStudent(st.students, ss[0]),
        st.teachers,
        st.registrations + [Registration(t, ss[0])]);
      var r := EnrollEach(next, t, ss[1..]);
      assert forall i :: 1 <= i < |ss| ==> ss[i] == ss[1..][i - 1];
      assert (set s | s in ss) == {ss[0]} + set s | s in ss[1..];
      r
  }

  /** Registers the listed students for teacher `t`: the teacher is found or
      created, then every listed student is found or created and linked, in
      list order. An empty list still creates the teacher. */
  function Register(st: Store, t: Email, ss: seq<Email>): (r: (Store, Acknowledgement))
    ensures r.0.teachers == st.teachers + {t}
    ensures r.0.students.Keys == st.students.Keys + set s | s in ss
    ensures forall e :: e in st.students ==> r.0.students[e] == st.students[e]
    ensures forall e :: e in r.0.students && e !in st.students ==> !r.0.students[e]
    ensures |r.0.registrations| == |st.registrations| + |ss|
    ensures r.0.registrations[..|st.registrations|] == st.registrations
    ensures forall i :: 0 <= i < |ss| ==>
      r.0.registrations[|st.registrations| + i] == Registration(t, ss[i])
    ensures r.1.message == "Register Successfully!"
  {
    var withTeacher := Store(st.students, st.teachers + {t}, st.registrations);
    (EnrollEach(withTeacher, t, ss), Acknowledgement(RegisterSuccess))
  }

  /** After registration the teacher's student list is the old list followed
      by exactly the listed students, duplicates included. */
  lemma RegisterExtendsStudentList(st: Store, t: Email, ss: seq<Email>)
    ensures StudentsOf(Register(st, t, ss).0.registrations, t) == StudentsOf(st.registrations, t) + ss
    ensures forall u :: u != t ==>
      StudentsOf(Register(st, t, ss).0.registrations, u) == StudentsOf(st.registrations, u)
  {
    var regs := Register(st, t, ss).0.registrations;
    var added := regs[|st.registrations|..];
    assert regs == st.registrations + added;
    PairsOfOneTeacher(added, t, ss);
    StudentsOfAppend(st.registrations, added, t);
    forall u | u != t
      ensures StudentsOf(regs, u) == StudentsOf(st.registrations, u)
    {
      StudentsOfAppend(st.registrations, added, u);
      assert added + [] == added;
      PairsOfOneTeacher(added, t, ss);
    }
  }

  /** Rows that all belong to teacher `t`, one per listed student. */
  lemma {:induction false} PairsOfOneTeacher(rows: seq<Registration>, t: Email, ss: seq<Email>)
    requires |rows| == |ss|
    requires forall i :: 0 <= i < |ss| ==> rows[i] == Registration(t, ss[i])
    ensures StudentsOf(rows, t) == ss
    ensures forall u :: u != t ==> StudentsOf(rows, u) == []
    decreases |ss|
  {
    if ss != [] {
      PairsOfOneTeacher(rows[1..], t, ss[1..]);
      assert ss == [ss[0]] + ss[1..];
    }
  }

  /** Registration keeps every junction row pointing at existing records. */
  lemma RegisterPreservesValid(st: Store, t: Email, ss: seq<Email>)
    requires Valid(st)
    ensures Valid(Register(st, t, ss).0)
  {
    var r := Register(st, t, ss).0;
    forall i | 0 <= i < |r.registrations|
      ensures r.registrations[i].teacher in r.teachers
      ensures r.registrations[i].student in r.students
    {
      if i < |st.registrations| {
        assert r.registrations[i] == st.registrations[i];
      } else {
        var j := i - |st.registrations|;
        assert r.registrations[i] == Registration(t, ss[j]);
        assert ss[j] in ss;
      }
    }
  }

  /** There is no duplicate guard: registering the same list twice lists
      every student twice for that teacher. */
  lemma RegisterTwiceDuplicates(st: Store, t: Email, ss: seq<Email>)
    ensures StudentsOf(Register(Register(st, t, ss).0, t, ss).0.registrations, t)
         == StudentsOf(st.registrations, t) + ss + ss
  {
    RegisterExtendsStudentList(st, t, ss);
    RegisterExtendsStudentList(Register(st, t, ss).0, t, ss);
  }

  // ---------------------------------------------------------------------
  // Common students

  /** Does `x` occur in every list? */
  predicate InAll(x: Email, lists: seq<seq<Email>>) {
    forall j :: 0 <= j < |lists| ==> x in lists[j]
  }

  /** Reference definition: the elements of `a` that occur in every list,
      in `a`'s order. */
  function KeepCommon(a: seq<Email>, lists: seq<seq<Email>>): (r: seq<Email>)
    ensures forall x :: x in r <==> x in a && InAll(x, lists)
    ensures IsSubsequence(r, a)
    decreases |a|
  {
    if a == [] then []
    else if InAll(a[0], lists) then [a[0]] + KeepCommon(a[1..], lists)
    else KeepCommon(a[1..], lists)
  }

  /** `lists.reduce((a, b) => a.filter((c) => b.includes(c)))`: a left fold
      seeded with the first list. */
  function ReduceIntersect(lists: seq<seq<Email>>): (r: seq<Email>)
    requires |lists| > 0
    ensures forall x :: multiset(r)[x] == if InAll(x, lists) then multiset(lists[0])[x] else 0
    decreases |lists|
  {
    if |lists| == 1 then
      assert forall x :: InAll(x, lists) <==> x in lists[0];
      lists[0]
    else
      var front := lists[..|lists| - 1];
      var last := lists[|lists| - 1];
      assert forall x :: InAll(x, lists) <==> InAll(x, front) && x in last by {
        assert forall j :: 0 <= j < |front| ==> front[j] == lists[j];
      }
      KeepIn(ReduceIntersect(front), last)
  }

  /** One more filtering step of the fold is one more list in the reference. */
  lemma {:induction false} KeepInOfKeepCommon(a: seq<Email>, lists: seq<seq<Email>>, b: seq<Email>)
    ensures KeepIn(KeepCommon(a, lists), b) == KeepCommon(a, lists + [b])
    decreases |a|
  {
    if a != [] {
      KeepInOfKeepCommon(a[1..], lists, b);
      assert InAll(a[0], lists + [b]) <==> InAll(a[0], lists) && a[0] in b by {
        assert forall j :: 0 <= j < |lists| ==> (lists + [b])[j] == lists[j];
        assert (lists + [b])[|lists|] == b;
      }
    }
  }

  /** The fold computes the reference: the first list filtered by membership
      in every list. */
  lemma {:induction false} ReduceIsKeepCommon(lists: seq<seq<Email>>)
    requires |lists| > 0
    ensures ReduceIntersect(lists) == KeepCommon(lists[0], lists)
    decreases |lists|
  {
    if |lists| == 1 {
      KeepInAll(lists[0], lists[0]);
      assert KeepCommon(lists[0], lists) == KeepIn(lists[0], lists[0]) by {
        KeepCommonOfOne(lists[0], lists[0]);
        assert lists == [lists[0]];
      }
    } else {
      var front := lists[..|lists| - 1];
      assert front + [lists[|lists| - 1]] == lists;
      ReduceIsKeepCommon(front);
      KeepInOfKeepCommon(front[0], front, lists[|lists| - 1]);
    }
  }

  /** With one list the reference is plain filtering by that list. */
  lemma {:induction false} KeepCommonOfOne(a: seq<Email>, b: seq<Email>)
    ensures KeepCommon(a, [b]) == KeepIn(a, b)
    decreases |a|
  {
    if a != [] {
      KeepCommonOfOne(a[1..], b);
      assert InAll(a[0], [b]) <==> a[0] in b by {
        assert [b][0] == b;
      }
    }
  }

  /** The teachers the query finds: the requested emails that are teachers,
      each once, in request order. */
  function FetchTeachers(st: Store, emails: seq<Email>): (r: seq<Email>)
    ensures NoDup(r)
    ensures forall t :: t in r <==> t in emails && t in st.teachers
  {
    Dedup(KeepInSet(emails, st.teachers))
  }

  /** The elements of `a` that belong to the set `s`, in order. */
  function KeepInSet(a: seq<Email>, s: set<Email>): (r: seq<Email>)
    ensures forall x :: x in r <==> x in a && x in s
    decreases |a|
  {
    if a == [] then []
    else if a[0] in s then [a[0]] + KeepInSet(a[1..], s)
    else KeepInSet(a[1..], s)
  }

  /** Each fetched teacher's student list. */
  function StudentLists(st: Store, ts: seq<Email>): (r: seq<seq<Email>>)
    ensures |r| == |ts|
    ensures forall j :: 0 <= j < |ts| ==> r[j] == StudentsOf(st.registrations, ts[j])
  {
    seq(|ts|, j requires 0 <= j < |ts| => StudentsOf(st.registrations, ts[j]))
  }

  /** The students registered to every requested teacher that exists, in the
      order of the first fetched teacher's list; empty when none is found. */
  function CommonStudents(st: Store, emails: seq<Email>): (r: seq<Email>)
    ensures FetchTeachers(st, emails) == [] ==> r == []
    ensures FetchTeachers(st, emails) != [] ==>
      r == KeepCommon(StudentsOf(st.registrations, FetchTeachers(st, emails)[0]),
                      StudentLists(st, FetchTeachers(st, emails)))
  {
    var lists := StudentLists(st, FetchTeachers(st, emails));
    if |lists| == 0 then []
    else
      ReduceIsKeepCommon(lists);
      ReduceIntersect(lists)
  }

  /** The common students are exactly the first fetched teacher's students
      that every fetched teacher has, in that teacher's order. */
  lemma CommonStudentsMembership(st: Store, emails: seq<Email>)
    requires FetchTeachers(st, emails) != []
    ensures IsSubsequence(CommonStudents(st, emails),
                          StudentsOf(st.registrations, FetchTeachers(st, emails)[0]))
    ensures forall x, t :: x in CommonStudents(st, emails) && t in emails && t in st.teachers ==>
      Registration(t, x) in st.registrations
    ensures forall x ::
      (x in StudentsOf(st.registrations, FetchTeachers(st, emails)[0]) &&
       forall t :: t in emails && t in st.teachers ==> Registration(t, x) in st.registrations)
      ==> x in CommonStudents(st, emails)
  {
    var ts := FetchTeachers(st, emails);
    var lists := StudentLists(st, ts);
    forall x, t | x in CommonStudents(st, emails) && t in emails && t in st.teachers
      ensures Registration(t, x) in st.registrations
    {
      var j :| 0 <= j < |ts| && ts[j] == t;
      assert x in lists[j];
    }
  }

  /** A single found teacher's list comes back unchanged. */
  lemma CommonStudentsOfOne(st: Store, emails: seq<Email>)
    requires |FetchTeachers(st, emails)| == 1
    ensures CommonStudents(st, emails) == StudentsOf(st.registrations, FetchTeachers(st, emails)[0])
  {
    var ts := FetchTeachers(st, emails);
    var lists := StudentLists(st, ts);
    assert lists == [lists[0]];
    KeepCommonOfOne(lists[0], lists[0]);
    KeepInAll(lists[0], lists[0]);
  }

  /** In a well-formed store the common students are stored students. */
  lemma CommonStudentsAreStudents(st: Store, emails: seq<Email>)
    requires Valid(st)
    ensures forall x :: x in CommonStudents(st, emails) ==> x in st.students
  {
  }

  // ---------------------------------------------------------------------
  // Suspension

  /** Marks an existing student as suspended and reports success. The
      student record arrives already fetched, so it exists. */
  function Suspend(st: Store, s: Email): (r: (Store, bool))
    requires s in st.students
    ensures r.1
    ensures r.0.students.Keys == st.students.Keys
    ensures r.0.students[s]
    ensures forall e :: e in st.students && e != s ==> r.0.students[e] == st.students[e]
    ensures r.0.teachers == st.teachers && r.0.registrations == st.registrations
  {
    (Store(st.students[s := true], st.teachers, st.registrations), true)
  }

  /** Suspending twice is suspending once. */
  lemma SuspendIdempotent(st: Store, s: Email)
    requires s in st.students
    ensures Suspend(Suspend(st, s).0, s) == Suspend(st, s)
  {
    var once := Suspend(st, s).0;
    var twice := Suspend(once, s).0;
    assert twice.students == once.students;
  }

  /** Suspension keeps every junction row pointing at existing records. */
  lemma SuspendPreservesValid(st: Store, s: Email)
    requires s in st.students && Valid(st)
    ensures Valid(Suspend(st, s).0)
  {
  }

  // ---------------------------------------------------------------------
  // Notification recipients

  /** The teacher's registered students that are not suspended; empty for an
      unknown teacher. */
  function RegisteredActive(st: Store, t: Email): (r: seq<Email>)
    ensures forall s :: s in r <==> t in st.teachers && Registration(t, s) in st.registrations && Active(st, s)
  {
    if t in st.teachers then KeepActive(st, StudentsOf(st.registrations, t)) else []
  }

  /** The elements of `a` that are existing, non-suspended students, in order. */
  function KeepActive(st: Store, a: seq<Email>): (r: seq<Email>)
    ensures forall s :: s in r <==> s in a && Active(st, s)
    decreases |a|
  {
    if a == [] then []
    else if Active(st, a[0]) then [a[0]] + KeepActive(st, a[1..])
    else KeepActive(st, a[1..])
  }

  /** Reference meaning of a recipient: an existing, non-suspended student who
      is registered to the teacher or mentioned in the text. */
  predicate IsRecipient(st: Store, t: Email, text: string, s: Email) {
    Active(st, s) &&
    ((t in st.teachers && Registration(t, s) in st.registrations) || s in Mentions.Extract(text))
  }

  /** The recipients of a notification: registered non-suspended students,
      then mentioned non-suspended students, each once. */
  function Recipients(st: Store, t: Email, text: string): (r: seq<Email>)
    ensures NoDup(r)
    ensures forall s :: s in r <==> IsRecipient(st, t, text, s)
  {
    var registered := RegisteredActive(st, t);
    var mentioned := Mentions.Extract(text);
    var mentionedStudents := if |mentioned| > 0 then KeepActive(st, Dedup(mentioned)) else [];
    Dedup(registered + mentionedStudents)
  }

  /** A suspended student is never a recipient, whether registered or
      mentioned. */
  lemma SuspendedNeverNotified(st: Store, s: Email, t: Email, text: string)
    requires s in st.students
    ensures s !in Recipients(Suspend(st, s).0, t, text)
  {
  }

  /** A text with no `@` reaches exactly the teacher's non-suspended
      students. */
  lemma NoMentionNoExtra(st: Store, t: Email, text: string)
    requires '@' !in text
    ensures forall s :: s in Recipients(st, t, text) <==> s in RegisteredActive(st, t)
  {
  }

  // ---------------------------------------------------------------------
  // Listing projections

  datatype StudentRow = StudentRow(email: Email, suspended: bool)

  datatype TeacherRow = TeacherRow(email: Email)

  /** Every student row exactly once; the order is the database's and is
      left open here. */
  method AllStudents(st: Store) returns (rows: seq<StudentRow>)
    ensures |rows| == |st.students|
    ensures forall r :: r in rows <==> r.email in st.students && st.students[r.email] == r.suspended
    ensures forall i, j :: 0 <= i < j < |rows| ==> rows[i].email != rows[j].email
  {
    var left := st.students.Keys;
    rows := [];
    while left != {}
      invariant left <= st.students.Keys
      invariant forall r :: r in rows <==>
        r.email in st.students.Keys - left && st.students[r.email] == r.suspended
      invariant forall i, j :: 0 <= i < j < |rows| ==> rows[i].email != rows[j].email
      invariant |rows| == |st.students.Keys - left|
      decreases |left|
    {
      var e :| e in left;
      assert st.students.Keys - (left - {e}) == (st.students.Keys - left) + {e};
      forall i | 0 <= i < |rows|
        ensures rows[i].email != e
      {
        assert rows[i] in rows;
      }
      rows := rows + [StudentRow(e, st.students[e])];
      left := left - {e};
    }
    assert st.students.Keys - left == st.students.Keys;
  }

  /** Every teacher row exactly once, in an order left open. */
  method AllTeachers(st: Store) returns (rows: seq<TeacherRow>)
    ensures |rows| == |st.teachers|
    ensures forall r :: r in rows <==> r.email in st.teachers
    ensures forall i, j :: 0 <= i < j < |rows| ==> rows[i].email != rows[j].email
  {
    var left := st.teachers;
    rows := [];
    while left != {}
      invariant left <= st.teachers
      invariant forall r :: r in rows <==> r.email in st.teachers - left
      invariant forall i, j :: 0 <= i < j < |rows| ==> rows[i].email != rows[j].email
      invariant |rows| == |st.teachers - left|
      decreases |left|
    {
      var e :| e in left;
      assert st.teachers - (left - {e}) == (st.teachers - left) + {e};
      forall i | 0 <= i < |rows|
        ensures rows[i].email != e
      {
        assert rows[i] in rows;
      }
      rows := rows + [TeacherRow(e)];
      left := left - {e};
    }
    assert st.teachers - left == st.teachers;
  }
}

/**
 The abstract persistence layer the business service talks to: students
 keyed by email with their `suspended` flag, the set of teacher emails, and
 the registration (junction) rows in insertion order. This is the shape of
 the in-memory database the integration tests substitute for the ORM.
 */
module Store {

  type Email = string

  /** One junction row: "teacher has registered student". */
  datatype Registration = Registration(teacher: Email, student: Email)

  datatype Store = Store(
    students: map<Email, bool>,
    teachers: set<Email>,
    registrations: seq<Registration>)

  /** Every junction row refers to an existing teacher and student (the
      foreign keys of the junction table). */
  predicate Valid(st: Store) {
    forall i :: 0 <= i < |st.registrations| ==>
      st.registrations[i].teacher in st.teachers &&
      st.registrations[i].student in st.students
  }

  /** The student emails reached from teacher `t` through the junction rows,
      one entry per row and in row order (what `include: "Students"` yields
      for that teacher). */
  function StudentsOf(regs: seq<Registration>, t: Email): (r: seq<Email>)
    ensures forall s :: s in r <==> Registration(t, s) in regs
    ensures |r| <= |regs|
    decreases |regs|
  {
    if regs == [] then []
    else
      var rest := StudentsOf(regs[1..], t);
      assert regs == [regs[0]] + regs[1..];
      if regs[0].teacher == t then [regs[0].student] + rest else rest
  }

  /** Appending rows extends every teacher's student list by the students of
      the appended rows that belong to that teacher. */
  lemma {:induction false} StudentsOfAppend(a: seq<Registration>, b: seq<Registration>, t: Email)
    ensures StudentsOf(a + b, t) == StudentsOf(a, t) + StudentsOf(b, t)
    decreases |a|
  {
    if a == [] {
      assert a + b == b;
    } else {
      assert (a + b)[1..] == a[1..] + b;
      StudentsOfAppend(a[1..], b, t);
    }
  }

  /** In a well-formed store every student reached from a teacher is a stored
      student, so no junction row leads to a missing record. */
  lemma StudentsOfAreStudents(st: Store, t: Email)
    requires Valid(st)
    ensures forall s :: s in StudentsOf(st.registrations, t) ==> s in st.students
  {
  }

  /** Is `s` a student that exists and is not suspended? */
  predicate Active(st: Store, s: Email) {
    s in st.students && !st.students[s]
  }
}

/**
 * `StudentManagement`: the student file as a repository keyed by e-mail
 * address, the search over it, enrolment and grading of a student, and the
 * per-course report with its mark statistics.
 */
module Students {
  import opened Text
  import opened Outcomes
  import opened OrderedDicts
  import opened Ledger
  import opened Tables
  import opened MarkStats

  /** A student row's key in the repository. */
  function EmailOf(r: StudentRecord): string
  {
    r.email
  }

  /** `search_key in` one of the searched fields of the student. */
  predicate Matches(s: StudentRecord, key: string)
  {
    || Contains(s.firstName, key) || Contains(s.lastName, key) || Contains(s.email, key)
    || Contains(s.courses, key) || Contains(s.marks, key) || Contains(s.grades, key)
  }

  /** The students that match `key`, in list order. */
  function Search(ss: seq<StudentRecord>, key: string): (r: seq<StudentRecord>)
    ensures |r| <= |ss|
    decreases |ss|
  {
    if |ss| == 0 then []
    else Search(ss[..|ss| - 1], key) + if Matches(ss[|ss| - 1], key) then [ss[|ss| - 1]] else []
  }

  /** A student is found exactly when they are in the list and match the key. */
  lemma {:induction false} SearchMembers(ss: seq<StudentRecord>, key: string)
    ensures forall s :: s in Search(ss, key) <==> s in ss && Matches(s, key)
    decreases |ss|
  {
    if |ss| > 0 {
      var p := ss[..|ss| - 1];
      SearchMembers(p, key);
      assert ss == p + [ss[|ss| - 1]];
    }
  }

  /** Searching a list made of two parts finds the first part's students before the second's. */
  lemma {:induction false} SearchAppend(ss: seq<StudentRecord>, ts: seq<StudentRecord>, key: string)
    ensures Search(ss + ts, key) == Search(ss, key) + Search(ts, key)
    decreases |ts|
  {
    if |ts| == 0 {
      assert ss + ts == ss;
    } else {
      var q, t := ts[..|ts| - 1], ts[|ts| - 1];
      SearchAppend(ss, q, key);
      assert (ss + ts)[..|ss + ts| - 1] == ss + q;
      assert (ss + ts)[|ss + ts| - 1] == t;
    }
  }

  /** A single student is found exactly when they match. */
  lemma SearchOne(s: StudentRecord, key: string)
    ensures Search([s], key) == if Matches(s, key) then [s] else []
  {
    assert [s][..0] == [];
  }

  /** Every string contains the empty string. */
  lemma ContainsEmpty(s: string)
    ensures Contains(s, "")
  {
    assert StartsWith(s, "");
  }

  /** The empty search key matches every student, so the search returns the whole list. */
  lemma {:induction false} SearchEmptyKey(ss: seq<StudentRecord>)
    ensures Search(ss, "") == ss
    decreases |ss|
  {
    if |ss| > 0 {
      SearchEmptyKey(ss[..|ss| - 1]);
      assert Matches(ss[|ss| - 1], "") by {
        ContainsEmpty(ss[|ss| - 1].firstName);
      }
      assert ss[..|ss| - 1] + [ss[|ss| - 1]] == ss;
    }
  }

  /** `course_id in student.course_dict()`: the student's row decodes and lists the course. */
  predicate Takes(s: StudentRecord, courseId: string)
  {
    Decode(s.courses, s.grades, s.marks).Ok? && courseId in Decode(s.courses, s.grades, s.marks).value
  }

  /** The grade and marks the student holds for a course they take. */
  function SlotOf(s: StudentRecord, courseId: string): Entry
    requires Takes(s, courseId)
  {
    Decode(s.courses, s.grades, s.marks).value[courseId]
  }

  /** The report line `course_students` lists for a student taking the course. */
  function ReportLine(s: StudentRecord, courseId: string): string
    requires Takes(s, courseId)
  {
    "Student Email: " + s.email + " Name: " + s.firstName + " " + s.lastName
      + ", Grade: " + SlotOf(s, courseId).grade + ", Marks: " + SlotOf(s, courseId).marks
  }

  /** One entry of the dict `course_students` returns beside the lines. */
  datatype Enrolment = Enrolment(email: string, name: string, grade: string, marks: string)

  function EnrolmentEmail(e: Enrolment): string
  {
    e.email
  }

  function EnrolmentOf(s: StudentRecord, courseId: string): Enrolment
    requires Takes(s, courseId)
  {
    Enrolment(s.email, s.firstName + " " + s.lastName, SlotOf(s, courseId).grade, SlotOf(s, courseId).marks)
  }

  /** What `course_students` returns: the report lines and the entries keyed by e-mail. */
  datatype Roster = Roster(lines: seq<string>, byEmail: Dict<Enrolment>)

  /**
   * `course_students(course_id)` over the students `ss`: IndexError as soon as
   * one student's `course_dict()` raises; otherwise the lines and the entries
   * of the students taking the course (RosterFails, RosterKeys, RosterLines).
   */
  function CourseRoster(ss: seq<StudentRecord>, courseId: string): (r: Result<Roster>)
    ensures r.Err? ==> r.error == IndexError
    ensures r.Ok? ==> r.value.byEmail.Valid() && KeyedBy(EnrolmentEmail, r.value.byEmail)
    decreases |ss|
  {
    if |ss| == 0 then Ok(Roster([], Dict([], map[])))
    else
      var p, s := ss[..|ss| - 1], ss[|ss| - 1];
      match CourseRoster(p, courseId)
      case Err(e) => Err(e)
      case Ok(r) =>
        match Decode(s.courses, s.grades, s.marks)
        case Err(e) => Err(e)
        case Ok(d) =>
          if courseId in d then
            Ok(Roster(r.lines + [ReportLine(s, courseId)], r.byEmail.Set(s.email, EnrolmentOf(s, courseId))))
          else
            Ok(r)
  }

  /** The roster of the first `n` students fails exactly when one of their rows cannot be decoded. */
  lemma {:induction false} RosterFailsPrefix(ss: seq<StudentRecord>, courseId: string, n: nat)
    requires n <= |ss|
    ensures CourseRoster(ss[..n], courseId).Err? <==>
      exists i :: 0 <= i < n && Decode(ss[i].courses, ss[i].grades, ss[i].marks).Err?
  {
    if n > 0 {
      RosterFailsPrefix(ss, courseId, n - 1);
      assert ss[..n][..n - 1] == ss[..n - 1] && ss[..n][n - 1] == ss[n - 1];
    }
  }

  /** `course_students` raises exactly when some student's `course_dict()` raises. */
  lemma RosterFails(ss: seq<StudentRecord>, courseId: string)
    ensures CourseRoster(ss, courseId).Err? <==>
      exists i :: 0 <= i < |ss| && Decode(ss[i].courses, ss[i].grades, ss[i].marks).Err?
  {
    RosterFailsPrefix(ss, courseId, |ss|);
    assert ss[..|ss|] == ss;
  }

  /** Reading one more student row: a row that cannot be decoded fails the whole roster. */
  lemma CourseRosterStep(ss: seq<StudentRecord>, courseId: string, i: nat)
    requires i < |ss| && CourseRoster(ss[..i], courseId).Ok?
    ensures Decode(ss[i].courses, ss[i].grades, ss[i].marks).Err? ==>
      CourseRoster(ss, courseId) == Err(IndexError)
    ensures Decode(ss[i].courses, ss[i].grades, ss[i].marks).Ok? ==>
      var r := CourseRoster(ss[..i], courseId).value;
      CourseRoster(ss[..i + 1], courseId) ==
        if Takes(ss[i], courseId)
        then Ok(Roster(r.lines + [ReportLine(ss[i], courseId)], r.byEmail.Set(ss[i].email, EnrolmentOf(ss[i], courseId))))
        else Ok(r)
  {
    assert ss[..i + 1][..i] == ss[..i];
    RosterFails(ss, courseId);
  }

  /** A roster that succeeds is the roster of all rows but the last, with the last student added when they take the course. */
  lemma CourseRosterLast(ss: seq<StudentRecord>, courseId: string)
    requires |ss| > 0 && CourseRoster(ss, courseId).Ok?
    ensures CourseRoster(ss[..|ss| - 1], courseId).Ok?
    ensures var s, r := ss[|ss| - 1], CourseRoster(ss[..|ss| - 1], courseId).value;
      CourseRoster(ss, courseId).value ==
        if Takes(s, courseId)
        then Roster(r.lines + [ReportLine(s, courseId)], r.byEmail.Set(s.email, EnrolmentOf(s, courseId)))
        else r
  {
  }

  /** The report lines of the students taking the course, in list order. */
  function ReportLines(ss: seq<StudentRecord>, courseId: string): seq<string>
    decreases |ss|
  {
    if |ss| == 0 then []
    else
      var s := ss[|ss| - 1];
      ReportLines(ss[..|ss| - 1], courseId) + if Takes(s, courseId) then [ReportLine(s, courseId)] else []
  }

  /** The addresses of the students taking the course. */
  ghost function TakerEmails(ss: seq<StudentRecord>, courseId: string): set<string>
    decreases |ss|
  {
    if |ss| == 0 then {}
    else
      var s := ss[|ss| - 1];
      TakerEmails(ss[..|ss| - 1], courseId) + if Takes(s, courseId) then {s.email} else {}
  }

  /**
   * A roster that succeeds lists the report lines of the students taking the
   * course in list order, and has an entry under each of their addresses.
   */
  lemma {:induction false} RosterShape(ss: seq<StudentRecord>, courseId: string)
    requires CourseRoster(ss, courseId).Ok?
    ensures CourseRoster(ss, courseId).value.lines == ReportLines(ss, courseId)
    ensures CourseRoster(ss, courseId).value.byEmail.entries.Keys == TakerEmails(ss, courseId)
    decreases |ss|
  {
    if |ss| > 0 {
      CourseRosterLast(ss, courseId);
      RosterShape(ss[..|ss| - 1], courseId);
    }
  }

  /** The addresses among the first `n` students are those of the students taking the course. */
  lemma {:induction false} TakerEmailsMembers(ss: seq<StudentRecord>, courseId: string, n: nat)
    requires n <= |ss|
    ensures forall k :: k in TakerEmails(ss[..n], courseId) <==>
      exists i :: 0 <= i < n && Takes(ss[i], courseId) && ss[i].email == k
  {
    if n > 0 {
      TakerEmailsMembers(ss, courseId, n - 1);
      assert ss[..n][..n - 1] == ss[..n - 1] && ss[..n][n - 1] == ss[n - 1];
      assert TakerEmails(ss[..n], courseId) ==
        TakerEmails(ss[..n - 1], courseId) + if Takes(ss[n - 1], courseId) then {ss[n - 1].email} else {};
      forall k | exists i :: 0 <= i < n && Takes(ss[i], courseId) && ss[i].email == k
        ensures k in TakerEmails(ss[..n], courseId)
      {
        var i :| 0 <= i < n && Takes(ss[i], courseId) && ss[i].email == k;
        if i < n - 1 {
          assert k in TakerEmails(ss[..n - 1], courseId);
        }
      }
    }
  }

  /** The lines among the first `n` students are the report lines of the students taking the course. */
  lemma {:induction false} ReportLinesMembers(ss: seq<StudentRecord>, courseId: string, n: nat)
    requires n <= |ss|
    ensures forall l :: l in ReportLines(ss[..n], courseId) <==>
      exists i :: 0 <= i < n && Takes(ss[i], courseId) && ReportLine(ss[i], courseId) == l
  {
    if n > 0 {
      ReportLinesMembers(ss, courseId, n - 1);
      assert ss[..n][..n - 1] == ss[..n - 1] && ss[..n][n - 1] == ss[n - 1];
      assert ReportLines(ss[..n], courseId) ==
        ReportLines(ss[..n - 1], courseId) + if Takes(ss[n - 1], courseId) then [ReportLine(ss[n - 1], courseId)] else [];
      forall l | exists i :: 0 <= i < n && Takes(ss[i], courseId) && ReportLine(ss[i], courseId) == l
        ensures l in ReportLines(ss[..n], courseId)
      {
        var i :| 0 <= i < n && Takes(ss[i], courseId) && ReportLine(ss[i], courseId) == l;
        if i < n - 1 {
          assert l in ReportLines(ss[..n - 1], courseId);
        }
      }
    }
  }

  /** The roster has an entry exactly under the addresses of the students taking the course. */
  lemma RosterKeys(ss: seq<StudentRecord>, courseId: string)
    requires CourseRoster(ss, courseId).Ok?
    ensures forall k :: k in CourseRoster(ss, courseId).value.byEmail.entries <==>
      exists i :: 0 <= i < |ss| && Takes(ss[i], courseId) && ss[i].email == k
  {
    RosterShape(ss, courseId);
    TakerEmailsMembers(ss, courseId, |ss|);
    assert ss[..|ss|] == ss;
  }

  /** The roster has a line exactly for each student taking the course. */
  lemma RosterLines(ss: seq<StudentRecord>, courseId: string)
    requires CourseRoster(ss, courseId).Ok?
    ensures forall l :: l in CourseRoster(ss, courseId).value.lines <==>
      exists i :: 0 <= i < |ss| && Takes(ss[i], courseId) && ReportLine(ss[i], courseId) == l
  {
    RosterShape(ss, courseId);
    ReportLinesMembers(ss, courseId, |ss|);
    assert ss[..|ss|] == ss;
  }

  /**
   * The entry under a student's e-mail is that student's enrolment, provided no
   * later student taking the course carries the same address (a later one
   * overwrites it; a later one not taking the course leaves it alone).
   */
  lemma {:induction false} RosterEntryAt(ss: seq<StudentRecord>, courseId: string, i: nat)
    requires CourseRoster(ss, courseId).Ok?
    requires i < |ss| && Takes(ss[i], courseId)
    requires forall j :: i < j < |ss| && Takes(ss[j], courseId) ==> ss[j].email != ss[i].email
    ensures ss[i].email in CourseRoster(ss, courseId).value.byEmail.entries
    ensures CourseRoster(ss, courseId).value.byEmail.entries[ss[i].email] == EnrolmentOf(ss[i], courseId)
    decreases |ss|
  {
    CourseRosterLast(ss, courseId);
    if i < |ss| - 1 {
      var p := ss[..|ss| - 1];
      assert p[i] == ss[i];
      assert forall j :: i < j < |p| ==> p[j] == ss[j];
      RosterEntryAt(p, courseId, i);
    }
  }

  /**
   * The marks column of the roster entries, in dict order: the `Enrolment`
   * counterpart of `Ledger.MarksOf`, which projects course slots.
   */
  function MarksColumn(es: seq<Enrolment>): (ms: seq<string>)
    ensures |ms| == |es| && forall i :: 0 <= i < |es| ==> ms[i] == es[i].marks
  {
    seq(|es|, i requires 0 <= i < |es| => es[i].marks)
  }

  class StudentManagement {
    /** The student list, its index `student_dict` and the file they are saved to. */
    const table: Table<StudentRecord>

    ghost predicate Valid()
      reads this, table
    {
      table.Valid() && table.keyOf == EmailOf
    }

    /** `StudentManagement()`: load the student file and index it by e-mail. */
    constructor (file: seq<StudentRecord>)
      ensures Valid() && fresh(table)
      ensures table.store == file && table.dict == FromList(EmailOf, file)
    {
      table := new Table(EmailOf, file);
    }

    /** `get_student(email)`: the student filed under that address, KeyError when absent. */
    function GetStudent(email: string): (r: Result<StudentRecord>)
      requires Valid()
      reads this, table
      ensures r.Ok? <==> email in table.dict.entries
      ensures r.Ok? ==> r.value.email == email && r.value in table.dict.Values()
      ensures r.Err? ==> r.error == KeyError(email)
    {
      var r := table.Get(email);
      if r.Ok? then
        assert table.dict.Values()[IndexOf(table.dict.keys, email)] == r.value;
        r
      else r
    }

    /** `get_students(search_key)`: the loaded students matching the key, in list order. */
    method GetStudents(key: string) returns (found: seq<StudentRecord>)
      requires Valid()
      ensures found == Search(table.items, key)
    {
      var ss := table.items;
      found := [];
      var i := 0;
      while i < |ss|
        invariant 0 <= i <= |ss|
        invariant found == Search(ss[..i], key)
      {
        assert ss[..i + 1][..i] == ss[..i];
        var s := ss[i];
        if Matches(s, key) {
          found := found + [s];
        }
        i := i + 1;
      }
      assert ss[..|ss|] == ss;
    }

    /** `add_new_student(student)`: file the student under its address (a new one goes last) and save. */
    method AddNewStudent(student: Student) returns (status: Status)
      requires Valid()
      modifies table
      ensures Valid() && table.Persisted() && status == Done
      ensures table.dict == old(table.dict).Set(student.email, student.ToDict())
      ensures student.email !in old(table.dict.entries) ==> table.items == old(table.dict.Values()) + [student.ToDict()]
    {
      status := table.Put(student.ToDict());
    }

    /**
     * `delete_student(email)`: KeyError when absent; otherwise the student is
     * dropped and the rest saved, which raises IndexError when none is left.
     */
    method DeleteStudent(email: string) returns (status: Status)
      requires Valid()
      modifies table
      ensures Valid()
      ensures email !in old(table.dict.entries) ==> status == Raised(KeyError(email)) && unchanged(table)
      ensures email in old(table.dict.entries) ==> table.dict == old(table.dict).Pop(email)
      ensures email in old(table.dict.entries) && |old(table.dict.keys)| == 1 ==>
        status == Raised(IndexError) && table.items == old(table.items)
      ensures email in old(table.dict.entries) && |old(table.dict.keys)| > 1 ==>
        status == Done && table.Persisted()
    {
      status := table.Remove(email);
    }

    /**
     * `update_student(student)`: KeyError when its address is not filed;
     * otherwise the student's row replaces the old one and moves last.
     */
    method UpdateStudent(student: Student) returns (status: Status)
      requires Valid()
      modifies table
      ensures Valid()
      ensures student.email !in old(table.dict.entries) ==>
        status == Raised(KeyError(student.email)) && unchanged(table)
      ensures student.email in old(table.dict.entries) ==>
        && status == Done && table.Persisted()
        && table.dict == old(table.dict).Pop(student.email).Set(student.email, student.ToDict())
    {
      status := table.Replace(student.ToDict());
    }

    /**
     * `assign_course(student, course_id)`: declined when the student already
     * lists the course; otherwise the course is appended to the student and
     * the student is updated.
     */
    method AssignCourse(student: Student, courseId: string) returns (status: Status)
      requires Valid()
      modifies student, table
      ensures Valid()
      ensures courseId in Split(old(student.courses)) ==>
        status == Declined && unchanged(student) && unchanged(table)
      ensures courseId !in Split(old(student.courses)) ==>
        && student.ToDict() == old(student.ToDict()).(courses := Appended(old(student.courses), courseId))
        && (student.email !in old(table.dict.entries) ==>
              status == Raised(KeyError(student.email)) && unchanged(table))
        && (student.email in old(table.dict.entries) ==>
              && status == Done && table.Persisted()
              && table.dict == old(table.dict).Pop(student.email).Set(student.email, student.ToDict()))
    {
      var courses := student.CourseList();
      if courseId in courses {
        return Declined;
      }
      student.AddCourse(courseId);
      status := UpdateStudent(student);
    }

    /**
     * `add_grade(student, course_id, grade, marks)`: the student's row becomes
     * the regraded one and the student is updated; `course_dict()` raising
     * and a course the student does not take change nothing.
     */
    method AddGrade(student: Student, courseId: string, grade: string, marks: string) returns (status: Status)
      requires Valid()
      modifies student, table
      ensures Valid()
      ensures Regraded(old(student.ToDict()), courseId, grade, marks).Err? ==>
        status == Raised(IndexError) && unchanged(student) && unchanged(table)
      ensures Regraded(old(student.ToDict()), courseId, grade, marks) == Ok(None) ==>
        status == Declined && unchanged(student) && unchanged(table)
      ensures Regraded(old(student.ToDict()), courseId, grade, marks).Ok? &&
              Regraded(old(student.ToDict()), courseId, grade, marks).value.Some? ==>
        && student.ToDict() == Regraded(old(student.ToDict()), courseId, grade, marks).value.value
        && (student.email !in old(table.dict.entries) ==>
              status == Raised(KeyError(student.email)) && unchanged(table))
        && (student.email in old(table.dict.entries) ==>
              && status == Done && table.Persisted()
              && table.dict == old(table.dict).Pop(student.email).Set(student.email, student.ToDict()))
    {
      var d := student.CourseDict();
      if d.Err? {
        return Raised(d.error);
      }
      if courseId !in d.value {
        return Declined;
      }
      var slots := d.value[courseId := Entry(grade, marks)];
      student.CourseDictToString(slots);
      status := UpdateStudent(student);
    }

    /** `course_students(course_id)`: decode each loaded student in turn and report those taking the course. */
    method CourseStudents(courseId: string) returns (r: Result<Roster>)
      requires Valid()
      ensures r == CourseRoster(table.items, courseId)
    {
      var ss := table.items;
      var lines: seq<string> := [];
      var byEmail: Dict<Enrolment> := Dict([], map[]);
      var i := 0;
      while i < |ss|
        invariant 0 <= i <= |ss|
        invariant CourseRoster(ss[..i], courseId) == Ok(Roster(lines, byEmail))
      {
        CourseRosterStep(ss, courseId, i);
        var student := new Student.FromRecord(ss[i]);
        var d := student.CourseDict();
        if d.Err? {
          return Err(d.error);
        }
        if courseId in d.value {
          lines := lines + [ReportLine(ss[i], courseId)];
          byEmail := byEmail.Set(ss[i].email, EnrolmentOf(ss[i], courseId));
        }
        i := i + 1;
      }
      assert ss[..|ss|] == ss;
      r := Ok(Roster(lines, byEmail));
    }

    /**
     * `course_mark_stats(student_dict)`: collect the non-empty marks as numbers,
     * in dict order, then take their minimum, maximum, total and count.
     */
    method CourseMarkStats(byEmail: Dict<Enrolment>) returns (r: Result<Stats>)
      requires byEmail.Valid()
      ensures r == CourseStats(MarksColumn(byEmail.Values()))
    {
      var ms := MarksColumn(byEmail.Values());
      var xs: seq<int> := [];
      var i := 0;
      while i < |ms|
        invariant 0 <= i <= |ms|
        invariant ParseMarks(ms[..i]) == Ok(xs)
      {
        ParseMarksStep(ms, i);
        if ms[i] != "" {
          var x := ParseInt(ms[i]);
          if x.Err? {
            return Err(x.error);
          }
          xs := xs + [x.value];
        }
        i := i + 1;
      }
      assert ms[..|ms|] == ms;
      if |ms| == 0 {
        return Ok(Stats(0, 0, 0, 0));
      }
      if xs == [] {
        return Err(ValueError);
      }
      r := Ok(Stats(Min(xs), Max(xs), Sum(xs), |xs|));
    }
  }
}

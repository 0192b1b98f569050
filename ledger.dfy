/**
 * A student's enrolments: three comma-joined fields `courses`, `grades` and
 * `marks`, the map view `course_dict()` decodes from them, and
 * `course_dict_to_string` that re-encodes a map into them.
 */
module Ledger {
  import opened Text
  import opened Outcomes

  /** One course's slot in `course_dict()`: `{"grade": ..., "marks": ...}`. */
  datatype Entry = Entry(grade: string, marks: string)

  /** A student row of the student file, as `Student.to_dict()` writes it. */
  datatype StudentRecord = StudentRecord(
    firstName: string, lastName: string, email: string,
    courses: string, grades: string, marks: string)

  /** The slot iteration `i` of `course_dict()` stores. */
  function SlotAt(gl: seq<string>, ml: seq<string>, ungraded: bool, i: nat): Entry
    requires ungraded || (i < |gl| && i < |ml|)
  {
    if ungraded then Entry("", "") else Entry(gl[i], ml[i])
  }

  /** The map `course_dict()` holds after its first `n` iterations. */
  function Pairing(cl: seq<string>, gl: seq<string>, ml: seq<string>, ungraded: bool, n: nat): map<string, Entry>
    requires n <= |cl| && (ungraded || (n <= |gl| && n <= |ml|))
  {
    if n == 0 then map[]
    else Pairing(cl, gl, ml, ungraded, n - 1)[cl[n - 1] := SlotAt(gl, ml, ungraded, n - 1)]
  }

  /**
   * `course_dict()` on the three fields: every listed course is a key (an empty
   * `courses` lists the single course `""`), and it raises IndexError exactly
   * when grades are present but the grade or marks list is shorter than the
   * course list.
   */
  function Decode(courses: string, grades: string, marks: string): (r: Result<map<string, Entry>>)
    ensures r.Err? <==>
      grades != "" && (|Split(grades)| < |Split(courses)| || |Split(marks)| < |Split(courses)|)
    ensures r.Err? ==> r.error == IndexError
    ensures r.Ok? ==> forall c :: c in r.value <==> c in Split(courses)
  {
    var cl, gl, ml := Split(courses), Split(grades), Split(marks);
    if grades != "" && (|gl| < |cl| || |ml| < |cl|) then Err(IndexError)
    else
      PairingKeys(cl, gl, ml, grades == "", |cl|);
      assert cl[..|cl|] == cl;
      Ok(Pairing(cl, gl, ml, grades == "", |cl|))
  }

  lemma {:induction false} PairingKeys(cl: seq<string>, gl: seq<string>, ml: seq<string>, ungraded: bool, n: nat)
    requires n <= |cl| && (ungraded || (n <= |gl| && n <= |ml|))
    ensures forall c :: c in Pairing(cl, gl, ml, ungraded, n) <==> c in cl[..n]
  {
    if n > 0 {
      PairingKeys(cl, gl, ml, ungraded, n - 1);
      assert cl[..n] == cl[..n - 1] + [cl[n - 1]];
    }
  }

  /** Position `i` holds the last occurrence of its course among the first `n`. */
  ghost predicate LastAmong(cl: seq<string>, n: nat, i: nat)
    requires i < n <= |cl|
  {
    forall j :: i < j < n ==> cl[j] != cl[i]
  }

  lemma {:induction false} PairingAt(cl: seq<string>, gl: seq<string>, ml: seq<string>, ungraded: bool, n: nat, i: nat)
    requires n <= |cl| && (ungraded || (n <= |gl| && n <= |ml|))
    requires i < n && LastAmong(cl, n, i)
    ensures cl[i] in Pairing(cl, gl, ml, ungraded, n)
    ensures Pairing(cl, gl, ml, ungraded, n)[cl[i]] == SlotAt(gl, ml, ungraded, i)
  {
    if i < n - 1 {
      PairingAt(cl, gl, ml, ungraded, n - 1, i);
    }
  }

  /**
   * What `course_dict()` maps each course to: the grade and marks at the
   * course's position (its LAST position when it is listed twice), or
   * `("", "")` for every course while `grades` is empty.
   */
  lemma DecodeAt(courses: string, grades: string, marks: string, i: nat)
    requires Decode(courses, grades, marks).Ok?
    requires i < |Split(courses)| && LastAmong(Split(courses), |Split(courses)|, i)
    ensures Decode(courses, grades, marks).value[Split(courses)[i]] ==
      if grades == "" then Entry("", "") else Entry(Split(grades)[i], Split(marks)[i])
  {
    var cl := Split(courses);
    PairingAt(cl, Split(grades), Split(marks), grades == "", |cl|, i);
  }

  /** The slots of courses `cs` in the map `d` (`d[course]` for each, in order). */
  function Lookup(cs: seq<string>, d: map<string, Entry>): (es: seq<Entry>)
    requires forall c :: c in cs ==> c in d
    ensures |es| == |cs| && forall i :: 0 <= i < |cs| ==> es[i] == d[cs[i]]
  {
    seq(|cs|, i requires 0 <= i < |cs| => d[cs[i]])
  }

  function GradesOf(es: seq<Entry>): (xs: seq<string>)
    ensures |xs| == |es| && forall i :: 0 <= i < |es| ==> xs[i] == es[i].grade
  {
    seq(|es|, i requires 0 <= i < |es| => es[i].grade)
  }

  function MarksOf(es: seq<Entry>): (xs: seq<string>)
    ensures |xs| == |es| && forall i :: 0 <= i < |es| ==> xs[i] == es[i].marks
  {
    seq(|es|, i requires 0 <= i < |es| => es[i].marks)
  }

  /** Every course of `courses` is a key of `d`: what `course_dict_to_string(d)` looks up. */
  predicate Covers(courses: string, d: map<string, Entry>)
  {
    forall c :: c in Split(courses) ==> c in d
  }

  /**
   * The `grades` field `course_dict_to_string(d)` writes: the looked-up grades
   * joined by commas, leading empty grades dropped.
   */
  function EncodeGrades(courses: string, d: map<string, Entry>): (g: string)
    requires Covers(courses, d)
    ensures g == Join(DropLeadingEmpty(GradesOf(Lookup(Split(courses), d))))
  {
    var xs := GradesOf(Lookup(Split(courses), d));
    AccumulatedIsJoin(xs);
    Accumulated(xs)
  }

  /** The `marks` field `course_dict_to_string(d)` writes, likewise. */
  function EncodeMarks(courses: string, d: map<string, Entry>): (m: string)
    requires Covers(courses, d)
    ensures m == Join(DropLeadingEmpty(MarksOf(Lookup(Split(courses), d))))
  {
    var xs := MarksOf(Lookup(Split(courses), d));
    AccumulatedIsJoin(xs);
    Accumulated(xs)
  }

  lemma AccumulatedStep(xs: seq<string>, i: nat)
    requires i < |xs|
    ensures Accumulated(xs[..i + 1]) == Appended(Accumulated(xs[..i]), xs[i])
  {
    assert xs[..i + 1][..i] == xs[..i];
  }

  /** Pairing columns looked up from `d` rebuilds `d` on the listed courses. */
  lemma {:induction false} PairingLookup(cl: seq<string>, d: map<string, Entry>, n: nat)
    requires forall c :: c in cl ==> c in d
    requires n <= |cl|
    ensures Pairing(cl, GradesOf(Lookup(cl, d)), MarksOf(Lookup(cl, d)), false, n) ==
      map c | c in cl[..n] :: d[c]
  {
    if n > 0 {
      PairingLookup(cl, d, n - 1);
      assert cl[..n] == cl[..n - 1] + [cl[n - 1]];
    }
  }

  /**
   * Decoding what `course_dict_to_string(d)` wrote gives back `d` on the
   * student's courses, provided the first course's grade and marks are
   * non-empty and no value holds a comma.
   */
  lemma EncodeThenDecode(courses: string, d: map<string, Entry>)
    requires Covers(courses, d)
    requires d[Split(courses)[0]].grade != "" && d[Split(courses)[0]].marks != ""
    requires forall c :: c in d ==> Comma !in d[c].grade && Comma !in d[c].marks
    ensures Decode(courses, EncodeGrades(courses, d), EncodeMarks(courses, d)) ==
      Ok(map c | c in Split(courses) :: d[c])
  {
    var cl := Split(courses);
    var gs, ms := GradesOf(Lookup(cl, d)), MarksOf(Lookup(cl, d));
    SplitJoin(gs);
    SplitJoin(ms);
    JoinHead(gs);
    PairingLookup(cl, d, |cl|);
    assert cl[..|cl|] == cl;
  }

  /**
   * `course_dict_to_string(course_dict())` writes back the fields it read when
   * no course is listed twice and either nothing is graded yet, or every
   * course has a slot and the first course's grade and marks are non-empty.
   */
  lemma DecodeThenEncode(courses: string, grades: string, marks: string)
    requires Decode(courses, grades, marks).Ok?
    requires forall i, j :: 0 <= i < j < |Split(courses)| ==> Split(courses)[i] != Split(courses)[j]
    requires
      || (grades == "" && marks == "")
      || (|Split(grades)| == |Split(courses)| == |Split(marks)| && Split(grades)[0] != "" && Split(marks)[0] != "")
    ensures Covers(courses, Decode(courses, grades, marks).value)
    ensures EncodeGrades(courses, Decode(courses, grades, marks).value) == grades
    ensures EncodeMarks(courses, Decode(courses, grades, marks).value) == marks
  {
    var d := Decode(courses, grades, marks).value;
    var es := Lookup(Split(courses), d);
    var gs, ms := GradesOf(es), MarksOf(es);
    DecodedColumns(courses, grades, marks);
    if grades == "" {
      AccumulatedAllEmpty(gs);
      AccumulatedAllEmpty(ms);
    } else {
      AccumulatedLeadingNonEmpty(gs);
      AccumulatedLeadingNonEmpty(ms);
      JoinSplit(grades);
      JoinSplit(marks);
    }
  }

  /** The grade and marks columns read back from `course_dict()`, course by course. */
  lemma DecodedColumns(courses: string, grades: string, marks: string)
    requires Decode(courses, grades, marks).Ok?
    requires forall i, j :: 0 <= i < j < |Split(courses)| ==> Split(courses)[i] != Split(courses)[j]
    requires grades == "" || (|Split(grades)| == |Split(courses)| == |Split(marks)|)
    ensures Covers(courses, Decode(courses, grades, marks).value)
    ensures var gs := GradesOf(Lookup(Split(courses), Decode(courses, grades, marks).value));
      grades == "" ==> forall i :: 0 <= i < |gs| ==> gs[i] == ""
    ensures var ms := MarksOf(Lookup(Split(courses), Decode(courses, grades, marks).value));
      grades == "" ==> forall i :: 0 <= i < |ms| ==> ms[i] == ""
    ensures grades != "" ==> GradesOf(Lookup(Split(courses), Decode(courses, grades, marks).value)) == Split(grades)
    ensures grades != "" ==> MarksOf(Lookup(Split(courses), Decode(courses, grades, marks).value)) == Split(marks)
  {
    var cl, d := Split(courses), Decode(courses, grades, marks).value;
    var es := Lookup(cl, d);
    forall i | 0 <= i < |cl|
      ensures es[i] == if grades == "" then Entry("", "") else Entry(Split(grades)[i], Split(marks)[i])
    {
      DecodeAt(courses, grades, marks, i);
    }
  }

  /**
   * Giving a first grade to a course other than the first leaves the first
   * slot empty, so the encoder drops it: `grades` comes out with fewer entries
   * than `courses`, and the next `course_dict()` raises IndexError.
   */
  lemma GradeSkippingFirstCourseBreaksDecode(courses: string, d: map<string, Entry>, j: nat)
    requires Covers(courses, d)
    requires d[Split(courses)[0]].grade == ""
    requires 0 < j < |Split(courses)| && d[Split(courses)[j]].grade != ""
    requires forall c :: c in d ==> Comma !in d[c].grade
    ensures Decode(courses, EncodeGrades(courses, d), EncodeMarks(courses, d)) == Err(IndexError)
  {
    var gs := GradesOf(Lookup(Split(courses), d));
    var q := DropLeadingEmpty(gs);
    assert q != [] by {
      if q == [] {
        DropLeadingEmptyAllEmpty(gs, j);
      }
    }
    assert |q| < |gs| by {
      assert gs[0] == "";
    }
    forall i | 0 <= i < |q| ensures Comma !in q[i] {
      assert q[i] == gs[|gs| - |q| + i];
    }
    SplitJoin(q);
    JoinHead(q);
  }

  lemma {:induction false} DropLeadingEmptyAllEmpty(xs: seq<string>, j: nat)
    requires j < |xs| && xs[j] != ""
    ensures DropLeadingEmpty(xs) != []
  {
    if xs[0] == "" {
      DropLeadingEmptyAllEmpty(xs[1..], j - 1);
    }
  }

  /** `"C1,C2"` lists two courses. */
  lemma SplitTwoCourses()
    ensures Split("C1,C2") == ["C1", "C2"]
  {
    assert Join(["C1", "C2"]) == "C1,C2";
    SplitJoin(["C1", "C2"]);
  }

  /** A student enrolled in C1 and C2 with nothing graded decodes to two empty slots. */
  lemma UngradedTwoCourses()
    ensures Decode("C1,C2", "", "") == Ok(map["C1" := Entry("", ""), "C2" := Entry("", "")])
  {
    SplitTwoCourses();
    assert "C1" != "C2" by { assert "C1"[1] != "C2"[1]; }
    DecodeAt("C1,C2", "", "", 0);
    DecodeAt("C1,C2", "", "", 1);
    var m := Decode("C1,C2", "", "").value;
    assert m.Keys == {"C1", "C2"};
    assert m == map["C1" := Entry("", ""), "C2" := Entry("", "")];
  }

  /**
   * The concrete case: a student enrolled in C1 and C2 with nothing graded
   * gets a first grade for C2; the re-encoded fields no longer decode.
   */
  lemma FirstGradeOnSecondCourse()
    ensures Decode("C1,C2", "", "") == Ok(map["C1" := Entry("", ""), "C2" := Entry("", "")])
    ensures var d := map["C1" := Entry("", ""), "C2" := Entry("A", "90")];
      Covers("C1,C2", d) &&
      Decode("C1,C2", EncodeGrades("C1,C2", d), EncodeMarks("C1,C2", d)) == Err(IndexError)
  {
    UngradedTwoCourses();
    SplitTwoCourses();
    GradeSkippingFirstCourseBreaksDecode("C1,C2", map["C1" := Entry("", ""), "C2" := Entry("A", "90")], 1);
  }

  /**
   * Enrolling a graded student in one more course leaves `grades` one entry
   * short of `courses`, so the next `course_dict()` raises IndexError.
   */
  lemma EnrolAfterGradingBreaksDecode(courses: string, grades: string, marks: string, courseId: string)
    requires courses != "" && grades != ""
    requires |Split(grades)| == |Split(courses)|
    ensures Decode(Appended(courses, courseId), grades, marks) == Err(IndexError)
  {
  }

  /** No slot of `course_dict()` holds a comma: every grade and mark is a piece of a split. */
  lemma {:induction false} PairingCommaFree(cl: seq<string>, gl: seq<string>, ml: seq<string>, ungraded: bool, n: nat)
    requires n <= |cl| && (ungraded || (n <= |gl| && n <= |ml|))
    requires forall i :: 0 <= i < |gl| ==> Comma !in gl[i]
    requires forall i :: 0 <= i < |ml| ==> Comma !in ml[i]
    ensures forall c :: c in Pairing(cl, gl, ml, ungraded, n) ==>
      Comma !in Pairing(cl, gl, ml, ungraded, n)[c].grade && Comma !in Pairing(cl, gl, ml, ungraded, n)[c].marks
  {
    if n > 0 {
      PairingCommaFree(cl, gl, ml, ungraded, n - 1);
    }
  }

  /**
   * The student row `StudentManagement.add_grade(student, course_id, grade, marks)`
   * leaves: `course_dict()` raising is passed on, a course the student does not
   * take changes nothing (`None`), and otherwise that course's slot is replaced
   * and `grades`/`marks` are re-encoded in the order of `courses`.
   */
  function Regraded(s: StudentRecord, courseId: string, grade: string, marks: string): (r: Result<Option<StudentRecord>>)
    ensures r.Err? <==> Decode(s.courses, s.grades, s.marks).Err?
    ensures r.Err? ==> r.error == IndexError
    ensures r == Ok(None) <==> Decode(s.courses, s.grades, s.marks).Ok? && courseId !in Split(s.courses)
    ensures r.Ok? && r.value.Some? ==>
      r.value.value == s.(grades := r.value.value.grades, marks := r.value.value.marks)
  {
    match Decode(s.courses, s.grades, s.marks)
    case Err(e) => Err(e)
    case Ok(d) =>
      if courseId !in d then Ok(None)
      else
        var d' := d[courseId := Entry(grade, marks)];
        Ok(Some(s.(grades := EncodeGrades(s.courses, d'), marks := EncodeMarks(s.courses, d'))))
  }

  /**
   * After grading, `course_dict()` gives the old map with only the graded
   * course's slot replaced, provided the new values hold no comma and the
   * first course's slot ends up with a non-empty grade and marks.
   */
  lemma RegradedThenDecode(s: StudentRecord, courseId: string, grade: string, marks: string, d: map<string, Entry>)
    requires Decode(s.courses, s.grades, s.marks) == Ok(d) && courseId in d
    requires Comma !in grade && Comma !in marks
    requires var first := d[courseId := Entry(grade, marks)][Split(s.courses)[0]];
      first.grade != "" && first.marks != ""
    ensures Regraded(s, courseId, grade, marks).Ok? && Regraded(s, courseId, grade, marks).value.Some?
    ensures var t := Regraded(s, courseId, grade, marks).value.value;
      Decode(t.courses, t.grades, t.marks) == Ok(d[courseId := Entry(grade, marks)])
  {
    var d' := d[courseId := Entry(grade, marks)];
    assert Decode(s.courses, EncodeGrades(s.courses, d'), EncodeMarks(s.courses, d')) == Ok(d') by {
      assert forall c :: c in d' ==> Comma !in d'[c].grade && Comma !in d'[c].marks by {
        DecodeCommaFree(s.courses, s.grades, s.marks);
      }
      assert forall c :: c in d' <==> c in Split(s.courses) by {
        assert forall c :: c in d <==> c in Split(s.courses);
      }
      EncodeThenDecodeAll(s.courses, d');
    }
    RegradedValue(s, courseId, grade, marks, d);
  }

  /** The record `add_grade` saves when the course is listed and decoding succeeds. */
  lemma RegradedValue(s: StudentRecord, courseId: string, grade: string, marks: string, d: map<string, Entry>)
    requires Decode(s.courses, s.grades, s.marks) == Ok(d) && courseId in d
    ensures var d' := d[courseId := Entry(grade, marks)];
      Regraded(s, courseId, grade, marks)
        == Ok(Some(s.(grades := EncodeGrades(s.courses, d'), marks := EncodeMarks(s.courses, d'))))
  {
  }

  /** Every grade and mark `course_dict()` returns is comma-free. */
  lemma DecodeCommaFree(courses: string, grades: string, marks: string)
    requires Decode(courses, grades, marks).Ok?
    ensures var d := Decode(courses, grades, marks).value;
      forall c :: c in d ==> Comma !in d[c].grade && Comma !in d[c].marks
  {
    var cl, gl, ml := Split(courses), Split(grades), Split(marks);
    assert cl[..|cl|] == cl;
    PairingCommaFree(cl, gl, ml, grades == "", |cl|);
  }

  /** EncodeThenDecode for a map keyed by exactly the listed courses. */
  lemma EncodeThenDecodeAll(courses: string, d: map<string, Entry>)
    requires forall c :: c in d <==> c in Split(courses)
    requires d[Split(courses)[0]].grade != "" && d[Split(courses)[0]].marks != ""
    requires forall c :: c in d ==> Comma !in d[c].grade && Comma !in d[c].marks
    ensures Covers(courses, d)
    ensures Decode(courses, EncodeGrades(courses, d), EncodeMarks(courses, d)) == Ok(d)
  {
    var m := map c | c in Split(courses) :: d[c];
    assert m == d by {
      assert m.Keys == d.Keys;
    }
    assert Decode(courses, EncodeGrades(courses, d), EncodeMarks(courses, d)) == Ok(m) by {
      EncodeThenDecode(courses, d);
    }
  }

  /** A student object: the six text fields the source reassigns in place. */
  class Student {
    var firstName: string
    var lastName: string
    var email: string
    var courses: string
    var grades: string
    var marks: string

    /** `Student(**record)`: the object a row of the student file loads into. */
    constructor FromRecord(r: StudentRecord)
      ensures ToDict() == r
    {
      firstName, lastName, email := r.firstName, r.lastName, r.email;
      courses, grades, marks := r.courses, r.grades, r.marks;
    }

    /** `to_dict()`: the row the object saves as. */
    function ToDict(): StudentRecord
      reads this
    {
      StudentRecord(firstName, lastName, email, courses, grades, marks)
    }

    /** `course_list()`: the enrolled courses, which join back into `courses`. */
    function CourseList(): (r: seq<string>)
      reads this
      ensures |r| >= 1 && Join(r) == courses
    {
      JoinSplit(courses);
      Split(courses)
    }

    /** `grade_list()`: the grades, which join back into `grades`. */
    function GradeList(): (r: seq<string>)
      reads this
      ensures |r| >= 1 && Join(r) == grades
    {
      JoinSplit(grades);
      Split(grades)
    }

    /** `marks_list()`: the marks, which join back into `marks`. */
    function MarksList(): (r: seq<string>)
      reads this
      ensures |r| >= 1 && Join(r) == marks
    {
      JoinSplit(marks);
      Split(marks)
    }

    /** `course_dict()`: fills the map position by position, raising at the first missing slot. */
    method CourseDict() returns (r: Result<map<string, Entry>>)
      ensures r == Decode(courses, grades, marks)
    {
      var gl, ml, cl := GradeList(), MarksList(), CourseList();
      var d: map<string, Entry> := map[];
      var i := 0;
      while i < |cl|
        invariant 0 <= i <= |cl|
        invariant grades != "" ==> i <= |gl| && i <= |ml|
        invariant d == Pairing(cl, gl, ml, grades == "", i)
      {
        if grades == "" {
          d := d[cl[i] := Entry("", "")];
        } else {
          if i >= |gl| || i >= |ml| {
            return Err(IndexError);
          }
          d := d[cl[i] := Entry(gl[i], ml[i])];
        }
        i := i + 1;
      }
      r := Ok(d);
    }

    /** `add_course(course_id)`: set `courses` when empty, else append `,course_id`. */
    method AddCourse(courseId: string)
      modifies this
      ensures courses == Appended(old(courses), courseId)
      ensures firstName == old(firstName) && lastName == old(lastName) && email == old(email)
      ensures grades == old(grades) && marks == old(marks)
    {
      if courses == "" {
        courses := courseId;
      } else {
        courses := courses + [Comma] + courseId;
      }
    }

    /** `add_grade(grade_id)`: set `grades` when empty, else append `,grade_id`. */
    method AddGrade(gradeId: string)
      modifies this
      ensures grades == Appended(old(grades), gradeId)
      ensures firstName == old(firstName) && lastName == old(lastName) && email == old(email)
      ensures courses == old(courses) && marks == old(marks)
    {
      if grades == "" {
        grades := gradeId;
      } else {
        grades := grades + [Comma] + gradeId;
      }
    }

    /** `add_marks(marks)`: set `marks` when empty, else append `,marks`. */
    method AddMarks(m: string)
      modifies this
      ensures marks == Appended(old(marks), m)
      ensures firstName == old(firstName) && lastName == old(lastName) && email == old(email)
      ensures courses == old(courses) && grades == old(grades)
    {
      if marks == "" {
        marks := m;
      } else {
        marks := marks + [Comma] + m;
      }
    }

    /**
     * `course_dict_to_string(d)`: clear `grades` and `marks`, then append each
     * listed course's grade and marks, in the order of `courses`.
     */
    method CourseDictToString(d: map<string, Entry>)
      requires Covers(courses, d)
      modifies this
      ensures grades == EncodeGrades(old(courses), d) && marks == EncodeMarks(old(courses), d)
      ensures firstName == old(firstName) && lastName == old(lastName) && email == old(email)
      ensures courses == old(courses)
    {
      grades := "";
      marks := "";
      var cl := CourseList();
      var es := Lookup(cl, d);
      var gs, ms := GradesOf(es), MarksOf(es);
      var i := 0;
      while i < |cl|
        invariant 0 <= i <= |cl|
        invariant grades == Accumulated(gs[..i]) && marks == Accumulated(ms[..i])
        invariant firstName == old(firstName) && lastName == old(lastName) && email == old(email)
        invariant courses == old(courses)
      {
        var e := d[cl[i]];
        assert e.grade == gs[i] && e.marks == ms[i];
        AccumulatedStep(gs, i);
        AccumulatedStep(ms, i);
        AddGrade(e.grade);
        AddMarks(e.marks);
        i := i + 1;
      }
      assert gs[..|cl|] == gs && ms[..|cl|] == ms;
      assert EncodeGrades(old(courses), d) == Accumulated(gs) && EncodeMarks(old(courses), d) == Accumulated(ms) by {
        assert cl == Split(old(courses));
      }
    }

    /** `update_first_name(first_name)`. */
    method UpdateFirstName(name: string)
      modifies this
      ensures ToDict() == old(ToDict()).(firstName := name)
    {
      firstName := name;
    }

    /** `update_last_name(last_name)`. */
    method UpdateLastName(name: string)
      modifies this
      ensures ToDict() == old(ToDict()).(lastName := name)
    {
      lastName := name;
    }
  }
}

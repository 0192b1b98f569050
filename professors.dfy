/**
 * Professors: the `Professor` object with its comma-joined course list, and
 * `ProfessorManagement`, the professor file as a repository keyed by e-mail
 * address, which also grades students through the student repository.
 */
module Professors {
  import opened Text
  import opened Outcomes
  import opened OrderedDicts
  import opened Tables
  import Ledger
  import Students

  /** A professor row of the professor file, as `Professor.to_dict()` writes it. */
  datatype ProfessorRecord = ProfessorRecord(name: string, email: string, rank: string, courses: string)

  /** A professor row's key in the repository. */
  function ProfessorEmail(r: ProfessorRecord): string
  {
    r.email
  }

  /** A professor object: the four text fields the source reassigns in place. */
  class Professor {
    var name: string
    var email: string
    var rank: string
    var courses: string

    /** `Professor(**record)`: the object a row of the professor file loads into. */
    constructor FromRecord(r: ProfessorRecord)
      ensures ToDict() == r
    {
      name, email, rank, courses := r.name, r.email, r.rank, r.courses;
    }

    /** `to_dict()`: the row the object saves as. */
    function ToDict(): ProfessorRecord
      reads this
    {
      ProfessorRecord(name, email, rank, courses)
    }

    /** `update_name(name)`. */
    method UpdateName(newName: string)
      modifies this
      ensures ToDict() == old(ToDict()).(name := newName)
    {
      name := newName;
    }

    /** `update_rank(rank)`. */
    method UpdateRank(newRank: string)
      modifies this
      ensures ToDict() == old(ToDict()).(rank := newRank)
    {
      rank := newRank;
    }

    /** `course_list()`: the courses taught, which join back into `courses`. */
    function CourseList(): (r: seq<string>)
      reads this
      ensures |r| >= 1 && Join(r) == courses
    {
      JoinSplit(courses);
      Split(courses)
    }

    /** `add_course(course_id)`: set `courses` when empty, else append `,course_id`. */
    method AddCourse(courseId: string)
      modifies this
      ensures ToDict() == old(ToDict()).(courses := Appended(old(courses), courseId))
    {
      if courses == "" {
        courses := courseId;
      } else {
        courses := courses + [Comma] + courseId;
      }
    }
  }

  class ProfessorManagement {
    /** The professor list, its index `professor_dict` and the file they are saved to. */
    const table: Table<ProfessorRecord>

    ghost predicate Valid()
      reads this, table
    {
      table.Valid() && table.keyOf == ProfessorEmail
    }

    /** `ProfessorManagement()`: load the professor file and index it by e-mail. */
    constructor (file: seq<ProfessorRecord>)
      ensures Valid() && fresh(table)
      ensures table.store == file && table.dict == FromList(ProfessorEmail, file)
    {
      table := new Table(ProfessorEmail, file);
    }

    /** `get_professor(email)`: the professor filed under that address, KeyError when absent. */
    function GetProfessor(email: string): (r: Result<ProfessorRecord>)
      requires Valid()
      reads this, table
      ensures r.Ok? <==> email in table.dict.entries
      ensures r.Ok? ==> r.value.email == email && r.value == table.dict.entries[email]
      ensures r.Err? ==> r.error == KeyError(email)
    {
      table.Get(email)
    }

    /** `add_new_professor(professor)`: file the professor under its address and save. */
    method AddNewProfessor(professor: Professor) returns (status: Status)
      requires Valid()
      modifies table
      ensures Valid() && table.Persisted() && status == Done
      ensures table.dict == old(table.dict).Set(professor.email, professor.ToDict())
      ensures GetProfessor(professor.email) == Ok(professor.ToDict())
    {
      status := table.Put(professor.ToDict());
    }

    /**
     * `delete_professor(email)`: KeyError when absent; otherwise the professor
     * is dropped and the rest saved, which raises IndexError when none is left.
     */
    method DeleteProfessor(email: string) returns (status: Status)
      requires Valid()
      modifies table
      ensures Valid()
      ensures email !in old(table.dict.entries) ==> status == Raised(KeyError(email)) && unchanged(table)
      ensures email in old(table.dict.entries) ==>
        table.dict == old(table.dict).Pop(email) && GetProfessor(email) == Err(KeyError(email))
      ensures email in old(table.dict.entries) && |old(table.dict.keys)| == 1 ==>
        status == Raised(IndexError) && table.items == old(table.items)
      ensures email in old(table.dict.entries) && |old(table.dict.keys)| > 1 ==>
        status == Done && table.Persisted()
    {
      status := table.Remove(email);
    }

    /**
     * `update_professor(professor)`: KeyError when its address is not filed;
     * otherwise the professor's row replaces the old one and moves last.
     */
    method UpdateProfessor(professor: Professor) returns (status: Status)
      requires Valid()
      modifies table
      ensures Valid()
      ensures professor.email !in old(table.dict.entries) ==>
        status == Raised(KeyError(professor.email)) && unchanged(table)
      ensures professor.email in old(table.dict.entries) ==>
        && status == Done && table.Persisted()
        && table.dict == old(table.dict).Pop(professor.email).Set(professor.email, professor.ToDict())
    {
      status := table.Replace(professor.ToDict());
    }

    /**
     * `assign_course(professor, course_id)`: declined when the professor
     * already teaches the course; otherwise the course is appended to the
     * professor and the professor is updated.
     */
    method AssignCourse(professor: Professor, courseId: string) returns (status: Status)
      requires Valid()
      modifies professor, table
      ensures Valid()
      ensures courseId in Split(old(professor.courses)) ==>
        status == Declined && unchanged(professor) && unchanged(table)
      ensures courseId !in Split(old(professor.courses)) ==>
        && professor.ToDict() == old(professor.ToDict()).(courses := Appended(old(professor.courses), courseId))
        && (professor.email !in old(table.dict.entries) ==>
              status == Raised(KeyError(professor.email)) && unchanged(table))
        && (professor.email in old(table.dict.entries) ==>
              && status == Done && table.Persisted()
              && table.dict == old(table.dict).Pop(professor.email).Set(professor.email, professor.ToDict()))
    {
      var courses := professor.CourseList();
      if courseId in courses {
        return Declined;
      }
      professor.AddCourse(courseId);
      status := UpdateProfessor(professor);
    }

    /**
     * `add_student_grade(email, course_id, grade, marks)`: look the student up
     * in the student repository and grade them there; every exception is caught
     * and reported, so the status says what was printed.
     */
    method AddStudentGrade(students: Students.StudentManagement, email: string, courseId: string, grade: string, marks: string)
      returns (status: Status)
      requires students.Valid()
      modifies students.table
      ensures students.Valid()
      ensures email !in old(students.table.dict.entries) ==>
        status == Raised(KeyError(email)) && unchanged(students.table)
      ensures email in old(students.table.dict.entries) ==>
        match Ledger.Regraded(old(students.table.dict.entries[email]), courseId, grade, marks)
        case Err(e) => status == Raised(e) && unchanged(students.table)
        case Ok(None) => status == Declined && unchanged(students.table)
        case Ok(Some(t)) =>
          && status == Done && students.table.Persisted()
          && students.table.dict == old(students.table.dict).Pop(email).Set(email, t)
    {
      var r := students.GetStudent(email);
      if r.Err? {
        return Raised(r.error);
      }
      var student := new Ledger.Student.FromRecord(r.value);
      status := students.AddGrade(student, courseId, grade, marks);
    }
  }
}

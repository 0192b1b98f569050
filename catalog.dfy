/**
 * The catalogues: the course file keyed by course id, and the grade scale
 * keyed by grade id, which rewrites its file as soon as it is loaded.
 */
module Catalog {
  import opened Outcomes
  import opened OrderedDicts
  import opened Tables

  /** A course row, as `Course.to_dict()` writes it; the credits stay text as the file holds them. */
  datatype CourseRecord = CourseRecord(courseId: string, credits: string, courseName: string, courseDesc: string)

  function CourseIdOf(r: CourseRecord): string
  {
    r.courseId
  }

  /** A grade row, as `Grade.to_dict()` writes it: a letter and the range of marks it stands for. */
  datatype GradeRecord = GradeRecord(gradeId: string, grade: string, marksRange: string)

  function GradeIdOf(r: GradeRecord): string
  {
    r.gradeId
  }

  class CourseManagement {
    /** The course list, its index `course_dict` and the file they are saved to. */
    const table: Table<CourseRecord>

    ghost predicate Valid()
      reads this, table
    {
      table.Valid() && table.keyOf == CourseIdOf
    }

    /** `CourseManagement()`: load the course file and index it by course id. */
    constructor (file: seq<CourseRecord>)
      ensures Valid() && fresh(table)
      ensures table.store == file && table.dict == FromList(CourseIdOf, file)
    {
      table := new Table(CourseIdOf, file);
    }

    /** `get_course(course_id)`: the course filed under that id, KeyError when absent. */
    function GetCourse(courseId: string): (r: Result<CourseRecord>)
      requires Valid()
      reads this, table
      ensures r.Ok? <==> courseId in table.dict.entries
      ensures r.Ok? ==> r.value.courseId == courseId && r.value == table.dict.entries[courseId]
      ensures r.Err? ==> r.error == KeyError(courseId)
    {
      table.Get(courseId)
    }

    /** `add_new_course(course)`: file the course under its id and save. */
    method AddNewCourse(course: CourseRecord) returns (status: Status)
      requires Valid()
      modifies table
      ensures Valid() && table.Persisted() && status == Done
      ensures table.dict == old(table.dict).Set(course.courseId, course)
      ensures GetCourse(course.courseId) == Ok(course)
      ensures forall id :: id != course.courseId ==> GetCourse(id) == old(GetCourse(id))
    {
      status := table.Put(course);
    }

    /** `update_course(course)`: file the course under its id, replacing any earlier row in place, and save. */
    method UpdateCourse(course: CourseRecord) returns (status: Status)
      requires Valid()
      modifies table
      ensures Valid() && table.Persisted() && status == Done
      ensures table.dict == old(table.dict).Set(course.courseId, course)
      ensures course.courseId in old(table.dict.entries) ==>
        table.items == old(table.dict.Values())[IndexOf(old(table.dict.keys), course.courseId) := course]
    {
      status := table.Put(course);
    }

    /**
     * `delete_course(course_id)`: KeyError when absent; otherwise the course is
     * dropped and the rest saved, which raises IndexError when none is left.
     */
    method DeleteCourse(courseId: string) returns (status: Status)
      requires Valid()
      modifies table
      ensures Valid()
      ensures courseId !in old(table.dict.entries) ==> status == Raised(KeyError(courseId)) && unchanged(table)
      ensures courseId in old(table.dict.entries) ==>
        table.dict == old(table.dict).Pop(courseId) && GetCourse(courseId) == Err(KeyError(courseId))
      ensures courseId in old(table.dict.entries) && |old(table.dict.keys)| == 1 ==>
        status == Raised(IndexError) && table.items == old(table.items)
      ensures courseId in old(table.dict.entries) && |old(table.dict.keys)| > 1 ==>
        status == Done && table.Persisted()
    {
      status := table.Remove(courseId);
    }
  }

  class GradeManagement {
    /** The grade list, its index `grade_dict` and the file they are saved to. */
    const table: Table<GradeRecord>

    ghost predicate Valid()
      reads this, table
    {
      table.Valid() && table.keyOf == GradeIdOf
    }

    /** The loading half of `GradeManagement()`: read the grade file and index it by grade id. */
    constructor Load(file: seq<GradeRecord>)
      ensures Valid() && fresh(table)
      ensures table.store == file && table.dict == FromList(GradeIdOf, file)
    {
      table := new Table(GradeIdOf, file);
    }

    /**
     * `GradeManagement()`: load, then save the index's values back at once.
     * An empty grade file makes that save raise IndexError, so no manager is
     * made; otherwise the file is rewritten with one row per grade id (the
     * last row filed under each id) and list and index agree with it.
     */
    static method Open(file: seq<GradeRecord>) returns (r: Result<GradeManagement>)
      ensures r.Err? <==> |file| == 0
      ensures r.Err? ==> r.error == IndexError
      ensures r.Ok? ==>
        && fresh(r.value) && fresh(r.value.table)
        && r.value.Valid() && r.value.table.Persisted()
        && r.value.table.dict == FromList(GradeIdOf, file)
    {
      var m := new GradeManagement.Load(file);
      var d := m.table.dict;
      FromListValues(GradeIdOf, d);
      if |file| > 0 {
        var last := file[|file| - 1];
        assert GradeIdOf(last) in d.entries;
        assert |d.keys| > 0;
      }
      var status := m.table.Save(d.Values());
      if status != Done {
        return Err(status.error);
      }
      r := Ok(m);
    }

    /** `add_grade(grade)`: file the grade under its id and save. */
    method AddGrade(grade: GradeRecord) returns (status: Status)
      requires Valid()
      modifies table
      ensures Valid() && table.Persisted() && status == Done
      ensures table.dict == old(table.dict).Set(grade.gradeId, grade)
      ensures grade.gradeId !in old(table.dict.entries) ==> table.items == old(table.dict.Values()) + [grade]
    {
      status := table.Put(grade);
    }

    /** `update_grade(grade)`: file the grade under its id, replacing any earlier row in place, and save. */
    method UpdateGrade(grade: GradeRecord) returns (status: Status)
      requires Valid()
      modifies table
      ensures Valid() && table.Persisted() && status == Done
      ensures table.dict == old(table.dict).Set(grade.gradeId, grade)
      ensures grade.gradeId in old(table.dict.entries) ==>
        table.items == old(table.dict.Values())[IndexOf(old(table.dict.keys), grade.gradeId) := grade]
    {
      status := table.Put(grade);
    }

    /**
     * `delete_grade(grade_id)`: KeyError when absent; otherwise the grade is
     * dropped and the rest saved, which raises IndexError when none is left.
     */
    method DeleteGrade(gradeId: string) returns (status: Status)
      requires Valid()
      modifies table
      ensures Valid()
      ensures gradeId !in old(table.dict.entries) ==> status == Raised(KeyError(gradeId)) && unchanged(table)
      ensures gradeId in old(table.dict.entries) ==> table.dict == old(table.dict).Pop(gradeId)
      ensures gradeId in old(table.dict.entries) && |old(table.dict.keys)| == 1 ==>
        status == Raised(IndexError) && table.items == old(table.items)
      ensures gradeId in old(table.dict.entries) && |old(table.dict.keys)| > 1 ==>
        status == Done && table.Persisted()
    {
      status := table.Remove(gradeId);
    }
  }
}

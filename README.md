# check_my_grade, modelled in Dafny

check_my_grade is a small grade-book application. Students, professors,
login accounts, courses and a grade scale are each kept in a CSV file and
managed through a `*Management` class. Each class keeps three things in step:
- a list loaded from the file;
- a dict that indexes the list by primary key;
- the file itself.

Every mutation changes the dict, writes all of the dict's values back to
the file, and reloads the list and the dict from the file.

A student's enrolments are held in three comma-joined strings: `courses`,
`grades` and `marks`. `course_dict()` decodes them into a map from course
to grade and marks, and `course_dict_to_string` writes such a map back.
On top of that sit enrolment, grading, search, a per-course report with
mark statistics, and password login.

This project models that core:

- **`text.dfy` (`Text`):** Python's `str.split(",")`, `",".join`, the
  "set when empty, else append `,item`" update, and substring `in`.
- **`ordered_dicts.dfy` (`OrderedDicts`):** a Python dict as insertion-ordered
  keys plus a map. Assigning to a present key keeps its place, `pop` cuts the
  key out, `values()` follows the order, and the dict comprehension
  `{key(r): r for r in rows}` rebuilds the index.
- **`ledger.dfy` (`Ledger`):** the `Student` object and the
  encoding/decoding of its three fields. This includes the ways the encoding
  breaks: a first grade given to a course other than the first, and
  enrolling after grading.
- **`tables.dfy` (`Tables`):** the repository shape all five management
  classes share. The file is a sequence of records, and saving an empty
  collection raises IndexError at `data[0]`.
- **`stats.dfy` (`MarkStats`):** `int()` on a marks string, and the
  min/max/sum/count of `course_mark_stats`.
- **`students.dfy`, `professors.dfy`, `users.dfy`, `catalog.dfy`:** the five
  repositories and their domain operations.

A call that may raise returns `Result` (`Ok`/`Err`); a mutation returns a
`Status` (`Done`, `Declined` when the source prints a refusal and changes
nothing, or `Raised(error)`).

## Model

| member | source | states |
|---|---|---|
| Text.Split | check_my_grade.py:31-33 | `split(",")` never returns an empty list and no piece contains a comma |
| Text.JoinSplit | check_my_grade.py:31-41 | joining the pieces of a split with commas gives the field back |
| Text.SplitJoin | check_my_grade.py:31-41 | splitting a join of comma-free pieces gives the pieces back |
| Text.Appended | check_my_grade.py:64-69 | the split of the updated field is the item's split when the field was empty, else the field's split followed by the item's |
| Text.AppendedLists | check_my_grade.py:71-83 | appending a comma-free item adds exactly that item at the end of the list; an empty field becomes the one-item list |
| Text.AccumulatedIsJoin | check_my_grade.py:56-62 | appending values one by one from `""` gives their comma-join with the leading run of empty values dropped |
| Text.AccumulatedLeadingNonEmpty | check_my_grade.py:56-62 | when the first value is non-empty, the appended field is exactly the comma-join |
| Text.AccumulatedAllEmpty | check_my_grade.py:56-62 | when every value is empty, the appended field stays `""` |
| Text.ContainsIffOccurs | check_my_grade.py:166-178 | substring `in` holds iff the key occurs at some index, both directions |
| OrderedDicts.Dict.Set | check_my_grade.py:180-183 | `d[k] = v` keeps the dict well formed, adds `k`, stores `v` and leaves every other entry alone |
| OrderedDicts.Dict.Pop | check_my_grade.py:185-188 | `d.pop(k)` keeps the dict well formed, removes exactly `k` and leaves every other entry alone |
| OrderedDicts.Dict.Values | check_my_grade.py:183 | `values()` lists the entries in insertion order, one per key |
| OrderedDicts.SetPresentValues | check_my_grade.py:542-545 | re-assigning a present key keeps its place in `values()` and holds the new value there |
| OrderedDicts.SetAbsentValues | check_my_grade.py:180-183 | assigning a new key appends its value to `values()` |
| OrderedDicts.PopKeys | check_my_grade.py:185-188 | `pop` cuts the key out of the insertion order, the others keeping theirs |
| OrderedDicts.PopValues | check_my_grade.py:185-188 | `pop` cuts the key's value out of `values()` |
| OrderedDicts.PopSetMovesLast | check_my_grade.py:190-194 | pop-then-assign moves the record to the end of `values()`, the rest keeping their order |
| OrderedDicts.FromListCovers | check_my_grade.py:118-121 | the dict comprehension indexes the key of every row |
| OrderedDicts.FromListLast | check_my_grade.py:118-121 | under each key the comprehension holds a row carrying that key that no later row's key repeats, so the last such row wins |
| OrderedDicts.FromListOrder | check_my_grade.py:118-121 | the comprehension's keys are rows' keys, ordered by where each key first occurs among the rows |
| OrderedDicts.FromListValues | check_my_grade.py:132-146 | saving `values()` and rebuilding the index from them gives back the same dict, order included |
| OrderedDicts.ValuesKeysDistinct | check_my_grade.py:132-146 | the saved records carry pairwise different keys |
| Ledger.Decode | check_my_grade.py:43-54 | `course_dict()` has exactly the listed courses as keys (`""` when `courses` is empty); it raises IndexError iff grades are present and the grade or marks list is shorter than the course list |
| Ledger.DecodeAt | check_my_grade.py:43-54 | each course maps to the grade and marks at its last position, or to `("", "")` for every course while `grades` is empty |
| Ledger.DecodeCommaFree | check_my_grade.py:43-54 | no grade or mark in `course_dict()` contains a comma |
| Ledger.DecodedColumns | check_my_grade.py:43-54 | with distinct courses, and grade and marks lists exactly as long as the course list when anything is graded, reading the decoded map back in course order gives the split grade and marks lists, or all-empty columns when ungraded |
| Ledger.EncodeGrades | check_my_grade.py:56-62 | the `grades` written back is the comma-join of the looked-up grades with leading empty grades dropped |
| Ledger.EncodeMarks | check_my_grade.py:56-62 | the `marks` written back is the comma-join of the looked-up marks with leading empty marks dropped |
| Ledger.EncodeThenDecode | check_my_grade.py:43-62 | decoding what `course_dict_to_string(d)` wrote gives `d` back on the listed courses, when every grade and mark in `d` is comma-free and the first course's grade and marks are non-empty |
| Ledger.DecodeThenEncode | check_my_grade.py:43-62 | re-encoding `course_dict()` writes back the same `grades` and `marks`, for distinct courses that are ungraded or fully graded with a non-empty first slot |
| Ledger.GradeSkippingFirstCourseBreaksDecode | check_my_grade.py:56-83 | grading a later course while the first course's grade is empty drops the leading empties, so the next `course_dict()` raises IndexError |
| Ledger.UngradedTwoCourses | check_my_grade.py:43-54 | a student in C1 and C2 with nothing graded decodes to two empty slots |
| Ledger.FirstGradeOnSecondCourse | check_my_grade.py:43-83 | concrete case: grading only C2 of an ungraded C1,C2 student writes fields that no longer decode |
| Ledger.EnrolAfterGradingBreaksDecode | check_my_grade.py:43-69 | enrolling a fully graded student in one more course makes the next `course_dict()` raise IndexError |
| Ledger.Regraded | check_my_grade.py:204-212 | grading passes on the decoder's IndexError, changes nothing for a course not taken, and otherwise changes only `grades` and `marks` |
| Ledger.RegradedThenDecode | check_my_grade.py:204-212 | after grading, `course_dict()` is the old map with only that course's slot replaced, given comma-free values and a non-empty first slot |
| Ledger.Student.FromRecord | check_my_grade.py:14-21 | the object built from a row saves as that row |
| Ledger.Student.ToDict | check_my_grade.py:105-114 | no contract of its own: the row of the object's six fields; `Ledger.Student.FromRecord` (`ToDict() == r`) and the `ToDict()`-based ensures of every mutator state what it saves |
| Ledger.Student.CourseList | check_my_grade.py:31-33 | the course list is non-empty and joins back into `courses` |
| Ledger.Student.GradeList | check_my_grade.py:35-37 | the grade list is non-empty and joins back into `grades` |
| Ledger.Student.MarksList | check_my_grade.py:39-41 | the marks list is non-empty and joins back into `marks` |
| Ledger.Student.CourseDict | check_my_grade.py:43-54 | the loop computes `Decode` of the three fields, including its IndexError |
| Ledger.Student.AddCourse | check_my_grade.py:64-69 | `courses` becomes the item when empty, else gains `,item`; no other field changes |
| Ledger.Student.AddGrade | check_my_grade.py:71-76 | `grades` becomes the item when empty, else gains `,item`; no other field changes |
| Ledger.Student.AddMarks | check_my_grade.py:78-83 | `marks` becomes the item when empty, else gains `,item`; no other field changes |
| Ledger.Student.CourseDictToString | check_my_grade.py:56-62 | `grades` and `marks` become the encodings of the map in `courses` order; names, e-mail and courses unchanged |
| Ledger.Student.UpdateFirstName | check_my_grade.py:85-87 | only the first name changes |
| Ledger.Student.UpdateLastName | check_my_grade.py:89-91 | only the last name changes |
| Tables.Table.constructor | check_my_grade.py:118-130 | the list is the file's rows and the index is the comprehension over them |
| Tables.Table.Reload | check_my_grade.py:143-146 | the list becomes the file's rows and the index is rebuilt from them; the file is unchanged |
| Tables.Table.Save | check_my_grade.py:132-141 | empty data raises IndexError and changes nothing; otherwise file and list become the data and the index is rebuilt |
| Tables.Table.Get | check_my_grade.py:162-164 | the record filed under the key (carrying that key), KeyError when absent |
| Tables.Table.Commit | check_my_grade.py:181-183 | the mutated index is kept; its values are saved, or IndexError leaves list and file as they were when it is empty |
| Tables.Table.Put | check_my_grade.py:180-183 | the index gains the record; a present key keeps its place, a new one goes last; file and list hold the index's values |
| Tables.Table.Replace | check_my_grade.py:190-194 | KeyError with nothing changed for an absent key; otherwise the record moves to the end of file and list |
| Tables.Table.Remove | check_my_grade.py:185-188 | KeyError with nothing changed for an absent key; otherwise the record is cut out of file and list, or IndexError after the pop when it was the last one |
| MarkStats.ParseInt | check_my_grade.py:228 | `int()` succeeds iff the text is an optional sign followed by digits, else ValueError; the sign decides the sign of the value |
| MarkStats.ParseShow | check_my_grade.py:228 | `int(str(n)) == n` for every integer |
| MarkStats.ParseMarks | check_my_grade.py:228 | collecting the non-empty marks raises ValueError iff one is not a number; the result is empty iff every mark is empty |
| MarkStats.ParseMarksShowAll | check_my_grade.py:228 | marks written as `str(x)` read back as the same numbers, in order |
| MarkStats.Min | check_my_grade.py:230 | `min` is an element and bounds every element from below |
| MarkStats.Max | check_my_grade.py:231 | `max` is an element and bounds every element from above |
| MarkStats.SumBounds | check_my_grade.py:232 | the sum lies between `len * min` and `len * max`, so the average lies between min and max |
| MarkStats.CourseStats | check_my_grade.py:225-235 | all zeros for no students; ValueError when a mark is not a number or no student has marks; otherwise min and max are marks bounding all marks, the total is the sum of the marks, and it lies between count·min and count·max |
| Students.Search | check_my_grade.py:166-178 | the search returns no more students than the list holds |
| Students.SearchMembers | check_my_grade.py:166-178 | a student is returned iff it is in the list and the key is a substring of one of its searched fields |
| Students.SearchEmptyKey | check_my_grade.py:166-178 | the empty key returns the whole list, in order |
| Students.SearchAppend | check_my_grade.py:166-178 | searching two consecutive parts of the list gives the first part's finds followed by the second's, so the result keeps list order |
| Students.SearchOne | check_my_grade.py:169-177 | a single student is returned exactly when one of its searched fields contains the key |
| Students.ContainsEmpty | check_my_grade.py:170-176 | the empty key is a substring of every field |
| Students.CourseRoster | check_my_grade.py:214-223 | a failing report fails with IndexError; a succeeding one has a well-formed dict whose entries are filed under their own e-mail |
| Students.RosterFails | check_my_grade.py:214-223 | the report raises iff some student's `course_dict()` raises |
| Students.RosterShape | check_my_grade.py:214-223 | the report lines are those of the students taking the course, in list order, and the dict's keys are exactly their e-mails |
| Students.RosterKeys | check_my_grade.py:214-223 | an e-mail is a key iff some student with that e-mail takes the course |
| Students.RosterLines | check_my_grade.py:214-223 | a line is reported iff it is the report line of some student taking the course |
| Students.RosterEntryAt | check_my_grade.py:214-223 | the entry under a student's e-mail carries that student's name, grade and marks for the course, unless a later student who also takes the course has the same e-mail |
| Students.MarksColumn | check_my_grade.py:228 | the marks of the report entries, one per entry, in dict order |
| Students.StudentManagement.constructor | check_my_grade.py:118-121 | the student list is the file's rows, indexed by e-mail |
| Students.StudentManagement.GetStudent | check_my_grade.py:162-164 | the student filed under the e-mail, which is one of the index's values; KeyError when absent |
| Students.StudentManagement.GetStudents | check_my_grade.py:166-178 | the loop returns exactly the search over the loaded list |
| Students.StudentManagement.AddNewStudent | check_my_grade.py:180-183 | the student is filed under its e-mail and everything saved; a new student goes last |
| Students.StudentManagement.DeleteStudent | check_my_grade.py:185-188 | KeyError when absent; otherwise popped and saved, or IndexError when no student is left |
| Students.StudentManagement.UpdateStudent | check_my_grade.py:190-194 | KeyError when absent; otherwise the row is replaced and moved last |
| Students.StudentManagement.AssignCourse | check_my_grade.py:196-202 | declined with nothing changed when the course is listed; otherwise only `courses` grows and the student is updated |
| Students.StudentManagement.AddGrade | check_my_grade.py:204-212 | the student becomes the regraded row and is updated; decoder errors and courses not taken change nothing |
| Students.StudentManagement.CourseStudents | check_my_grade.py:214-223 | the loop returns exactly the report over the loaded list |
| Students.StudentManagement.CourseMarkStats | check_my_grade.py:225-235 | the loop returns exactly the statistics over the report's marks column |
| Professors.Professor.FromRecord | check_my_grade.py:238-243 | the object built from a row saves as that row |
| Professors.Professor.ToDict | check_my_grade.py:272-279 | no contract of its own: the row of the object's four fields; `Professors.Professor.FromRecord` (`ToDict() == r`) and the mutators' `ToDict()` ensures state what it saves |
| Professors.Professor.UpdateName | check_my_grade.py:253-255 | only the name changes |
| Professors.Professor.UpdateRank | check_my_grade.py:257-259 | only the rank changes |
| Professors.Professor.CourseList | check_my_grade.py:261-263 | the course list is non-empty and joins back into `courses` |
| Professors.Professor.AddCourse | check_my_grade.py:265-270 | `courses` becomes the item when empty, else gains `,item`; nothing else changes |
| Professors.ProfessorManagement.constructor | check_my_grade.py:284-286 | the professor list is the file's rows, indexed by e-mail |
| Professors.ProfessorManagement.GetProfessor | check_my_grade.py:330-332 | the professor filed under the e-mail; KeyError when absent |
| Professors.ProfessorManagement.AddNewProfessor | check_my_grade.py:320-323 | the professor is filed under its e-mail, everything saved, and found afterwards |
| Professors.ProfessorManagement.DeleteProfessor | check_my_grade.py:325-328 | KeyError when absent; otherwise popped, no longer found, and saved, or IndexError when none is left |
| Professors.ProfessorManagement.UpdateProfessor | check_my_grade.py:342-346 | KeyError when absent; otherwise the row is replaced and moved last |
| Professors.ProfessorManagement.AssignCourse | check_my_grade.py:334-340 | declined with nothing changed when the course is taught; otherwise only `courses` grows and the professor is updated |
| Professors.ProfessorManagement.AddStudentGrade | check_my_grade.py:348-354 | an unknown e-mail leaves the student table unchanged with KeyError caught; otherwise the outcome of grading that student's row |
| Users.User.FromRecord | check_my_grade.py:358-362 | the object built from a row saves as that row |
| Users.User.ToDict | check_my_grade.py:376-378 | no contract of its own: the row of the object's three fields; `Users.User.FromRecord` (`ToDict() == r`) and `SetPassword`'s ensures state what it saves |
| Users.User.SetPassword | check_my_grade.py:364-366 | only the password changes |
| Users.UserManagement.constructor | check_my_grade.py:382-385 | the user list is the file's rows, indexed by user id |
| Users.UserManagement.GetUser | check_my_grade.py:413-415 | the user filed under the id; KeyError when absent |
| Users.UserManagement.CheckUser | check_my_grade.py:409-411 | true iff `get_user` would succeed |
| Users.UserManagement.EncryptPassword | check_my_grade.py:451-453 | no contract of its own: the digest `hash(password)`; `Login`'s iff and `ChangePassword`'s stored digest state its role |
| Users.UserManagement.VerifyPassword | check_my_grade.py:461-463 | no contract of its own: the stored digest equals the password's digest; `Login`'s iff states what it decides |
| Users.UserManagement.Login | check_my_grade.py:443-449 | true iff the id is filed, its role is the requested one, and its stored password is the digest of the given password |
| Users.UserManagement.AddUser | check_my_grade.py:404-407 | the user is filed and saved, and then logs in with its role exactly with the passwords whose digest it stores |
| Users.UserManagement.UpdateUser | check_my_grade.py:417-420 | the user is filed and saved; an existing id keeps its place |
| Users.UserManagement.DeleteUser | check_my_grade.py:422-425 | KeyError when absent; otherwise popped, nobody logs in under that id, and saved or IndexError when none is left |
| Users.UserManagement.ChangePassword | check_my_grade.py:455-459 | KeyError when absent; otherwise the stored password becomes the new digest, the new password logs in, and only passwords with that digest do |
| Catalog.CourseManagement.constructor | check_my_grade.py:496-499 | the course list is the file's rows, indexed by course id |
| Catalog.CourseManagement.GetCourse | check_my_grade.py:501-503 | the course filed under the id; KeyError when absent |
| Catalog.CourseManagement.AddNewCourse | check_my_grade.py:537-540 | the course is filed and saved; lookups of every other id are unchanged |
| Catalog.CourseManagement.UpdateCourse | check_my_grade.py:542-545 | the course is filed and saved; an existing course is overwritten in place |
| Catalog.CourseManagement.DeleteCourse | check_my_grade.py:547-550 | KeyError when absent; otherwise popped, no longer found, and saved or IndexError when none is left |
| Catalog.GradeManagement.Load | check_my_grade.py:576-579 | the grade list is the file's rows, indexed by grade id |
| Catalog.GradeManagement.Open | check_my_grade.py:576-580 | construction fails with IndexError iff the grade file is empty; otherwise the file is rewritten with the index's values |
| Catalog.GradeManagement.AddGrade | check_my_grade.py:614-617 | the grade is filed and saved; a new grade goes last |
| Catalog.GradeManagement.UpdateGrade | check_my_grade.py:624-627 | the grade is filed and saved; an existing grade is overwritten in place |
| Catalog.GradeManagement.DeleteGrade | check_my_grade.py:619-622 | KeyError when absent; otherwise popped and saved, or IndexError when none is left |

## Left out

- CSV and file I/O are not modelled: opening files, `os.path.exists`, `csv.DictReader`/`DictWriter`, headers and encodings. Each file is the record sequence `store`; a missing file is an empty one. Writing then reading a file is taken to give back the records written.
- SHA-256 (`hashlib.sha256(...).hexdigest()`) is the function parameter `hash` of `UserManagement`. Only equality of digests matters to the core.
- The float average and `statistics.median` of `course_mark_stats` are left out, since they are floating point; `Stats` keeps min, max, the total (the sum of the marks) and the count, from which the average is total / count.
- MarkStats.ParseInt: accepts only an optional sign followed by ASCII digits. Python's `int()` also accepts surrounding whitespace, underscores between digits and non-ASCII decimal digits; the model reports those as ValueError.
- Ledger.Student.CourseDictToString: requires every listed course to have a slot in the map. The source would raise KeyError part-way through, after clearing `grades` and `marks`. Its only caller, `add_grade`, always passes a map covering every listed course.
- Printing is not modelled: `display_*`, `view_users`, `check_my_grades`, `check_my_marks`, `__repr__`/`__str__` and the printed messages. A printed refusal is the status `Declined`; a caught exception in `add_student_grade` is the status `Raised`.
- The interactive `main()` menu (check_my_grade.py:631-965) and its sorted reports are not modelled.
- The module-level singletons are not modelled. `add_student_grade` receives the student repository as a parameter instead of using the global `student_management`.
- Repository rows are values. In the source, `get_student`, `get_professor` and `get_user` return the dict's own object, so a caller that assigns one of its fields changes the in-memory dict at once, and that change reaches the file at the next save of any record, even without `update_*`. `Table.Get` returns a copy of the row, so this aliasing is not captured; the core's own operations are unaffected, since `update_*` pops the key and files the caller's object again. Only the caller's own `Student`/`Professor`/`User` object is a class with fields updated in place.
- Two repository objects over the same file do not see each other's writes: each `Table` owns its `store`.
- `Course` and `Grade` objects are their records (`CourseRecord`, `GradeRecord`), because no method of the core updates them in place. A caller that assigns a field of such an object and then calls `update_course` or `update_grade` is modelled by passing the updated record; aliasing between that object and the one in the repository is not captured.
- Users.UserManagement.EncryptPassword and Users.UserManagement.VerifyPassword: carry no contract of their own, since SHA-256 is the parameter `hash`; `Login` and `ChangePassword` state what they decide.
- Exceptions other than KeyError, IndexError and ValueError are not modelled, for example a malformed CSV row passed to a constructor.

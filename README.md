# Student management dashboard: a verified model

This project models the logic of a student-management dashboard. The
dashboard has a React front end over a Spring REST back end. The model has
four parts.

- **Ranking and figures on the front end.**
  - The Marks page's top three and its filtered, sorted table.
  - The Attendances page's top attenders, its sortable table and its date and
    department filters.
  - The Students page's top performers, its sort toggle and the eviction
    rename.
  - The figures and badges on the student-details card.

  Students whose name carries the `(evicted)` marker are kept off the
  podiums. Percentages are exact `real`s, or integer arithmetic where the
  page rounds.
- **The bulk mark-edit session of the Marks page.** It is a class over an
  array of entries and two per-index flag maps. It has methods for open,
  change, blur, save and cancel.
- **The back-end controllers**, written as methods over an in-memory
  `Database` class. The class holds one sequence per table and a single id
  counter.
  - Attendance: the absent-record fill-in, upsert by (student, date), and
    toggling `present`.
  - Students: create with absent back-fill; update of name and email only.
  - Courses: name validation, and creation with two default subjects.
  - Marks: the details join, the bulk update-or-insert, and the 32-bit total.
- **Forms and small state machines.**
  - The course form and its subject preview.
  - The case-insensitive search bar.
  - The login form's failed-attempt lockout.
  - The server's login decision order.

Modules follow the source files. `Common` holds shared helpers: Option and
Result, ASCII lower-casing, substring search, the JavaScript and Java blank
tests, and integer printing and parsing. `Ordering` is the stable sort that
`Array.prototype.sort` performs, with the pages' toggling sort
configuration. `Records` holds the JSON shapes the pages receive. `Store` is
the persistence layer.

## Model

| member | source | states |
|---|---|---|
| Records.DisplayName | sms-frontend/src/components/StudentDetails.jsx:55-58 | a name without the marker is shown as is; otherwise exactly the first `(evicted)` is cut out and every other character, the space before it included, stays in place |
| Records.AppendedMarkerIsFirst | sms-frontend/src/pages/Students.jsx:158-166 | appending " (evicted)" to a name without the marker puts the first occurrence of the marker right after the added space |
| Records.PresentDays | sms-frontend/src/components/StudentDetails.jsx:47 | the number of present records never exceeds the number of records |
| Records.TotalMarksNullIsZero | sms-frontend/src/components/StudentDetails.jsx:51-53 | a null mark contributes exactly what a 0 does to the marks total |
| Records.TotalMarksBounds | sms-frontend/src/components/StudentDetails.jsx:51-53 | with every mark in 0..100 the total lies in 0..100 per subject |
| Records.FilterByDepartment | sms-frontend/src/pages/Students.jsx:142-146 | no selected department keeps the list unchanged; every kept student belongs to the selected department |
| Records.FilterByDepartmentMembers | sms-frontend/src/pages/Students.jsx:142-146 | a student is kept iff it is listed and no department is selected or its course name equals the selection exactly; students without a course never match |
| Ordering.RequestSort | sms-frontend/src/pages/Attendances.js:84-90 | the new key is the pressed one; the direction is descending iff the same key was pressed while ascending |
| Ordering.RequestSortToggles | sms-frontend/src/pages/Students.jsx:94-100 | pressing the same key again flips the direction, and a third press returns to the configuration after the first |
| Ordering.SortByPermutes | sms-frontend/src/pages/Attendances.js:92-112 | sorting is a permutation of its input (same multiset, same length) |
| Ordering.SortByOrdered | sms-frontend/src/pages/Attendances.js:92-112 | the sorted list is ordered by the key in the chosen direction |
| Ordering.SortByStable | sms-frontend/src/pages/Attendances.js:92-112 | elements with equal keys keep their input order |
| Ordering.SortByIdempotent | sms-frontend/src/pages/Students.jsx:102-122 | sorting an already sorted list changes nothing |
| Ordering.SortedPrefixDominates | sms-frontend/src/pages/Students.jsx:84-88 | an element left out of the first n of a sorted list is not ahead of any element kept |
| Ordering.TopKeepsTies | sms-frontend/src/pages/Attendances.js:70-73 | among equal keys, the first n of a sorted list are a prefix of the input's elements with that key |
| MarksPage.PodiumMembers | sms-frontend/src/pages/MarksPage.jsx:31-48 | the podium has min(3, eligible) entries, each a listed student without the eviction marker |
| MarksPage.PodiumOrder | sms-frontend/src/pages/MarksPage.jsx:31-48 | the podium is non-increasing by total, a missing total counting as 0 |
| MarksPage.PodiumDominates | sms-frontend/src/pages/MarksPage.jsx:31-48 | an eligible student left off the podium has no larger total than anyone on it |
| MarksPage.TopThreeStudentsCorrect | sms-frontend/src/pages/MarksPage.jsx:31-48 | at most 3 entries, position i has rank i+1 and its student's total; no evicted student; non-increasing totals; everyone left out totals no more than anyone kept |
| MarksPage.MarksTableCorrect | sms-frontend/src/pages/MarksPage.jsx:169-182 | the table is a permutation of the department-filtered list, holds exactly the department's students, is ordered by lower-cased name or total in the chosen direction, and keeps ties in input order |
| MarksPage.ParseField | sms-frontend/src/pages/MarksPage.jsx:122-129 | the field is blank iff the input is "", and otherwise is the integer `parseInt` reads or not-a-number |
| MarksPage.TypedMarkAccepted | sms-frontend/src/pages/MarksPage.jsx:122-141 | every mark 0..100, typed in decimal, parses back to itself and is accepted |
| MarksPage.EditSession.constructor | sms-frontend/src/pages/MarksPage.jsx:10-16 | no session is open and both flag maps are empty |
| MarksPage.EditSession.Open | sms-frontend/src/pages/MarksPage.jsx:96-110 | opening (possible only for a student without the marker) for the details fetched for that same student, copies the entries and sets the empty flag of entry i exactly when its mark is null |
| MarksPage.EditSession.Change | sms-frontend/src/pages/MarksPage.jsx:122-142 | an unparsable or out-of-range input only sets that index's invalid flag; "" stores null and sets its empty flag; a value in 0..100 stores it and clears the empty flag; both clear the invalid flag; no other index changes |
| MarksPage.EditSession.Blur | sms-frontend/src/pages/MarksPage.jsx:468-473 | leaving a null field stores 0 and clears both of its flags; leaving a field with a value changes nothing |
| MarksPage.EditSession.Save | sms-frontend/src/pages/MarksPage.jsx:144-167 | nothing is sent while any empty flag is set, and an enabled Save button always sends; the request has one update per entry, in order, with the mark id, the session's student, the subject and the mark (null as 0); a confirmed save closes the session and clears the empty flags |
| MarksPage.EditSession.Cancel | sms-frontend/src/pages/MarksPage.jsx:489-493 | closes the session and clears both flag maps without sending anything |
| AttendancesPage.FirstStudent | sms-frontend/src/pages/Attendances.js:43-59 | the student remembered for an id is one carrying that id |
| AttendancesPage.AscendingIds | sms-frontend/src/pages/Attendances.js:43-67 | the grouped ids come out strictly increasing, the order `Object.values` gives integer keys |
| AttendancesPage.AscendingIdsMembers | sms-frontend/src/pages/Attendances.js:43-59 | an id is grouped iff some record with a student carries it; rows without a student are skipped |
| AttendancesPage.CountsStep | sms-frontend/src/pages/Attendances.js:43-59 | each record adds one to its student's total count, duplicates included, and one to the present count when present |
| AttendancesPage.PresentAtMostTotal | sms-frontend/src/pages/Attendances.js:43-59 | a student's present count never exceeds its total count |
| AttendancesPage.Percentage | sms-frontend/src/pages/Attendances.js:62-67 | 100·present/total lies in 0..100; the total is at least 1, so there is no division by zero |
| AttendancesPage.GroupedCorrect | sms-frontend/src/pages/Attendances.js:43-67 | one group per student with records, in ascending id order, each with its exact counts, present ≤ total and total ≥ 1 |
| AttendancesPage.TopAttendersMembers | sms-frontend/src/pages/Attendances.js:70-73 | at most 3 attenders, each taken from the groups; evicted students are not excluded |
| AttendancesPage.TopAttendersOrder | sms-frontend/src/pages/Attendances.js:70-73 | the top attenders are non-increasing by percentage |
| AttendancesPage.TopAttendersDominate | sms-frontend/src/pages/Attendances.js:70-73 | a group left out has no higher percentage than any top attender |
| AttendancesPage.TopAttendersCorrect | sms-frontend/src/pages/Attendances.js:70-73 | size min(3, groups), members, order, dominance, and ties in ascending id order together |
| AttendancesPage.TiesKeepGroupOrder | sms-frontend/src/pages/Attendances.js:70-73 | two top attenders with equal percentages appear in grouping (ascending id) order |
| AttendancesPage.TallyAppend | sms-frontend/src/pages/Attendances.js:44-58 | counting one more row (skipped without a student, opening an empty tally for a new student) keeps every tally equal to that student's present and total counts over the rows so far |
| AttendancesPage.TallyRows | sms-frontend/src/pages/Attendances.js:43-59 | the forEach loop's counters equal the per-student counts, and its key order is the ascending id order |
| AttendancesPage.CalculateTopAttenders | sms-frontend/src/pages/Attendances.js:39-74 | the imperative computation returns exactly the specified top attenders |
| AttendancesPage.SortedRowsCorrect | sms-frontend/src/pages/Attendances.js:92-112 | no key returns the rows unchanged; otherwise a permutation ordered by lower-cased name, date or department (missing as ''), reversed for descending, ties in input order |
| AttendancesPage.VisibleRowsMembers | sms-frontend/src/pages/Attendances.js:132-138 | a row is shown iff it lies on the selected day (any day if none) and its student's course name equals the selected department (any if none) |
| AttendancesPage.AttendancesView.constructor | sms-frontend/src/pages/Attendances.js:6-11 | no sort key, ascending, no top attenders, no row being edited |
| AttendancesPage.AttendancesView.PressSort | sms-frontend/src/pages/Attendances.js:84-90 | the configuration becomes the toggled one; nothing else changes |
| AttendancesPage.AttendancesView.RowsChanged | sms-frontend/src/pages/Attendances.js:32-37 | a non-empty row list recomputes the top attenders; an empty one leaves the previous list in place |
| AttendancesPage.AttendancesView.StartEdit | sms-frontend/src/pages/Attendances.js:370-381 | a row of a student without the marker becomes the edited one; evicted rows cannot be edited |
| StudentsPage.AttendanceShare | sms-frontend/src/pages/Students.jsx:63-65 | 0 with no records, otherwise 100·present/total |
| StudentsPage.MarksPercentage | sms-frontend/src/pages/Students.jsx:68-69 | the marks percentage is total/500·100 |
| StudentsPage.PerformersCorrect | sms-frontend/src/pages/Students.jsx:47-92 | a performer entry exists exactly for each student without the marker, with score ½·attendance% + ½·marks%, marks null counted as 0 |
| StudentsPage.EvictedNotOnPodium | sms-frontend/src/pages/Students.jsx:52 | no top performer carries the eviction marker |
| StudentsPage.TopPerformersCorrect | sms-frontend/src/pages/Students.jsx:84-88 | min(3, performers) entries, non-increasing score, ties in input order, and no one left out scores higher than anyone kept |
| StudentsPage.SortedStudentsCorrect | sms-frontend/src/pages/Students.jsx:102-122 | a permutation of the department-filtered list; no key keeps it as is; otherwise ordered by lower-cased name, course name or lower-cased email, ties in order |
| StudentsPage.EvictRequestCorrect | sms-frontend/src/pages/Students.jsx:158-166 | the request keeps id, email and course, and the new name is evicted and displays as the old name plus a space |
| StudentsPage.StudentsView.constructor | sms-frontend/src/pages/Students.jsx:7-14 | no students, no sort key, ascending, no top performers |
| StudentsPage.StudentsView.PressSort | sms-frontend/src/pages/Students.jsx:94-100 | the configuration becomes the toggled one; nothing else changes |
| StudentsPage.StudentsView.Loaded | sms-frontend/src/pages/Students.jsx:26-92 | the fetched students are stored; the top performers are recomputed from them when every student not evicted was fetched, and stay as they were when any such fetch failed |
| StudentDetails.AttendancePercentage | sms-frontend/src/components/StudentDetails.jsx:45-49 | 0 with no records; otherwise 100·present/total rounded half up, an integer in 0..100 |
| StudentDetails.ExcellentBadgeIff | sms-frontend/src/components/StudentDetails.jsx:190 | the Excellent badge shows iff the student is not evicted and the rounded percentage is at least 90 |
| StudentDetails.TopPerformerBadgeIff | sms-frontend/src/components/StudentDetails.jsx:240 | the Top Performer badge shows iff the student is not evicted and total/500 ≥ 0.75 |
| StudentDetails.EvictionHidesMarks | sms-frontend/src/components/StudentDetails.jsx:55-57 | the current-marks section (`ShowsCurrentMarks`, hidden at line 279 for an evicted student) is hidden once the marker is appended, and the name shown is the old name and its space |
| CoursePage.ValidateFormCorrect | sms-frontend/src/pages/CoursePage.jsx:35-48 | a blank name is reported first; otherwise any blank subject is reported; otherwise the payload is the name and the non-blank subjects in order |
| CoursePage.CourseForm.constructor | sms-frontend/src/pages/CoursePage.jsx:10-12 | an empty name, three empty subjects, the form hidden |
| CoursePage.CourseForm.SubjectChange | sms-frontend/src/pages/CoursePage.jsx:69-73 | only entry i is replaced; the others, the name and the visibility stay |
| CoursePage.CourseForm.ResetForm | sms-frontend/src/pages/CoursePage.jsx:63-67 | name "", three empty subjects, form hidden |
| CoursePage.CourseForm.AddCourse | sms-frontend/src/pages/CoursePage.jsx:35-61 | an invalid form sends nothing and reports the error; a valid one sends the payload; a confirmed creation resets the form; otherwise the form is kept |
| CoursePage.PreviewCases | sms-frontend/src/pages/CoursePage.jsx:179-189 | "Less than 4 subjects" when neither the 4th nor the 5th subject has a name; otherwise the present names joined by ", " and followed by ", ..." |
| SearchBar.MatchesIgnoresCase | sms-frontend/src/components/SearchBar.jsx:34-37 | matching is unchanged by lower-casing either side |
| SearchBar.SuggestionsMembers | sms-frontend/src/components/SearchBar.jsx:34-54 | students, courses and menu entries match exactly when their lower-cased name contains the lower-cased query |
| SearchBar.LeadingSpaceNeedsSpace | sms-frontend/src/components/SearchBar.jsx:25-35 | the query is not trimmed: a leading space matches only names containing a space |
| SearchBar.LeadingSpaceHidesMenu | sms-frontend/src/components/SearchBar.jsx:5-10 | no menu entry matches a query with a leading space |
| SearchBar.RouteReadsBack | sms-frontend/src/components/SearchBar.jsx:63-70 | a menu path navigates to itself; a student or course goes to /students/ or /courses/ followed by a number that reads back as its id |
| SearchBar.Search.constructor | sms-frontend/src/components/SearchBar.jsx:18-21 | empty query and no matches |
| SearchBar.Search.QueryChanged | sms-frontend/src/components/SearchBar.jsx:24-61 | a blank query clears all three match lists; otherwise each list is its filter of the untrimmed query |
| SearchBar.Search.Navigate | sms-frontend/src/components/SearchBar.jsx:63-75 | returns the choice's route and clears the query and all three match lists |
| AuthController.Login | studentmanagement/src/main/java/com/sms/studentmanagement/controller/AuthController.java:23-57 | success iff the username is "admin" and the password verifies; 400 "required" iff either field is null or empty (untrimmed); 400 for a shorter than 8 password iff both are present; 401 "Invalid credentials" in every other case |
| AuthController.ShortPasswordBeforeAccount | studentmanagement/src/main/java/com/sms/studentmanagement/controller/AuthController.java:38-44 | a short password is rejected with 400 even for the admin account |
| LoginPage.FailureMessage | sms-frontend/src/pages/Login.jsx:53-58 | the shown message is never empty, and it is the server's message when the server sent one |
| LoginPage.SentRequestsReachTheAccountCheck | sms-frontend/src/pages/Login.jsx:18-38 | every request the form sends passes the server's required and length checks, so it succeeds iff the credentials are right and otherwise gets 401 |
| LoginPage.LoginForm.constructor | sms-frontend/src/pages/Login.jsx:8-11 | no failed attempts, no message, not loading |
| LoginPage.LoginForm.HandleLogin | sms-frontend/src/pages/Login.jsx:14-171 | checks run lockout, blank, short; the first three send nothing and keep the counter; a success resets the counter; any other answer adds one; at 3 or more the counter never changes, nothing is sent and the submit button (`CanSubmit`, line 171: not loading and fewer than 3 failures) stays disabled; after a call that was not loading the button is enabled exactly while the counter is below 3 |
| Store.FindRecord | studentmanagement/src/main/java/com/sms/studentmanagement/repository/AttendanceRepository.java:21-23 | the lookup finds a record of that student and date, and finds none iff none exists |
| Store.FindRecordUnique | studentmanagement/src/main/java/com/sms/studentmanagement/repository/AttendanceRepository.java:23 | with one record per (student, date), the lookup finds exactly that record |
| Store.DistinctDates | studentmanagement/src/main/java/com/sms/studentmanagement/repository/AttendanceRepository.java:15-16 | the dates present in the table, each once |
| Store.FillAddsExactlyOne | studentmanagement/src/main/java/com/sms/studentmanagement/controller/AttendanceController.java:27-49 | a student lacking a date receives exactly one added record for it |
| Store.FillIsNoOpWhenComplete | studentmanagement/src/main/java/com/sms/studentmanagement/controller/AttendanceController.java:35-38 | filling a complete table adds nothing |
| Store.FilledTableIsComplete | studentmanagement/src/main/java/com/sms/studentmanagement/controller/AttendanceController.java:27-49 | after filling over the table's dates every student has a record on every date the table now holds |
| Store.AbsentRecords | studentmanagement/src/main/java/com/sms/studentmanagement/controller/StudentController.java:44-51 | one absent record per date, in order, with consecutive new ids |
| Store.AbsentRecordsUnique | studentmanagement/src/main/java/com/sms/studentmanagement/controller/StudentController.java:44-51 | adding a new student's absent records over distinct dates keeps one record per (student, date) |
| Store.Database.FillAttendance | studentmanagement/src/main/java/com/sms/studentmanagement/controller/AttendanceController.java:34-47 | the nested loop appends only absent records for missing (student, date) pairs, exactly one per pair, keeps existing records and their `present`, and touches no other table |
| Store.Database.FillStudent | studentmanagement/src/main/java/com/sms/studentmanagement/controller/AttendanceController.java:35-46 | one student's pass over the dates saves an absent record exactly where none exists, keeps every existing record and leaves the other tables alone |
| Store.Database.BackFillStudent | studentmanagement/src/main/java/com/sms/studentmanagement/controller/StudentController.java:44-51 | the loop appends exactly the student's absent records for the given dates and advances the id counter by their number |
| AttendanceController.OnDate | studentmanagement/src/main/java/com/sms/studentmanagement/controller/AttendanceController.java:76 | every returned record lies on the date |
| AttendanceController.GetAllAttendance | studentmanagement/src/main/java/com/sms/studentmanagement/controller/AttendanceController.java:27-50 | fills every student's missing records over the dates present before the call, then returns the whole table |
| AttendanceController.GetAllAttendanceIdempotent | studentmanagement/src/main/java/com/sms/studentmanagement/controller/AttendanceController.java:35-38 | a second fill after the first inserts nothing |
| AttendanceController.GetAttendanceByDate | studentmanagement/src/main/java/com/sms/studentmanagement/controller/AttendanceController.java:57-77 | gives every student lacking one an absent record on the date, then returns the records on it |
| AttendanceController.ByDateOnePerStudent | studentmanagement/src/main/java/com/sms/studentmanagement/controller/AttendanceController.java:58-77 | the returned list holds exactly one record per student |
| AttendanceController.MarkAttendance | studentmanagement/src/main/java/com/sms/studentmanagement/controller/AttendanceController.java:79-105 | an unknown student fails and saves nothing; an existing (student, date) record gets the new `present`; otherwise exactly one new record is inserted; the returned record is the stored one |
| AttendanceController.UpdateAttendance | studentmanagement/src/main/java/com/sms/studentmanagement/controller/AttendanceController.java:107-114 | an unknown id fails and changes nothing; otherwise only that record's `present` changes |
| AttendanceController.InitialDates | studentmanagement/src/main/java/com/sms/studentmanagement/controller/AttendanceController.java:116-125 | today alone when the table is empty, otherwise the dates present |
| AttendanceController.Initialize | studentmanagement/src/main/java/com/sms/studentmanagement/controller/AttendanceController.java:116-139 | every student receives an absent record for every initial date it lacks, and the fixed confirmation is returned |
| StudentController.GetStudentById | studentmanagement/src/main/java/com/sms/studentmanagement/controller/StudentController.java:30-34 | fails with not-found iff no student has the id; otherwise returns the student with it |
| StudentController.CreateStudent | studentmanagement/src/main/java/com/sms/studentmanagement/controller/StudentController.java:37-54 | the student is stored with a fresh id and gets one absent record per date already present; nothing else changes |
| StudentController.CreateStudentRecords | studentmanagement/src/main/java/com/sms/studentmanagement/controller/StudentController.java:44-51 | the new student's records are exactly the added ones, and every other student's records are unchanged |
| StudentController.CreateStudentOnePerDate | studentmanagement/src/main/java/com/sms/studentmanagement/controller/StudentController.java:44-51 | the added records cover exactly the table's dates, one per date, all absent |
| StudentController.UpdateStudent | studentmanagement/src/main/java/com/sms/studentmanagement/controller/StudentController.java:56-68 | an unknown id fails and saves nothing; otherwise only name and email are replaced and the course is kept |
| StudentController.DeleteStudent | studentmanagement/src/main/java/com/sms/studentmanagement/controller/StudentController.java:71-74 | the students table loses the rows with the id and nothing else |
| StudentController.DeleteStudentRemovesOnlyIt | studentmanagement/src/main/java/com/sms/studentmanagement/controller/StudentController.java:71-74 | exactly the student with the id disappears; an unknown id changes nothing |
| CourseController.ValidateCourseInput | studentmanagement/src/main/java/com/sms/studentmanagement/controller/CourseController.java:53-60 | 400 iff the name is null or blank after Java's trim; otherwise 409 iff a course has that name ignoring case; otherwise accepted |
| CourseController.KeptNames | studentmanagement/src/main/java/com/sms/studentmanagement/controller/CourseController.java:70-75 | never more names than given |
| CourseController.KeptNamesMembers | studentmanagement/src/main/java/com/sms/studentmanagement/controller/CourseController.java:71-74 | a name is kept iff it was given and is not blank after trim |
| CourseController.KeptNamesInOrder | studentmanagement/src/main/java/com/sms/studentmanagement/controller/CourseController.java:72-74 | the filter distributes over concatenation and keeps one name, as given and untrimmed, exactly when it is neither null nor blank, so the kept names keep their relative order whatever is dropped between them |
| CourseController.SubjectNames | studentmanagement/src/main/java/com/sms/studentmanagement/controller/CourseController.java:62-78 | "English" and "Tamil" come first; a null custom list gives only those two |
| CourseController.NewSubjects | studentmanagement/src/main/java/com/sms/studentmanagement/controller/CourseController.java:62-85 | one subject per name, in order, bound to the course |
| CourseController.CreateCourse | studentmanagement/src/main/java/com/sms/studentmanagement/controller/CourseController.java:36-51 | a rejected input saves nothing and returns its error; otherwise the course is stored with a fresh id and its subjects are appended |
| CourseController.CreateCourseKeepsNamesDistinct | studentmanagement/src/main/java/com/sms/studentmanagement/controller/CourseController.java:57-59 | an accepted name keeps course names distinct ignoring case |
| CourseController.GetCourseById | studentmanagement/src/main/java/com/sms/studentmanagement/controller/CourseController.java:87-92 | 404 iff no course has the id; otherwise the course with it |
| CourseController.DeleteCourse | studentmanagement/src/main/java/com/sms/studentmanagement/controller/CourseController.java:94-102 | 404 and no change for an unknown id; otherwise the course is removed |
| CourseController.DeleteCourseRemovesOnlyIt | studentmanagement/src/main/java/com/sms/studentmanagement/controller/CourseController.java:94-102 | exactly the course with the id disappears |
| MarkController.FirstMark | studentmanagement/src/main/java/com/sms/studentmanagement/controller/MarkController.java:51-53 | the first of the student's marks for the subject, or none when there is none |
| MarkController.CourseSubjects | studentmanagement/src/main/java/com/sms/studentmanagement/controller/MarkController.java:46 | a subject is listed iff it is in the table and belongs to the course |
| MarkController.CourseSubjectsInOrder | studentmanagement/src/main/java/com/sms/studentmanagement/controller/MarkController.java:46 | the listed subjects keep table order: the filter distributes over concatenation and keeps one row exactly when it belongs to the course |
| MarkController.StudentMarksDetails | studentmanagement/src/main/java/com/sms/studentmanagement/controller/MarkController.java:41-70 | "Student not found" iff the id is unknown; `NoCourse` iff the student (the first with the id) has no course or one no course row carries; no other error; otherwise the student's name and course, and one entry per course subject in order |
| MarkController.EntryMatchesStore | studentmanagement/src/main/java/com/sms/studentmanagement/controller/MarkController.java:50-59 | an entry has a mark id iff a stored mark exists, and then carries that mark's id and value; otherwise both are null |
| MarkController.ApplyUpdate | studentmanagement/src/main/java/com/sms/studentmanagement/controller/MarkController.java:75-92 | with a mark id: fails iff no mark has it, else the table is the same but for one mark with that id, whose value becomes the one sent and which is returned; without: fails iff the student or subject is unknown, else appends a new mark; no range check |
| MarkController.BulkSavesEachUpdate | studentmanagement/src/main/java/com/sms/studentmanagement/controller/MarkController.java:74-94 | a successful bulk returns one saved mark per update, in order, each with the update's value and id or new student and subject |
| MarkController.BulkKeepsEarlierWrites | studentmanagement/src/main/java/com/sms/studentmanagement/controller/MarkController.java:72-95 | a failing update leaves the writes of earlier updates in the store |
| MarkController.BulkKeepsUntargeted | studentmanagement/src/main/java/com/sms/studentmanagement/controller/MarkController.java:72-95 | after a successful request a stored mark that no element names keeps its place and value |
| MarkController.BulkOverwriteLasts | studentmanagement/src/main/java/com/sms/studentmanagement/controller/MarkController.java:75-80 | after a successful request the table holds, under each existing mark id sent, the value last sent for it |
| MarkController.UpdateMarksBulk | studentmanagement/src/main/java/com/sms/studentmanagement/controller/MarkController.java:72-95 | the loop's result and final marks table are those of the specified bulk; the other tables are unchanged |
| MarkController.MarksOf | studentmanagement/src/main/java/com/sms/studentmanagement/controller/MarkController.java:99 | a mark is listed iff it is in the table and is the student's, whatever the course of its subject |
| MarkController.MarksOfInOrder | studentmanagement/src/main/java/com/sms/studentmanagement/controller/MarkController.java:99 | the student's marks keep table order: the filter distributes over concatenation and keeps one mark exactly when it is the student's |
| MarkController.StudentTotalMarks | studentmanagement/src/main/java/com/sms/studentmanagement/controller/MarkController.java:97-103 | the sum wrapped to a 32-bit int; 0 for no marks |
| MarkController.SumMarksBounds | studentmanagement/src/main/java/com/sms/studentmanagement/controller/MarkController.java:97-103 | marks in 0..100 sum to at most 100 per mark |
| MarkController.StudentTotalExact | studentmanagement/src/main/java/com/sms/studentmanagement/controller/MarkController.java:97-103 | with marks in 0..100 and fewer than 21474837 of them, no wrap-around occurs and the total is the exact non-negative sum |

## Left out

- Network, timing and asynchrony are not modelled. Fetched data and server outcomes are parameters. This covers axios and fetch calls, `Promise.all`, `useEffect` timing and the search debounce.
- The Marks page's sequential loop that fetches per-student totals is not modelled. The `totals` map is an input.
- Rendering and styling are not modelled. Only the badge conditions, the disabled-button conditions and the details card's current-marks condition are kept.
- Floating point is not modelled. Percentages are exact reals; `Math.round` is integer half-up rounding; `toFixed` and display arithmetic are omitted.
- `localeCompare` is modelled as lexicographic order on characters.
- `toLowerCase` lowers ASCII letters only.
- Dates are integer day numbers. Timezone-dependent formatting and `LocalDate.parse` failures are not modelled.
- String lengths count `char`s. The model does not distinguish UTF-16 code units from code points.
- `Object.values` is modelled as ascending numeric order of student ids. The model does not treat ids that are not array-index-like keys.
- Student names are never null in the model. The pages' optional chaining on a missing name is not modelled.
- `handleView` and the read-only marks modal are display only and are not modelled.
- The subject preview's null `course.subjects` reads as an empty list.
- `parseInt` is modelled with leading white space, an optional sign, an optional `0x`/`0X` prefix read in base 16 and decimal digits otherwise, up to the first non-digit. Only the loss of precision on numbers too large for a double is not modelled.
- Ids sent in request bodies on create and update are ignored. The store assigns ids from one counter shared by every table, where the database has one sequence per table.
- Foreign-key constraints and cascades are not modelled. The deletes in `DeleteStudent` and `DeleteCourse` never fail on rows that still reference the entity.
- Bean validation (`@Valid`, `@NotBlank`) answering 400 before `validateCourseInput` runs is not modelled. The controller's own checks give the same statuses.
- BCrypt is the `matchesHash` parameter of `AuthController.Login`. The declared `failedAttempts` and `lockedAccounts` maps are never used, so there is no server-side lockout.
- `findByStudentIdAndDate` can throw when two records share a (student, date) pair. That never happens here: `Database.Valid` keeps the pairs unique and every operation preserves that.
- `findDistinctDates` returns dates in first-appearance order. SQL fixes no order; only the set of dates matters to every caller.
- `getAllAttendance` precomputes each student's dates. The model checks each (student, date) pair against the table, which adds the same records because the dates are distinct.
- `getStudentMarksDetails` for a student without a course fails with a `NoCourse` error. Java throws a `NullPointerException` there.
- `updateMarksBulk` relies on Spring's default transaction handling, which is not modelled. Each `save` commits on its own, as `BulkKeepsEarlierWrites` states.
- The Course entity's subject list and `findAllWithSubjects` are not modelled. Courses carry only id and name; subjects point to their course.
- config/DataInitializer.java is not modelled. It depends on randomness and the clock, and its fill pattern is the one `Initialize` models.
- AdminController.java, SubjectController.java, HomeController.java, SecurityConfig.java, App.js, Sidebar.js, CourseDetails.jsx, StudentForm.jsx and AttendanceCalendar.jsx are not part of this model.
- StudentsPage.StudentsView has no `Evict` method. `handleEvict` is modelled as the request it sends (`EvictRequest`); the list refetch that follows is network.

/** `/api/students` of the service: lookup, creation with the absent
    back-fill, update of name and email, and deletion. */
module StudentController {

  import opened Common
  import opened Store

  datatype StudentError = StudentNotFound(id: int)

  /** The body of a create or update request; its id is not modelled. */
  datatype StudentBody = StudentBody(name: string, email: string, courseId: Option<int>)

  /** `getStudentById`. */
  function GetStudentById(students: seq<StudentRow>, id: int): (r: Result<StudentRow, StudentError>)
    ensures r.Err? <==> id !in StudentIds(students)
    ensures r.Err? ==> r.error == StudentNotFound(id)
    ensures r.Ok? ==> r.value in students && r.value.id == id
  {
    match FindIndex(students, (s: StudentRow) => s.id, id)
    case None => Err(StudentNotFound(id))
    case Some(k) => Ok(students[k])
  }

  /** `createStudent`: the student is saved with a new id, then one absent
      record per date already in the table. */
  method CreateStudent(db: Database, body: StudentBody) returns (saved: StudentRow)
    requires db.Valid()
    modifies db
    ensures db.Valid()
    ensures saved == StudentRow(old(db.nextId), body.name, body.email, body.courseId)
    ensures db.students == old(db.students) + [saved]
    ensures db.attendance == old(db.attendance) + AbsentRecords(saved.id, DistinctDates(old(db.attendance)), saved.id + 1)
    ensures db.courses == old(db.courses) && db.subjects == old(db.subjects) && db.marks == old(db.marks)
  {
    saved := StudentRow(db.nextId, body.name, body.email, body.courseId);
    db.students := db.students + [saved];
    db.nextId := db.nextId + 1;
    db.BackFillStudent(saved.id, DistinctDates(db.attendance));
  }

  /** `findByStudentId`: a student's records, in table order. */
  function RecordsOf(att: seq<Attendance>, studentId: int): (r: seq<Attendance>)
    ensures forall i :: 0 <= i < |r| ==> r[i].studentId == studentId
  {
    Filter((a: Attendance) => a.studentId == studentId, att)
  }

  /** After creation the new student's records are exactly the back-filled
      ones, and every other student's records are as they were. */
  lemma CreateStudentRecords(att: seq<Attendance>, studentId: int, firstId: int, other: int)
    requires forall k :: 0 <= k < |att| ==> att[k].studentId != studentId
    ensures var added := AbsentRecords(studentId, DistinctDates(att), firstId);
            RecordsOf(att + added, studentId) == added
            && (other != studentId ==> RecordsOf(att + added, other) == RecordsOf(att, other))
  {
    var added := AbsentRecords(studentId, DistinctDates(att), firstId);
    var p := (a: Attendance) => a.studentId == studentId;
    var q := (a: Attendance) => a.studentId == other;
    FilterAppend(p, att, added);
    FilterNone(p, att);
    FilterAll(p, added);
    if other != studentId {
      FilterAppend(q, att, added);
      FilterNone(q, added);
    }
  }

  /** The back-filled records are absent and cover each date of the table
      exactly once. */
  lemma CreateStudentOnePerDate(att: seq<Attendance>, studentId: int, firstId: int, d: int)
    ensures var added := AbsentRecords(studentId, DistinctDates(att), firstId);
            ((exists k :: 0 <= k < |att| && att[k].date == d) <==> exists i :: 0 <= i < |added| && added[i].date == d)
            && (forall i, j :: 0 <= i < j < |added| ==> added[i].date != added[j].date)
            && (forall i :: 0 <= i < |added| ==> !added[i].present)
  {
    if exists k :: 0 <= k < |att| && att[k].date == d {
      assert d in DistinctDates(att);
      var i :| 0 <= i < |DistinctDates(att)| && DistinctDates(att)[i] == d;
      assert AbsentRecords(studentId, DistinctDates(att), firstId)[i].date == d;
    }
    if exists i :: 0 <= i < |AbsentRecords(studentId, DistinctDates(att), firstId)|
                   && AbsentRecords(studentId, DistinctDates(att), firstId)[i].date == d {
      var i :| 0 <= i < |AbsentRecords(studentId, DistinctDates(att), firstId)|
               && AbsentRecords(studentId, DistinctDates(att), firstId)[i].date == d;
      assert DistinctDates(att)[i] == d;
      assert d in DistinctDates(att);
    }
  }

  /** `updateStudent`: an unknown id is an error; otherwise name and email
      are replaced and the course is kept, whatever the body carries. */
  method UpdateStudent(db: Database, id: int, body: StudentBody) returns (r: Result<StudentRow, StudentError>)
    requires db.Valid()
    modifies db
    ensures db.Valid()
    ensures match FindIndex(old(db.students), (s: StudentRow) => s.id, id)
            case None => r == Err(StudentNotFound(id)) && db.students == old(db.students)
            case Some(k) =>
              r.Ok? && r.value == old(db.students)[k].(name := body.name, email := body.email)
              && db.students == old(db.students)[k := r.value]
    ensures r.Ok? ==> r.value.id == id && r.value.courseId == GetStudentById(old(db.students), id).value.courseId
    ensures db.attendance == old(db.attendance) && db.courses == old(db.courses)
    ensures db.subjects == old(db.subjects) && db.marks == old(db.marks) && db.nextId == old(db.nextId)
  {
    match FindIndex(db.students, (s: StudentRow) => s.id, id)
    case None =>
      r := Err(StudentNotFound(id));
    case Some(k) =>
      var s := db.students[k].(name := body.name, email := body.email);
      db.students := db.students[k := s];
      r := Ok(s);
  }

  predicate IsNot(id: int, s: StudentRow) {
    s.id != id
  }

  /** `deleteStudent`: the student with that id is removed; an unknown id
      changes nothing. */
  method DeleteStudent(db: Database, id: int)
    requires db.Valid()
    modifies db
    ensures db.Valid()
    ensures db.students == Filter((s: StudentRow) => IsNot(id, s), old(db.students))
    ensures db.attendance == old(db.attendance) && db.courses == old(db.courses)
    ensures db.subjects == old(db.subjects) && db.marks == old(db.marks) && db.nextId == old(db.nextId)
  {
    ghost var before := db.students;
    db.students := Filter((s: StudentRow) => IsNot(id, s), db.students);
    forall i | 0 <= i < |db.students|
      ensures db.students[i].id < db.nextId
    {
      FilterMembers((s: StudentRow) => IsNot(id, s), before, db.students[i]);
    }
  }

  /** Deletion removes exactly the students with that id and keeps the
      others in order. */
  lemma DeleteStudentRemovesOnlyIt(students: seq<StudentRow>, id: int, s: StudentRow)
    ensures var after := Filter((s: StudentRow) => IsNot(id, s), students);
            (s in after <==> s in students && s.id != id)
            && (id !in StudentIds(students) ==> after == students)
  {
    FilterMembers((s: StudentRow) => IsNot(id, s), students, s);
    if id !in StudentIds(students) {
      FilterAll((s: StudentRow) => IsNot(id, s), students);
    }
  }
}

/** `/api/attendance` of the service: listing with the absent back-fill,
    marking by student and date, toggling one record, and initialisation. */
module AttendanceController {

  import opened Common
  import opened Store

  datatype AttendanceError = StudentNotFound | RecordNotFound

  /** `findByDate(date)`: the records on `date`, in table order. */
  function OnDate(att: seq<Attendance>, date: int): (r: seq<Attendance>)
    ensures forall i :: 0 <= i < |r| ==> r[i].date == date
  {
    Filter((a: Attendance) => a.date == date, att)
  }

  /** `getAllAttendance`: every student gets an absent record for every date
      already in the table that they lack; then the whole table. */
  method GetAllAttendance(db: Database) returns (rows: seq<Attendance>)
    requires db.Valid()
    modifies db
    ensures db.Valid()
    ensures FillsMissing(old(db.attendance), db.attendance, StudentIds(db.students), DistinctDates(old(db.attendance)))
    ensures rows == db.attendance
    ensures db.students == old(db.students) && db.courses == old(db.courses)
    ensures db.subjects == old(db.subjects) && db.marks == old(db.marks)
  {
    db.FillAttendance(StudentIds(db.students), DistinctDates(db.attendance));
    rows := db.attendance;
  }

  /** A second listing adds nothing: after the first, the table holds every
      student's record for every one of its dates. */
  lemma GetAllAttendanceIdempotent(first: seq<Attendance>, second: seq<Attendance>, third: seq<Attendance>,
                                   studentIds: seq<int>)
    requires FillsMissing(first, second, studentIds, DistinctDates(first))
    requires FillsMissing(second, third, studentIds, DistinctDates(second))
    ensures third == second
  {
    FilledTableIsComplete(first, second, studentIds);
    FillIsNoOpWhenComplete(second, third, studentIds, DistinctDates(second));
  }

  /** `getAttendanceByDate`: every student lacking a record on `date` gets
      an absent one; then the records on `date`. */
  method GetAttendanceByDate(db: Database, date: int) returns (rows: seq<Attendance>)
    requires db.Valid()
    modifies db
    ensures db.Valid()
    ensures FillsMissing(old(db.attendance), db.attendance, StudentIds(db.students), [date])
    ensures rows == OnDate(db.attendance, date)
    ensures db.students == old(db.students) && db.courses == old(db.courses)
    ensures db.subjects == old(db.subjects) && db.marks == old(db.marks)
  {
    db.FillAttendance(StudentIds(db.students), [date]);
    rows := OnDate(db.attendance, date);
  }

  /** The day's list holds exactly one record for every student. */
  lemma ByDateOnePerStudent(before: seq<Attendance>, after: seq<Attendance>, studentIds: seq<int>, date: int, s: int)
    requires FillsMissing(before, after, studentIds, [date]) && UniquePairs(after)
    requires s in studentIds
    ensures var rows := OnDate(after, date);
            (exists k :: 0 <= k < |rows| && rows[k].studentId == s)
            && forall k, l :: 0 <= k < |rows| && 0 <= l < |rows| && rows[k].studentId == s && rows[l].studentId == s ==> k == l
  {
    var p := (a: Attendance) => a.date == date;
    var rows := OnDate(after, date);
    assert HasRecord(after, s, date);
    var j :| 0 <= j < |after| && after[j].studentId == s && after[j].date == date;
    FilterMembers(p, after, after[j]);
    FilterUnique(p, after);
  }

  /** `markAttendance`: an unknown student is an error and nothing is
      saved; an existing record of the student on `date` gets `present`;
      otherwise one new record is saved. */
  method MarkAttendance(db: Database, studentId: int, date: int, present: bool)
    returns (r: Result<Attendance, AttendanceError>)
    requires db.Valid()
    modifies db
    ensures db.Valid()
    ensures studentId !in StudentIds(old(db.students)) ==>
              r == Err(StudentNotFound) && db.attendance == old(db.attendance) && db.nextId == old(db.nextId)
    ensures studentId in StudentIds(old(db.students)) ==>
              match FindRecord(old(db.attendance), studentId, date)
              case Some(k) =>
                db.attendance == old(db.attendance)[k := old(db.attendance)[k].(present := present)]
                && db.nextId == old(db.nextId)
              case None =>
                db.attendance == old(db.attendance) + [Attendance(old(db.nextId), studentId, date, present)]
                && db.nextId == old(db.nextId) + 1
    ensures r.Ok? ==>
              r.value.studentId == studentId && r.value.date == date && r.value.present == present
              && FindRecord(db.attendance, studentId, date).Some?
              && db.attendance[FindRecord(db.attendance, studentId, date).value] == r.value
    ensures db.students == old(db.students) && db.courses == old(db.courses)
    ensures db.subjects == old(db.subjects) && db.marks == old(db.marks)
  {
    if studentId !in StudentIds(db.students) {
      return Err(StudentNotFound);
    }
    match FindRecord(db.attendance, studentId, date)
    case Some(k) =>
      var a := db.attendance[k].(present := present);
      var before := db.attendance;
      db.attendance := db.attendance[k := a];
      assert UniquePairs(db.attendance) by {
        assert forall j :: 0 <= j < |before| ==>
          before[j].studentId == db.attendance[j].studentId && before[j].date == db.attendance[j].date;
      }
      FindRecordUnique(db.attendance, k);
      r := Ok(a);
    case None =>
      var a := Attendance(db.nextId, studentId, date, present);
      var i :| 0 <= i < |db.students| && db.students[i].id == studentId;
      AppendUnique(db.attendance, a);
      HasRecordAppend(db.attendance, a, studentId, date);
      db.attendance := db.attendance + [a];
      db.nextId := db.nextId + 1;
      FindRecordUnique(db.attendance, |db.attendance| - 1);
      r := Ok(a);
  }

  /** `updateAttendance`: an unknown id is an error; otherwise only that
      record's `present` changes. */
  method UpdateAttendance(db: Database, id: int, present: bool) returns (r: Result<Attendance, AttendanceError>)
    requires db.Valid()
    modifies db
    ensures db.Valid()
    ensures match FindIndex(old(db.attendance), (a: Attendance) => a.id, id)
            case None => r == Err(RecordNotFound) && db.attendance == old(db.attendance)
            case Some(k) =>
              db.attendance == old(db.attendance)[k := old(db.attendance)[k].(present := present)]
              && r == Ok(db.attendance[k])
    ensures db.students == old(db.students) && db.courses == old(db.courses)
    ensures db.subjects == old(db.subjects) && db.marks == old(db.marks) && db.nextId == old(db.nextId)
  {
    match FindIndex(db.attendance, (a: Attendance) => a.id, id)
    case None =>
      r := Err(RecordNotFound);
    case Some(k) =>
      var a := db.attendance[k].(present := present);
      db.attendance := db.attendance[k := a];
      r := Ok(a);
  }

  /** The dates `initializeAttendanceForNewStudents` fills: the table's
      dates, or only today's when the table holds none. */
  function InitialDates(att: seq<Attendance>, today: int): (r: seq<int>)
    ensures att == [] ==> r == [today]
    ensures att != [] ==> forall d :: d in r <==> exists k :: 0 <= k < |att| && att[k].date == d
  {
    var dates := DistinctDates(att);
    assert att != [] ==> att[0].date in dates;
    if dates == [] then [today] else dates
  }

  const InitializedMessage: string := "Attendance records initialized for all students"

  /** `initializeAttendanceForNewStudents`, with today's date given. */
  method Initialize(db: Database, today: int) returns (message: string)
    requires db.Valid()
    modifies db
    ensures db.Valid()
    ensures FillsMissing(old(db.attendance), db.attendance, StudentIds(db.students), InitialDates(old(db.attendance), today))
    ensures message == InitializedMessage
    ensures db.students == old(db.students) && db.courses == old(db.courses)
    ensures db.subjects == old(db.subjects) && db.marks == old(db.marks)
  {
    var dates := DistinctDates(db.attendance);
    if dates == [] {
      dates := [today];
    }
    db.FillAttendance(StudentIds(db.students), dates);
    message := InitializedMessage;
  }
}

/** The service's tables, held in memory, and the absent-record back-fill
    the attendance and student endpoints share. Rows refer to each other
    by id, as the foreign keys of the tables do. */
module Store {

  import opened Common

  datatype StudentRow = StudentRow(id: int, name: string, email: string, courseId: Option<int>)
  datatype Course = Course(id: int, name: string)
  datatype Subject = Subject(id: int, name: string, courseId: int)
  datatype Mark = Mark(id: int, studentId: int, subjectId: int, marks: int)
  datatype Attendance = Attendance(id: int, studentId: int, date: int, present: bool)

  /** The ids of `findAll()` over the students, in table order. */
  function StudentIds(students: seq<StudentRow>): (r: seq<int>)
    ensures |r| == |students|
    ensures forall i :: 0 <= i < |r| ==> r[i] == students[i].id
  {
    seq(|students|, i requires 0 <= i < |students| => students[i].id)
  }

  predicate HasRecord(att: seq<Attendance>, studentId: int, date: int) {
    exists k :: 0 <= k < |att| && att[k].studentId == studentId && att[k].date == date
  }

  /** `findByStudentIdAndDate`: the position of the record of `studentId`
      on `date`, the first one should there be several. */
  function FindRecord(att: seq<Attendance>, studentId: int, date: int): (r: Option<nat>)
    ensures r.Some? ==> r.value < |att| && att[r.value].studentId == studentId && att[r.value].date == date
    ensures r.None? <==> !HasRecord(att, studentId, date)
  {
    if att == [] then None
    else if att[0].studentId == studentId && att[0].date == date then Some(0)
    else match FindRecord(att[1..], studentId, date)
      case None =>
        assert forall k :: 1 <= k < |att| ==> att[k] == att[1..][k - 1];
        None
      case Some(k) => Some(k + 1)
  }

  /** In a table without duplicate pairs, a record is the one found for
      its own student and date. */
  lemma FindRecordUnique(att: seq<Attendance>, k: nat)
    requires UniquePairs(att) && k < |att|
    ensures FindRecord(att, att[k].studentId, att[k].date) == Some(k)
  {
    assert HasRecord(att, att[k].studentId, att[k].date);
  }

  /** `findDistinctDates()`: each date of the table once, in order of first
      appearance. */
  function DistinctDates(att: seq<Attendance>): (r: seq<int>)
    ensures forall d :: d in r <==> exists k :: 0 <= k < |att| && att[k].date == d
    ensures forall i, j :: 0 <= i < j < |r| ==> r[i] != r[j]
  {
    if att == [] then []
    else
      var init := att[..|att| - 1];
      var d := att[|att| - 1].date;
      var r := DistinctDates(init);
      assert forall k :: 0 <= k < |init| ==> init[k] == att[k];
      if d in r then r else r + [d]
  }

  /** No two attendance records share a student and a date. */
  predicate UniquePairs(att: seq<Attendance>) {
    forall k, l :: 0 <= k < l < |att| ==> att[k].studentId != att[l].studentId || att[k].date != att[l].date
  }

  /** A filtered table keeps the table's uniqueness. */
  lemma {:induction false} FilterUnique(p: Attendance -> bool, att: seq<Attendance>)
    requires UniquePairs(att)
    ensures UniquePairs(Filter(p, att))
  {
    if att != [] {
      var tail := att[1..];
      assert UniquePairs(tail) by {
        forall k, l | 0 <= k < l < |tail|
          ensures tail[k].studentId != tail[l].studentId || tail[k].date != tail[l].date
        {
          assert tail[k] == att[k + 1] && tail[l] == att[l + 1];
        }
      }
      FilterUnique(p, tail);
      var rest := Filter(p, tail);
      forall x | x in rest
        ensures x.studentId != att[0].studentId || x.date != att[0].date
      {
        FilterMembers(p, tail, x);
        var k :| 0 <= k < |tail| && tail[k] == x;
        assert att[k + 1] == x;
      }
    }
  }

  /** Every listed student has a record for every listed date. */
  predicate Complete(att: seq<Attendance>, studentIds: seq<int>, dates: seq<int>) {
    forall s, d :: s in studentIds && d in dates ==> HasRecord(att, s, d)
  }

  /** `after` extends `before` with absent records for listed students and
      dates that `before` lacks, no pair twice. */
  predicate AddsOnlyMissing(before: seq<Attendance>, after: seq<Attendance>, studentIds: seq<int>, dates: seq<int>) {
    |before| <= |after| && after[..|before|] == before
    && (forall k :: |before| <= k < |after| ==>
          !after[k].present && after[k].studentId in studentIds && after[k].date in dates
          && !HasRecord(before, after[k].studentId, after[k].date))
    && UniquePairs(after[|before|..])
  }

  /** The back-fill's promise: only missing absent records are added, and
      afterwards nothing is missing. */
  predicate FillsMissing(before: seq<Attendance>, after: seq<Attendance>, studentIds: seq<int>, dates: seq<int>) {
    AddsOnlyMissing(before, after, studentIds, dates) && Complete(after, studentIds, dates)
  }

  /** A student and date the table lacked get exactly one added record. */
  lemma FillAddsExactlyOne(before: seq<Attendance>, after: seq<Attendance>, studentIds: seq<int>,
                           dates: seq<int>, s: int, d: int)
    requires FillsMissing(before, after, studentIds, dates)
    requires s in studentIds && d in dates && !HasRecord(before, s, d)
    ensures exists k :: |before| <= k < |after| && after[k].studentId == s && after[k].date == d
    ensures forall k, l ::
              (|before| <= k < |after| && |before| <= l < |after|
               && after[k].studentId == s && after[k].date == d
               && after[l].studentId == s && after[l].date == d) ==> k == l
  {
    assert forall j :: 0 <= j < |before| ==> after[j] == before[j];
    var k :| 0 <= k < |after| && after[k].studentId == s && after[k].date == d;
    var added := after[|before|..];
    forall k, l | |before| <= k < |after| && |before| <= l < |after|
              && after[k].studentId == s && after[k].date == d
              && after[l].studentId == s && after[l].date == d
      ensures k == l
    {
      assert added[k - |before|] == after[k] && added[l - |before|] == after[l];
    }
  }

  /** On a table that lacks nothing, the back-fill adds nothing. */
  lemma FillIsNoOpWhenComplete(before: seq<Attendance>, after: seq<Attendance>, studentIds: seq<int>, dates: seq<int>)
    requires FillsMissing(before, after, studentIds, dates)
    requires Complete(before, studentIds, dates)
    ensures after == before
  {
    var n := |before|;
    assert n < |after| ==> HasRecord(before, after[n].studentId, after[n].date);
    assert after == after[..n];
  }

  /** After a back-fill over the table's own dates, the table is complete
      for its new dates too: the fill brings in no new date. */
  lemma FilledTableIsComplete(before: seq<Attendance>, after: seq<Attendance>, studentIds: seq<int>)
    requires FillsMissing(before, after, studentIds, DistinctDates(before))
    ensures Complete(after, studentIds, DistinctDates(after))
  {
    forall d | d in DistinctDates(after)
      ensures d in DistinctDates(before)
    {
      var k :| 0 <= k < |after| && after[k].date == d;
      if k < |before| {
        assert before[k] == after[k];
      }
    }
  }

  lemma HasRecordAppend(att: seq<Attendance>, a: Attendance, s: int, d: int)
    ensures HasRecord(att + [a], s, d) <==> HasRecord(att, s, d) || (a.studentId == s && a.date == d)
  {
    if HasRecord(att, s, d) {
      var k :| 0 <= k < |att| && att[k].studentId == s && att[k].date == d;
      assert (att + [a])[k] == att[k];
    }
    if a.studentId == s && a.date == d {
      assert (att + [a])[|att|] == a;
    }
  }

  lemma HasRecordPrefix(att: seq<Attendance>, n: nat, s: int, d: int)
    requires n <= |att| && HasRecord(att[..n], s, d)
    ensures HasRecord(att, s, d)
  {
    var k :| 0 <= k < n && att[..n][k].studentId == s && att[..n][k].date == d;
    assert att[k] == att[..n][k];
  }

  /** Appending a record the table lacks keeps the back-fill's promise. */
  lemma AppendMissing(before: seq<Attendance>, att: seq<Attendance>, a: Attendance, studentIds: seq<int>, dates: seq<int>)
    requires AddsOnlyMissing(before, att, studentIds, dates)
    requires !HasRecord(att, a.studentId, a.date)
    requires !a.present && a.studentId in studentIds && a.date in dates
    ensures AddsOnlyMissing(before, att + [a], studentIds, dates)
  {
    var after := att + [a];
    assert after[..|before|] == before;
    if HasRecord(before, a.studentId, a.date) {
      HasRecordPrefix(att, |before|, a.studentId, a.date);
    }
    var added := after[|before|..];
    forall k, l | 0 <= k < l < |added|
      ensures added[k].studentId != added[l].studentId || added[k].date != added[l].date
    {
      if l == |added| - 1 {
        assert added[k] == att[|before| + k];
      } else {
        assert added[k] == att[|before|..][k] && added[l] == att[|before|..][l];
      }
    }
  }

  lemma AppendKeepsRecords(att: seq<Attendance>, a: Attendance)
    ensures forall s, d :: HasRecord(att, s, d) ==> HasRecord(att + [a], s, d)
  {
    forall s, d | HasRecord(att, s, d)
      ensures HasRecord(att + [a], s, d)
    {
      HasRecordAppend(att, a, s, d);
    }
  }

  lemma AppendUnique(att: seq<Attendance>, a: Attendance)
    requires UniquePairs(att) && !HasRecord(att, a.studentId, a.date)
    ensures UniquePairs(att + [a])
  {
    var t := att + [a];
    forall k, l | 0 <= k < l < |t|
      ensures t[k].studentId != t[l].studentId || t[k].date != t[l].date
    {
      assert t[k] == att[k];
      if l < |att| {
        assert t[l] == att[l];
      }
    }
  }

  /** The absent records saved for a new student: one per date, with
      consecutive ids from `firstId`. */
  function AbsentRecords(studentId: int, dates: seq<int>, firstId: int): (r: seq<Attendance>)
    ensures |r| == |dates|
    ensures forall k :: 0 <= k < |r| ==> r[k] == Attendance(firstId + k, studentId, dates[k], false)
  {
    seq(|dates|, k requires 0 <= k < |dates| => Attendance(firstId + k, studentId, dates[k], false))
  }

  /** Records of a student the table did not know, on distinct dates, keep
      the table free of duplicate pairs. */
  lemma AbsentRecordsUnique(att: seq<Attendance>, studentId: int, dates: seq<int>, firstId: int)
    requires UniquePairs(att)
    requires forall k :: 0 <= k < |att| ==> att[k].studentId != studentId
    requires forall i, j :: 0 <= i < j < |dates| ==> dates[i] != dates[j]
    ensures UniquePairs(att + AbsentRecords(studentId, dates, firstId))
  {
    var t := att + AbsentRecords(studentId, dates, firstId);
    forall k, l | 0 <= k < l < |t|
      ensures t[k].studentId != t[l].studentId || t[k].date != t[l].date
    {
      if l < |att| {
        assert t[k] == att[k] && t[l] == att[l];
      } else if k < |att| {
        assert t[k] == att[k];
      }
    }
  }

  class Database {
    var students: seq<StudentRow>
    var courses: seq<Course>
    var subjects: seq<Subject>
    var marks: seq<Mark>
    var attendance: seq<Attendance>
    /** The next generated id; one counter serves every table. */
    var nextId: int

    /** Every id was handed out by the counter, every attendance record
        refers to a student id handed out before, and no student has two
        records on the same date. */
    ghost predicate Valid()
      reads this
    {
      (forall i :: 0 <= i < |students| ==> students[i].id < nextId)
      && (forall i :: 0 <= i < |courses| ==> courses[i].id < nextId)
      && (forall i :: 0 <= i < |subjects| ==> subjects[i].id < nextId)
      && (forall i :: 0 <= i < |marks| ==> marks[i].id < nextId)
      && (forall i :: 0 <= i < |attendance| ==> attendance[i].id < nextId && attendance[i].studentId < nextId)
      && UniquePairs(attendance)
    }

    constructor ()
      ensures Valid()
      ensures students == [] && courses == [] && subjects == [] && marks == [] && attendance == []
    {
      students, courses, subjects, marks, attendance := [], [], [], [], [];
      nextId := 1;
    }

    /** Saves an absent record for every listed student and date that has
        none, one at a time, students in the order given. */
    method FillAttendance(studentIds: seq<int>, dates: seq<int>)
      requires Valid()
      requires forall i :: 0 <= i < |studentIds| ==> studentIds[i] < nextId
      modifies this
      ensures Valid()
      ensures FillsMissing(old(attendance), attendance, studentIds, dates)
      ensures students == old(students) && courses == old(courses)
      ensures subjects == old(subjects) && marks == old(marks)
    {
      var i := 0;
      while i < |studentIds|
        invariant 0 <= i <= |studentIds|
        invariant Valid()
        invariant forall k :: 0 <= k < |studentIds| ==> studentIds[k] < nextId
        invariant AddsOnlyMissing(old(attendance), attendance, studentIds, dates)
        invariant forall s, d :: s in studentIds[..i] && d in dates ==> HasRecord(attendance, s, d)
        invariant students == old(students) && courses == old(courses)
        invariant subjects == old(subjects) && marks == old(marks)
      {
        var s := studentIds[i];
        FillStudent(s, dates, old(attendance), studentIds);
        assert studentIds[..i + 1] == studentIds[..i] + [s];
        i := i + 1;
      }
      assert studentIds[..i] == studentIds;
    }

    /** The inner loop of the back-fill: one student's missing dates get an
        absent record each, and every record already there stays. */
    method FillStudent(s: int, dates: seq<int>, ghost before: seq<Attendance>, ghost studentIds: seq<int>)
      requires Valid() && s < nextId && s in studentIds
      requires AddsOnlyMissing(before, attendance, studentIds, dates)
      modifies this
      ensures Valid() && nextId >= old(nextId)
      ensures AddsOnlyMissing(before, attendance, studentIds, dates)
      ensures forall d :: d in dates ==> HasRecord(attendance, s, d)
      ensures forall s', d :: HasRecord(old(attendance), s', d) ==> HasRecord(attendance, s', d)
      ensures students == old(students) && courses == old(courses)
      ensures subjects == old(subjects) && marks == old(marks)
    {
      var j := 0;
      while j < |dates|
        invariant 0 <= j <= |dates|
        invariant Valid() && s < nextId && nextId >= old(nextId)
        invariant AddsOnlyMissing(before, attendance, studentIds, dates)
        invariant forall s', d :: HasRecord(old(attendance), s', d) ==> HasRecord(attendance, s', d)
        invariant forall d :: d in dates[..j] ==> HasRecord(attendance, s, d)
        invariant students == old(students) && courses == old(courses)
        invariant subjects == old(subjects) && marks == old(marks)
      {
        if !HasRecord(attendance, s, dates[j]) {
          var a := Attendance(nextId, s, dates[j], false);
          AppendMissing(before, attendance, a, studentIds, dates);
          AppendUnique(attendance, a);
          AppendKeepsRecords(attendance, a);
          HasRecordAppend(attendance, a, s, dates[j]);
          attendance := attendance + [a];
          nextId := nextId + 1;
        }
        assert dates[..j + 1] == dates[..j] + [dates[j]];
        j := j + 1;
      }
      assert dates[..j] == dates;
    }

    /** Saves, for a student with no records yet, one absent record per
        date, in the order of `dates`. */
    method BackFillStudent(studentId: int, dates: seq<int>)
      requires Valid() && studentId < nextId
      requires forall k :: 0 <= k < |attendance| ==> attendance[k].studentId != studentId
      requires forall i, j :: 0 <= i < j < |dates| ==> dates[i] != dates[j]
      modifies this
      ensures Valid()
      ensures attendance == old(attendance) + AbsentRecords(studentId, dates, old(nextId))
      ensures nextId == old(nextId) + |dates|
      ensures students == old(students) && courses == old(courses)
      ensures subjects == old(subjects) && marks == old(marks)
    {
      ghost var before := attendance;
      ghost var firstId := nextId;
      var i := 0;
      while i < |dates|
        invariant 0 <= i <= |dates|
        invariant nextId == firstId + i
        invariant attendance == before + AbsentRecords(studentId, dates[..i], firstId)
        invariant Valid()
        invariant students == old(students) && courses == old(courses)
        invariant subjects == old(subjects) && marks == old(marks)
      {
        var a := Attendance(nextId, studentId, dates[i], false);
        assert AbsentRecords(studentId, dates[..i + 1], firstId) == AbsentRecords(studentId, dates[..i], firstId) + [a];
        AbsentRecordsUnique(before, studentId, dates[..i + 1], firstId);
        attendance := attendance + [a];
        nextId := nextId + 1;
        i := i + 1;
      }
      assert dates[..i] == dates;
    }
  }
}

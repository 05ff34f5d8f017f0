/** `/api/marks` of the service: a student's marks per subject of their
    course, the bulk update-or-insert, and a student's total. */
module MarkController {

  import opened Common
  import Records
  import opened Store

  datatype MarkError = StudentNotFound | NoCourse | MarkNotFound | SubjectNotFound

  // ---------------------------------------------------------------------
  // Details

  predicate MarkOf(m: Mark, studentId: int, subjectId: int) {
    m.studentId == studentId && m.subjectId == subjectId
  }

  /** The first of the student's marks for the subject, in table order. */
  function FirstMark(marks: seq<Mark>, studentId: int, subjectId: int): (r: Option<nat>)
    ensures r.Some? ==> r.value < |marks| && MarkOf(marks[r.value], studentId, subjectId)
    ensures r.Some? ==> forall j :: 0 <= j < r.value ==> !MarkOf(marks[j], studentId, subjectId)
    ensures r.None? ==> forall j :: 0 <= j < |marks| ==> !MarkOf(marks[j], studentId, subjectId)
  {
    if marks == [] then None
    else if MarkOf(marks[0], studentId, subjectId) then Some(0)
    else match FirstMark(marks[1..], studentId, subjectId)
      case None => None
      case Some(k) => Some(k + 1)
  }

  /** `findByCourseId`: the course's subjects in table order. */
  function CourseSubjects(subjects: seq<Subject>, courseId: int): (r: seq<Subject>)
    ensures forall s :: s in r <==> s in subjects && s.courseId == courseId
  {
    var p := (s: Subject) => s.courseId == courseId;
    var r := Filter(p, subjects);
    assert forall s :: s in r <==> s in subjects && s.courseId == courseId by {
      forall s
        ensures s in r <==> s in subjects && s.courseId == courseId
      {
        FilterMembers(p, subjects, s);
      }
    }
    r
  }

  /** The subjects keep the table's order: those of a table's first part
      come before those of the rest, and one row is listed exactly when
      it belongs to the course. */
  lemma CourseSubjectsInOrder(a: seq<Subject>, b: seq<Subject>, x: Subject, courseId: int)
    ensures CourseSubjects(a + b, courseId) == CourseSubjects(a, courseId) + CourseSubjects(b, courseId)
    ensures CourseSubjects([x], courseId) == if x.courseId == courseId then [x] else []
  {
    FilterAppend((s: Subject) => s.courseId == courseId, a, b);
    assert [x][1..] == [];
  }

  /** The line of one subject: the first mark's value and id, or nulls. */
  function Entry(marks: seq<Mark>, studentId: int, subject: Subject): Records.MarkEntry {
    match FirstMark(marks, studentId, subject.id)
    case None => Records.MarkEntry(None, subject.id, subject.name, None)
    case Some(k) => Records.MarkEntry(Some(marks[k].id), subject.id, subject.name, Some(marks[k].marks))
  }

  /** `getStudentMarksDetails`. A student without a course is an error,
      where the service fails on the missing course. */
  function StudentMarksDetails(students: seq<StudentRow>, courses: seq<Course>, subjects: seq<Subject>,
                               marks: seq<Mark>, studentId: int): (r: Result<Records.MarksDetails, MarkError>)
    ensures r == Err(StudentNotFound) <==> studentId !in StudentIds(students)
    ensures r.Err? ==> r.error == StudentNotFound || r.error == NoCourse
    ensures r == Err(NoCourse) <==>
              exists k :: 0 <= k < |students| && students[k].id == studentId
                && (forall j :: 0 <= j < k ==> students[j].id != studentId)
                && (students[k].courseId.None?
                    || forall c :: 0 <= c < |courses| ==> courses[c].id != students[k].courseId.value)
    ensures r.Ok? ==>
              exists k, c :: 0 <= k < |students| && 0 <= c < |courses|
                && students[k].id == studentId && students[k].courseId == Some(courses[c].id)
                && r.value.studentName == students[k].name && r.value.courseName == courses[c].name
                && |r.value.marks| == |CourseSubjects(subjects, courses[c].id)|
                && forall i :: 0 <= i < |r.value.marks| ==>
                     r.value.marks[i] == Entry(marks, studentId, CourseSubjects(subjects, courses[c].id)[i])
    ensures r.Ok? ==> r.value.studentId == studentId
  {
    match FindIndex(students, (s: StudentRow) => s.id, studentId)
    case None => Err(StudentNotFound)
    case Some(k) =>
      var s := students[k];
      if s.courseId.None? then Err(NoCourse)
      else match FindIndex(courses, (c: Course) => c.id, s.courseId.value)
        case None => Err(NoCourse)
        case Some(c) =>
          var subs := CourseSubjects(subjects, courses[c].id);
          Ok(Records.MarksDetails(studentId, s.name, courses[c].name,
                                  seq(|subs|, i requires 0 <= i < |subs| => Entry(marks, studentId, subs[i]))))
  }

  /** Each line shows the student's stored mark for that subject when there
      is one, and nulls only when there is none. */
  lemma EntryMatchesStore(marks: seq<Mark>, studentId: int, subject: Subject)
    ensures var e := Entry(marks, studentId, subject);
            e.subjectId == subject.id && e.subjectName == subject.name
            && (e.markId.Some? <==> exists j :: 0 <= j < |marks| && MarkOf(marks[j], studentId, subject.id))
            && (e.markId.Some? ==>
                  e.marks.Some?
                  && exists j :: 0 <= j < |marks| && MarkOf(marks[j], studentId, subject.id)
                                 && marks[j].id == e.markId.value && marks[j].marks == e.marks.value)
            && (e.markId.None? ==> e.marks.None?)
  {
    var f := FirstMark(marks, studentId, subject.id);
    if f.Some? {
      assert MarkOf(marks[f.value], studentId, subject.id);
    }
  }

  // ---------------------------------------------------------------------
  // Bulk update

  /** The mark table and the id counter. */
  datatype MarkState = MarkState(marks: seq<Mark>, nextId: int)

  predicate IdsBelow(st: MarkState) {
    forall i :: 0 <= i < |st.marks| ==> st.marks[i].id < st.nextId
  }

  /** One element of `updateMarksBulk`: an existing mark is overwritten
      with the value as sent, without a range check; a new one needs a
      known student and subject. */
  function ApplyUpdate(st: MarkState, students: seq<StudentRow>, subjects: seq<Subject>, u: Records.MarkUpdate)
    : (r: Result<(MarkState, Mark), MarkError>)
    ensures r.Ok? ==> r.value.1.marks == u.marks && r.value.0.nextId >= st.nextId
    ensures r.Ok? && IdsBelow(st) ==> IdsBelow(r.value.0)
    ensures u.markId.Some? ==>
              (r.Err? <==> forall i :: 0 <= i < |st.marks| ==> st.marks[i].id != u.markId.value)
              && (r.Ok? ==> r.value.1.id == u.markId.value)
    ensures u.markId.Some? && r.Ok? ==>
              exists k :: 0 <= k < |st.marks| && st.marks[k].id == u.markId.value
                && r.value.1 == st.marks[k].(marks := u.marks)
                && r.value.0 == MarkState(st.marks[k := r.value.1], st.nextId)
    ensures u.markId.None? ==>
              (r.Err? <==> u.studentId !in StudentIds(students)
                           || forall i :: 0 <= i < |subjects| ==> subjects[i].id != u.subjectId)
              && (r.Ok? ==> r.value.1 == Mark(st.nextId, u.studentId, u.subjectId, u.marks)
                            && r.value.0.marks == st.marks + [r.value.1])
  {
    match u.markId
    case Some(id) =>
      (match FindIndex(st.marks, (m: Mark) => m.id, id)
       case None => Err(MarkNotFound)
       case Some(k) =>
         var m := st.marks[k].(marks := u.marks);
         Ok((MarkState(st.marks[k := m], st.nextId), m)))
    case None =>
      if FindIndex(students, (s: StudentRow) => s.id, u.studentId).None? then Err(StudentNotFound)
      else if FindIndex(subjects, (s: Subject) => s.id, u.subjectId).None? then Err(SubjectNotFound)
      else
        var m := Mark(st.nextId, u.studentId, u.subjectId, u.marks);
        Ok((MarkState(st.marks + [m], st.nextId + 1), m))
  }

  /** What the whole request returns and leaves in the table: it stops at
      the first failing element, and the elements before it stay saved. */
  datatype BulkOutcome = BulkOutcome(result: Result<seq<Mark>, MarkError>, state: MarkState)

  function Prepend(saved: seq<Mark>, o: BulkOutcome): BulkOutcome {
    BulkOutcome(if o.result.Ok? then Ok(saved + o.result.value) else o.result, o.state)
  }

  function Bulk(st: MarkState, students: seq<StudentRow>, subjects: seq<Subject>, updates: seq<Records.MarkUpdate>)
    : BulkOutcome
    decreases |updates|
  {
    if updates == [] then BulkOutcome(Ok([]), st)
    else match ApplyUpdate(st, students, subjects, updates[0])
      case Err(e) => BulkOutcome(Err(e), st)
      case Ok((next, m)) => Prepend([m], Bulk(next, students, subjects, updates[1..]))
  }

  /** A request that succeeds returns one saved mark per element, in
      order, each holding the value sent: the existing mark's id for an
      overwrite, the sent student and subject for an insert. */
  lemma {:induction false} BulkSavesEachUpdate(st: MarkState, students: seq<StudentRow>, subjects: seq<Subject>,
                                               updates: seq<Records.MarkUpdate>)
    requires Bulk(st, students, subjects, updates).result.Ok?
    decreases |updates|
    ensures var saved := Bulk(st, students, subjects, updates).result.value;
            |saved| == |updates|
            && forall k :: 0 <= k < |updates| ==>
                 saved[k].marks == updates[k].marks
                 && (updates[k].markId.Some? ==> saved[k].id == updates[k].markId.value)
                 && (updates[k].markId.None? ==>
                       saved[k].studentId == updates[k].studentId && saved[k].subjectId == updates[k].subjectId)
  {
    if updates != [] {
      var step := ApplyUpdate(st, students, subjects, updates[0]);
      var rest := Bulk(step.value.0, students, subjects, updates[1..]);
      BulkSavesEachUpdate(step.value.0, students, subjects, updates[1..]);
      var saved := Bulk(st, students, subjects, updates).result.value;
      assert saved == [step.value.1] + rest.result.value;
      forall k | 1 <= k < |updates|
        ensures saved[k] == rest.result.value[k - 1] && updates[k] == updates[1..][k - 1]
      {
      }
    }
  }

  /** The request is not atomic: when the second element fails, the first
      one's write stays in the table. */
  lemma BulkKeepsEarlierWrites(st: MarkState, students: seq<StudentRow>, subjects: seq<Subject>,
                               first: Records.MarkUpdate, second: Records.MarkUpdate)
    requires ApplyUpdate(st, students, subjects, first).Ok?
    requires ApplyUpdate(ApplyUpdate(st, students, subjects, first).value.0, students, subjects, second).Err?
    ensures var o := Bulk(st, students, subjects, [first, second]);
            o.result.Err? && o.state == ApplyUpdate(st, students, subjects, first).value.0
  {
    assert [first, second][1..] == [second];
    assert [second][1..] == [];
  }

  /** A stored mark that no element of a successful request targets stays
      as it was, at its place. */
  lemma {:induction false} BulkKeepsUntargeted(st: MarkState, students: seq<StudentRow>, subjects: seq<Subject>,
                                               updates: seq<Records.MarkUpdate>, j: nat)
    requires Bulk(st, students, subjects, updates).result.Ok?
    requires j < |st.marks|
    requires forall l :: 0 <= l < |updates| ==> updates[l].markId != Some(st.marks[j].id)
    decreases |updates|
    ensures var fin := Bulk(st, students, subjects, updates).state.marks;
            j < |fin| && fin[j] == st.marks[j]
  {
    if updates != [] {
      var step := ApplyUpdate(st, students, subjects, updates[0]);
      var next := step.value.0;
      assert j < |next.marks| && next.marks[j] == st.marks[j];
      forall l | 0 <= l < |updates[1..]|
        ensures updates[1..][l].markId != Some(next.marks[j].id)
      {
        assert updates[1..][l] == updates[l + 1];
      }
      BulkKeepsUntargeted(next, students, subjects, updates[1..], j);
    }
  }

  /** After a successful request, the value sent last for an existing
      mark id is what the table holds under that id. */
  lemma {:induction false} BulkOverwriteLasts(st: MarkState, students: seq<StudentRow>, subjects: seq<Subject>,
                                              updates: seq<Records.MarkUpdate>, k: nat)
    requires Bulk(st, students, subjects, updates).result.Ok?
    requires k < |updates| && updates[k].markId.Some?
    requires forall l :: k < l < |updates| ==> updates[l].markId != updates[k].markId
    decreases |updates|
    ensures var fin := Bulk(st, students, subjects, updates).state.marks;
            exists j :: 0 <= j < |fin| && fin[j].id == updates[k].markId.value && fin[j].marks == updates[k].marks
  {
    var step := ApplyUpdate(st, students, subjects, updates[0]);
    var next := step.value.0;
    var fin := Bulk(st, students, subjects, updates).state.marks;
    assert fin == Bulk(next, students, subjects, updates[1..]).state.marks;
    if k == 0 {
      var i :| 0 <= i < |st.marks| && st.marks[i].id == updates[0].markId.value
               && step.value.1 == st.marks[i].(marks := updates[0].marks)
               && next == MarkState(st.marks[i := step.value.1], st.nextId);
      forall l | 0 <= l < |updates[1..]|
        ensures updates[1..][l].markId != Some(next.marks[i].id)
      {
        assert updates[1..][l] == updates[l + 1];
      }
      BulkKeepsUntargeted(next, students, subjects, updates[1..], i);
    } else {
      forall l | k - 1 < l < |updates[1..]|
        ensures updates[1..][l].markId != updates[1..][k - 1].markId
      {
        assert updates[1..][l] == updates[l + 1];
      }
      BulkOverwriteLasts(next, students, subjects, updates[1..], k - 1);
    }
  }

  /** One step of `Bulk` on the elements from `i` on. */
  lemma BulkStep(st: MarkState, students: seq<StudentRow>, subjects: seq<Subject>,
                 updates: seq<Records.MarkUpdate>, i: nat)
    requires i < |updates|
    ensures Bulk(st, students, subjects, updates[i..])
            == match ApplyUpdate(st, students, subjects, updates[i])
               case Err(e) => BulkOutcome(Err(e), st)
               case Ok((next, m)) => Prepend([m], Bulk(next, students, subjects, updates[i + 1..]))
  {
    assert updates[i..][0] == updates[i] && updates[i..][1..] == updates[i + 1..];
  }

  lemma PrependAssoc(a: seq<Mark>, b: seq<Mark>, o: BulkOutcome)
    ensures Prepend(a, Prepend(b, o)) == Prepend(a + b, o)
  {
    if o.result.Ok? {
      assert a + (b + o.result.value) == (a + b) + o.result.value;
    }
  }

  lemma PrependNothing(o: BulkOutcome)
    ensures Prepend([], o) == o
  {
    if o.result.Ok? {
      assert [] + o.result.value == o.result.value;
    }
  }

  /** `updateMarksBulk`, element by element. */
  method UpdateMarksBulk(db: Database, updates: seq<Records.MarkUpdate>) returns (r: Result<seq<Mark>, MarkError>)
    requires db.Valid()
    modifies db
    ensures db.Valid()
    ensures BulkOutcome(r, MarkState(db.marks, db.nextId))
            == Bulk(MarkState(old(db.marks), old(db.nextId)), old(db.students), old(db.subjects), updates)
    ensures db.students == old(db.students) && db.courses == old(db.courses) && db.subjects == old(db.subjects)
    ensures db.attendance == old(db.attendance)
  {
    var students, subjects := db.students, db.subjects;
    var start := MarkState(db.marks, db.nextId);
    var st := start;
    var saved: seq<Mark> := [];
    var i := 0;
    assert updates[i..] == updates;
    PrependNothing(Bulk(start, students, subjects, updates));
    r := Ok([]);
    while i < |updates|
      invariant 0 <= i <= |updates|
      invariant IdsBelow(st) && st.nextId >= start.nextId
      invariant unchanged(db)
      invariant Bulk(start, students, subjects, updates) == Prepend(saved, Bulk(st, students, subjects, updates[i..]))
    {
      BulkStep(st, students, subjects, updates, i);
      var step := ApplyUpdate(st, students, subjects, updates[i]);
      if step.Err? {
        r := Err(step.error);
        break;
      }
      var m := step.value.1;
      PrependAssoc(saved, [m], Bulk(step.value.0, students, subjects, updates[i + 1..]));
      st := step.value.0;
      saved := saved + [m];
      i := i + 1;
    }
    if r.Ok? {
      assert updates[i..] == [];
      assert saved + [] == saved;
      r := Ok(saved);
    }
    db.marks, db.nextId := st.marks, st.nextId;
  }

  // ---------------------------------------------------------------------
  // Total

  function SumMarks(ms: seq<Mark>): int {
    if ms == [] then 0 else SumMarks(ms[..|ms| - 1]) + ms[|ms| - 1].marks
  }

  /** `findByStudentId`: all of the student's marks, whatever the course
      of their subject. */
  function MarksOf(marks: seq<Mark>, studentId: int): (r: seq<Mark>)
    ensures forall m :: m in r <==> m in marks && m.studentId == studentId
  {
    var p := (m: Mark) => m.studentId == studentId;
    var r := Filter(p, marks);
    assert forall m :: m in r <==> m in marks && m.studentId == studentId by {
      forall m
        ensures m in r <==> m in marks && m.studentId == studentId
      {
        FilterMembers(p, marks, m);
      }
    }
    r
  }

  /** The student's marks keep the table's order, and one mark is listed
      exactly when it is the student's. */
  lemma MarksOfInOrder(a: seq<Mark>, b: seq<Mark>, x: Mark, studentId: int)
    ensures MarksOf(a + b, studentId) == MarksOf(a, studentId) + MarksOf(b, studentId)
    ensures MarksOf([x], studentId) == if x.studentId == studentId then [x] else []
  {
    FilterAppend((m: Mark) => m.studentId == studentId, a, b);
    assert [x][1..] == [];
  }

  /** `getStudentTotalMarks`: the sum in a Java `int`, which wraps. */
  function StudentTotalMarks(marks: seq<Mark>, studentId: int): (r: int)
    ensures -TwoTo31 <= r < TwoTo31
    ensures (SumMarks(MarksOf(marks, studentId)) - r) % TwoTo32 == 0
    ensures MarksOf(marks, studentId) == [] ==> r == 0
  {
    Wrap32(SumMarks(MarksOf(marks, studentId)))
  }

  lemma {:induction false} SumMarksBounds(ms: seq<Mark>)
    requires forall i :: 0 <= i < |ms| ==> 0 <= ms[i].marks <= 100
    ensures 0 <= SumMarks(ms) <= 100 * |ms|
  {
    if ms != [] {
      SumMarksBounds(ms[..|ms| - 1]);
    }
  }

  /** With marks in 0..100 and fewer than 21474837 of them, the total
      does not wrap and is the true sum. */
  lemma StudentTotalExact(marks: seq<Mark>, studentId: int)
    requires forall i :: 0 <= i < |marks| && marks[i].studentId == studentId ==> 0 <= marks[i].marks <= 100
    requires |MarksOf(marks, studentId)| < 21474837
    ensures StudentTotalMarks(marks, studentId) == SumMarks(MarksOf(marks, studentId))
    ensures 0 <= StudentTotalMarks(marks, studentId)
  {
    var ms := MarksOf(marks, studentId);
    forall i | 0 <= i < |ms|
      ensures 0 <= ms[i].marks <= 100
    {
      FilterMembers((m: Mark) => m.studentId == studentId, marks, ms[i]);
    }
    SumMarksBounds(ms);
  }
}

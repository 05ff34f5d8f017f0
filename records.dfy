/** The records the dashboard's pages receive from the service, as the JSON
    the back end serialises, and the figures every page derives from them
    in the same way. */
module Records {

  import opened Common

  datatype CourseRef = CourseRef(id: int, name: string)

  /** A student as listed; `course` is absent when none is assigned. */
  datatype Student = Student(id: int, name: string, email: string, course: Option<CourseRef>)

  /** An attendance row; `student` may be missing from a partial payload. */
  datatype AttendanceRow = AttendanceRow(id: int, date: int, present: bool, student: Option<Student>)

  /** One subject's line of a student's marks; `marks` is null when ungraded. */
  datatype MarkEntry = MarkEntry(markId: Option<int>, subjectId: int, subjectName: string, marks: Option<int>)

  /** The payload of `GET /marks/student/{id}/details`. */
  datatype MarksDetails = MarksDetails(studentId: int, studentName: string, courseName: string, marks: seq<MarkEntry>)

  /** One element of the body of `PUT /marks/bulk`: an existing mark to
      overwrite when `markId` is present, a new one otherwise. */
  datatype MarkUpdate = MarkUpdate(markId: Option<int>, studentId: int, subjectId: int, marks: int)

  /** The eviction marker that the Students page appends to a name. */
  const EvictedMarker: string := "(evicted)"

  predicate IsEvicted(name: string) {
    Contains(name, EvictedMarker)
  }

  /** The name the pages show: the first eviction marker is cut out and
      everything else, the space before it included, stays. */
  function DisplayName(name: string): (r: string)
    ensures !IsEvicted(name) ==> r == name
    ensures IsEvicted(name) ==>
              var k := IndexOf(name, EvictedMarker).value;
              |r| == |name| - |EvictedMarker| && r[..k] == name[..k] && r[k..] == name[k + |EvictedMarker|..]
  {
    if IsEvicted(name) then ReplaceFirst(name, EvictedMarker, "") else name
  }

  /** The marker appended after a space to a name without one is the first
      occurrence of the marker: the space cannot be part of another. */
  lemma {:induction false} AppendedMarkerIsFirst(name: string)
    requires !IsEvicted(name)
    ensures IndexOf(name + " " + EvictedMarker, EvictedMarker) == Some(|name| + 1)
  {
    var s := name + " " + EvictedMarker;
    var p := EvictedMarker;
    assert s[|name| + 1..] == p;
    assert OccursAt(s, p, |name| + 1);
    forall j | 0 <= j < |name| + 1
      ensures !OccursAt(s, p, j)
    {
      if j + |p| <= |name| {
        // Inside the name, where the marker does not occur.
        assert s[j..j + |p|] == name[j..j + |p|];
        assert !OccursAt(name, p, j);
      } else {
        // Across the space, which the marker does not hold.
        var d := |name| - j;
        assert s[j..j + |p|][d] == ' ' != p[d];
      }
    }
  }

  /** `attendance.filter(a => a.present).length`. */
  function PresentDays(attendance: seq<AttendanceRow>): (r: nat)
    ensures r <= |attendance|
  {
    |Filter((a: AttendanceRow) => a.present, attendance)|
  }

  /** `mark.marks || 0`. */
  function MarkValue(e: MarkEntry): int {
    if e.marks.Some? then e.marks.value else 0
  }

  /** `marks.reduce((sum, mark) => sum + (mark.marks || 0), 0)`. */
  function TotalMarks(entries: seq<MarkEntry>): int {
    if entries == [] then 0 else TotalMarks(entries[..|entries| - 1]) + MarkValue(entries[|entries| - 1])
  }

  /** A null mark counts as 0: replacing it with 0 leaves the total as is. */
  lemma {:induction false} TotalMarksNullIsZero(entries: seq<MarkEntry>, i: nat)
    requires i < |entries| && entries[i].marks.None?
    ensures TotalMarks(entries[i := entries[i].(marks := Some(0))]) == TotalMarks(entries)
  {
    var n := |entries|;
    var e' := entries[i := entries[i].(marks := Some(0))];
    if i < n - 1 {
      assert e'[..n - 1] == entries[..n - 1][i := entries[i].(marks := Some(0))];
      TotalMarksNullIsZero(entries[..n - 1], i);
    } else {
      assert e'[..n - 1] == entries[..n - 1];
    }
  }

  /** Marks within 0..100 give a total within 0..100 per subject. */
  lemma {:induction false} TotalMarksBounds(entries: seq<MarkEntry>)
    requires forall i :: 0 <= i < |entries| && entries[i].marks.Some? ==> 0 <= entries[i].marks.value <= 100
    ensures 0 <= TotalMarks(entries) <= 100 * |entries|
  {
    if entries != [] {
      TotalMarksBounds(entries[..|entries| - 1]);
    }
  }

  /** `s.course?.name || ''`. */
  function DepartmentOf(s: Student): string {
    if s.course.Some? then s.course.value.name else ""
  }

  /** The department filter: an empty selection keeps every student,
      otherwise only those whose course name equals it exactly. */
  predicate InDepartment(s: Student, dept: string) {
    dept == "" || (s.course.Some? && s.course.value.name == dept)
  }

  /** `selectedDept ? students.filter(s => s.course?.name === selectedDept) : students`. */
  function FilterByDepartment(students: seq<Student>, dept: string): (r: seq<Student>)
    ensures dept == "" ==> r == students
    ensures forall i :: 0 <= i < |r| ==> InDepartment(r[i], dept)
  {
    if dept == "" then students
    else Filter((s: Student) => InDepartment(s, dept), students)
  }

  /** The department filter keeps exactly the students of that course name,
      compared case-sensitively. */
  lemma FilterByDepartmentMembers(students: seq<Student>, dept: string, s: Student)
    ensures s in FilterByDepartment(students, dept) <==>
              s in students && (dept == "" || (s.course.Some? && s.course.value.name == dept))
  {
    if dept != "" {
      FilterMembers((s: Student) => InDepartment(s, dept), students, s);
    }
  }
}

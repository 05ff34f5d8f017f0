/** The Students page: the top-performers podium built from each
    student's attendance and marks, the department-filtered sortable
    list, and the eviction request. */
module StudentsPage {

  import opened Common
  import opened Ordering
  import opened Records

  // ---------------------------------------------------------------------
  // Top performers

  /** A listed student with the attendance and marks fetched for it. */
  datatype Fetched = Fetched(student: Student, attendance: seq<AttendanceRow>, marks: seq<MarkEntry>)

  datatype Performer = Performer(student: Student, attendancePercentage: real, totalMarks: int, score: real)

  /** `presentDays / attendance.length * 100`, or 0 without records. */
  function AttendanceShare(attendance: seq<AttendanceRow>): (r: real)
    ensures attendance == [] ==> r == 0.0
    ensures attendance != [] ==> r * (|attendance| as real) == 100.0 * (PresentDays(attendance) as real)
  {
    if attendance == [] then 0.0
    else (PresentDays(attendance) as real / |attendance| as real) * 100.0
  }

  /** `totalMarks / 500 * 100`. */
  function MarksPercentage(total: int): (r: real)
    ensures 5.0 * r == total as real
  {
    (total as real / 500.0) * 100.0
  }

  /** Half attendance, half marks. */
  function PerformanceScore(attendancePercentage: real, marksPercentage: real): real {
    attendancePercentage * 0.5 + marksPercentage * 0.5
  }

  /** One student's entry: none for an evicted student. */
  function Performance(f: Fetched): Option<Performer> {
    if IsEvicted(f.student.name) then None
    else
      var a := AttendanceShare(f.attendance);
      var t := TotalMarks(f.marks);
      Some(Performer(f.student, a, t, PerformanceScore(a, MarksPercentage(t))))
  }

  /** The entries of the students that are not evicted, in list order. */
  function Performers(data: seq<Fetched>): seq<Performer> {
    if data == [] then []
    else (if Performance(data[0]).Some? then [Performance(data[0]).value] else []) + Performers(data[1..])
  }

  function ScoreKey(p: Performer): SortKey {
    Num(p.score)
  }

  /** `calculateTopPerformers`: the three highest scores, highest first. */
  function TopPerformers(data: seq<Fetched>): seq<Performer> {
    Take(SortBy(Performers(data), ScoreKey, Desc), 3)
  }

  /** Every student not evicted has exactly its own entry, with the
      attendance share, the total of its marks (null as 0) and the 50/50
      score; an evicted student has none. */
  lemma {:induction false} PerformersCorrect(data: seq<Fetched>, p: Performer)
    ensures p in Performers(data) <==>
              exists f :: f in data && !IsEvicted(f.student.name)
                          && p == Performer(f.student, AttendanceShare(f.attendance), TotalMarks(f.marks),
                                            0.5 * AttendanceShare(f.attendance) + 0.5 * (TotalMarks(f.marks) as real / 5.0))
  {
    if data != [] {
      PerformersCorrect(data[1..], p);
      assert data == [data[0]] + data[1..];
      var f := data[0];
      if !IsEvicted(f.student.name) {
        var t := TotalMarks(f.marks);
        assert MarksPercentage(t) == t as real / 5.0;
      }
    }
  }

  /** An evicted student is on no podium. */
  lemma EvictedNotOnPodium(data: seq<Fetched>, i: nat)
    requires i < |TopPerformers(data)|
    ensures !IsEvicted(TopPerformers(data)[i].student.name)
  {
    var ps := Performers(data);
    var p := TopPerformers(data)[i];
    SortByPermutes(ps, ScoreKey, Desc);
    assert p == SortBy(ps, ScoreKey, Desc)[i];
    assert p in multiset(ps);
    PerformersCorrect(data, p);
  }

  /** At most three entries, of students not evicted, scores never
      increasing, equal scores in list order, and nobody left out has a
      higher score than anyone shown. */
  lemma TopPerformersCorrect(data: seq<Fetched>)
    ensures var top := TopPerformers(data);
            var ps := Performers(data);
            |top| == (if |ps| < 3 then |ps| else 3)
            && (forall i :: 0 <= i < |top| ==> top[i] in ps && !IsEvicted(top[i].student.name))
            && (forall i, j :: 0 <= i < j < |top| ==> top[i].score >= top[j].score)
            && (forall k :: WithKey(top, ScoreKey, k) <= WithKey(ps, ScoreKey, k))
            && (forall p :: p in ps && p !in top ==> forall i :: 0 <= i < |top| ==> p.score <= top[i].score)
  {
    var ps := Performers(data);
    var sorted := SortBy(ps, ScoreKey, Desc);
    var top := TopPerformers(data);
    SortByPermutes(ps, ScoreKey, Desc);
    SortByOrdered(ps, ScoreKey, Desc);
    forall i | 0 <= i < |top|
      ensures top[i] in ps && !IsEvicted(top[i].student.name)
    {
      assert top[i] == sorted[i] && sorted[i] in multiset(ps);
      EvictedNotOnPodium(data, i);
    }
    forall i, j | 0 <= i < j < |top|
      ensures top[i].score >= top[j].score
    {
      assert top[i] == sorted[i] && top[j] == sorted[j];
      assert !Before(ScoreKey(sorted[j]), ScoreKey(sorted[i]), Desc);
    }
    forall k {
      TopKeepsTies(ps, ScoreKey, Desc, 3, k);
    }
    forall p | p in ps && p !in top
      ensures forall i :: 0 <= i < |top| ==> p.score <= top[i].score
    {
      SortedPrefixDominates(ps, ScoreKey, Desc, 3, p);
      forall i | 0 <= i < |top|
        ensures p.score <= top[i].score
      {
        assert !Before(ScoreKey(p), ScoreKey(top[i]), Desc);
      }
    }
  }

  // ---------------------------------------------------------------------
  // The list

  datatype Column = ByName | ByDepartment | ByEmail

  /** Lower-cased name, course name ('' without one), lower-cased email. */
  function ColumnKey(c: Column): Student -> SortKey {
    match c
    case ByName => (s: Student) => Text(Lower(s.name))
    case ByDepartment => (s: Student) => Text(DepartmentOf(s))
    case ByEmail => (s: Student) => Text(Lower(s.email))
  }

  /** `getSortedData(filteredStudents)`. */
  function SortedStudents(students: seq<Student>, dept: string, cfg: SortConfig<Column>): seq<Student> {
    var shown := FilterByDepartment(students, dept);
    if cfg.key.None? then shown else SortBy(shown, ColumnKey(cfg.key.value), cfg.dir)
  }

  /** The list holds the department's students, as listed without a key,
      otherwise ordered by the key's column with ties in list order. */
  lemma SortedStudentsCorrect(students: seq<Student>, dept: string, cfg: SortConfig<Column>)
    ensures var r := SortedStudents(students, dept, cfg);
            var shown := FilterByDepartment(students, dept);
            multiset(r) == multiset(shown)
            && (forall s :: s in r <==> s in students && InDepartment(s, dept))
            && (cfg.key.None? ==> r == shown)
            && (cfg.key.Some? ==>
                  Ordered(r, ColumnKey(cfg.key.value), cfg.dir)
                  && forall k :: WithKey(r, ColumnKey(cfg.key.value), k) == WithKey(shown, ColumnKey(cfg.key.value), k))
  {
    var shown := FilterByDepartment(students, dept);
    var r := SortedStudents(students, dept, cfg);
    if cfg.key.Some? {
      var key := ColumnKey(cfg.key.value);
      SortByPermutes(shown, key, cfg.dir);
      SortByOrdered(shown, key, cfg.dir);
      forall k {
        SortByStable(shown, key, cfg.dir, k);
      }
    }
    forall s
      ensures s in r <==> s in students && InDepartment(s, dept)
    {
      assert s in r <==> s in multiset(shown);
      FilterByDepartmentMembers(students, dept, s);
    }
  }

  // ---------------------------------------------------------------------
  // Eviction

  /** `handleEvict`: the body sent for a student, the name marked. */
  function EvictRequest(s: Student): Student {
    s.(name := s.name + " " + EvictedMarker)
  }

  /** The Evict button exists only for a student not evicted. The request
      keeps every other field, marks the student evicted, and the pages
      then show the old name followed by the space before the marker. */
  lemma EvictRequestCorrect(s: Student)
    requires !IsEvicted(s.name)
    ensures var r := EvictRequest(s);
            r.id == s.id && r.email == s.email && r.course == s.course
            && IsEvicted(r.name) && DisplayName(r.name) == s.name + " "
  {
    AppendedMarkerIsFirst(s.name);
    var r := EvictRequest(s);
    assert r.name[..|s.name| + 1] == s.name + " ";
  }

  // ---------------------------------------------------------------------
  // The page state

  class StudentsView {
    var students: seq<Student>
    var sortConfig: SortConfig<Column>
    var topPerformers: seq<Performer>

    constructor ()
      ensures students == [] && sortConfig == SortConfig(None, Asc) && topPerformers == []
    {
      students := [];
      sortConfig := SortConfig(None, Asc);
      topPerformers := [];
    }

    /** A sort button press. */
    method PressSort(key: Column)
      modifies this
      ensures sortConfig == RequestSort(old(sortConfig), key)
      ensures students == old(students) && topPerformers == old(topPerformers)
    {
      sortConfig := RequestSort(sortConfig, key);
    }

    /** `fetchStudents` with the list, each student's fetched records and
        whether that student's two requests failed (a student without a
        course, whose details the service cannot answer, is one). The list
        is replaced; the podium is recomputed only when every student not
        evicted was fetched, since any failure lands in the catch and keeps
        the podium shown before. */
    method Loaded(data: seq<Fetched>, failed: seq<bool>)
      requires |failed| == |data|
      modifies this
      ensures students == seq(|data|, i requires 0 <= i < |data| => data[i].student)
      ensures (exists i :: 0 <= i < |data| && failed[i] && !IsEvicted(data[i].student.name)) ==>
                topPerformers == old(topPerformers)
      ensures (forall i :: 0 <= i < |data| && failed[i] ==> IsEvicted(data[i].student.name)) ==>
                topPerformers == TopPerformers(data)
      ensures sortConfig == old(sortConfig)
    {
      students := seq(|data|, i requires 0 <= i < |data| => data[i].student);
      if forall i :: 0 <= i < |data| && failed[i] ==> IsEvicted(data[i].student.name) {
        topPerformers := TopPerformers(data);
      }
    }
  }
}

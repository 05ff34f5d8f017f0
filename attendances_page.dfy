/** The Attendance page: the top-attenders podium computed from the
    attendance rows it is given, the date and department filters, the
    sortable table and its guard against editing evicted students. */
module AttendancesPage {

  import opened Common
  import opened Ordering
  import opened Records

  // ---------------------------------------------------------------------
  // Per-student counts

  /** The rows that belong to the student with id `id`. */
  function OfStudent(id: int): AttendanceRow -> bool {
    (a: AttendanceRow) => a.student.Some? && a.student.value.id == id
  }

  function PresentOf(id: int): AttendanceRow -> bool {
    (a: AttendanceRow) => a.student.Some? && a.student.value.id == id && a.present
  }

  /** All rows of a student, duplicates included. */
  function TotalCount(rows: seq<AttendanceRow>, id: int): nat {
    |Filter(OfStudent(id), rows)|
  }

  /** The present rows of a student. */
  function PresentCount(rows: seq<AttendanceRow>, id: int): nat {
    |Filter(PresentOf(id), rows)|
  }

  /** The student object of the first row with that student id. */
  function FirstStudent(rows: seq<AttendanceRow>, id: int): (r: Option<Student>)
    ensures r.Some? ==> r.value.id == id
  {
    if rows == [] then None
    else
      var earlier := FirstStudent(rows[..|rows| - 1], id);
      var last := rows[|rows| - 1];
      if earlier.Some? then earlier
      else if OfStudent(id)(last) then last.student
      else None
  }

  predicate StrictlyIncreasing(s: seq<int>) {
    forall i, j :: 0 <= i < j < |s| ==> s[i] < s[j]
  }

  /** A value below every element of an increasing sequence can lead it. */
  lemma ConsIncreasing(h: int, r: seq<int>)
    requires StrictlyIncreasing(r)
    requires forall y :: y in r ==> h < y
    ensures StrictlyIncreasing([h] + r)
  {
    var t := [h] + r;
    forall i, j | 0 <= i < j < |t|
      ensures t[i] < t[j]
    {
      assert t[j] == r[j - 1] && t[j] in r;
      if i > 0 {
        assert t[i] == r[i - 1];
      }
    }
  }

  /** The head of an increasing sequence is below everything after it. */
  lemma HeadBelowRest(s: seq<int>, y: int)
    requires StrictlyIncreasing(s) && s != [] && y in s[1..]
    ensures s[0] < y
  {
    var m :| 0 <= m < |s[1..]| && s[1..][m] == y;
    assert s[m + 1] == y;
  }

  /** `x` placed into an increasing sequence at its place. */
  function InsertAsc(x: int, s: seq<int>): (r: seq<int>)
    requires StrictlyIncreasing(s) && x !in s
    ensures StrictlyIncreasing(r)
    ensures forall y :: y in r <==> y in s || y == x
  {
    if s == [] then [x]
    else if x < s[0] then
      ConsIncreasing(x, s);
      [x] + s
    else
      var r := InsertAsc(x, s[1..]);
      assert forall y :: y in r ==> s[0] < y by {
        forall y | y in r
          ensures s[0] < y
        {
          if y in s[1..] {
            HeadBelowRest(s, y);
          }
        }
      }
      ConsIncreasing(s[0], r);
      [s[0]] + r
  }

  /** The student ids of the rows, each once, in increasing order: the
      order in which `Object.values` lists an object keyed by those ids. */
  function AscendingIds(rows: seq<AttendanceRow>): (r: seq<int>)
    ensures StrictlyIncreasing(r)
  {
    if rows == [] then []
    else
      var earlier := AscendingIds(rows[..|rows| - 1]);
      var last := rows[|rows| - 1];
      if last.student.Some? && last.student.value.id !in earlier
      then InsertAsc(last.student.value.id, earlier)
      else earlier
  }

  /** Appending one row adds it to the counts of its own student only. */
  lemma CountsStep(rows: seq<AttendanceRow>, a: AttendanceRow, id: int)
    ensures TotalCount(rows + [a], id) == TotalCount(rows, id) + (if OfStudent(id)(a) then 1 else 0)
    ensures PresentCount(rows + [a], id) == PresentCount(rows, id) + (if PresentOf(id)(a) then 1 else 0)
  {
    FilterAppend(OfStudent(id), rows, [a]);
    FilterAppend(PresentOf(id), rows, [a]);
  }

  /** A student id is grouped exactly when it has a row; the first such row
      supplies the student. */
  lemma {:induction false} AscendingIdsMembers(rows: seq<AttendanceRow>, id: int)
    ensures id in AscendingIds(rows) <==> TotalCount(rows, id) > 0
    ensures id in AscendingIds(rows) <==> FirstStudent(rows, id).Some?
  {
    if rows != [] {
      var n := |rows|;
      AscendingIdsMembers(rows[..n - 1], id);
      assert rows == rows[..n - 1] + [rows[n - 1]];
      CountsStep(rows[..n - 1], rows[n - 1], id);
    }
  }

  // ---------------------------------------------------------------------
  // Top attenders

  /** A student with its counts and `(presentCount / totalCount) * 100`. */
  datatype Attender = Attender(student: Student, present: nat, total: nat, percentage: real)

  function Percentage(present: nat, total: nat): (r: real)
    requires total >= 1
    ensures present <= total ==> 0.0 <= r <= 100.0
  {
    (present as real / total as real) * 100.0
  }

  function MakeAttender(student: Student, present: nat, total: nat): Attender
    requires total >= 1
  {
    Attender(student, present, total, Percentage(present, total))
  }

  /** `Object.values(studentAttendance)` with percentages: one entry per
      student that has a row, in increasing id order. */
  function Grouped(rows: seq<AttendanceRow>): seq<Attender> {
    var ids := AscendingIds(rows);
    seq(|ids|, i requires 0 <= i < |ids| =>
      AscendingIdsMembers(rows, ids[i]);
      MakeAttender(FirstStudent(rows, ids[i]).value, PresentCount(rows, ids[i]), TotalCount(rows, ids[i])))
  }

  function PercentageKey(a: Attender): SortKey {
    Num(a.percentage)
  }

  /** The top three entries by percentage, highest first. Evicted students
      are not excluded here. */
  function TopAttenders(rows: seq<AttendanceRow>): seq<Attender> {
    Take(SortBy(Grouped(rows), PercentageKey, Desc), 3)
  }

  /** Every grouped entry carries its student's counts over all rows: at
      least one row, so the percentage never divides by zero. */
  lemma GroupedCorrect(rows: seq<AttendanceRow>)
    ensures var g := Grouped(rows);
            (forall i, j :: 0 <= i < j < |g| ==> g[i].student.id < g[j].student.id)
            && (forall i :: 0 <= i < |g| ==>
                  g[i].total == TotalCount(rows, g[i].student.id) >= 1
                  && g[i].present == PresentCount(rows, g[i].student.id) <= g[i].total
                  && g[i].percentage == (g[i].present as real / g[i].total as real) * 100.0)
            && (forall id :: TotalCount(rows, id) > 0 <==> exists i :: 0 <= i < |g| && g[i].student.id == id)
  {
    var ids := AscendingIds(rows);
    var g := Grouped(rows);
    forall i | 0 <= i < |g|
      ensures g[i].student.id == ids[i] && g[i].present <= g[i].total
    {
      AscendingIdsMembers(rows, ids[i]);
      PresentAtMostTotal(rows, ids[i]);
    }
    forall id
      ensures TotalCount(rows, id) > 0 <==> exists i :: 0 <= i < |g| && g[i].student.id == id
    {
      AscendingIdsMembers(rows, id);
      if id in ids {
        var i :| 0 <= i < |ids| && ids[i] == id;
        assert g[i].student.id == id;
      }
    }
  }

  lemma {:induction false} PresentAtMostTotal(rows: seq<AttendanceRow>, id: int)
    ensures PresentCount(rows, id) <= TotalCount(rows, id)
  {
    if rows != [] {
      var n := |rows|;
      PresentAtMostTotal(rows[..n - 1], id);
      assert rows == rows[..n - 1] + [rows[n - 1]];
      CountsStep(rows[..n - 1], rows[n - 1], id);
    }
  }

  lemma TopAttendersMembers(rows: seq<AttendanceRow>)
    ensures var top := TopAttenders(rows);
            var g := Grouped(rows);
            |top| == (if |g| < 3 then |g| else 3) && forall i :: 0 <= i < |top| ==> top[i] in g
  {
    var g := Grouped(rows);
    var sorted := SortBy(g, PercentageKey, Desc);
    var top := TopAttenders(rows);
    SortByPermutes(g, PercentageKey, Desc);
    forall i | 0 <= i < |top|
      ensures top[i] in g
    {
      assert top[i] == sorted[i] && sorted[i] in multiset(g);
    }
  }

  lemma TopAttendersOrder(rows: seq<AttendanceRow>)
    ensures var top := TopAttenders(rows);
            forall i, j :: 0 <= i < j < |top| ==> top[i].percentage >= top[j].percentage
  {
    var g := Grouped(rows);
    var sorted := SortBy(g, PercentageKey, Desc);
    var top := TopAttenders(rows);
    SortByOrdered(g, PercentageKey, Desc);
    forall i, j | 0 <= i < j < |top|
      ensures top[i].percentage >= top[j].percentage
    {
      assert top[i] == sorted[i] && top[j] == sorted[j];
      assert !Before(PercentageKey(sorted[j]), PercentageKey(sorted[i]), Desc);
    }
  }

  lemma TopAttendersDominate(rows: seq<AttendanceRow>, a: Attender)
    requires a in Grouped(rows) && a !in TopAttenders(rows)
    ensures forall i :: 0 <= i < |TopAttenders(rows)| ==> a.percentage <= TopAttenders(rows)[i].percentage
  {
    var g := Grouped(rows);
    var top := TopAttenders(rows);
    SortedPrefixDominates(g, PercentageKey, Desc, 3, a);
    forall i | 0 <= i < |top|
      ensures a.percentage <= top[i].percentage
    {
      assert !Before(PercentageKey(a), PercentageKey(top[i]), Desc);
    }
  }

  /** At most three entries, percentages never increasing, entries of equal
      percentage in increasing id order, and no grouped student left out
      has a higher percentage than one shown. */
  lemma TopAttendersCorrect(rows: seq<AttendanceRow>)
    ensures var top := TopAttenders(rows);
            var g := Grouped(rows);
            |top| == (if |g| < 3 then |g| else 3)
            && (forall i :: 0 <= i < |top| ==> top[i] in g)
            && (forall i, j :: 0 <= i < j < |top| ==> top[i].percentage >= top[j].percentage)
            && (forall i, j :: 0 <= i < j < |top| && top[i].percentage == top[j].percentage ==>
                  top[i].student.id < top[j].student.id)
            && (forall a :: a in g && a !in top ==> forall i :: 0 <= i < |top| ==> a.percentage <= top[i].percentage)
  {
    var top := TopAttenders(rows);
    TopAttendersMembers(rows);
    TopAttendersOrder(rows);
    forall i, j | 0 <= i < j < |top| && top[i].percentage == top[j].percentage
      ensures top[i].student.id < top[j].student.id
    {
      TiesKeepGroupOrder(rows, i, j);
    }
    forall a | a in Grouped(rows) && a !in top
      ensures forall i :: 0 <= i < |top| ==> a.percentage <= top[i].percentage
    {
      TopAttendersDominate(rows, a);
    }
  }

  /** The stable sort keeps the entries of one percentage in grouping
      order, which is increasing id order. */
  lemma TiesKeepGroupOrder(rows: seq<AttendanceRow>, i: nat, j: nat)
    requires i < j < |TopAttenders(rows)|
    requires TopAttenders(rows)[i].percentage == TopAttenders(rows)[j].percentage
    ensures TopAttenders(rows)[i].student.id < TopAttenders(rows)[j].student.id
  {
    var g := Grouped(rows);
    var sorted := SortBy(g, PercentageKey, Desc);
    var k := PercentageKey(sorted[i]);
    GroupedCorrect(rows);
    SortByPermutes(g, PercentageKey, Desc);
    SortByStable(g, PercentageKey, Desc, k);
    var same := WithKey(g, PercentageKey, k);
    WithKeyIncreasing(g, k);
    WithKeyIndex(sorted, PercentageKey, k, i, j);
    var p, q :| 0 <= p < q < |same| && same[p] == sorted[i] && same[q] == sorted[j];
    assert sorted[i].student.id < sorted[j].student.id;
  }

  predicate IncreasingIds(g: seq<Attender>) {
    forall p, q :: 0 <= p < q < |g| ==> g[p].student.id < g[q].student.id
  }

  /** The entries of one key, taken from a list in increasing id order,
      are still in increasing id order. */
  lemma {:induction false} WithKeyIncreasing(g: seq<Attender>, k: SortKey)
    requires forall i, j :: 0 <= i < j < |g| ==> g[i].student.id < g[j].student.id
    ensures IncreasingIds(WithKey(g, PercentageKey, k))
    ensures forall x :: x in WithKey(g, PercentageKey, k) ==> x in g
  {
    if g != [] {
      WithKeyIncreasing(g[1..], k);
      var rest := WithKey(g[1..], PercentageKey, k);
      forall x | x in rest
        ensures g[0].student.id < x.student.id
      {
        var m :| 0 <= m < |g[1..]| && g[1..][m] == x;
        assert g[m + 1] == x;
      }
      var w := WithKey(g, PercentageKey, k);
      if PercentageKey(g[0]) == k {
        assert w == [g[0]] + rest;
        forall p, q | 0 <= p < q < |w|
          ensures w[p].student.id < w[q].student.id
        {
          assert w[q] == rest[q - 1] && rest[q - 1] in rest;
          if p > 0 {
            assert w[p] == rest[p - 1];
            assert rest[p - 1].student.id < rest[q - 1].student.id;
          }
        }
      } else {
        assert w == rest;
      }
    }
  }

  /** Two elements of key `k` at positions `i < j` of `s` appear in that
      order among the elements of key `k`. */
  lemma {:induction false} WithKeyIndex<T>(s: seq<T>, key: T -> SortKey, k: SortKey, i: nat, j: nat)
    requires i < j < |s| && key(s[i]) == k && key(s[j]) == k
    ensures exists p, q :: 0 <= p < q < |WithKey(s, key, k)| && WithKey(s, key, k)[p] == s[i]
                           && WithKey(s, key, k)[q] == s[j]
  {
    var w := WithKey(s, key, k);
    if i == 0 {
      WithKeyContains(s[1..], key, k, j - 1);
      var q :| 0 <= q < |WithKey(s[1..], key, k)| && WithKey(s[1..], key, k)[q] == s[1..][j - 1];
      assert w[0] == s[0] && w[q + 1] == s[j];
    } else {
      WithKeyIndex(s[1..], key, k, i - 1, j - 1);
      var rest := WithKey(s[1..], key, k);
      var p, q :| 0 <= p < q < |rest| && rest[p] == s[1..][i - 1] && rest[q] == s[1..][j - 1];
      var off := if key(s[0]) == k then 1 else 0;
      assert w[p + off] == s[i] && w[q + off] == s[j];
    }
  }

  lemma {:induction false} WithKeyContains<T>(s: seq<T>, key: T -> SortKey, k: SortKey, j: nat)
    requires j < |s| && key(s[j]) == k
    ensures exists q :: 0 <= q < |WithKey(s, key, k)| && WithKey(s, key, k)[q] == s[j]
  {
    var w := WithKey(s, key, k);
    if j == 0 {
      assert w[0] == s[0];
    } else {
      WithKeyContains(s[1..], key, k, j - 1);
      var rest := WithKey(s[1..], key, k);
      var q :| 0 <= q < |rest| && rest[q] == s[1..][j - 1];
      var off := if key(s[0]) == k then 1 else 0;
      assert w[q + off] == s[j];
    }
  }

  /** The running tally of one student while the rows are walked. */
  datatype Tally = Tally(student: Student, present: nat, total: nat)

  /** `tallies` and `order` are the dictionary `studentAttendance` after
      the rows `prefix`: one tally per student id, holding the first row's
      student and the counts, and the ids in the order `Object.values`
      lists them. */
  ghost predicate Tallied(prefix: seq<AttendanceRow>, tallies: map<int, Tally>, order: seq<int>) {
    order == AscendingIds(prefix)
    && (forall id :: id in tallies <==> id in order)
    && (forall id :: id in tallies ==>
          FirstStudent(prefix, id) == Some(tallies[id].student)
          && tallies[id].present == PresentCount(prefix, id)
          && tallies[id].total == TotalCount(prefix, id))
  }

  /** Appending one row to the rows walked so far: its student's counts
      grow by one, and its student becomes known if it was not. */
  lemma RowStep(prefix: seq<AttendanceRow>, a: AttendanceRow, id: int)
    ensures TotalCount(prefix + [a], id) == TotalCount(prefix, id) + (if OfStudent(id)(a) then 1 else 0)
    ensures PresentCount(prefix + [a], id) == PresentCount(prefix, id) + (if PresentOf(id)(a) then 1 else 0)
    ensures id in AscendingIds(prefix) <==> TotalCount(prefix, id) > 0
    ensures id in AscendingIds(prefix) <==> FirstStudent(prefix, id).Some?
    ensures PresentCount(prefix, id) <= TotalCount(prefix, id)
    ensures FirstStudent(prefix + [a], id) ==
              if FirstStudent(prefix, id).Some? then FirstStudent(prefix, id)
              else if OfStudent(id)(a) then a.student else None
  {
    var rows := prefix + [a];
    assert rows[..|rows| - 1] == prefix && rows[|rows| - 1] == a;
    CountsStep(prefix, a, id);
    AscendingIdsMembers(prefix, id);
    PresentAtMostTotal(prefix, id);
  }

  /** The body of the walk for one row: a row without a student changes
      nothing; otherwise its student's tally, opened empty the first time
      the student is seen, counts the row. */
  function CountRow(tallies: map<int, Tally>, order: seq<int>, a: AttendanceRow): (map<int, Tally>, seq<int>)
    requires StrictlyIncreasing(order) && forall id :: id in tallies <==> id in order
  {
    if a.student.None? then (tallies, order)
    else
      var id := a.student.value.id;
      var t := if id in tallies then tallies[id] else Tally(a.student.value, 0, 0);
      (tallies[id := Tally(t.student, if a.present then t.present + 1 else t.present, t.total + 1)],
       if id in tallies then order else InsertAsc(id, order))
  }

  /** Counting one more row keeps the tallies equal to the counts of the
      rows walked so far. */
  lemma TallyAppend(prefix: seq<AttendanceRow>, a: AttendanceRow, tallies: map<int, Tally>, order: seq<int>)
    requires Tallied(prefix, tallies, order)
    ensures StrictlyIncreasing(order) && forall id :: id in tallies <==> id in order
    ensures Tallied(prefix + [a], CountRow(tallies, order, a).0, CountRow(tallies, order, a).1)
  {
    var rows := prefix + [a];
    var (tallies', order') := CountRow(tallies, order, a);
    assert rows[..|rows| - 1] == prefix && rows[|rows| - 1] == a;
    assert order' == AscendingIds(rows);
    forall id | id in tallies'
      ensures FirstStudent(rows, id) == Some(tallies'[id].student)
      ensures tallies'[id].present == PresentCount(rows, id)
      ensures tallies'[id].total == TotalCount(rows, id)
    {
      RowStep(prefix, a, id);
    }
  }

  /** The same step, stated on the walk's index. */
  lemma TallyStep(rows: seq<AttendanceRow>, i: nat, tallies: map<int, Tally>, order: seq<int>)
    requires i < |rows| && Tallied(rows[..i], tallies, order)
    ensures StrictlyIncreasing(order) && forall id :: id in tallies <==> id in order
    ensures Tallied(rows[..i + 1], CountRow(tallies, order, rows[i]).0, CountRow(tallies, order, rows[i]).1)
  {
    TallyAppend(rows[..i], rows[i], tallies, order);
    assert rows[..i + 1] == rows[..i] + [rows[i]];
  }

  /** The walk over the rows that fills `studentAttendance`. */
  method TallyRows(rows: seq<AttendanceRow>) returns (tallies: map<int, Tally>, order: seq<int>)
    ensures Tallied(rows, tallies, order)
  {
    tallies := map[];
    order := [];
    var i := 0;
    while i < |rows|
      invariant 0 <= i <= |rows|
      invariant Tallied(rows[..i], tallies, order)
    {
      TallyStep(rows, i, tallies, order);
      var next := CountRow(tallies, order, rows[i]);
      tallies, order := next.0, next.1;
      i := i + 1;
    }
    assert rows[..i] == rows;
  }

  /** `calculateTopAttenders`: the tallies listed with their percentages,
      sorted by percentage, highest first, and cut to three. */
  method CalculateTopAttenders(rows: seq<AttendanceRow>) returns (top: seq<Attender>)
    ensures top == TopAttenders(rows)
  {
    var tallies, order := TallyRows(rows);
    forall id | id in tallies
      ensures tallies[id].total >= 1
    {
      AscendingIdsMembers(rows, id);
    }
    var grouped := seq(|order|, k requires 0 <= k < |order| =>
                         var t := tallies[order[k]];
                         MakeAttender(t.student, t.present, t.total));
    assert grouped == Grouped(rows);
    top := Take(SortBy(grouped, PercentageKey, Desc), 3);
  }

  // ---------------------------------------------------------------------
  // The table

  datatype Column = ByName | ByDate | ByDepartment

  /** The comparison value of a row for each column: lower-cased student
      name, date, course name; '' where the row has none. */
  function ColumnKey(c: Column): AttendanceRow -> SortKey {
    match c
    case ByName => (a: AttendanceRow) => Text(if a.student.Some? then Lower(a.student.value.name) else "")
    case ByDate => (a: AttendanceRow) => Num(a.date as real)
    case ByDepartment =>
      (a: AttendanceRow) =>
        Text(if a.student.Some? && a.student.value.course.Some? then a.student.value.course.value.name else "")
  }

  /** `getSortedData`: the rows as given without a key, otherwise sorted
      stably by the key's column in the chosen direction. */
  function SortedRows(rows: seq<AttendanceRow>, cfg: SortConfig<Column>): seq<AttendanceRow> {
    if cfg.key.None? then rows else SortBy(rows, ColumnKey(cfg.key.value), cfg.dir)
  }

  lemma SortedRowsCorrect(rows: seq<AttendanceRow>, cfg: SortConfig<Column>)
    ensures cfg.key.None? ==> SortedRows(rows, cfg) == rows
    ensures multiset(SortedRows(rows, cfg)) == multiset(rows)
    ensures cfg.key.Some? ==>
              var key := ColumnKey(cfg.key.value);
              Ordered(SortedRows(rows, cfg), key, cfg.dir)
              && forall k :: WithKey(SortedRows(rows, cfg), key, k) == WithKey(rows, key, k)
  {
    if cfg.key.Some? {
      var key := ColumnKey(cfg.key.value);
      SortByPermutes(rows, key, cfg.dir);
      SortByOrdered(rows, key, cfg.dir);
      forall k {
        SortByStable(rows, key, cfg.dir, k);
      }
    }
  }

  /** The calendar filter: all rows without a selected day. */
  function FilterByDate(rows: seq<AttendanceRow>, day: Option<int>): seq<AttendanceRow> {
    if day.None? then rows else Filter((a: AttendanceRow) => a.date == day.value, rows)
  }

  predicate RowInDepartment(a: AttendanceRow, dept: string) {
    a.student.Some? && a.student.value.course.Some? && a.student.value.course.value.name == dept
  }

  /** The department filter: all rows without a selected department. */
  function FilterRowsByDepartment(rows: seq<AttendanceRow>, dept: string): seq<AttendanceRow> {
    if dept == "" then rows else Filter((a: AttendanceRow) => RowInDepartment(a, dept), rows)
  }

  /** `sortedData`: the rows the table shows. */
  function VisibleRows(rows: seq<AttendanceRow>, day: Option<int>, dept: string,
                       cfg: SortConfig<Column>): seq<AttendanceRow>
  {
    SortedRows(FilterRowsByDepartment(FilterByDate(rows, day), dept), cfg)
  }

  /** The table shows exactly the rows of the selected day and department;
      a row without a student or course never matches a department. */
  lemma VisibleRowsMembers(rows: seq<AttendanceRow>, day: Option<int>, dept: string,
                           cfg: SortConfig<Column>, a: AttendanceRow)
    ensures a in VisibleRows(rows, day, dept, cfg) <==>
              a in rows && (day.None? || a.date == day.value)
              && (dept == "" || (a.student.Some? && a.student.value.course.Some?
                                 && a.student.value.course.value.name == dept))
  {
    var byDate := FilterByDate(rows, day);
    var byDept := FilterRowsByDepartment(byDate, dept);
    SortedRowsCorrect(byDept, cfg);
    assert a in VisibleRows(rows, day, dept, cfg) <==> a in multiset(byDept);
    if day.Some? {
      FilterMembers((r: AttendanceRow) => r.date == day.value, rows, a);
    }
    if dept != "" {
      FilterMembers((r: AttendanceRow) => RowInDepartment(r, dept), byDate, a);
    }
  }

  // ---------------------------------------------------------------------
  // The page state

  /** A row of an evicted student: its Edit button and its status select
      are disabled. */
  predicate Locked(a: AttendanceRow) {
    a.student.Some? && IsEvicted(a.student.value.name)
  }

  class AttendancesView {
    var sortConfig: SortConfig<Column>
    var topAttenders: seq<Attender>
    /** The id of the row whose status select is shown. */
    var editingId: Option<int>

    constructor ()
      ensures sortConfig == SortConfig(None, Asc) && topAttenders == [] && editingId.None?
    {
      sortConfig := SortConfig(None, Asc);
      topAttenders := [];
      editingId := None;
    }

    /** A sort button press. */
    method PressSort(key: Column)
      modifies this
      ensures sortConfig == RequestSort(old(sortConfig), key)
      ensures topAttenders == old(topAttenders) && editingId == old(editingId)
    {
      sortConfig := RequestSort(sortConfig, key);
    }

    /** The effect run when the attendance rows change: a non-empty list
        recomputes the podium, an empty one leaves the previous podium. */
    method RowsChanged(rows: seq<AttendanceRow>)
      modifies this
      ensures topAttenders == if |rows| > 0 then TopAttenders(rows) else old(topAttenders)
      ensures sortConfig == old(sortConfig) && editingId == old(editingId)
    {
      if |rows| > 0 {
        topAttenders := CalculateTopAttenders(rows);
      }
    }

    /** The Edit button of a row; it is disabled for evicted students. */
    method StartEdit(a: AttendanceRow)
      requires !Locked(a)
      modifies this
      ensures editingId == Some(a.id)
      ensures sortConfig == old(sortConfig) && topAttenders == old(topAttenders)
    {
      editingId := Some(a.id);
    }
  }
}

/** The Marks page: the top-three podium, the department-filtered and
    sorted marks table, and the session that edits one student's marks
    before they are sent to `PUT /marks/bulk`. */
module MarksPage {

  import opened Common
  import opened Ordering
  import opened Records

  // ---------------------------------------------------------------------
  // Totals and the podium

  /** `totalMarks[id] || 0`: a student the totals do not mention has 0. */
  function TotalOf(totals: map<int, int>, id: int): int {
    if id in totals then totals[id] else 0
  }

  function TotalKey(totals: map<int, int>): Student -> SortKey {
    (s: Student) => Num(TotalOf(totals, s.id) as real)
  }

  predicate NotEvicted(s: Student) {
    !IsEvicted(s.name)
  }

  datatype RankedStudent = RankedStudent(student: Student, rank: nat, total: int)

  /** The three highest non-evicted students, highest total first. */
  function Podium(students: seq<Student>, totals: map<int, int>): seq<Student> {
    Take(SortBy(Filter(NotEvicted, students), TotalKey(totals), Desc), 3)
  }

  /** `getTopThreeStudents`: the podium, ranked 1, 2, 3 with their totals. */
  function TopThreeStudents(students: seq<Student>, totals: map<int, int>): seq<RankedStudent> {
    var top := Podium(students, totals);
    seq(|top|, i requires 0 <= i < |top| => RankedStudent(top[i], i + 1, TotalOf(totals, top[i].id)))
  }

  lemma PodiumMembers(students: seq<Student>, totals: map<int, int>)
    ensures var top := Podium(students, totals);
            var eligible := Filter(NotEvicted, students);
            |top| == (if |eligible| < 3 then |eligible| else 3)
            && forall i :: 0 <= i < |top| ==> top[i] in students && !IsEvicted(top[i].name)
  {
    var eligible := Filter(NotEvicted, students);
    var sorted := SortBy(eligible, TotalKey(totals), Desc);
    var top := Podium(students, totals);
    SortByPermutes(eligible, TotalKey(totals), Desc);
    forall i | 0 <= i < |top|
      ensures top[i] in students && !IsEvicted(top[i].name)
    {
      assert top[i] == sorted[i];
      assert sorted[i] in multiset(eligible);
      FilterMembers(NotEvicted, students, sorted[i]);
    }
  }

  lemma PodiumOrder(students: seq<Student>, totals: map<int, int>)
    ensures var top := Podium(students, totals);
            forall i, j :: 0 <= i < j < |top| ==> TotalOf(totals, top[i].id) >= TotalOf(totals, top[j].id)
  {
    var eligible := Filter(NotEvicted, students);
    var sorted := SortBy(eligible, TotalKey(totals), Desc);
    var top := Podium(students, totals);
    SortByOrdered(eligible, TotalKey(totals), Desc);
    forall i, j | 0 <= i < j < |top|
      ensures TotalOf(totals, top[i].id) >= TotalOf(totals, top[j].id)
    {
      assert top[i] == sorted[i] && top[j] == sorted[j];
      assert !Before(TotalKey(totals)(sorted[j]), TotalKey(totals)(sorted[i]), Desc);
    }
  }

  lemma PodiumDominates(students: seq<Student>, totals: map<int, int>, s: Student)
    requires s in students && !IsEvicted(s.name) && s !in Podium(students, totals)
    ensures var top := Podium(students, totals);
            forall i :: 0 <= i < |top| ==> TotalOf(totals, s.id) <= TotalOf(totals, top[i].id)
  {
    var eligible := Filter(NotEvicted, students);
    var top := Podium(students, totals);
    FilterMembers(NotEvicted, students, s);
    SortedPrefixDominates(eligible, TotalKey(totals), Desc, 3, s);
    forall i | 0 <= i < |top|
      ensures TotalOf(totals, s.id) <= TotalOf(totals, top[i].id)
    {
      assert !Before(TotalKey(totals)(s), TotalKey(totals)(top[i]), Desc);
    }
  }

  /** The podium holds at most three non-evicted students of the list,
      ranked by position, totals never increasing, and no student left
      off it has a higher total than one on it. */
  lemma TopThreeStudentsCorrect(students: seq<Student>, totals: map<int, int>)
    ensures var r := TopThreeStudents(students, totals);
            var eligible := Filter(NotEvicted, students);
            |r| == (if |eligible| < 3 then |eligible| else 3)
            && (forall i :: 0 <= i < |r| ==>
                  r[i].rank == i + 1 && r[i].student in students && !IsEvicted(r[i].student.name)
                  && r[i].total == TotalOf(totals, r[i].student.id))
            && (forall i, j :: 0 <= i < j < |r| ==> r[i].total >= r[j].total)
            && (forall s :: s in students && !IsEvicted(s.name) && (forall i :: 0 <= i < |r| ==> r[i].student != s) ==>
                  forall i :: 0 <= i < |r| ==> TotalOf(totals, s.id) <= r[i].total)
  {
    var top := Podium(students, totals);
    var r := TopThreeStudents(students, totals);
    PodiumMembers(students, totals);
    PodiumOrder(students, totals);
    forall s | s in students && !IsEvicted(s.name) && (forall i :: 0 <= i < |r| ==> r[i].student != s)
      ensures forall i :: 0 <= i < |r| ==> TotalOf(totals, s.id) <= r[i].total
    {
      assert s !in top by {
        forall k | 0 <= k < |top|
          ensures top[k] != s
        {
          assert r[k].student == top[k];
        }
      }
      PodiumDominates(students, totals, s);
    }
  }

  // ---------------------------------------------------------------------
  // The marks table

  /** The `sortBy` selector: by name, or by anything else meaning total. */
  datatype TableSort = ByName | ByMarks

  function TableKey(sortBy: TableSort, totals: map<int, int>): Student -> SortKey {
    match sortBy
    case ByName => (s: Student) => Text(Lower(s.name))
    case ByMarks => TotalKey(totals)
  }

  /** `filteredStudents`: the department filter, then the stable sort by
      lower-cased name or by total, descending unless the order is 'asc'. */
  function MarksTable(students: seq<Student>, totals: map<int, int>, dept: string,
                      sortBy: TableSort, order: Direction): seq<Student>
  {
    SortBy(FilterByDepartment(students, dept), TableKey(sortBy, totals), order)
  }

  /** The table shows exactly the students of the selected department (all
      without one), ordered by the selected key, equal keys in list order. */
  lemma MarksTableCorrect(students: seq<Student>, totals: map<int, int>, dept: string,
                          sortBy: TableSort, order: Direction)
    ensures var r := MarksTable(students, totals, dept, sortBy, order);
            var key := TableKey(sortBy, totals);
            multiset(r) == multiset(FilterByDepartment(students, dept))
            && (forall s :: s in r <==> s in students && InDepartment(s, dept))
            && Ordered(r, key, order)
            && (forall k :: WithKey(r, key, k) == WithKey(FilterByDepartment(students, dept), key, k))
  {
    var base := FilterByDepartment(students, dept);
    var key := TableKey(sortBy, totals);
    var r := SortBy(base, key, order);
    SortByPermutes(base, key, order);
    SortByOrdered(base, key, order);
    forall k {
      SortByStable(base, key, order, k);
    }
    forall s
      ensures s in r <==> s in students && InDepartment(s, dept)
    {
      assert s in r <==> s in multiset(base);
      FilterByDepartmentMembers(students, dept, s);
    }
  }

  // ---------------------------------------------------------------------
  // Editing one student's marks

  /** What a mark input holds: nothing, text `parseInt` reads as NaN, or an
      integer. */
  datatype Parsed = Blank | NotANumber | Int(n: int)

  /** `value === '' ? null : parseInt(value)`. */
  function ParseField(value: string): (r: Parsed)
    ensures r.Blank? <==> value == ""
  {
    if value == "" then Blank
    else match ParseInt(value)
      case None => NotANumber
      case Some(n) => Int(n)
  }

  /** A value the edit accepts: an empty field or an integer in 0..100. */
  predicate Acceptable(p: Parsed) {
    p.Blank? || (p.Int? && 0 <= p.n <= 100)
  }

  /** Every mark from 0 to 100, typed in decimal, is accepted as itself. */
  lemma TypedMarkAccepted(n: int)
    requires 0 <= n <= 100
    ensures ParseField(IntToString(n)) == Int(n) && Acceptable(ParseField(IntToString(n)))
  {
    ParseIntRoundTrip(n);
  }

  class EditSession {
    /** The details of the student being edited; none while closed. */
    var editing: Option<MarksDetails>
    var entries: array<MarkEntry>
    /** `invalidMarks`: fields whose last input was rejected. */
    var invalid: map<int, bool>
    /** `emptyFields`: fields that hold no mark. */
    var empty: map<int, bool>

    /** While a session is open, a field is flagged empty exactly when its
        entry holds no mark. */
    ghost predicate Valid()
      reads this, entries
    {
      editing.Some? ==>
        forall i :: 0 <= i < entries.Length ==> i in empty && (empty[i] <==> entries[i].marks.None?)
    }

    /** The Save button is enabled only when no field is flagged. */
    predicate SaveEnabled()
      reads this
    {
      !(true in invalid.Values) && !(true in empty.Values)
    }

    constructor ()
      ensures editing.None? && entries.Length == 0 && invalid == map[] && empty == map[]
      ensures Valid()
    {
      editing := None;
      entries := new MarkEntry[0];
      invalid := map[];
      empty := map[];
    }

    /** `handleEdit` with the fetched details `d`; the Edit button of an
        evicted student is disabled. The invalid flags are left as they are. */
    method Open(student: Student, d: MarksDetails)
      requires !IsEvicted(student.name) && d.studentId == student.id
      modifies this
      ensures Valid()
      ensures editing == Some(d)
      ensures fresh(entries) && entries[..] == d.marks
      ensures forall i :: i in empty <==> 0 <= i < |d.marks|
      ensures forall i :: 0 <= i < |d.marks| ==> (empty[i] <==> d.marks[i].marks.None?)
      ensures invalid == old(invalid)
    {
      var flags: map<int, bool> := map[];
      var i := 0;
      while i < |d.marks|
        invariant 0 <= i <= |d.marks|
        invariant forall k :: k in flags <==> 0 <= k < i
        invariant forall k :: 0 <= k < i ==> (flags[k] <==> d.marks[k].marks.None?)
      {
        flags := flags[i := d.marks[i].marks.None?];
        i := i + 1;
      }
      entries := new MarkEntry[|d.marks|](k requires 0 <= k < |d.marks| => d.marks[k]);
      editing := Some(d);
      empty := flags;
    }

    /** `handleEditChange(index, value)`: a rejected value only raises the
        invalid flag; an accepted one is stored and sets the flags of that
        field alone. */
    method Change(index: int, value: string)
      requires Valid() && editing.Some? && 0 <= index < entries.Length
      modifies this, entries
      ensures Valid()
      ensures editing == old(editing) && entries == old(entries)
      ensures var p := ParseField(value);
              if Acceptable(p) then
                invalid == old(invalid)[index := false]
                && empty == old(empty)[index := p.Blank?]
                && entries[..] == old(entries[..])[index := old(entries[index]).(marks := if p.Blank? then None else Some(p.n))]
              else
                invalid == old(invalid)[index := true]
                && empty == old(empty)
                && entries[..] == old(entries[..])
    {
      var p := ParseField(value);
      if !Acceptable(p) {
        invalid := invalid[index := true];
        return;
      }
      invalid := invalid[index := false];
      entries[index] := entries[index].(marks := if p.Blank? then None else Some(p.n));
      empty := empty[index := p.Blank?];
    }

    /** Leaving a field that holds no mark enters "0" into it. */
    method Blur(index: int)
      requires Valid() && editing.Some? && 0 <= index < entries.Length
      modifies this, entries
      ensures Valid()
      ensures editing == old(editing) && entries == old(entries)
      ensures old(entries[index].marks).None? ==>
                entries[..] == old(entries[..])[index := old(entries[index]).(marks := Some(0))]
                && invalid == old(invalid)[index := false]
                && empty == old(empty)[index := false]
      ensures old(entries[index].marks).Some? ==>
                entries[..] == old(entries[..]) && invalid == old(invalid) && empty == old(empty)
    {
      if entries[index].marks.None? {
        assert IntToString(0) == "0";
        TypedMarkAccepted(0);
        Change(index, "0");
      }
    }

    /** `handleSave`, with `serverOk` the outcome of the bulk request. With
        a field flagged empty nothing is sent; otherwise one update per
        entry goes out in order, and a successful reply closes the session. */
    method Save(serverOk: bool) returns (request: Option<seq<MarkUpdate>>)
      requires Valid() && editing.Some?
      modifies this
      ensures Valid()
      ensures request.Some? <==> !(true in old(empty).Values)
      ensures old(SaveEnabled()) ==> request.Some?
      ensures request.Some? ==>
                |request.value| == entries.Length
                && forall i :: 0 <= i < entries.Length ==>
                     request.value[i] == MarkUpdate(entries[i].markId, old(editing).value.studentId,
                                                    entries[i].subjectId, MarkValue(entries[i]))
                     && entries[i].marks == Some(request.value[i].marks)
      ensures request.Some? && serverOk ==> editing.None? && empty == map[]
      ensures request.None? || !serverOk ==> editing == old(editing) && empty == old(empty)
      ensures invalid == old(invalid) && entries == old(entries)
    {
      if true in empty.Values {
        return None;
      }
      var es := entries[..];
      var studentId := editing.value.studentId;
      forall i | 0 <= i < |es|
        ensures es[i].marks.Some?
      {
        assert empty[i] in empty.Values;
      }
      request := Some(seq(|es|, i requires 0 <= i < |es| =>
                            MarkUpdate(es[i].markId, studentId, es[i].subjectId,
                                       if es[i].marks.None? then 0 else es[i].marks.value)));
      if serverOk {
        editing := None;
        empty := map[];
      }
    }

    /** The Cancel button: the session closes and both flag maps are
        cleared; nothing is sent. */
    method Cancel()
      modifies this
      ensures Valid()
      ensures editing.None? && invalid == map[] && empty == map[] && entries == old(entries)
    {
      editing := None;
      invalid := map[];
      empty := map[];
    }
  }
}

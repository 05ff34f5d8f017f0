/** The student details page: the attendance and marks cards of one
    student, with their badges, and the current-marks section. */
module StudentDetails {

  import opened Common
  import opened Records

  /** `calculateAttendancePercentage`: 0 without records, otherwise
      `Math.round(presentDays / total * 100)`. The integer `r` is that
      rounding, halves up, exactly when `r - 1/2 <= 100·present/total <
      r + 1/2`, which is the second `ensures` multiplied out by `2·total`. */
  function AttendancePercentage(attendance: seq<AttendanceRow>): (r: int)
    ensures attendance == [] ==> r == 0
    ensures attendance != [] ==>
              (2 * r - 1) * |attendance| <= 200 * PresentDays(attendance) < (2 * r + 1) * |attendance|
    ensures 0 <= r <= 100
  {
    if attendance == [] then 0
    else
      var p := PresentDays(attendance);
      var t := |attendance|;
      RoundHalfUp(p, t);
      (200 * p + t) / (2 * t)
  }

  lemma {:induction false} MulLe(x: int, y: int, b: nat)
    requires x <= y
    ensures x * b <= y * b
  {
    if b > 0 {
      MulLe(x, y, b - 1);
      assert x * b == x * (b - 1) + x && y * b == y * (b - 1) + y;
    }
  }

  /** `(200p + t) div 2t` rounds `100p / t` half up, within 0..100. */
  lemma RoundHalfUp(p: nat, t: nat)
    requires 0 < t && p <= t
    ensures var r := (200 * p + t) / (2 * t);
            0 <= r <= 100 && (2 * r - 1) * t <= 200 * p < (2 * r + 1) * t
  {
    var r := (200 * p + t) / (2 * t);
    var rem := (200 * p + t) % (2 * t);
    assert 200 * p + t == r * (2 * t) + rem && 0 <= rem < 2 * t;
    assert r * (2 * t) == 2 * r * t;
    assert (2 * r - 1) * t == 2 * r * t - t && (2 * r + 1) * t == 2 * r * t + t;
    if r > 100 {
      MulLe(101, r, 2 * t);
    }
  }

  /** The "Excellent" attendance badge. */
  predicate ExcellentBadge(name: string, attendance: seq<AttendanceRow>) {
    !IsEvicted(name) && AttendancePercentage(attendance) >= 90
  }

  /** The badge needs records, and 90 after rounding means at least 89.5
      exactly: `200·present >= 179·total`. */
  lemma ExcellentBadgeIff(name: string, attendance: seq<AttendanceRow>)
    ensures ExcellentBadge(name, attendance) <==>
              !IsEvicted(name) && attendance != [] && 200 * PresentDays(attendance) >= 179 * |attendance|
  {
    if attendance != [] {
      var p := PresentDays(attendance);
      var t := |attendance|;
      var r := (200 * p + t) / (2 * t);
      assert AttendancePercentage(attendance) == r;
      if 200 * p >= 179 * t {
        assert 200 * p + t >= 90 * (2 * t);
        DivAtLeast(200 * p + t, 2 * t, 90);
      } else {
        assert 200 * p + t < 90 * (2 * t);
        DivBelow(200 * p + t, 2 * t, 90);
      }
    }
  }

  lemma DivAtLeast(a: nat, b: nat, q: nat)
    requires b > 0 && a >= q * b
    ensures a / b >= q
  {
    var d := a / b;
    assert a == d * b + a % b;
    if d < q {
      MulLe(d, q - 1, b);
    }
  }

  lemma DivBelow(a: nat, b: nat, q: nat)
    requires b > 0 && a < q * b
    ensures a / b < q
  {
    var d := a / b;
    assert a == d * b + a % b;
    if d >= q {
      MulLe(q, d, b);
    }
  }

  /** The "Top Performer" marks badge: `total / 500 >= 0.75`. */
  predicate TopPerformerBadge(name: string, marks: seq<MarkEntry>) {
    !IsEvicted(name) && (TotalMarks(marks) as real / 500.0) >= 0.75
  }

  lemma TopPerformerBadgeIff(name: string, marks: seq<MarkEntry>)
    ensures TopPerformerBadge(name, marks) <==> !IsEvicted(name) && TotalMarks(marks) >= 375
  {
  }

  /** The current-marks section is shown only for a student not evicted. */
  predicate ShowsCurrentMarks(name: string) {
    !IsEvicted(name)
  }

  /** Evicting a student, which appends the marker after a space, hides
      the section that was shown, and the name shown is still the name
      followed by that space. */
  lemma {:induction false} EvictionHidesMarks(name: string)
    requires ShowsCurrentMarks(name)
    ensures !ShowsCurrentMarks(name + " " + EvictedMarker)
    ensures DisplayName(name + " " + EvictedMarker) == name + " "
  {
    var e := name + " " + EvictedMarker;
    AppendedMarkerIsFirst(name);
    var r := DisplayName(e);
    assert r == e[..|name| + 1] + e[|name| + 1 + |EvictedMarker|..] by {
      assert r[..|name| + 1] == e[..|name| + 1];
      assert r[|name| + 1..] == e[|name| + 1 + |EvictedMarker|..];
    }
    assert e[..|name| + 1] == name + " ";
    assert e[|name| + 1 + |EvictedMarker|..] == [];
  }
}

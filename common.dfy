/** Shared value types and the string operations the dashboard uses:
    ASCII lower-casing, substring search (JavaScript `includes`, `replace`
    with a string pattern) and the blank tests of JavaScript's and Java's
    `trim`. */
module Common {

  datatype Option<+T> = None | Some(value: T)

  datatype Result<+T, +E> = Ok(value: T) | Err(error: E)

  // ---------------------------------------------------------------------
  // Case

  function LowerChar(c: char): char {
    if 'A' <= c <= 'Z' then (c as int + 32) as char else c
  }

  /** `toLowerCase` restricted to ASCII letters. */
  function Lower(s: string): (r: string)
    ensures |r| == |s|
    ensures forall i :: 0 <= i < |s| ==> r[i] == LowerChar(s[i])
  {
    if s == [] then [] else [LowerChar(s[0])] + Lower(s[1..])
  }

  /** Lower-casing twice is lower-casing once. */
  lemma {:induction false} LowerIdempotent(s: string)
    ensures Lower(Lower(s)) == Lower(s)
  {
    if s != [] {
      LowerIdempotent(s[1..]);
    }
  }

  // ---------------------------------------------------------------------
  // Substrings

  predicate OccursAt(s: string, p: string, i: int) {
    0 <= i && i + |p| <= |s| && s[i..i + |p|] == p
  }

  /** JavaScript `s.indexOf(p)`: the first position where `p` occurs. */
  function IndexOf(s: string, p: string): (r: Option<nat>)
    ensures r.Some? ==> OccursAt(s, p, r.value)
    ensures r.Some? ==> forall j :: 0 <= j < r.value ==> !OccursAt(s, p, j)
    ensures r.None? ==> forall j :: 0 <= j ==> !OccursAt(s, p, j)
    decreases |s|
  {
    if |s| < |p| then None
    else if s[..|p|] == p then Some(0)
    else
      match IndexOf(s[1..], p)
      case None =>
        assert forall j :: 1 <= j ==> (OccursAt(s, p, j) <==> OccursAt(s[1..], p, j - 1));
        None
      case Some(k) =>
        assert forall j :: 1 <= j ==> (OccursAt(s, p, j) <==> OccursAt(s[1..], p, j - 1));
        Some(k + 1)
  }

  /** JavaScript `s.includes(p)`. */
  predicate Contains(s: string, p: string) {
    IndexOf(s, p).Some?
  }

  lemma ContainsIff(s: string, p: string)
    ensures Contains(s, p) <==> exists i :: OccursAt(s, p, i)
  {
    if !Contains(s, p) {
      assert forall j :: 0 <= j ==> !OccursAt(s, p, j);
    }
  }

  /** JavaScript `s.replace(p, rep)` with a string pattern: only the first
      occurrence is replaced; without one the string is returned as is. */
  function ReplaceFirst(s: string, p: string, rep: string): (r: string)
    ensures IndexOf(s, p).None? ==> r == s
    ensures IndexOf(s, p).Some? ==>
              var k := IndexOf(s, p).value;
              |r| == |s| - |p| + |rep| && r[..k] == s[..k]
              && r[k..k + |rep|] == rep && r[k + |rep|..] == s[k + |p|..]
  {
    match IndexOf(s, p)
    case None => s
    case Some(k) => s[..k] + rep + s[k + |p|..]
  }

  // ---------------------------------------------------------------------
  // Blank tests

  /** The characters JavaScript's `trim` removes: WhiteSpace and
      LineTerminator of the ECMAScript grammar. */
  predicate IsJsSpace(c: char) {
    c == ' ' || c == '\t' || c == '\n' || c == '\r' || c == '\U{000B}' || c == '\U{000C}'
    || c == '\U{00A0}' || c == '\U{1680}' || ('\U{2000}' <= c <= '\U{200A}')
    || c == '\U{2028}' || c == '\U{2029}' || c == '\U{202F}' || c == '\U{205F}'
    || c == '\U{3000}' || c == '\U{FEFF}'
  }

  /** `s.trim() === ''` in JavaScript. */
  predicate JsBlank(s: string) {
    forall i :: 0 <= i < |s| ==> IsJsSpace(s[i])
  }

  /** `s.trim().isEmpty()` in Java: `trim` removes every char up to U+0020. */
  predicate JavaBlank(s: string) {
    forall i :: 0 <= i < |s| ==> s[i] <= ' '
  }

  /** Case-insensitive equality, as `existsByNameIgnoreCase` compares. */
  predicate EqualsIgnoreCase(a: string, b: string) {
    Lower(a) == Lower(b)
  }

  // ---------------------------------------------------------------------
  // Sequences

  function Take<T>(s: seq<T>, n: nat): (r: seq<T>)
    ensures |r| <= n && |r| <= |s|
    ensures |s| <= n ==> r == s
    ensures r == s[..|r|]
  {
    if |s| <= n then s else s[..n]
  }

  /** `s.filter(p)`: the elements that satisfy `p`, in their order. */
  function Filter<T>(p: T -> bool, s: seq<T>): (r: seq<T>)
    ensures |r| <= |s|
    ensures forall i :: 0 <= i < |r| ==> p(r[i])
  {
    if s == [] then [] else (if p(s[0]) then [s[0]] else []) + Filter(p, s[1..])
  }

  lemma {:induction false} FilterAppend<T>(p: T -> bool, a: seq<T>, b: seq<T>)
    ensures Filter(p, a + b) == Filter(p, a) + Filter(p, b)
  {
    if a == [] {
      assert a + b == b;
    } else {
      var head := if p(a[0]) then [a[0]] else [];
      FilterAppend(p, a[1..], b);
      assert (a + b)[0] == a[0];
      assert (a + b)[1..] == a[1..] + b;
      assert Filter(p, a + b) == head + Filter(p, a[1..] + b);
      assert Filter(p, a) == head + Filter(p, a[1..]);
    }
  }

  /** Nothing is lost: the filter keeps every element that satisfies `p`,
      and keeps only elements of `s`. */
  lemma {:induction false} FilterMembers<T>(p: T -> bool, s: seq<T>, x: T)
    ensures x in Filter(p, s) <==> x in s && p(x)
  {
    if s != [] {
      FilterMembers(p, s[1..], x);
      assert s == [s[0]] + s[1..];
    }
  }

  /** A filter every element passes is the identity. */
  lemma {:induction false} FilterAll<T>(p: T -> bool, s: seq<T>)
    requires forall i :: 0 <= i < |s| ==> p(s[i])
    ensures Filter(p, s) == s
  {
    if s != [] {
      FilterAll(p, s[1..]);
      assert s == [s[0]] + s[1..];
    }
  }

  /** A filter no element passes is empty. */
  lemma {:induction false} FilterNone<T>(p: T -> bool, s: seq<T>)
    requires forall i :: 0 <= i < |s| ==> !p(s[i])
    ensures Filter(p, s) == []
  {
    if s != [] {
      FilterNone(p, s[1..]);
    }
  }

  /** The position of the first element whose id is `id`, as a repository's
      `findById` locates a row. */
  function FindIndex<T>(s: seq<T>, idOf: T -> int, id: int): (r: Option<nat>)
    ensures r.Some? ==> r.value < |s| && idOf(s[r.value]) == id
    ensures r.Some? ==> forall j :: 0 <= j < r.value ==> idOf(s[j]) != id
    ensures r.None? ==> forall j :: 0 <= j < |s| ==> idOf(s[j]) != id
  {
    if s == [] then None
    else if idOf(s[0]) == id then Some(0)
    else match FindIndex(s[1..], idOf, id)
      case None => None
      case Some(k) => Some(k + 1)
  }

  // ---------------------------------------------------------------------
  // 32-bit integers

  const TwoTo31: int := 0x8000_0000
  const TwoTo32: int := 0x1_0000_0000

  /** The value of `x` in a Java `int`: two's complement wrap-around. */
  function Wrap32(x: int): (r: int)
    ensures -TwoTo31 <= r < TwoTo31
    ensures (x - r) % TwoTo32 == 0
    ensures -TwoTo31 <= x < TwoTo31 ==> r == x
  {
    (x + TwoTo31) % TwoTo32 - TwoTo31
  }

  // ---------------------------------------------------------------------
  // Numbers as text

  function DigitChar(d: nat): char
    requires d < 10
  {
    ('0' as int + d) as char
  }

  /** The decimal digits of `n`, as JavaScript prints an integer. */
  function NatToString(n: nat): (r: string)
    ensures |r| >= 1
    ensures forall i :: 0 <= i < |r| ==> '0' <= r[i] <= '9'
  {
    if n < 10 then [DigitChar(n)] else NatToString(n / 10) + [DigitChar(n % 10)]
  }

  function IntToString(n: int): string {
    if n < 0 then "-" + NatToString(-n) else NatToString(n)
  }

  function TrimStart(s: string): (r: string)
    ensures r == [] || !IsJsSpace(r[0])
    ensures |r| <= |s| && r == s[|s| - |r|..]
  {
    if s != [] && IsJsSpace(s[0]) then TrimStart(s[1..]) else s
  }

  /** The value of `c` as a digit in base `radix` (at most 36). */
  function DigitValue(c: char, radix: nat): Option<nat> {
    var v :=
      if '0' <= c <= '9' then c as int - '0' as int
      else if 'a' <= c <= 'z' then c as int - 'a' as int + 10
      else if 'A' <= c <= 'Z' then c as int - 'A' as int + 10
      else 36;
    if v < radix then Some(v) else None
  }

  /** The longest prefix of `s` made of digits of base `radix`. */
  function DigitPrefix(s: string, radix: nat): (r: string)
    ensures |r| <= |s| && r == s[..|r|]
    ensures forall i :: 0 <= i < |r| ==> DigitValue(r[i], radix).Some?
    ensures |r| < |s| ==> DigitValue(s[|r|], radix).None?
  {
    if s != [] && DigitValue(s[0], radix).Some? then [s[0]] + DigitPrefix(s[1..], radix) else []
  }

  /** The base `parseInt` reads in: 16 after a `0x` prefix, 10 otherwise. */
  function Radix(hex: bool): nat {
    if hex then 16 else 10
  }

  /** The value of a run of digits of base `Radix(hex)`. */
  function DigitsValue(ds: string, hex: bool): nat
    requires forall i :: 0 <= i < |ds| ==> DigitValue(ds[i], Radix(hex)).Some?
  {
    if ds == [] then 0
    else
      var init := ds[..|ds| - 1];
      assert forall i :: 0 <= i < |init| ==> init[i] == ds[i];
      var high := DigitsValue(init, hex);
      (if hex then 16 * high else 10 * high) + DigitValue(ds[|ds| - 1], Radix(hex)).value
  }

  /** The unsigned part of `parseInt`: an optional `0x` prefix, then the
      longest run of digits; `None` when there is none. */
  function ReadDigits(u: string): Option<nat> {
    var hex := |u| >= 2 && u[0] == '0' && (u[1] == 'x' || u[1] == 'X');
    var z := DigitPrefix(if hex then u[2..] else u, Radix(hex));
    if z == [] then None else Some(DigitsValue(z, hex))
  }

  /** JavaScript's `parseInt(s)` without a radix: leading white space, an
      optional sign, then the digits `ReadDigits` takes; `None` stands for
      NaN. A negative zero is 0. */
  function ParseInt(s: string): Option<int> {
    var t := TrimStart(s);
    if t != [] && t[0] == '-' then
      match ReadDigits(t[1..])
      case None => None
      case Some(v) => Some(-(v as int))
    else
      ReadDigits(if t != [] && t[0] == '+' then t[1..] else t)
  }

  lemma {:induction false} NatToStringLeadingDigit(n: nat)
    requires n >= 1
    ensures NatToString(n)[0] != '0'
  {
    if n >= 10 {
      NatToStringLeadingDigit(n / 10);
    }
  }

  lemma {:induction false} NatToStringValue(n: nat)
    ensures DigitPrefix(NatToString(n), 10) == NatToString(n)
    ensures DigitsValue(NatToString(n), false) == n
  {
    var s := NatToString(n);
    if n >= 10 {
      NatToStringValue(n / 10);
      assert s[..|s| - 1] == NatToString(n / 10);
    }
    DigitPrefixAll(s, 10);
  }

  lemma {:induction false} DigitPrefixAll(s: string, radix: nat)
    requires forall i :: 0 <= i < |s| ==> DigitValue(s[i], radix).Some?
    ensures DigitPrefix(s, radix) == s
  {
    if s != [] {
      DigitPrefixAll(s[1..], radix);
      assert s == [s[0]] + s[1..];
    }
  }

  /** A decimal numeral without a `0x` prefix reads as its value. */
  lemma ReadDecimal(d: string, m: nat)
    requires !(|d| >= 2 && d[0] == '0' && (d[1] == 'x' || d[1] == 'X'))
    requires d != [] && DigitPrefix(d, 10) == d && DigitsValue(d, false) == m
    ensures ReadDigits(d) == Some(m)
  {
  }

  /** After the sign, the digits of `m` are read in decimal and give `m`. */
  lemma DigitsReadBack(m: nat)
    ensures ReadDigits(NatToString(m)) == Some(m)
  {
    var d := NatToString(m);
    NatToStringValue(m);
    if m >= 1 {
      NatToStringLeadingDigit(m);
    }
    ReadDecimal(d, m);
  }

  /** Nothing is trimmed from a string that starts with a non-space. */
  lemma TrimStartNoSpace(s: string)
    requires s != [] && !IsJsSpace(s[0])
    ensures TrimStart(s) == s
  {
  }

  /** Without white space or a sign in front, `parseInt` reads what
      `ReadDigits` takes. */
  lemma ParseUnsigned(d: string)
    requires d != [] && '0' <= d[0] <= '9'
    ensures ParseInt(d) == ReadDigits(d)
  {
    TrimStartNoSpace(d);
  }

  /** A leading minus sign negates what `ReadDigits` takes after it. */
  lemma ParseMinus(d: string)
    ensures ParseInt("-" + d) == match ReadDigits(d) case None => None case Some(v) => Some(-(v as int))
  {
    var s := "-" + d;
    assert s[0] == '-' && s[1..] == d;
    TrimStartNoSpace(s);
  }

  /** `parseInt` reads back every integer printed in decimal. */
  lemma ParseIntRoundTrip(n: int)
    ensures ParseInt(IntToString(n)) == Some(n)
  {
    var m: nat := if n < 0 then -n else n;
    DigitsReadBack(m);
    if n < 0 {
      ParseMinus(NatToString(m));
    } else {
      ParseUnsigned(NatToString(m));
    }
  }
}

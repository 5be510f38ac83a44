/** The few pieces of Python 3's `str` that the diff parser relies on:
    the whitespace table behind `str.strip()` and the regex class `\s`,
    `startswith`, `find`, `split` on a literal separator (and its inverse
    `join`), and the decimal rendering of a non-negative `int`. */
module Strings {

  datatype Option<T> = None | Some(value: T)

  /** Python's `str.isspace()` table; `str.strip()` with no argument and the
      regex class `\s` of a `str` pattern use the same set. */
  predicate IsSpace(c: char) {
    var n := c as int;
    n == 0x20 || 0x09 <= n <= 0x0D || 0x1C <= n <= 0x1F || n == 0x85 || n == 0xA0
    || n == 0x1680 || 0x2000 <= n <= 0x200A || n == 0x2028 || n == 0x2029
    || n == 0x202F || n == 0x205F || n == 0x3000
  }

  predicate AllSpace(s: string) {
    forall i :: 0 <= i < |s| ==> IsSpace(s[i])
  }

  /** `s.startswith(prefix)` */
  predicate StartsWith(s: string, prefix: string) {
    |prefix| <= |s| && s[..|prefix|] == prefix
  }

  /** `pat` occurs in `s` starting at index `i` */
  predicate OccursAt(s: string, pat: string, i: int) {
    0 <= i && i + |pat| <= |s| && s[i..i + |pat|] == pat
  }

  /** `i` is the leftmost occurrence of `pat` in `s` */
  ghost predicate LeftmostOccurrence(s: string, pat: string, i: int) {
    OccursAt(s, pat, i) && forall j :: 0 <= j < i ==> !OccursAt(s, pat, j)
  }

  /** `s.find(pat, start)`, with `None` for Python's -1 */
  function IndexOf(s: string, pat: string, start: nat): (r: Option<nat>)
    requires start <= |s|
    ensures r.Some? ==> start <= r.value && OccursAt(s, pat, r.value)
    ensures r.Some? ==> forall j :: start <= j < r.value ==> !OccursAt(s, pat, j)
    ensures r.None? ==> forall j :: start <= j ==> !OccursAt(s, pat, j)
    decreases |s| - start
  {
    if OccursAt(s, pat, start) then Some(start)
    else if start == |s| then None
    else IndexOf(s, pat, start + 1)
  }

  /** Index of the first line break at or after `i`, or `|s|` if there is none:
      where the regex `.*` started at `i` stops. */
  function LineEnd(s: string, i: nat): (e: nat)
    requires i <= |s|
    ensures i <= e <= |s| && '\n' !in s[i..e]
    ensures e == |s| || s[e] == '\n'
    decreases |s| - i
  {
    if i == |s| || s[i] == '\n' then i
    else
      var e := LineEnd(s, i + 1);
      assert s[i..e] == [s[i]] + s[i + 1..e];
      e
  }

  /** Index just past the run of whitespace that starts at `i`. */
  function SpaceRunEnd(s: string, i: nat): (e: nat)
    requires i <= |s|
    ensures i <= e <= |s| && AllSpace(s[i..e])
    ensures e == |s| || !IsSpace(s[e])
    decreases |s| - i
  {
    if i == |s| || !IsSpace(s[i]) then i else SpaceRunEnd(s, i + 1)
  }

  /** Index where the run of whitespace that ends just before `e` starts. */
  function SpaceRunStart(s: string, e: nat): (b: nat)
    requires e <= |s|
    ensures b <= e && AllSpace(s[b..e])
    ensures b == 0 || !IsSpace(s[b - 1])
  {
    if e == 0 || !IsSpace(s[e - 1]) then e
    else
      var b := SpaceRunStart(s, e - 1);
      assert forall k :: b <= k < e - 1 ==> s[b..e - 1][k - b] == s[k];
      b
  }

  /** Number of whitespace characters at the end of `s`. */
  function TrailingSpaceCount(s: string): (n: nat)
    ensures n <= |s| && AllSpace(s[|s| - n..])
    ensures n == |s| || !IsSpace(s[|s| - n - 1])
  {
    |s| - SpaceRunStart(s, |s|)
  }

  /** `s.strip()`: the longest slice of `s` that neither starts nor ends with
      whitespace, once the whitespace on either side is removed. */
  function Strip(s: string): (r: string)
    ensures r == [] <==> AllSpace(s)
    ensures r != [] ==> !IsSpace(r[0]) && !IsSpace(r[|r| - 1])
  {
    var lead := SpaceRunEnd(s, 0);
    if lead == |s| then
      assert s[0..lead] == s;
      []
    else
      var trail := TrailingSpaceCount(s);
      assert forall k :: |s| - trail <= k < |s| ==> s[|s| - trail..][k - (|s| - trail)] == s[k];
      s[lead..|s| - trail]
  }

  /** What Strip removes is whitespace on either side of what it keeps. */
  lemma StripIsSlice(s: string) returns (i: nat)
    ensures i + |Strip(s)| <= |s| && s[i..i + |Strip(s)|] == Strip(s)
    ensures AllSpace(s[..i]) && AllSpace(s[i + |Strip(s)|..])
  {
    i := SpaceRunEnd(s, 0);
    assert s[..i] == s[0..i];
    if i == |s| {
      assert s[i..] == [];
    }
  }

  /** The run of whitespace starting at `i` ends at the first non-space. */
  lemma SpaceRunEndUnique(s: string, i: nat, e: nat)
    requires i <= e <= |s| && AllSpace(s[i..e])
    requires e == |s| || !IsSpace(s[e])
    ensures SpaceRunEnd(s, i) == e
  {
    var f := SpaceRunEnd(s, i);
    assert forall k :: i <= k < e ==> s[i..e][k - i] == s[k];
    assert forall k :: i <= k < f ==> s[i..f][k - i] == s[k];
  }

  /** A line ends at its first line break. */
  lemma LineEndUnique(s: string, i: nat, e: nat)
    requires i <= e <= |s| && '\n' !in s[i..e]
    requires e == |s| || s[e] == '\n'
    ensures LineEnd(s, i) == e
  {
    var f := LineEnd(s, i);
    assert forall k :: i <= k < e ==> s[i..e][k - i] == s[k];
    assert forall k :: i <= k < f ==> s[i..f][k - i] == s[k];
  }

  /** The trailing whitespace ends at the last non-space. */
  lemma TrailingSpaceCountUnique(s: string, n: nat)
    requires n <= |s| && AllSpace(s[|s| - n..])
    requires n == |s| || !IsSpace(s[|s| - n - 1])
    ensures TrailingSpaceCount(s) == n
  {
    var t := TrailingSpaceCount(s);
    assert forall k :: |s| - n <= k < |s| ==> s[|s| - n..][k - (|s| - n)] == s[k];
    assert forall k :: |s| - t <= k < |s| ==> s[|s| - t..][k - (|s| - t)] == s[k];
  }

  /** Strip is determined by its contract: whatever whitespace surrounds a
      slice that neither starts nor ends with whitespace, Strip recovers it. */
  lemma StripUnique(a: string, m: string, b: string)
    requires AllSpace(a) && AllSpace(b)
    requires m != [] ==> !IsSpace(m[0]) && !IsSpace(m[|m| - 1])
    ensures Strip(a + m + b) == m
  {
    var s := a + m + b;
    if m == [] {
      forall k | 0 <= k < |s| ensures IsSpace(s[k]) {
        if k < |a| { assert s[k] == a[k]; } else { assert s[k] == b[k - |a|]; }
      }
    } else {
      assert s[0..|a|] == a && s[|a|] == m[0];
      SpaceRunEndUnique(s, 0, |a|);
      assert s[|s| - |b|..] == b && s[|s| - |b| - 1] == m[|m| - 1];
      TrailingSpaceCountUnique(s, |b|);
      assert s[|a|..|s| - |b|] == m;
    }
  }

  /** `sep.join(parts)` */
  function Join(parts: seq<string>, sep: string): string
    requires parts != []
  {
    if |parts| == 1 then parts[0] else parts[0] + sep + Join(parts[1..], sep)
  }

  /** `s.split(sep)` for a non-empty literal separator (equally `re.split`
      on a pattern without metacharacters): cut at each leftmost
      non-overlapping occurrence, dropping the separators. */
  function Split(s: string, sep: string): (parts: seq<string>)
    requires sep != []
    ensures parts != []
    ensures Join(parts, sep) == s
    ensures forall i, j :: 0 <= i < |parts| ==> !OccursAt(parts[i], sep, j)
    decreases |s|
  {
    match IndexOf(s, sep, 0)
    case None => [s]
    case Some(i) =>
      var rest := Split(s[i + |sep|..], sep);
      var parts := [s[..i]] + rest;
      assert parts[1..] == rest;
      assert s == s[..i] + sep + s[i + |sep|..];
      forall j | OccursAt(s[..i], sep, j) ensures false {
        assert s[..i][j..j + |sep|] == s[j..j + |sep|];
        assert OccursAt(s, sep, j);
      }
      parts
  }

  /** The separator placed after a part that does not contain it is the
      leftmost occurrence, provided its first character does not recur in it. */
  lemma IndexOfAfterPart(p: string, sep: string, t: string)
    requires sep != [] && sep[0] !in sep[1..]
    requires forall j :: !OccursAt(p, sep, j)
    ensures IndexOf(p + sep + t, sep, 0) == Some(|p|)
  {
    var s := p + sep + t;
    assert s[|p|..|p| + |sep|] == sep;
    forall j | 0 <= j < |p| ensures !OccursAt(s, sep, j) {
      if j + |sep| <= |p| {
        assert p[j..j + |sep|] == s[j..j + |sep|];
        assert !OccursAt(p, sep, j);
      }
    }
    assert OccursAt(s, sep, |p|);
    var r := IndexOf(s, sep, 0);
    assert r.Some? && r.value <= |p|;
  }

  /** A part free of the separator, then the separator: Split cuts there. */
  lemma SplitAfterPart(p: string, sep: string, t: string)
    requires sep != [] && sep[0] !in sep[1..]
    requires forall j :: !OccursAt(p, sep, j)
    ensures Split(p + sep + t, sep) == [p] + Split(t, sep)
  {
    var s := p + sep + t;
    IndexOfAfterPart(p, sep, t);
    assert s[..|p|] == p;
    assert s[|p| + |sep|..] == t;
  }

  /** Split undoes Join when no part contains the separator and the
      separator's first character does not recur in it (true of a single
      character such as a line break, and of "\ndiff --git"). */
  lemma {:induction false} SplitJoin(parts: seq<string>, sep: string)
    requires parts != [] && sep != [] && sep[0] !in sep[1..]
    requires forall i, j :: 0 <= i < |parts| ==> !OccursAt(parts[i], sep, j)
    ensures Split(Join(parts, sep), sep) == parts
    decreases |parts|
  {
    if |parts| == 1 {
      forall j ensures !OccursAt(Join(parts, sep), sep, j) {
        assert !OccursAt(parts[0], sep, j);
      }
    } else {
      SplitJoin(parts[1..], sep);
      forall j ensures !OccursAt(parts[0], sep, j) {
        assert !OccursAt(parts[0], sep, j);
      }
      SplitAfterPart(parts[0], sep, Join(parts[1..], sep));
      assert parts == [parts[0]] + parts[1..];
    }
  }

  /** Equal texts after a common prefix are equal. */
  lemma PrefixCancel(p: string, x: string, y: string)
    requires p + x == p + y
    ensures x == y
  {
    assert x == (p + x)[|p|..];
    assert y == (p + y)[|p|..];
  }

  predicate IsDigit(c: char) {
    '0' <= c <= '9'
  }

  predicate AllDigits(s: string) {
    forall i :: 0 <= i < |s| ==> IsDigit(s[i])
  }

  /** The value of a string of decimal digits: `int(s)`, with `int("") == 0`. */
  function DigitsValue(s: string): nat
    requires AllDigits(s)
  {
    if s == [] then 0 else DigitsValue(s[..|s| - 1]) * 10 + (s[|s| - 1] as int - '0' as int)
  }

  /** `str(n)` / `f"{n}"` for a non-negative integer */
  function NatToString(n: nat): (r: string)
    ensures r != [] && AllDigits(r)
    ensures r[0] == '0' ==> r == "0"
  {
    if n < 10 then [('0' as int + n) as char]
    else NatToString(n / 10) + [('0' as int + n % 10) as char]
  }

  /** The decimal rendering reads back to the number it renders. */
  lemma {:induction false} NatToStringRoundTrip(n: nat)
    ensures DigitsValue(NatToString(n)) == n
  {
    var r := NatToString(n);
    if n >= 10 {
      NatToStringRoundTrip(n / 10);
      assert r[..|r| - 1] == NatToString(n / 10);
    } else {
      assert r[..0] == [];
    }
  }

  /** A rendered number followed by text that does not start with a digit can
      be split back unambiguously into the number and the text. */
  lemma NatToStringPrefixUnique(a: nat, b: nat, x: string, y: string)
    requires NatToString(a) + x == NatToString(b) + y
    requires x == [] || !IsDigit(x[0])
    requires y == [] || !IsDigit(y[0])
    ensures a == b && x == y
  {
    var ra, rb := NatToString(a), NatToString(b);
    var s := ra + x;
    assert forall k :: 0 <= k < |ra| ==> IsDigit(s[k]);
    assert forall k :: 0 <= k < |rb| ==> IsDigit(s[k]);
    assert forall k :: |ra| <= k < |s| ==> s[k] == x[k - |ra|];
    assert forall k :: |rb| <= k < |s| ==> s[k] == y[k - |rb|];
    assert |ra| < |s| ==> !IsDigit(s[|ra|]);
    assert |rb| < |s| ==> !IsDigit(s[|rb|]);
    assert |ra| == |rb|;
    assert ra == s[..|ra|] == rb;
    assert x == s[|ra|..] == y;
    NatToStringRoundTrip(a);
    NatToStringRoundTrip(b);
  }
}

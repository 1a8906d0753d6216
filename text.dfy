/**
 * The few Python `str` operations the tutor relies on, stated over
 * `seq<char>`: `str.strip()` with no argument, `str.startswith`, the
 * substring test `in`, and `str.split(sep)` with an explicit separator.
 */
module Text {

  datatype Option<T> = None | Some(value: T)

  /** The ASCII characters Python treats as whitespace: space, tab, the line breaks and the separators. */
  const AsciiSpace: string := [' ', '\t', '\n', '\r', 0x0B as char, 0x0C as char,
                               0x1C as char, 0x1D as char, 0x1E as char, 0x1F as char]

  /** Python's `str.isspace` for one code point: the characters `strip()` removes. */
  predicate IsSpace(c: char) {
    var n := c as int;
    (0x09 <= n <= 0x0D) || (0x1C <= n <= 0x20) || n == 0x85 || n == 0xA0 ||
    n == 0x1680 || (0x2000 <= n <= 0x200A) || n == 0x2028 || n == 0x2029 ||
    n == 0x202F || n == 0x205F || n == 0x3000
  }

  /** Below 0x80 the whitespace set is exactly the ten ASCII whitespace characters. */
  lemma AsciiWhitespace(c: char)
    requires c as int < 0x80
    ensures IsSpace(c) <==> c in AsciiSpace
  {
  }

  /** Every character of `s` is whitespace (true of the empty string). */
  predicate AllSpace(s: string) {
    forall k :: 0 <= k < |s| ==> IsSpace(s[k])
  }

  /** Number of whitespace characters at the front of `s`. */
  function LeadingSpaces(s: string): (n: nat)
    ensures n <= |s|
    ensures forall k :: 0 <= k < n ==> IsSpace(s[k])
    ensures n < |s| ==> !IsSpace(s[n])
  {
    if |s| > 0 && IsSpace(s[0]) then 1 + LeadingSpaces(s[1..]) else 0
  }

  /** Number of whitespace characters at the back of `s`. */
  function TrailingSpaces(s: string): (n: nat)
    ensures n <= |s|
    ensures forall k :: |s| - n <= k < |s| ==> IsSpace(s[k])
    ensures n < |s| ==> !IsSpace(s[|s| - 1 - n])
  {
    if |s| > 0 && IsSpace(s[|s| - 1]) then 1 + TrailingSpaces(s[..|s| - 1]) else 0
  }

  /** Python `s.strip()`: drop whitespace from both ends. */
  function Strip(s: string): (r: string)
    ensures LeadingSpaces(s) + |r| <= |s|
    ensures r == s[LeadingSpaces(s)..LeadingSpaces(s) + |r|]
    ensures forall k :: LeadingSpaces(s) + |r| <= k < |s| ==> IsSpace(s[k])
    ensures r != [] ==> !IsSpace(r[0]) && !IsSpace(r[|r| - 1])
    ensures r == [] <==> AllSpace(s)
  {
    var i := LeadingSpaces(s);
    var t := s[i..];
    var r := t[..|t| - TrailingSpaces(t)];
    assert forall k :: i + |r| <= k < |s| ==> IsSpace(s[k]) by {
      forall k | i + |r| <= k < |s| ensures IsSpace(s[k]) {
        assert s[k] == t[k - i];
      }
    }
    assert r != [] ==> r[0] == s[i];
    r
  }

  /** Python `s.startswith(prefix)`. */
  predicate StartsWith(s: string, prefix: string)
    ensures StartsWith(s, prefix) <==>
              |prefix| <= |s| && forall k :: 0 <= k < |prefix| ==> s[k] == prefix[k]
  {
    |prefix| <= |s| && s[..|prefix|] == prefix
  }

  /** `pat` occurs in `s` starting at index `i`. */
  predicate IsAt(s: string, pat: string, i: nat) {
    i + |pat| <= |s| && s[i..i + |pat|] == pat
  }

  /** Python `s.find(pat, start)`: the first occurrence of `pat` at or after `start`. */
  function Find(s: string, pat: string, start: nat): (r: Option<nat>)
    decreases |s| - start
    ensures r.Some? ==> start <= r.value && IsAt(s, pat, r.value)
    ensures r.Some? ==> forall k :: start <= k < r.value ==> !IsAt(s, pat, k)
    ensures r.None? ==> forall k :: start <= k ==> !IsAt(s, pat, k)
  {
    if start + |pat| > |s| then None
    else if IsAt(s, pat, start) then Some(start)
    else Find(s, pat, start + 1)
  }

  /** Python `pat in s`. */
  function Contains(s: string, pat: string): (b: bool)
    ensures b <==> exists i: nat :: IsAt(s, pat, i)
  {
    Find(s, pat, 0).Some?
  }

  /** Where the piece of a split that starts at `from` ends: the next separator, or the end of `s`. */
  function PieceEnd(s: string, sep: string, from: nat): (j: nat)
    requires from <= |s|
    ensures from <= j <= |s|
  {
    match Find(s, sep, from)
    case None => |s|
    case Some(j) => j
  }

  /**
   * Python `s.split(sep)` for a non-empty separator: the pieces between
   * successive non-overlapping occurrences of `sep`, scanned left to right.
   */
  function Split(s: string, sep: string): (parts: seq<string>)
    requires |sep| > 0
    ensures |parts| >= 1
    ensures parts[0] == s[..PieceEnd(s, sep, 0)]
    ensures |parts| >= 2 <==> Contains(s, sep)
  {
    assert s[0..] == s;
    SplitFrom(s, sep, 0)
  }

  /** The pieces of `s[from..]`: the scan of `split` resumed at index `from`. */
  function SplitFrom(s: string, sep: string, from: nat): (parts: seq<string>)
    requires |sep| > 0 && from <= |s|
    decreases |s| - from
    ensures |parts| >= 1
  {
    match Find(s, sep, from)
    case None => [s[from..]]
    case Some(j) => [s[from..j]] + SplitFrom(s, sep, j + |sep|)
  }

  /** Python `sep.join(parts)`: the pieces with `sep` between each pair. */
  function Join(parts: seq<string>, sep: string): string
    requires |parts| >= 1
  {
    if |parts| == 1 then parts[0] else parts[0] + sep + Join(parts[1..], sep)
  }

  // ---------------------------------------------------------------------
  // Facts about occurrences

  /** An occurrence inside a slice is an occurrence in the whole string that fits the slice. */
  lemma IsAtSlice(s: string, pat: string, lo: nat, hi: nat, k: nat)
    requires lo <= hi <= |s|
    ensures IsAt(s[lo..hi], pat, k) <==> lo + k + |pat| <= hi && IsAt(s, pat, lo + k)
  {
    if lo + k + |pat| <= hi {
      var u := s[lo..hi][k..k + |pat|];
      var v := s[lo + k..lo + k + |pat|];
      forall q | 0 <= q < |u| ensures u[q] == v[q] {
      }
      assert u == v;
    }
  }

  /** A string that does not contain `pat` has no slice containing it. */
  lemma NotContainsSlice(s: string, pat: string, lo: nat, hi: nat)
    requires lo <= hi <= |s|
    requires !Contains(s, pat)
    ensures !Contains(s[lo..hi], pat)
  {
    forall k: nat ensures !IsAt(s[lo..hi], pat, k) {
      IsAtSlice(s, pat, lo, hi, k);
    }
  }

  /**
   * The second piece of a split runs from the end of the first separator
   * to the start of the second separator, or to the end of the string when
   * there is no second one.
   */
  lemma SplitSecond(s: string, sep: string, i: nat)
    requires |sep| > 0
    requires Find(s, sep, 0) == Some(i)
    ensures |Split(s, sep)| >= 2
    ensures Split(s, sep)[1] == s[i + |sep|..PieceEnd(s, sep, i + |sep|)]
  {
    assert Split(s, sep) == [s[..i]] + SplitFrom(s, sep, i + |sep|);
  }

  /**
   * Stripping keeps every occurrence of a pattern that begins and ends
   * with a non-whitespace character.
   */
  lemma StripKeepsOccurrence(s: string, pat: string, p: nat)
    requires |pat| > 0 && !IsSpace(pat[0]) && !IsSpace(pat[|pat| - 1])
    requires IsAt(s, pat, p)
    ensures Contains(Strip(s), pat)
  {
    var i := LeadingSpaces(s);
    var r := Strip(s);
    assert s[p] == pat[0];
    assert s[p + |pat| - 1] == pat[|pat| - 1];
    assert i <= p;
    assert p + |pat| <= i + |r|;
    assert r == s[i..i + |r|];
    forall q | 0 <= q < |pat| ensures r[p - i + q] == pat[q] {
      assert r[p - i + q] == s[p + q];
      assert s[p..p + |pat|][q] == s[p + q];
    }
    assert r[p - i..p - i + |pat|] == pat;
    assert IsAt(r, pat, p - i);
  }

  /** A piece of a split never contains the separator. */
  lemma PieceHasNoSeparator(s: string, sep: string, m: nat)
    requires |sep| > 0
    requires m <= |s|
    ensures !Contains(s[m..PieceEnd(s, sep, m)], sep)
  {
    var j := PieceEnd(s, sep, m);
    forall k: nat ensures !IsAt(s[m..j], sep, k) {
      IsAtSlice(s, sep, m, j, k);
    }
  }

  /** Stripping never introduces a pattern that was absent. */
  lemma StripNotContains(s: string, pat: string)
    requires !Contains(s, pat)
    ensures !Contains(Strip(s), pat)
  {
    var i := LeadingSpaces(s);
    NotContainsSlice(s, pat, i, i + |Strip(s)|);
  }

  /** A pattern with a character that `s` lacks does not occur in `s`. */
  lemma AbsentCharNotContains(s: string, pat: string, q: nat)
    requires q < |pat| && pat[q] !in s
    ensures !Contains(s, pat)
  {
    forall k: nat ensures !IsAt(s, pat, k) {
      if k + |pat| <= |s| {
        assert s[k..k + |pat|][q] == s[k + q];
        assert s[k + q] in s;
      }
    }
  }

  /** A later occurrence survives in the stripped suffix that holds it. */
  lemma StripSuffixKeepsOccurrence(s: string, pat: string, m: nat)
    requires |pat| > 0 && !IsSpace(pat[0]) && !IsSpace(pat[|pat| - 1])
    requires m <= |s| && Find(s, pat, m).Some?
    ensures Contains(Strip(s[m..]), pat)
  {
    var j := Find(s, pat, m).value;
    IsAtSlice(s, pat, m, |s|, j - m);
    assert s[m..|s|] == s[m..];
    StripKeepsOccurrence(s[m..], pat, j - m);
  }

  /** When the suffix from `m` lacks `pat`, the search from `m` finds nothing. */
  lemma FindNoneInSuffix(s: string, pat: string, m: nat)
    requires m <= |s| && !Contains(s[m..], pat)
    ensures Find(s, pat, m).None?
  {
    forall k: nat | m <= k ensures !IsAt(s, pat, k) {
      IsAtSlice(s, pat, m, |s|, k - m);
      assert s[m..|s|] == s[m..];
    }
  }

  /** Joining the pieces of `s[from..]` with the separator gives back `s[from..]`. */
  lemma {:induction false} SplitFromJoin(s: string, sep: string, from: nat)
    requires |sep| > 0 && from <= |s|
    decreases |s| - from
    ensures Join(SplitFrom(s, sep, from), sep) == s[from..]
  {
    match Find(s, sep, from)
    case None =>
    case Some(j) =>
      var rest := SplitFrom(s, sep, j + |sep|);
      SplitFromJoin(s, sep, j + |sep|);
      assert SplitFrom(s, sep, from) == [s[from..j]] + rest;
      assert ([s[from..j]] + rest)[1..] == rest;
      assert s[j..j + |sep|] == sep;
      assert s[from..] == s[from..j] + s[j..j + |sep|] + s[j + |sep|..];
  }

  /** `sep.join(s.split(sep)) == s`: splitting loses nothing but the separators. */
  lemma SplitJoin(s: string, sep: string)
    requires |sep| > 0
    ensures Join(Split(s, sep), sep) == s
  {
    SplitFromJoin(s, sep, 0);
    assert s[0..] == s;
  }

  /** No piece of `s[from..]`'s split contains the separator. */
  lemma {:induction false} SplitFromPiecesLackSeparator(s: string, sep: string, from: nat)
    requires |sep| > 0 && from <= |s|
    decreases |s| - from
    ensures forall p :: p in SplitFrom(s, sep, from) ==> !Contains(p, sep)
  {
    PieceHasNoSeparator(s, sep, from);
    match Find(s, sep, from)
    case None =>
      assert s[from..PieceEnd(s, sep, from)] == s[from..];
    case Some(j) =>
      SplitFromPiecesLackSeparator(s, sep, j + |sep|);
  }

  /** No piece of `s.split(sep)` contains `sep`. */
  lemma SplitPiecesLackSeparator(s: string, sep: string)
    requires |sep| > 0
    ensures forall p :: p in Split(s, sep) ==> !Contains(p, sep)
  {
    SplitFromPiecesLackSeparator(s, sep, 0);
  }
}

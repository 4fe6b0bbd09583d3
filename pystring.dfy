/**
 * The parts of Python's `str` behaviour the site generator relies on:
 * `str.strip()` with no argument, the slice `s[:n]`, `sep.join(parts)`
 * and the notion of a substring occurrence.
 * Strings are sequences of Unicode code points, as Python's are.
 */
module PyString {

  /** The characters for which Python's `str.isspace()` is true; `str.strip()` removes exactly these. */
  predicate IsSpace(c: char) {
    || c == ' ' || c == '\t' || c == '\n' || c == '\r' || c == '\U{0B}' || c == '\U{0C}'
    || ('\U{1C}' <= c && c <= '\U{1F}')
    || c == '\U{85}' || c == '\U{A0}' || c == '\U{1680}'
    || ('\U{2000}' <= c && c <= '\U{200A}')
    || c == '\U{2028}' || c == '\U{2029}' || c == '\U{202F}' || c == '\U{205F}' || c == '\U{3000}'
  }

  /** Every character of `s` is whitespace (this includes the empty string). */
  predicate AllSpace(s: string) {
    forall k :: 0 <= k < |s| ==> IsSpace(s[k])
  }

  /** The number of whitespace characters `s` starts with: `s.lstrip()` is `s[LeadingSpace(s):]`. */
  function LeadingSpace(s: string): (n: nat)
    ensures n <= |s| && (n == |s| || !IsSpace(s[n]))
    ensures forall k :: 0 <= k < n ==> IsSpace(s[k])
  {
    if s != [] && IsSpace(s[0]) then
      var m := LeadingSpace(s[1..]);
      assert forall k :: 1 <= k < m + 1 ==> s[k] == s[1..][k - 1];
      m + 1
    else 0
  }

  /** The number of whitespace characters `s` ends with: `s.rstrip()` is `s[:len(s) - TrailingSpace(s)]`. */
  function TrailingSpace(s: string): (n: nat)
    ensures n <= |s| && (n == |s| || !IsSpace(s[|s| - n - 1]))
    ensures forall k :: |s| - n <= k < |s| ==> IsSpace(s[k])
  {
    if s != [] && IsSpace(s[|s| - 1]) then
      var m := TrailingSpace(s[..|s| - 1]);
      assert forall k :: |s| - 1 - m <= k < |s| - 1 ==> s[k] == s[..|s| - 1][k];
      m + 1
    else 0
  }

  /**
   * `s.strip()`: `s` without leading and trailing whitespace. When `s` is not
   * whitespace only, its leading and trailing whitespace do not overlap, so
   * both can be counted on `s` itself. The result starts where the leading
   * whitespace ends, everything before and after it in `s` is whitespace, it
   * neither starts nor ends with whitespace, and it is empty exactly when `s`
   * is whitespace only.
   */
  function Strip(s: string): (r: string)
    ensures r == [] <==> AllSpace(s)
    ensures r != [] ==> !IsSpace(r[0]) && !IsSpace(r[|r| - 1])
    ensures var i := LeadingSpace(s);
      OccursAt(s, r, i) && AllSpace(s[..i]) && AllSpace(s[i + |r|..])
    ensures Contains(s, r)
  {
    var i := LeadingSpace(s);
    var j := if i == |s| then |s| else |s| - TrailingSpace(s);
    PieceBetweenSpaces(s, i, j);
    s[i..j]
  }

  /**
   * When `s[..i]` and `s[j..]` consist of whitespace and `s[i..j]` is not
   * empty unless all of `s` is whitespace and otherwise neither starts nor
   * ends with it, then `s[i..j]` has the properties of `s.strip()`.
   */
  lemma PieceBetweenSpaces(s: string, i: nat, j: nat)
    requires i <= j <= |s|
    requires forall k :: 0 <= k < i ==> IsSpace(s[k])
    requires forall k :: j <= k < |s| ==> IsSpace(s[k])
    requires i < j ==> !IsSpace(s[i]) && !IsSpace(s[j - 1])
    requires i == j ==> i == |s|
    ensures var r := s[i..j];
      OccursAt(s, r, i) && AllSpace(s[..i]) && AllSpace(s[i + |r|..]) &&
      (r == [] <==> AllSpace(s)) && (r != [] ==> !IsSpace(r[0]) && !IsSpace(r[|r| - 1])) &&
      Contains(s, r)
  {
    SpacePrefix(s, i);
    SpaceSuffix(s, j);
    if i < j {
      assert s[i..j][0] == s[i];
    }
    assert 0 <= i <= |s| && OccursAt(s, s[i..j], i);
  }

  /** A prefix made of whitespace characters is whitespace only. */
  lemma SpacePrefix(s: string, n: nat)
    requires n <= |s| && forall k :: 0 <= k < n ==> IsSpace(s[k])
    ensures AllSpace(s[..n])
  {
    forall k | 0 <= k < n ensures IsSpace(s[..n][k]) {
      assert s[..n][k] == s[k];
    }
  }

  /** A suffix made of whitespace characters is whitespace only. */
  lemma SpaceSuffix(s: string, n: nat)
    requires n <= |s| && forall k :: n <= k < |s| ==> IsSpace(s[k])
    ensures AllSpace(s[n..])
  {
    forall k | 0 <= k < |s| - n ensures IsSpace(s[n..][k]) {
      assert s[n..][k] == s[n + k];
    }
  }

  /** Python's slice `s[:n]`, including its meaning for a negative `n` (drop the last `-n` characters). */
  function SliceTo(s: string, n: int): (r: string)
    ensures r <= s
    ensures 0 <= n ==> |r| == if n < |s| then n else |s|
    ensures n < 0 ==> |r| == if |s| + n > 0 then |s| + n else 0
  {
    if n >= 0 then
      if n < |s| then s[..n] else s
    else
      if |s| + n > 0 then s[..|s| + n] else []
  }

  /** `t` occurs in `s` starting at index `i`. */
  predicate OccursAt(s: string, t: string, i: int) {
    0 <= i && i + |t| <= |s| && s[i..i + |t|] == t
  }

  /** `t in s` for strings: `t` occurs somewhere in `s` (the empty string occurs in every string). */
  predicate Contains(s: string, t: string) {
    exists i :: 0 <= i <= |s| && OccursAt(s, t, i)
  }

  /** Python's `sep.join(parts)`. */
  function Join(parts: seq<string>, sep: string): string
  {
    if |parts| == 0 then ""
    else if |parts| == 1 then parts[0]
    else parts[0] + sep + Join(parts[1..], sep)
  }

  /** A non-empty join starts with its first part. */
  lemma JoinStartsWithFirst(parts: seq<string>, sep: string)
    requires parts != []
    ensures parts[0] <= Join(parts, sep)
  {
  }

  /**
   * Joining parts that each start with a non-whitespace character gives a
   * string that is whitespace only exactly when there are no parts at all.
   */
  lemma JoinAllSpaceIffEmpty(parts: seq<string>, sep: string)
    requires forall k :: 0 <= k < |parts| ==> parts[k] != [] && !IsSpace(parts[k][0])
    ensures AllSpace(Join(parts, sep)) <==> parts == []
  {
    if parts != [] {
      JoinStartsWithFirst(parts, sep);
      var j := Join(parts, sep);
      assert j[0] == parts[0][0];
    }
  }
}

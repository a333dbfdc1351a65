/** Python `str` operations the scripts rely on: substring search, `find`,
    `lower`, `strip`, `split`, `splitlines` and `join`. Strings are
    sequences of Unicode scalar values, as Python strings are. */
module Strings {

  /** `p` occurs in `s` starting at index `i`. */
  predicate OccursAt(s: string, p: string, i: nat) {
    i + |p| <= |s| && s[i..i + |p|] == p
  }

  /** Python's `p in s`: `p` is a substring of `s`. The empty string is a
      substring of every string. */
  predicate Contains(s: string, p: string) {
    exists i :: 0 <= i <= |s| - |p| && OccursAt(s, p, i)
  }

  /** Searches `s` for `p` from index `k` on, knowing there is no earlier occurrence. */
  function FindFrom(s: string, p: string, k: nat): (r: int)
    requires k <= |s|
    requires forall j :: 0 <= j < k ==> !OccursAt(s, p, j)
    ensures r == -1 || (k <= r && OccursAt(s, p, r))
    ensures r == -1 ==> forall j :: 0 <= j ==> !OccursAt(s, p, j)
    ensures r >= 0 ==> forall j :: 0 <= j < r ==> !OccursAt(s, p, j)
    decreases |s| - k
  {
    if k + |p| > |s| then -1
    else if s[k..k + |p|] == p then k
    else FindFrom(s, p, k + 1)
  }

  /** Python's `s.find(p)`: the index of the first occurrence of `p`, or -1. */
  function Find(s: string, p: string): (r: int)
    ensures r == -1 || 0 <= r <= |s| - |p|
    ensures r == -1 <==> !Contains(s, p)
    ensures r >= 0 ==> OccursAt(s, p, r)
    ensures r >= 0 ==> forall j :: 0 <= j < r ==> !OccursAt(s, p, j)
  {
    FindFrom(s, p, 0)
  }

  /** An occurrence inside a slice is an occurrence in the whole string. */
  lemma OccursInSlice(s: string, a: nat, b: nat, p: string, j: nat)
    requires a <= b <= |s|
    requires OccursAt(s[a..b], p, j)
    ensures OccursAt(s, p, a + j)
  {
    var t := s[a..b];
    assert forall k :: 0 <= k < |p| ==> p[k] == t[j + k] == s[a + j + k];
    assert s[a + j..a + j + |p|] == p;
  }

  /** A substring of a slice of `s` is a substring of `s`. */
  lemma ContainsSlice(s: string, a: nat, b: nat, p: string)
    requires a <= b <= |s|
    requires Contains(s[a..b], p)
    ensures Contains(s, p)
  {
    var j :| 0 <= j <= |s[a..b]| - |p| && OccursAt(s[a..b], p, j);
    OccursInSlice(s, a, b, p, j);
  }

  /** "Is a substring of" is transitive. */
  lemma ContainsTransitive(s: string, t: string, p: string)
    requires Contains(s, t) && Contains(t, p)
    ensures Contains(s, p)
  {
    var i :| 0 <= i <= |s| - |t| && OccursAt(s, t, i);
    assert s[i..i + |t|] == t;
    ContainsSlice(s, i, i + |t|, p);
  }

  /** A string holding a character that `s` lacks is not a substring of `s`. */
  lemma MissingCharNotContained(s: string, p: string, c: char)
    requires c in p && c !in s
    ensures !Contains(s, p)
  {
    var k :| 0 <= k < |p| && p[k] == c;
    forall i | 0 <= i <= |s| - |p|
      ensures !OccursAt(s, p, i)
    {
      assert s[i..i + |p|][k] == s[i + k];
    }
  }

  /** Being a prefix is transitive. */
  lemma PrefixTransitive(a: string, b: string, c: string)
    requires a <= b && b <= c
    ensures a <= c
  {
    assert a == b[..|a|] && b == c[..|b|];
    assert c[..|b|][..|a|] == c[..|a|];
  }

  // ---------------------------------------------------------------------
  // Case

  /** Lower-cases one character (ASCII letters only). */
  function LowerChar(c: char): char {
    if 'A' <= c <= 'Z' then (c as int + 32) as char else c
  }

  /** Python's `s.lower()`, restricted to ASCII letters; the length never changes. */
  function Lower(s: string): (r: string)
    ensures |r| == |s|
    decreases |s|
  {
    if s == [] then [] else [LowerChar(s[0])] + Lower(s[1..])
  }

  /** Lower-casing works character by character. */
  lemma {:induction false} LowerAt(s: string, i: nat)
    requires i < |s|
    ensures Lower(s)[i] == LowerChar(s[i])
    decreases |s|
  {
    if i > 0 {
      LowerAt(s[1..], i - 1);
    }
  }

  /** Lower-casing distributes over concatenation. */
  lemma {:induction false} LowerAppend(a: string, b: string)
    ensures Lower(a + b) == Lower(a) + Lower(b)
    decreases |a|
  {
    if a == [] {
      assert a + b == b;
    } else {
      assert (a + b)[0] == a[0];
      assert (a + b)[1..] == a[1..] + b;
      LowerAppend(a[1..], b);
    }
  }

  /** Lower-casing twice is lower-casing once. */
  lemma {:induction false} LowerIdempotent(s: string)
    ensures Lower(Lower(s)) == Lower(s)
    decreases |s|
  {
    if s != [] {
      LowerIdempotent(s[1..]);
      assert Lower(s)[1..] == Lower(s[1..]);
    }
  }

  /** Lower-casing commutes with slicing. */
  lemma LowerSlice(s: string, a: nat, b: nat)
    requires a <= b <= |s|
    ensures Lower(s[a..b]) == Lower(s)[a..b]
  {
    forall k | 0 <= k < b - a
      ensures Lower(s[a..b])[k] == Lower(s)[a + k]
    {
      LowerAt(s[a..b], k);
      LowerAt(s, a + k);
    }
  }

  // ---------------------------------------------------------------------
  // Whitespace and line breaks

  /** Python's `str.isspace` for one character: the characters `strip()` removes. */
  predicate IsSpace(c: char) {
    c == ' ' || ('\t' <= c <= '\r') || ('\U{1C}' <= c <= '\U{1F}')
    || c == '\U{85}' || c == '\U{A0}' || c == '\U{1680}'
    || ('\U{2000}' <= c <= '\U{200A}') || c == '\U{2028}' || c == '\U{2029}'
    || c == '\U{202F}' || c == '\U{205F}' || c == '\U{3000}'
  }

  /** The characters at which Python's `str.splitlines` breaks a line. */
  predicate IsLineBreak(c: char) {
    c == '\n' || c == '\r' || c == '\U{0B}' || c == '\U{0C}'
    || ('\U{1C}' <= c <= '\U{1E}') || c == '\U{85}' || c == '\U{2028}' || c == '\U{2029}'
  }

  lemma LineBreakIsSpace(c: char)
    ensures IsLineBreak(c) ==> IsSpace(c)
  {
  }

  predicate AllSpace(s: string) {
    forall i :: 0 <= i < |s| ==> IsSpace(s[i])
  }

  predicate NoLineBreak(s: string) {
    forall i :: 0 <= i < |s| ==> !IsLineBreak(s[i])
  }

  /** The index of the first non-whitespace character at or after `i`, or
      the length when there is none. */
  function SkipSpaces(s: string, i: nat): (j: nat)
    requires i <= |s|
    ensures i <= j <= |s|
    ensures forall k :: i <= k < j ==> IsSpace(s[k])
    ensures j == |s| || !IsSpace(s[j])
    decreases |s| - i
  {
    if i < |s| && IsSpace(s[i]) then SkipSpaces(s, i + 1) else i
  }

  /** Walking back from `j` no further than `lo`: the index just past the last
      non-whitespace character, or `lo` when there is none. */
  function TextEnd(s: string, lo: nat, j: nat): (e: nat)
    requires lo <= j <= |s|
    ensures lo <= e <= j
    ensures forall k :: e <= k < j ==> IsSpace(s[k])
    ensures e == lo || !IsSpace(s[e - 1])
    decreases j
  {
    if j > lo && IsSpace(s[j - 1]) then TextEnd(s, lo, j - 1) else j
  }

  /** The number of whitespace characters `strip()` removes in front. */
  function LeadingSpaces(s: string): (n: nat)
    ensures n <= |s|
    ensures n == |s| || !IsSpace(s[n])
  {
    SkipSpaces(s, 0)
  }

  /** Python's `s.strip()`: the slice of `s` left once all leading and
      trailing whitespace is removed; it neither starts nor ends with
      whitespace. */
  function Strip(s: string): (r: string)
    ensures r == [] || (!IsSpace(r[0]) && !IsSpace(r[|r| - 1]))
    ensures LeadingSpaces(s) + |r| <= |s| && OccursAt(s, r, LeadingSpaces(s))
    ensures r == [] <==> AllSpace(s)
  {
    var a := SkipSpaces(s, 0);
    var e := TextEnd(s, a, |s|);
    assert e > a ==> s[a..e][0] == s[a] && s[a..e][e - a - 1] == s[e - 1];
    s[a..e]
  }

  /** Stripping removes whitespace only: what lies around the result is all
      whitespace. */
  lemma StripRemovesOnlySpace(s: string)
    ensures AllSpace(s[..LeadingSpaces(s)]) && AllSpace(s[LeadingSpaces(s) + |Strip(s)|..])
  {
    var a := SkipSpaces(s, 0);
    var e := TextEnd(s, a, |s|);
    assert forall k :: 0 <= k < a ==> s[..a][k] == s[k];
    assert forall k :: 0 <= k < |s| - e ==> s[e..][k] == s[e + k];
  }

  /** The stripped string is a substring of the original. */
  lemma StripIsSubstring(s: string)
    ensures Contains(s, Strip(s))
  {
    assert OccursAt(s, Strip(s), LeadingSpaces(s));
  }

  // ---------------------------------------------------------------------
  // Slicing

  /** Python's `s[start:end]` for non-negative bounds: both are clamped to
      the string, and a start past the end gives the empty string. */
  function Slice(s: string, start: nat, end: nat): (r: string)
    ensures |r| <= |s| && |r| <= end
    ensures start <= end <= |s| ==> |r| == end - start
    ensures exists a :: 0 <= a <= |s| - |r| && OccursAt(s, r, a) && (start <= |s| ==> a == start)
  {
    var lo := if start < |s| then start else |s|;
    var hi := if end < lo then lo else if end < |s| then end else |s|;
    assert OccursAt(s, s[lo..hi], lo);
    s[lo..hi]
  }

  // ---------------------------------------------------------------------
  // Joining and splitting

  /** Python's `sep.join(parts)`. */
  function Join(sep: string, parts: seq<string>): string
    decreases |parts|
  {
    if |parts| == 0 then ""
    else if |parts| == 1 then parts[0]
    else parts[0] + sep + Join(sep, parts[1..])
  }

  /** Joining a concatenation joins the two halves around one separator. */
  lemma {:induction false} JoinAppend(sep: string, a: seq<string>, b: seq<string>)
    requires a != [] && b != []
    ensures Join(sep, a + b) == Join(sep, a) + sep + Join(sep, b)
    decreases |a|
  {
    if |a| == 1 {
      assert (a + b)[0] == a[0] && (a + b)[1..] == b;
    } else {
      assert (a + b)[0] == a[0] && (a + b)[1..] == a[1..] + b;
      JoinAppend(sep, a[1..], b);
    }
  }

  /** Every character of a joined string comes from the separator or from a part. */
  lemma {:induction false} JoinChars(sep: string, parts: seq<string>, k: nat)
    requires k < |Join(sep, parts)|
    ensures (exists j :: 0 <= j < |sep| && Join(sep, parts)[k] == sep[j])
         || (exists i, j :: 0 <= i < |parts| && 0 <= j < |parts[i]| && Join(sep, parts)[k] == parts[i][j])
    decreases |parts|
  {
    var J := Join(sep, parts);
    if |parts| == 1 {
      assert J[k] == parts[0][k];
    } else {
      assert J == parts[0] + sep + Join(sep, parts[1..]);
      if k < |parts[0]| {
        assert J[k] == parts[0][k];
      } else if k < |parts[0]| + |sep| {
        assert J[k] == sep[k - |parts[0]|];
      } else {
        var k' := k - |parts[0]| - |sep|;
        assert J[k] == Join(sep, parts[1..])[k'];
        JoinChars(sep, parts[1..], k');
        if exists i, j :: 0 <= i < |parts[1..]| && 0 <= j < |parts[1..][i]| && Join(sep, parts[1..])[k'] == parts[1..][i][j] {
          var i, j :| 0 <= i < |parts[1..]| && 0 <= j < |parts[1..][i]| && Join(sep, parts[1..])[k'] == parts[1..][i][j];
          assert J[k] == parts[i + 1][j];
        }
      }
    }
  }

  /** Every part is a substring of the joined string. */
  lemma {:induction false} JoinContainsPart(sep: string, parts: seq<string>, i: nat)
    requires i < |parts|
    ensures Contains(Join(sep, parts), parts[i])
    decreases |parts|
  {
    var J := Join(sep, parts);
    if |parts| == 1 {
      assert OccursAt(J, parts[0], 0);
    } else {
      var rest := Join(sep, parts[1..]);
      assert J == parts[0] + sep + rest;
      if i == 0 {
        assert OccursAt(J, parts[0], 0);
      } else {
        JoinContainsPart(sep, parts[1..], i - 1);
        assert parts[1..][i - 1] == parts[i];
        assert J[|parts[0]| + |sep|..|J|] == rest;
        ContainsSlice(J, |parts[0]| + |sep|, |J|, parts[i]);
      }
    }
  }

  /** Joining line-free parts with a line-free separator gives a single line. */
  lemma JoinNoLineBreak(sep: string, parts: seq<string>)
    requires NoLineBreak(sep)
    requires forall i :: 0 <= i < |parts| ==> NoLineBreak(parts[i])
    ensures NoLineBreak(Join(sep, parts))
  {
    forall k | 0 <= k < |Join(sep, parts)|
      ensures !IsLineBreak(Join(sep, parts)[k])
    {
      JoinChars(sep, parts, k);
    }
  }

  /** A part that ends before the first occurrence of `p` does not contain `p`. */
  lemma PrefixBeforeFirst(s: string, p: string, i: nat)
    requires p != [] && i <= |s|
    requires forall j :: 0 <= j < i ==> !OccursAt(s, p, j)
    ensures !Contains(s[..i], p)
  {
    if Contains(s[..i], p) {
      var j :| 0 <= j <= |s[..i]| - |p| && OccursAt(s[..i], p, j);
      OccursInSlice(s, 0, i, p, j);
    }
  }

  /** Python's `s.split(sep)` for a non-empty separator: the pieces between
      the leftmost non-overlapping occurrences of `sep`. */
  function Split(s: string, sep: string): (r: seq<string>)
    requires sep != []
    ensures |r| >= 1
    ensures Join(sep, r) == s
    ensures forall i :: 0 <= i < |r| ==> !Contains(r[i], sep)
    ensures forall i :: 0 <= i < |r| ==> Contains(s, r[i])
    decreases |s|
  {
    var i := Find(s, sep);
    if i < 0 then
      assert OccursAt(s, s, 0);
      [s]
    else
      var head := s[..i];
      var rest := Split(s[i + |sep|..], sep);
      PrefixBeforeFirst(s, sep, i);
      assert s == head + sep + s[i + |sep|..];
      assert OccursAt(s, head, 0);
      forall k | 0 <= k < |rest|
        ensures Contains(s, rest[k])
      {
        ContainsSlice(s, i + |sep|, |s|, rest[k]);
      }
      [head] + rest
  }

  /** A one-character pattern occurs exactly where that character stands. */
  lemma OccursAtChar(s: string, c: char, j: nat)
    ensures OccursAt(s, [c], j) <==> j < |s| && s[j] == c
  {
    if j < |s| && s[j] == c {
      assert s[j..j + 1] == [c];
    }
  }

  /** Splitting on a character that no part contains undoes joining on it. */
  lemma {:induction false} SplitJoinChar(parts: seq<string>, c: char)
    requires |parts| >= 1
    requires forall i :: 0 <= i < |parts| ==> c !in parts[i]
    ensures Split(Join([c], parts), [c]) == parts
    decreases |parts|
  {
    var s := Join([c], parts);
    if |parts| == 1 {
      assert c in [c];
      MissingCharNotContained(parts[0], [c], c);
    } else {
      var p0 := parts[0];
      var tail := Join([c], parts[1..]);
      assert s == p0 + [c] + tail;
      OccursAtChar(s, c, |p0|);
      forall j | 0 <= j < |p0|
        ensures !OccursAt(s, [c], j)
      {
        OccursAtChar(s, c, j);
        assert s[j] == p0[j];
      }
      var i := Find(s, [c]);
      assert i >= 0;
      OccursAtChar(s, c, i);
      assert i == |p0|;
      assert s[..i] == p0;
      assert s[i + 1..] == tail;
      SplitJoinChar(parts[1..], c);
    }
  }

  /** Index of the first line break at or after `k`, or `|s|`. */
  function NextBreak(s: string, k: nat): (r: nat)
    requires k <= |s|
    ensures k <= r <= |s|
    ensures r < |s| ==> IsLineBreak(s[r])
    ensures forall j :: k <= j < r ==> !IsLineBreak(s[j])
    decreases |s| - k
  {
    if k == |s| || IsLineBreak(s[k]) then k else NextBreak(s, k + 1)
  }

  /** Python's `s.splitlines()`: lines without their terminators; `\r\n`
      counts as one terminator and a final terminator opens no empty line. */
  function SplitLines(s: string): (r: seq<string>)
    ensures forall i :: 0 <= i < |r| ==> NoLineBreak(r[i])
    ensures s != [] ==> |r| >= 1
    ensures s != [] && !IsSpace(s[0]) ==> r[0] != [] && r[0][0] == s[0]
    ensures s != [] ==> r[0] == s[..NextBreak(s, 0)]
    decreases |s|
  {
    if s == [] then []
    else
      var i := NextBreak(s, 0);
      if i == |s| then [s]
      else
        var width := if s[i] == '\r' && i + 1 < |s| && s[i + 1] == '\n' then 2 else 1;
        LineBreakIsSpace(s[0]);
        [s[..i]] + SplitLines(s[i + width..])
  }
}

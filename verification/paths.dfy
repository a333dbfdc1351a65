/** The part of `pathlib.PurePosixPath` the packaging scripts use: parsing
    a string into components, the `/` operator, `str()`, `.name`, `.suffix`
    and `.with_suffix()`. */
module Paths {
  import opened Wrappers
  import opened Strings
  import opened Sequences

  /** A pure POSIX path: whether it starts at the root, and its components. */
  datatype PurePath = PurePath(absolute: bool, parts: seq<string>)

  /** A component never is empty or `.` and never holds a separator. */
  predicate IsComponent(c: string) {
    c != "" && c != "." && '/' !in c
  }

  predicate Valid(p: PurePath) {
    forall i :: 0 <= i < |p.parts| ==> IsComponent(p.parts[i])
  }

  /** The pieces between separators, without the empty and `.` ones. */
  function Components(pieces: seq<string>): (r: seq<string>)
    requires forall i :: 0 <= i < |pieces| ==> '/' !in pieces[i]
    ensures forall i :: 0 <= i < |r| ==> IsComponent(r[i])
    ensures forall c :: c in r <==> c in pieces && IsComponent(c)
    ensures IsSubsequence(r, pieces)
    ensures forall c :: multiset(r)[c] == if IsComponent(c) then multiset(pieces)[c] else 0
    ensures |r| <= |pieces|
    decreases |pieces|
  {
    if pieces == [] then []
    else
      var rest := Components(pieces[1..]);
      assert forall c :: c in pieces <==> c == pieces[0] || c in pieces[1..];
      FilterStep(pieces, rest, IsComponent);
      if IsComponent(pieces[0]) then [pieces[0]] + rest else rest
  }

  /** `Path(s)`. */
  function Parse(s: string): (r: PurePath)
    ensures Valid(r)
    ensures r.absolute <==> |s| > 0 && s[0] == '/'
    ensures IsSubsequence(r.parts, Split(s, "/"))
    ensures forall c :: multiset(r.parts)[c] == if IsComponent(c) then multiset(Split(s, "/"))[c] else 0
  {
    var pieces := Split(s, "/");
    forall i | 0 <= i < |pieces|
      ensures '/' !in pieces[i]
    {
      if '/' in pieces[i] {
        var k :| 0 <= k < |pieces[i]| && pieces[i][k] == '/';
        OccursAtChar(pieces[i], '/', k);
      }
    }
    PurePath(|s| > 0 && s[0] == '/', Components(pieces))
  }

  /** `str(p)`: components joined by `/`, a leading `/` for a rooted path,
      and `.` for the empty relative path. */
  function Render(p: PurePath): string {
    if p.absolute then "/" + Join("/", p.parts)
    else if p.parts == [] then "."
    else Join("/", p.parts)
  }

  /** `a / b`: a rooted right operand replaces the left one. */
  function JoinPath(a: PurePath, b: PurePath): (r: PurePath)
    requires Valid(a) && Valid(b)
    ensures Valid(r)
    ensures b.absolute ==> r == b
    ensures !b.absolute ==> r.absolute == a.absolute && r.parts == a.parts + b.parts
  {
    if b.absolute then b else PurePath(a.absolute, a.parts + b.parts)
  }

  /** What `str(a / b)` prints, in terms of `str(a)` and `str(b)`. */
  lemma RenderJoin(a: PurePath, b: PurePath)
    requires Valid(a) && Valid(b)
    ensures b.absolute ==> Render(JoinPath(a, b)) == Render(b)
    ensures !b.absolute && a.parts != [] && b.parts != [] ==>
      Render(JoinPath(a, b)) == Render(a) + "/" + Render(b)
    ensures !b.absolute && b.parts == [] ==> Render(JoinPath(a, b)) == Render(a)
    ensures !a.absolute && a.parts == [] ==> Render(JoinPath(a, b)) == Render(b)
  {
    if !b.absolute {
      if a.parts != [] && b.parts != [] {
        JoinAppend("/", a.parts, b.parts);
      }
      if b.parts == [] {
        assert a.parts + b.parts == a.parts;
      }
      if a.parts == [] {
        assert a.parts + b.parts == b.parts;
      }
    }
  }

  /** `.name`: the last component, or the empty string. */
  function Name(p: PurePath): string {
    if p.parts == [] then "" else p.parts[|p.parts| - 1]
  }

  /** Index of the last `.` in `s`, or -1. */
  function LastDot(s: string): (r: int)
    ensures -1 <= r < |s|
    ensures r >= 0 ==> s[r] == '.'
    ensures forall j :: r < j < |s| ==> s[j] != '.'
    decreases |s|
  {
    if s == [] then -1
    else if s[|s| - 1] == '.' then |s| - 1
    else LastDot(s[..|s| - 1])
  }

  /** `.suffix` of a name: from its last dot, provided that dot neither
      starts nor ends the name. */
  function Suffix(name: string): (r: string)
    ensures r == [] || (r[0] == '.' && |r| >= 2 && |r| < |name| && name[|name| - |r|..] == r)
    ensures r != [] ==> '.' !in r[1..]
  {
    var i := LastDot(name);
    if 0 < i < |name| - 1 then
      var t := name[i + 1..];
      assert forall k :: 0 <= k < |t| ==> t[k] == name[i + 1 + k];
      name[i..]
    else ""
  }

  /** `.stem` of a name: the name without its suffix. */
  function Stem(name: string): (r: string)
    ensures name == r + Suffix(name)
    ensures name != [] ==> r != []
  {
    name[..|name| - |Suffix(name)|]
  }

  /** A suffix `with_suffix` accepts that is also the suffix it produces:
      a dot followed by at least one character, no further dot and no separator. */
  predicate SimpleSuffix(suffix: string) {
    |suffix| >= 2 && suffix[0] == '.' && '.' !in suffix[1..] && '/' !in suffix
  }

  /** `p.with_suffix(suffix)`; a path with an empty name makes it raise ValueError. */
  function WithSuffix(p: PurePath, suffix: string): (r: Result<PurePath, string>)
    requires Valid(p) && SimpleSuffix(suffix)
    ensures r.Err? <==> p.parts == []
    ensures r.Ok? ==> Valid(r.value) && r.value.absolute == p.absolute
                      && |r.value.parts| == |p.parts|
                      && r.value.parts[..|p.parts| - 1] == p.parts[..|p.parts| - 1]
                      && Name(r.value) == Stem(Name(p)) + suffix
  {
    if p.parts == [] then Err("has an empty name")
    else
      var n := |p.parts|;
      var name := Stem(p.parts[n - 1]) + suffix;
      assert '/' !in Stem(p.parts[n - 1]) by {
        var st, whole := Stem(p.parts[n - 1]), p.parts[n - 1];
        assert forall k :: 0 <= k < |st| ==> st[k] == whole[k];
      }
      assert forall k :: 0 <= k < |name| ==> name[k] != '/' by {
        forall k | 0 <= k < |name|
          ensures name[k] != '/'
        {
          if k >= |Stem(p.parts[n - 1])| {
            assert name[k] == suffix[k - |Stem(p.parts[n - 1])|];
          }
        }
      }
      Ok(PurePath(p.absolute, p.parts[..n - 1] + [name]))
  }

  /** The name `with_suffix` produces has exactly the requested suffix and
      the original stem. */
  lemma SuffixOfStemPlus(stem: string, suffix: string)
    requires stem != [] && SimpleSuffix(suffix)
    ensures Suffix(stem + suffix) == suffix
    ensures Stem(stem + suffix) == stem
  {
    var name := stem + suffix;
    var i := LastDot(name);
    assert name[|stem|] == '.';
    forall j | |stem| < j < |name|
      ensures name[j] != '.'
    {
      assert name[j] == suffix[1..][j - |stem| - 1];
    }
    assert name[|stem|..] == suffix;
  }

  /** Changing the suffix twice to the same value changes it once. */
  lemma WithSuffixIdempotent(p: PurePath, suffix: string)
    requires Valid(p) && SimpleSuffix(suffix) && p.parts != []
    ensures WithSuffix(WithSuffix(p, suffix).value, suffix) == WithSuffix(p, suffix)
  {
    var q := WithSuffix(p, suffix).value;
    SuffixOfStemPlus(Stem(Name(p)), suffix);
    var n := |p.parts|;
    assert q.parts == q.parts[..n - 1] + [Name(q)];
  }

  /** Rendering a path and parsing the text back gives the same path. */
  lemma ParseRender(p: PurePath)
    requires Valid(p)
    ensures Parse(Render(p)) == p
  {
    forall i | 0 <= i < |p.parts|
      ensures '/' !in p.parts[i]
    {
    }
    if p.parts == [] {
      if p.absolute {
        assert Split("/", "/") == ["", ""] by {
          OccursAtChar("/", '/', 0);
          assert "/"[1..] == "";
          MissingCharNotContained("", "/", '/');
        }
      } else {
        assert '/' !in ".";
        MissingCharNotContained(".", "/", '/');
      }
    } else {
      var j := Join("/", p.parts);
      SplitJoinChar(p.parts, '/');
      ComponentsOfValid(p.parts);
      if p.absolute {
        var s := "/" + j;
        OccursAtChar(s, '/', 0);
        assert s[1..] == j;
        assert Split(s, "/") == [""] + p.parts;
        assert ([""] + p.parts)[1..] == p.parts;
      }
    }
  }

  /** Components of valid components are those components. */
  lemma {:induction false} ComponentsOfValid(parts: seq<string>)
    requires forall i :: 0 <= i < |parts| ==> IsComponent(parts[i])
    requires forall i :: 0 <= i < |parts| ==> '/' !in parts[i]
    ensures Components(parts) == parts
    decreases |parts|
  {
    if parts != [] {
      ComponentsOfValid(parts[1..]);
    }
  }

  /** A `.txt` file keeps its stem and gets the new suffix in its place. */
  lemma ReplacesTxt(p: PurePath, stem: string)
    requires Valid(p) && stem != [] && Name(p) == stem + ".txt"
    ensures WithSuffix(p, ".pdf").Ok?
    ensures Name(WithSuffix(p, ".pdf").value) == stem + ".pdf"
  {
    SuffixOfStemPlus(stem, ".txt");
  }

  /** A file named just `.txt` has no suffix, so the new one is appended. */
  lemma DotTxtGetsAppended(p: PurePath)
    requires Valid(p) && Name(p) == ".txt"
    ensures Name(WithSuffix(p, ".pdf").value) == ".txt.pdf"
  {
    assert LastDot(".txt") == 0 by {
      assert ".txt"[..3] == ".tx" && ".tx"[..2] == ".t" && ".t"[..1] == ".";
    }
  }

  /** A single component parses to the relative path of that component. */
  lemma ParseComponent(c: string)
    requires IsComponent(c)
    ensures Parse(c) == PurePath(false, [c])
  {
    assert '/' in "/";
    MissingCharNotContained(c, "/", '/');
  }

  /** The empty string parses to the empty relative path (`Path('')` is `.`). */
  lemma ParseEmpty()
    ensures Parse("") == PurePath(false, [])
  {
    assert !Contains("", "/");
  }
}

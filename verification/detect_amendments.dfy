/** `detect` of scripts/detect_amendments.py: versioned text files named
    `NAME-v<n>.txt` are grouped by `NAME`, each group is sorted by version
    (stably), and every upgrade step between consecutive versions becomes an
    amendment record for the newer file. Walking the directory trees is left
    out: the files `rglob('*.txt')` yields arrive as a sequence, in the order
    the walk produced them, each with its modification time already
    rendered as an ISO string. */
module DetectAmendments {
  import opened Wrappers
  import Decimal
  import Sorting
  import opened Sequences

  /** A file the walk found: its full path, its final component and its
      rendered modification time. */
  datatype FoundFile = FoundFile(path: string, name: string, modified: string)

  // ---------------------------------------------------------------------
  // The file-name pattern `(?P<base>.+)-v(?P<ver>\d+)\.txt$`, case-insensitive

  predicate IsV(c: char) {
    c == 'v' || c == 'V'
  }

  /** `\.txt` at index `k` under case-insensitive matching. */
  predicate TxtAt(s: string, k: nat)
    requires k + 4 <= |s|
  {
    && s[k] == '.'
    && (s[k + 1] == 't' || s[k + 1] == 'T')
    && (s[k + 2] == 'x' || s[k + 2] == 'X')
    && (s[k + 3] == 't' || s[k + 3] == 'T')
  }

  /** What may follow the digits, from index `k` on: `\.txt` and then the
      end, or a final newline (where `$` also matches). */
  predicate EndingAt(s: string, k: nat) {
    || (k + 4 == |s| && TxtAt(s, k))
    || (k + 5 == |s| && TxtAt(s, k) && s[k + 4] == '\n')
  }

  /** The pattern matches `name` with groups `base` and `ver` = `digits`:
      `base` is non-empty and free of newlines (`.` does not match one),
      then `-v` or `-V`, then a non-empty run of digits, then the ending. */
  predicate MatchesPattern(name: string, base: string, digits: string) {
    var k := |base| + 2 + |digits|;
    && |base| >= 1 && '\n' !in base
    && |digits| >= 1 && Decimal.AllDigits(digits)
    && k <= |name|
    && name[..|base|] == base
    && name[|base|] == '-' && IsV(name[|base| + 1])
    && name[|base| + 2..k] == digits
    && EndingAt(name, k)
  }

  /** Walking back from `j`: where the run of digits that ends at `j` starts. */
  function DigitRunStart(s: string, j: nat): (i: nat)
    requires j <= |s|
    ensures i <= j
    ensures forall k :: i <= k < j ==> Decimal.IsDigit(s[k])
    ensures i == 0 || !Decimal.IsDigit(s[i - 1])
    decreases j
  {
    if j > 0 && Decimal.IsDigit(s[j - 1]) then DigitRunStart(s, j - 1) else j
  }

  /** The length of the longest run of digits that ends `s`. */
  function TrailingDigits(s: string): (n: nat)
    ensures n <= |s|
    ensures Decimal.AllDigits(s[|s| - n..])
    ensures n < |s| ==> !Decimal.IsDigit(s[|s| - n - 1])
  {
    var i := DigitRunStart(s, |s|);
    assert forall k :: 0 <= k < |s| - i ==> s[i..][k] == s[i + k];
    |s| - i
  }

  /** The text before the ending, if `name` has one. */
  function WithoutEnding(name: string): (r: Option<string>)
    ensures r.Some? ==> |r.value| <= |name| && name[..|r.value|] == r.value && EndingAt(name, |r.value|)
    ensures r.None? ==> forall k :: 0 <= k <= |name| ==> !EndingAt(name, k)
  {
    if |name| >= 4 && TxtAt(name, |name| - 4) then Some(name[..|name| - 4])
    else if |name| >= 5 && TxtAt(name, |name| - 5) && name[|name| - 1] == '\n' then Some(name[..|name| - 5])
    else None
  }

  /** `pattern.match(name)`: the `base` and `ver` groups, or `None`. The
      greedy `.+` leaves to `\d+` exactly the longest digit run before the
      ending. */
  function ParseVersionName(name: string): (r: Option<(string, string)>)
  {
    match WithoutEnding(name)
    case None => None
    case Some(core) =>
      var n := TrailingDigits(core);
      var rest := core[..|core| - n];
      if n == 0 || |rest| < 3 || rest[|rest| - 2] != '-' || !IsV(rest[|rest| - 1]) || '\n' in rest[..|rest| - 2] then None
      else Some((rest[..|rest| - 2], core[|core| - n..]))
  }

  /** Every parse the function returns is a match of the pattern. */
  lemma ParseSound(name: string)
    requires ParseVersionName(name).Some?
    ensures var (base, digits) := ParseVersionName(name).value;
            MatchesPattern(name, base, digits)
  {
    var core := WithoutEnding(name).value;
    var n := TrailingDigits(core);
    var rest := core[..|core| - n];
    var base := rest[..|rest| - 2];
    var digits := core[|core| - n..];
    assert core == base + [rest[|rest| - 2], rest[|rest| - 1]] + digits;
    assert name[..|core|] == core;
  }

  /** A run of digits after a non-digit is exactly the trailing digit run. */
  lemma TrailingDigitsAfter(x: string, d: string)
    requires |x| >= 1 && !Decimal.IsDigit(x[|x| - 1]) && Decimal.AllDigits(d)
    ensures TrailingDigits(x + d) == |d|
  {
    var s := x + d;
    var i := DigitRunStart(s, |s|);
    assert s[|x| - 1] == x[|x| - 1];
  }

  /** Every match of the pattern is what the function returns, so the
      groups of a match are unique. */
  lemma ParseComplete(name: string, base: string, digits: string)
    requires MatchesPattern(name, base, digits)
    ensures ParseVersionName(name) == Some((base, digits))
  {
    var k := |base| + 2 + |digits|;
    var head := base + [name[|base|], name[|base| + 1]];
    assert name[..k] == head + digits;
    var core := WithoutEnding(name).value;
    assert |core| == k by {
      if |name| - k == 4 {
        assert |core| == |name| - 4;
      } else {
        assert name[|name| - 1] == '\n';
        assert !TxtAt(name, |name| - 4);
      }
    }
    assert core == head + digits;
    TrailingDigitsAfter(head, digits);
    assert core[..|core| - |digits|] == head;
    assert head[..|head| - 2] == base;
  }

  // ---------------------------------------------------------------------
  // Grouping, ordering and amendment records

  /** A file whose name matched: base name, `int(ver)`, path and date. */
  datatype Versioned = Versioned(base: string, ver: nat, path: string, modified: string)

  /** The record of a file whose name matched. */
  function Matched(f: FoundFile): Versioned
    requires ParseVersionName(f.name).Some?
  {
    var (base, digits) := ParseVersionName(f.name).value;
    Versioned(base, Decimal.DigitsValue(digits), f.path, f.modified)
  }

  /** The matched files, in walk order. */
  function Parsed(files: seq<FoundFile>): (r: seq<Versioned>)
    ensures |r| <= |files|
    ensures forall v :: v in r <==> exists f :: f in files && ParseVersionName(f.name).Some? && v == Matched(f)
    decreases |files|
  {
    if files == [] then []
    else
      var init := Parsed(files[..|files| - 1]);
      var f := files[|files| - 1];
      assert forall g :: g in files <==> g in files[..|files| - 1] || g == f;
      if ParseVersionName(f.name).Some? then init + [Matched(f)] else init
  }

  /** Parsing the files of two walks one after the other concatenates their
      records; with the one-file case this fixes order and multiplicity. */
  lemma {:induction false} ParsedAppend(a: seq<FoundFile>, b: seq<FoundFile>)
    ensures Parsed(a + b) == Parsed(a) + Parsed(b)
    decreases |b|
  {
    if b == [] {
      assert a + b == a;
    } else {
      var b0 := b[..|b| - 1];
      assert (a + b)[..|a + b| - 1] == a + b0;
      assert (a + b)[|a + b| - 1] == b[|b| - 1];
      ParsedAppend(a, b0);
    }
  }

  /** One file gives one record when its name matches and none otherwise. */
  lemma ParsedOne(f: FoundFile)
    ensures Parsed([f]) == if ParseVersionName(f.name).Some? then [Matched(f)] else []
  {
    assert [f][..0] == [];
  }

  /** Some file with base `a` comes before every file with base `b`. */
  predicate SeenBefore(vs: seq<Versioned>, a: string, b: string) {
    exists p :: 0 <= p < |vs| && vs[p].base == a && forall q :: 0 <= q <= p ==> vs[q].base != b
  }

  lemma SeenBeforeSnoc(vs: seq<Versioned>, x: Versioned, a: string, b: string)
    requires SeenBefore(vs, a, b)
    ensures SeenBefore(vs + [x], a, b)
  {
    var p :| 0 <= p < |vs| && vs[p].base == a && forall q :: 0 <= q <= p ==> vs[q].base != b;
    assert forall q :: 0 <= q <= p ==> (vs + [x])[q] == vs[q];
  }

  /** A base seen already comes before a base seen for the first time. */
  lemma SeenBeforeNew(vs: seq<Versioned>, x: Versioned, a: string)
    requires exists v :: v in vs && v.base == a
    requires forall v :: v in vs ==> v.base != x.base
    ensures SeenBefore(vs + [x], a, x.base)
  {
    var v :| v in vs && v.base == a;
    var p :| 0 <= p < |vs| && vs[p] == v;
    assert forall q :: 0 <= q <= p ==> (vs + [x])[q] == vs[q] && vs[q] in vs;
  }

  /** The keys of `groups`: each base name once, in order of first appearance
      (a dict keeps insertion order). */
  function Bases(vs: seq<Versioned>): (r: seq<string>)
    ensures forall b :: b in r <==> exists v :: v in vs && v.base == b
    ensures forall i, j :: 0 <= i < j < |r| ==> r[i] != r[j]
    ensures forall i, j :: 0 <= i < j < |r| ==> SeenBefore(vs, r[i], r[j])
    decreases |vs|
  {
    if vs == [] then []
    else
      var front := vs[..|vs| - 1];
      var init := Bases(front);
      var v := vs[|vs| - 1];
      assert vs == front + [v];
      assert forall w :: w in vs <==> w in front || w == v;
      forall i, j | 0 <= i < j < |init|
        ensures SeenBefore(vs, init[i], init[j])
      {
        SeenBeforeSnoc(front, v, init[i], init[j]);
      }
      if v.base in init then init
      else
        var r := init + [v.base];
        forall i, j | 0 <= i < j < |r|
          ensures SeenBefore(vs, r[i], r[j])
        {
          if j == |init| {
            assert r[i] in init;
            SeenBeforeNew(front, v, r[i]);
          }
        }
        r
  }

  /** `groups[base]` before sorting: the files with that base, in walk order. */
  function Group(vs: seq<Versioned>, base: string): (r: seq<Versioned>)
    ensures forall v :: v in r <==> v in vs && v.base == base
    ensures IsSubsequence(r, vs)
    ensures forall v :: multiset(r)[v] == if v.base == base then multiset(vs)[v] else 0
    ensures |r| <= |vs|
    decreases |vs|
  {
    if vs == [] then []
    else
      var init := Group(vs[..|vs| - 1], base);
      var v := vs[|vs| - 1];
      assert forall w :: w in vs <==> w in vs[..|vs| - 1] || w == v;
      FilterSnoc(vs, init, (w: Versioned) => w.base == base);
      if v.base == base then init + [v] else init
  }

  /** The sort key `lambda x: x[0]`: order by version number only. */
  function VersionLe(a: Versioned, b: Versioned): bool {
    a.ver <= b.ver
  }

  lemma VersionLeTotal()
    ensures Sorting.TotalPreorder(VersionLe)
  {
  }

  /** `items.sort(key=lambda x: x[0])`: a stable sort by version. */
  function SortedGroup(vs: seq<Versioned>, base: string): (r: seq<Versioned>)
    ensures Sorting.Sorted(r, VersionLe)
    ensures multiset(r) == multiset(Group(vs, base))
    ensures |r| == |Group(vs, base)|
  {
    VersionLeTotal();
    Sorting.SortBy(Group(vs, base), VersionLe)
  }

  /** One entry of `amendments`. `author` is always `None` and is not kept. */
  datatype Amendment = Amendment(
    assetId: string,
    amendmentId: string,
    date: string,
    summary: string,
    changedFiles: seq<string>)

  function StepSummary(prev: nat, ver: nat): string {
    "Update from v" + Decimal.NatToDecimal(prev) + " to v" + Decimal.NatToDecimal(ver)
  }

  /** The record for the step from `prev` to `next` within the group `base`. */
  function StepRecord(base: string, prev: Versioned, next: Versioned): Amendment {
    Amendment(base, base + "-amend-v" + Decimal.NatToDecimal(next.ver), next.modified,
              StepSummary(prev.ver, next.ver), [next.path])
  }

  /** The records for consecutive pairs of `items`, for `i` in `range(1, len(items))`. */
  function Steps(base: string, items: seq<Versioned>): (r: seq<Amendment>)
    ensures |r| == if items == [] then 0 else |items| - 1
    ensures forall i :: 0 <= i < |r| ==> r[i] == StepRecord(base, items[i], items[i + 1])
    decreases |items|
  {
    if |items| < 2 then []
    else
      var init := items[..|items| - 1];
      Steps(base, init) + [StepRecord(base, init[|init| - 1], items[|items| - 1])]
  }

  /** The records of the groups `bases`, group after group. */
  function AllSteps(vs: seq<Versioned>, bases: seq<string>): seq<Amendment>
    decreases |bases|
  {
    if bases == [] then []
    else
      var b := bases[|bases| - 1];
      AllSteps(vs, bases[..|bases| - 1]) + Steps(b, SortedGroup(vs, b))
  }

  /** `detect(roots)` on the files the walk yields. */
  function Detect(files: seq<FoundFile>): seq<Amendment> {
    var vs := Parsed(files);
    AllSteps(vs, Bases(vs))
  }

  // ---------------------------------------------------------------------
  // Properties

  /** Every record is an upgrade within one asset: the newer file and an
      older-or-equal version of the same base were both found, and the record
      names them. */
  lemma {:induction false} AllStepsAreUpgrades(vs: seq<Versioned>, bases: seq<string>, a: Amendment)
    requires a in AllSteps(vs, bases)
    ensures exists p, q :: p in vs && q in vs && p.base == a.assetId && q.base == a.assetId
                           && p.ver <= q.ver && a == StepRecord(a.assetId, p, q)
    decreases |bases|
  {
    var b := bases[|bases| - 1];
    var init := bases[..|bases| - 1];
    if a in AllSteps(vs, init) {
      AllStepsAreUpgrades(vs, init, a);
    } else {
      var items := SortedGroup(vs, b);
      var steps := Steps(b, items);
      assert a in steps;
      var i :| 0 <= i < |steps| && steps[i] == a;
      var p, q := items[i], items[i + 1];
      assert p in multiset(Group(vs, b)) && q in multiset(Group(vs, b));
      assert p in vs && q in vs;
      assert VersionLe(p, q);
    }
  }

  lemma DetectYieldsUpgrades(files: seq<FoundFile>, a: Amendment)
    requires a in Detect(files)
    ensures exists p, q :: p in Parsed(files) && q in Parsed(files)
                           && p.base == a.assetId && q.base == a.assetId
                           && p.ver <= q.ver && a == StepRecord(a.assetId, p, q)
  {
    AllStepsAreUpgrades(Parsed(files), Bases(Parsed(files)), a);
  }

  /** Summed group sizes over a list of base names. */
  function GroupSizes(vs: seq<Versioned>, bases: seq<string>): nat
    decreases |bases|
  {
    if bases == [] then 0
    else GroupSizes(vs, bases[..|bases| - 1]) + |Group(vs, bases[|bases| - 1])|
  }

  /** Adding one more file with base `x.base` grows exactly that group by one. */
  lemma {:induction false} GroupSizesSnoc(vs: seq<Versioned>, x: Versioned, bases: seq<string>)
    requires forall i, j :: 0 <= i < j < |bases| ==> bases[i] != bases[j]
    ensures GroupSizes(vs + [x], bases) == GroupSizes(vs, bases) + (if x.base in bases then 1 else 0)
    decreases |bases|
  {
    if bases != [] {
      var init := bases[..|bases| - 1];
      var b := bases[|bases| - 1];
      GroupSizesSnoc(vs, x, init);
      assert (vs + [x])[..|vs + [x]| - 1] == vs;
      assert x.base in bases <==> x.base in init || x.base == b;
      assert b !in init;
    }
  }

  /** A group of a base that no file has is empty. */
  lemma GroupOfAbsentBase(vs: seq<Versioned>, b: string)
    requires forall v :: v in vs ==> v.base != b
    ensures Group(vs, b) == []
  {
    if Group(vs, b) != [] {
      assert Group(vs, b)[0] in Group(vs, b);
    }
  }

  /** The groups partition the matched files. */
  lemma {:induction false} GroupsPartition(vs: seq<Versioned>)
    ensures GroupSizes(vs, Bases(vs)) == |vs|
    decreases |vs|
  {
    if vs != [] {
      var init := vs[..|vs| - 1];
      var x := vs[|vs| - 1];
      assert vs == init + [x];
      var bs := Bases(init);
      GroupsPartition(init);
      GroupSizesSnoc(init, x, bs);
      if x.base !in bs {
        GroupOfAbsentBase(init, x.base);
        assert Bases(vs) == bs + [x.base];
        assert (bs + [x.base])[..|bs|] == bs;
        assert Group(vs, x.base) == [x];
      }
    }
  }

  /** Each group of a present base has one record fewer than files. */
  lemma {:induction false} AllStepsCount(vs: seq<Versioned>, bases: seq<string>)
    requires forall b :: b in bases ==> exists v :: v in vs && v.base == b
    ensures |AllSteps(vs, bases)| == GroupSizes(vs, bases) - |bases|
    decreases |bases|
  {
    if bases != [] {
      var b := bases[|bases| - 1];
      var init := bases[..|bases| - 1];
      forall c | c in init
        ensures exists v :: v in vs && v.base == c
      {
        assert c in bases;
      }
      AllStepsCount(vs, init);
      assert b in bases;
      var v :| v in vs && v.base == b;
      assert v in Group(vs, b);
    }
  }

  /** One record per matched file except the lowest version of each asset. */
  lemma DetectCount(files: seq<FoundFile>)
    ensures |Detect(files)| == |Parsed(files)| - |Bases(Parsed(files))|
  {
    var vs := Parsed(files);
    AllStepsCount(vs, Bases(vs));
    GroupsPartition(vs);
  }

  /** A worked case: version 2 found before version 1 (spelt with a capital
      `V`) still yields the single step from v1 to v2. */
  lemma DetectExample()
    ensures Detect([FoundFile("d/X-v2.txt", "X-v2.txt", "t2"), FoundFile("d/X-V1.txt", "X-V1.txt", "t1")])
            == [Amendment("X", "X-amend-v2", "t2", "Update from v1 to v2", ["d/X-v2.txt"])]
  {
    var v2 := Versioned("X", 2, "d/X-v2.txt", "t2");
    var v1 := Versioned("X", 1, "d/X-V1.txt", "t1");
    var files := [FoundFile("d/X-v2.txt", "X-v2.txt", "t2"), FoundFile("d/X-V1.txt", "X-V1.txt", "t1")];
    ExampleParsed();
    ExampleGrouped(v2, v1);
    assert Detect(files) == AllSteps([v2, v1], ["X"]);
    ExampleSteps(v2, v1);
    ExampleRecord(v1, v2);
  }

  lemma ExampleSteps(v2: Versioned, v1: Versioned)
    requires SortedGroup([v2, v1], "X") == [v1, v2]
    ensures AllSteps([v2, v1], ["X"]) == [StepRecord("X", v1, v2)]
  {
    assert ["X"][..0] == [];
    assert AllSteps([v2, v1], ["X"]) == Steps("X", [v1, v2]);
    assert [v1, v2][..1] == [v1];
  }

  lemma ExampleRecord(v1: Versioned, v2: Versioned)
    requires v1.ver == 1 && v2 == Versioned("X", 2, "d/X-v2.txt", "t2")
    ensures StepRecord("X", v1, v2) == Amendment("X", "X-amend-v2", "t2", "Update from v1 to v2", ["d/X-v2.txt"])
  {
    assert Decimal.NatToDecimal(2) == "2" && Decimal.NatToDecimal(1) == "1";
  }

  lemma ExampleParsed()
    ensures Parsed([FoundFile("d/X-v2.txt", "X-v2.txt", "t2"), FoundFile("d/X-V1.txt", "X-V1.txt", "t1")])
            == [Versioned("X", 2, "d/X-v2.txt", "t2"), Versioned("X", 1, "d/X-V1.txt", "t1")]
  {
    var f2 := FoundFile("d/X-v2.txt", "X-v2.txt", "t2");
    var f1 := FoundFile("d/X-V1.txt", "X-V1.txt", "t1");
    ExampleNameV2();
    ExampleNameV1();
    assert Decimal.DigitsValue("2") == 2 && Decimal.DigitsValue("1") == 1;
    assert [f2, f1][..1] == [f2];
    assert Parsed([f2]) == [Versioned("X", 2, "d/X-v2.txt", "t2")];
  }

  lemma ExampleNameV2()
    ensures ParseVersionName("X-v2.txt") == Some(("X", "2"))
  {
    assert MatchesPattern("X-v2.txt", "X", "2");
    ParseComplete("X-v2.txt", "X", "2");
  }

  lemma ExampleNameV1()
    ensures ParseVersionName("X-V1.txt") == Some(("X", "1"))
  {
    assert MatchesPattern("X-V1.txt", "X", "1");
    ParseComplete("X-V1.txt", "X", "1");
  }

  lemma ExampleGrouped(v2: Versioned, v1: Versioned)
    requires v2.base == v1.base == "X" && v2.ver == 2 && v1.ver == 1
    ensures Bases([v2, v1]) == ["X"]
    ensures SortedGroup([v2, v1], "X") == [v1, v2]
  {
    ExampleBases(v2, v1);
    ExampleGroup(v2, v1);
    VersionLeTotal();
    assert Sorting.SortBy([v2], VersionLe) == [v2];
    assert [v2, v1][..1] == [v2];
  }

  lemma ExampleBases(v2: Versioned, v1: Versioned)
    requires v2.base == v1.base == "X"
    ensures Bases([v2, v1]) == ["X"]
  {
    assert [v2, v1][..1] == [v2];
    assert [v2][..0] == [];
    assert Bases([v2]) == ["X"];
  }

  lemma ExampleGroup(v2: Versioned, v1: Versioned)
    requires v2.base == v1.base == "X"
    ensures Group([v2, v1], "X") == [v2, v1]
  {
    assert [v2, v1][..1] == [v2];
    assert [v2][..0] == [];
    assert Group([v2], "X") == [v2];
  }
}

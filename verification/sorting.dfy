/** A stable sort, standing for Python's `list.sort(key=...)` and `sorted(...)`
    (Python's sort is guaranteed stable). The order is given as a total
    preorder `le`, "a sorts no later than b". */
module Sorting {

  ghost predicate TotalPreorder<T(!new)>(le: (T, T) -> bool) {
    && (forall a, b {:trigger le(a, b), le(b, a)} :: le(a, b) || le(b, a))
    && (forall a, b, c {:trigger le(a, b), le(b, c), le(a, c)} :: le(a, b) && le(b, c) ==> le(a, c))
  }

  predicate Sorted<T>(s: seq<T>, le: (T, T) -> bool) {
    forall i, j :: 0 <= i < j < |s| ==> le(s[i], s[j])
  }

  /** Inserts `x` after every element that sorts no later than it. */
  function Insert<T(!new)>(x: T, s: seq<T>, le: (T, T) -> bool): (r: seq<T>)
    requires TotalPreorder(le) && Sorted(s, le)
    ensures Sorted(r, le)
    ensures multiset(r) == multiset(s) + multiset{x}
    ensures |r| == |s| + 1
    decreases |s|
  {
    if s == [] then [x]
    else if le(s[0], x) then
      var rest := Insert(x, s[1..], le);
      assert s == [s[0]] + s[1..];
      SortedCons(s[0], rest, s[1..], x, le);
      [s[0]] + rest
    else
      SortedBefore(x, s, le);
      [x] + s
  }

  /** A head that sorts no later than `x` and than everything of `t` stays
      sorted in front of any arrangement of `t` and `x`. */
  lemma SortedCons<T>(h: T, rest: seq<T>, t: seq<T>, x: T, le: (T, T) -> bool)
    requires Sorted(rest, le) && Sorted([h] + t, le)
    requires multiset(rest) == multiset(t) + multiset{x}
    requires le(h, x)
    ensures Sorted([h] + rest, le)
  {
    forall k | 0 <= k < |rest|
      ensures le(h, rest[k])
    {
      assert rest[k] in multiset(t) + multiset{x};
      if rest[k] != x {
        assert rest[k] in t;
        var j :| 0 <= j < |t| && t[j] == rest[k];
        assert ([h] + t)[0] == h && ([h] + t)[j + 1] == t[j];
      }
    }
    var r := [h] + rest;
    forall i, j | 0 <= i < j < |r|
      ensures le(r[i], r[j])
    {
      assert r[j] == rest[j - 1];
      if i > 0 {
        assert r[i] == rest[i - 1];
      }
    }
  }

  /** An element that sorts strictly before the head of a sorted sequence
      sorts before all of it. */
  lemma SortedBefore<T(!new)>(x: T, s: seq<T>, le: (T, T) -> bool)
    requires TotalPreorder(le) && Sorted(s, le)
    requires s != [] && !le(s[0], x)
    ensures Sorted([x] + s, le)
  {
    var r := [x] + s;
    forall i, j | 0 <= i < j < |r|
      ensures le(r[i], r[j])
    {
      assert r[j] == s[j - 1];
      if i == 0 {
        assert le(x, s[0]);
        assert j - 1 == 0 || le(s[0], s[j - 1]);
      } else {
        assert r[i] == s[i - 1];
      }
    }
  }

  /** Insertion sort, taking the elements left to right. */
  function SortBy<T(!new)>(s: seq<T>, le: (T, T) -> bool): (r: seq<T>)
    requires TotalPreorder(le)
    ensures Sorted(r, le)
    ensures multiset(r) == multiset(s)
    ensures |r| == |s|
    decreases |s|
  {
    if s == [] then []
    else
      assert s == s[..|s| - 1] + [s[|s| - 1]];
      Insert(s[|s| - 1], SortBy(s[..|s| - 1], le), le)
  }

  /** The elements of `s` that tie with `y`, in their order in `s`. */
  function Ties<T>(s: seq<T>, y: T, le: (T, T) -> bool): seq<T>
    decreases |s|
  {
    if s == [] then []
    else if le(s[0], y) && le(y, s[0]) then [s[0]] + Ties(s[1..], y, le)
    else Ties(s[1..], y, le)
  }

  lemma {:induction false} TiesAppend<T>(a: seq<T>, b: seq<T>, y: T, le: (T, T) -> bool)
    ensures Ties(a + b, y, le) == Ties(a, y, le) + Ties(b, y, le)
    decreases |a|
  {
    if a == [] {
      assert a + b == b;
    } else {
      assert (a + b)[0] == a[0];
      assert (a + b)[1..] == a[1..] + b;
      TiesAppend(a[1..], b, y, le);
    }
  }

  /** Inserting `x` into a sorted sequence puts it after the elements it ties with. */
  lemma {:induction false} TiesInsert<T(!new)>(x: T, s: seq<T>, y: T, le: (T, T) -> bool)
    requires TotalPreorder(le) && Sorted(s, le)
    ensures Ties(Insert(x, s, le), y, le) == Ties(s, y, le) + Ties([x], y, le)
    decreases |s|
  {
    if s == [] {
    } else if le(s[0], x) {
      TiesInsert(x, s[1..], y, le);
      TiesInsertBehind(x, s, y, le);
    } else {
      TiesInsertInFront(x, s, y, le);
    }
  }

  /** The step of `TiesInsert` where `x` goes behind the head. */
  lemma TiesInsertBehind<T(!new)>(x: T, s: seq<T>, y: T, le: (T, T) -> bool)
    requires TotalPreorder(le) && Sorted(s, le) && s != [] && le(s[0], x)
    requires Ties(Insert(x, s[1..], le), y, le) == Ties(s[1..], y, le) + Ties([x], y, le)
    ensures Ties(Insert(x, s, le), y, le) == Ties(s, y, le) + Ties([x], y, le)
  {
    InsertBehindHead(x, s, le);
    TiesConsStep(Insert(x, s[1..], le), s, x, y, le);
  }

  lemma InsertBehindHead<T(!new)>(x: T, s: seq<T>, le: (T, T) -> bool)
    requires TotalPreorder(le) && Sorted(s, le) && s != [] && le(s[0], x)
    ensures Insert(x, s, le) == [s[0]] + Insert(x, s[1..], le)
  {
  }

  lemma TiesConsStep<T>(rest: seq<T>, s: seq<T>, x: T, y: T, le: (T, T) -> bool)
    requires s != []
    requires Ties(rest, y, le) == Ties(s[1..], y, le) + Ties([x], y, le)
    ensures Ties([s[0]] + rest, y, le) == Ties(s, y, le) + Ties([x], y, le)
  {
    TiesAppend([s[0]], rest, y, le);
    assert s == [s[0]] + s[1..];
    TiesAppend([s[0]], s[1..], y, le);
  }

  /** The case of `TiesInsert` where `x` goes in front. */
  lemma TiesInsertInFront<T(!new)>(x: T, s: seq<T>, y: T, le: (T, T) -> bool)
    requires TotalPreorder(le) && Sorted(s, le) && s != [] && !le(s[0], x)
    ensures Ties(Insert(x, s, le), y, le) == Ties(s, y, le) + Ties([x], y, le)
  {
    assert Insert(x, s, le) == [x] + s;
    TiesAppend([x], s, y, le);
    // every element of s sorts strictly after x, so when x ties with y
    // none of them does
    if le(x, y) && le(y, x) {
      NoTiesAfter(s, x, y, le);
    }
  }

  /** When `x` ties with `y` and the sorted `s` starts strictly after `x`,
      nothing in `s` ties with `y`. */
  lemma {:induction false} NoTiesAfter<T(!new)>(s: seq<T>, x: T, y: T, le: (T, T) -> bool)
    requires TotalPreorder(le) && Sorted(s, le)
    requires s != [] && !le(s[0], x)
    requires le(x, y) && le(y, x)
    ensures Ties(s, y, le) == []
    decreases |s|
  {
    assert !le(s[0], y);
    if |s| > 1 {
      assert le(s[0], s[1]);
      assert !le(s[1], x);
      NoTiesAfter(s[1..], x, y, le);
    }
  }

  /** Stability: the sort keeps tied elements in their original relative order. */
  lemma {:induction false} SortByStable<T(!new)>(s: seq<T>, y: T, le: (T, T) -> bool)
    requires TotalPreorder(le)
    ensures Ties(SortBy(s, le), y, le) == Ties(s, y, le)
    decreases |s|
  {
    if s != [] {
      var init := s[..|s| - 1];
      var x := s[|s| - 1];
      SortByStable(init, y, le);
      TiesInsert(x, SortBy(init, le), y, le);
      assert s == init + [x];
      TiesAppend(init, [x], y, le);
    }
  }
}

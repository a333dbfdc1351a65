/** Order-keeping selection from a sequence: the shape of Python's
    `[x for x in xs if p(x)]` and of a loop that appends the elements it
    keeps. A filter's result is pinned down by being a subsequence of the
    input whose multiset holds exactly the kept elements. */
module Sequences {

  /** `a` is `b` with some elements left out, the rest in their order. */
  predicate IsSubsequence<T(==)>(a: seq<T>, b: seq<T>)
    decreases |b|
  {
    if a == [] then true
    else if b == [] then false
    else if a[0] == b[0] then IsSubsequence(a[1..], b[1..])
    else IsSubsequence(a, b[1..])
  }

  /** Dropping one more element at the end keeps a subsequence one. */
  lemma {:induction false} SubsequenceGrow<T>(a: seq<T>, b: seq<T>, x: T)
    requires IsSubsequence(a, b)
    ensures IsSubsequence(a, b + [x])
    decreases |b|
  {
    if a != [] {
      assert (b + [x])[0] == b[0] && (b + [x])[1..] == b[1..] + [x];
      if a[0] == b[0] {
        SubsequenceGrow(a[1..], b[1..], x);
      } else {
        SubsequenceGrow(a, b[1..], x);
      }
    }
  }

  /** Keeping one more element at the end keeps a subsequence one. */
  lemma {:induction false} SubsequenceSnoc<T>(a: seq<T>, b: seq<T>, x: T)
    requires IsSubsequence(a, b)
    ensures IsSubsequence(a + [x], b + [x])
    decreases |b|
  {
    if a == [] {
      LastIsSubsequence(b, x);
      assert a + [x] == [x];
    } else {
      assert (a + [x])[0] == a[0] && (a + [x])[1..] == a[1..] + [x];
      assert (b + [x])[0] == b[0] && (b + [x])[1..] == b[1..] + [x];
      if a[0] == b[0] {
        SubsequenceSnoc(a[1..], b[1..], x);
      } else {
        SubsequenceSnoc(a, b[1..], x);
      }
    }
  }

  /** The last element alone is a subsequence. */
  lemma {:induction false} LastIsSubsequence<T>(b: seq<T>, x: T)
    ensures IsSubsequence([x], b + [x])
    decreases |b|
  {
    if b != [] {
      assert (b + [x])[1..] == b[1..] + [x];
      LastIsSubsequence(b[1..], x);
    }
  }

  /** One step of an order-keeping filter: keeping or dropping the head of
      `xs` in front of the filtered tail. */
  lemma FilterStep<T>(xs: seq<T>, rest: seq<T>, keep: T -> bool)
    requires xs != []
    requires IsSubsequence(rest, xs[1..])
    requires forall x :: multiset(rest)[x] == if keep(x) then multiset(xs[1..])[x] else 0
    ensures var r := if keep(xs[0]) then [xs[0]] + rest else rest;
      IsSubsequence(r, xs) && forall x :: multiset(r)[x] == if keep(x) then multiset(xs)[x] else 0
  {
    assert xs == [xs[0]] + xs[1..];
    assert multiset(xs) == multiset([xs[0]]) + multiset(xs[1..]);
    if keep(xs[0]) {
      assert ([xs[0]] + rest)[1..] == rest;
    } else if rest != [] {
      assert multiset(rest)[rest[0]] > 0;
    }
  }

  /** The same step for a filter that walks `xs` from the end: keeping or
      dropping the last element after the filtered front. */
  lemma FilterSnoc<T>(xs: seq<T>, init: seq<T>, keep: T -> bool)
    requires xs != []
    requires IsSubsequence(init, xs[..|xs| - 1])
    requires forall x :: multiset(init)[x] == if keep(x) then multiset(xs[..|xs| - 1])[x] else 0
    ensures var r := if keep(xs[|xs| - 1]) then init + [xs[|xs| - 1]] else init;
      IsSubsequence(r, xs) && forall x :: multiset(r)[x] == if keep(x) then multiset(xs)[x] else 0
  {
    var front, last := xs[..|xs| - 1], xs[|xs| - 1];
    assert xs == front + [last];
    if keep(last) {
      SubsequenceSnoc(init, front, last);
    } else {
      SubsequenceGrow(init, front, last);
    }
  }

  /** A filter keeps exactly the elements that pass, as far as membership
      goes. */
  lemma FilterMembers<T>(r: seq<T>, xs: seq<T>, keep: T -> bool)
    requires forall x :: multiset(r)[x] == if keep(x) then multiset(xs)[x] else 0
    ensures forall x :: x in r <==> x in xs && keep(x)
  {
    forall x
      ensures x in r <==> x in xs && keep(x)
    {
      assert x in r <==> multiset(r)[x] > 0;
      assert x in xs <==> multiset(xs)[x] > 0;
    }
  }
}

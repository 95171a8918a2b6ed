/** Order-preserving selection over sequences, used both for the handler's
    `filter` of valid rows and for the service's split into inserts and
    updates. Everything is proved once here for an arbitrary predicate. */
module Sequences {

  /** The elements of `xs` that `keep` accepts, in their original order. */
  function Filter<T>(xs: seq<T>, keep: T -> bool): (r: seq<T>)
    ensures |r| <= |xs|
    decreases |xs|
  {
    if xs == [] then []
    else Filter(xs[..|xs| - 1], keep) + (if keep(xs[|xs| - 1]) then [xs[|xs| - 1]] else [])
  }

  /** The predicate that rejects what `keep` accepts. */
  function Not<T>(keep: T -> bool): T -> bool {
    x => !keep(x)
  }

  /** `f` applied to each element, in order. */
  function Map<T, U>(xs: seq<T>, f: T -> U): seq<U>
  {
    seq(|xs|, i requires 0 <= i < |xs| => f(xs[i]))
  }

  /** The positions of the accepted elements, in increasing order. */
  function Positions<T>(xs: seq<T>, keep: T -> bool): (ix: seq<nat>)
    ensures forall j :: 0 <= j < |ix| ==> ix[j] < |xs| && keep(xs[ix[j]])
    ensures forall j, k :: 0 <= j < k < |ix| ==> ix[j] < ix[k]
    ensures forall i :: 0 <= i < |xs| && keep(xs[i]) ==> i in ix
    decreases |xs|
  {
    if xs == [] then []
    else
      var n := |xs| - 1;
      var init := xs[..n];
      assert forall i :: 0 <= i < n ==> init[i] == xs[i];
      Positions(init, keep) + (if keep(xs[n]) then [n] else [])
  }

  /** Filtering a concatenation filters each part: the selection of one
      element never depends on the others, and order is kept. */
  lemma {:induction false} FilterAppend<T>(a: seq<T>, b: seq<T>, keep: T -> bool)
    ensures Filter(a + b, keep) == Filter(a, keep) + Filter(b, keep)
    decreases |b|
  {
    if b != [] {
      var n := |b| - 1;
      assert (a + b)[..|a + b| - 1] == a + b[..n];
      assert (a + b)[|a + b| - 1] == b[n];
      FilterAppend(a, b[..n], keep);
    } else {
      assert a + b == a;
    }
  }

  /** An element is selected iff it occurs and is accepted. */
  lemma {:induction false} FilterMembership<T>(xs: seq<T>, keep: T -> bool)
    ensures forall x :: x in Filter(xs, keep) <==> x in xs && keep(x)
    decreases |xs|
  {
    if xs != [] {
      var n := |xs| - 1;
      FilterMembership(xs[..n], keep);
      assert xs == xs[..n] + [xs[n]];
    }
  }

  /** The selection is exactly the accepted elements, read at their
      positions: nothing reordered, nothing accepted dropped. */
  lemma {:induction false} FilterAtPositions<T>(xs: seq<T>, keep: T -> bool)
    ensures var r, ix := Filter(xs, keep), Positions(xs, keep);
      |r| == |ix| && forall j :: 0 <= j < |r| ==> r[j] == xs[ix[j]]
    decreases |xs|
  {
    if xs != [] {
      var n := |xs| - 1;
      FilterAtPositions(xs[..n], keep);
      var ix := Positions(xs[..n], keep);
      assert forall j :: 0 <= j < |ix| ==> xs[..n][ix[j]] == xs[ix[j]];
    }
  }

  /** Filtering one more element at the end. */
  lemma FilterSnoc<T>(xs: seq<T>, x: T, keep: T -> bool)
    ensures Filter(xs + [x], keep) == Filter(xs, keep) + if keep(x) then [x] else []
  {
    assert (xs + [x])[..|xs|] == xs;
  }

  lemma {:induction false} FilterSplitMultiset<T>(xs: seq<T>, keep: T -> bool)
    ensures multiset(Filter(xs, keep)) + multiset(Filter(xs, Not(keep))) == multiset(xs)
    decreases |xs|
  {
    if xs != [] {
      var n := |xs| - 1;
      var init, x, drop := xs[..n], xs[n], Not(keep);
      assert xs == init + [x];
      FilterSplitMultiset(init, keep);
      FilterSnoc(init, x, keep);
      FilterSnoc(init, x, drop);
      assert drop(x) == !keep(x);
    }
  }

  /** The accepted and the rejected elements together are the whole
      sequence, each element exactly once. */
  lemma FilterSplit<T>(xs: seq<T>, keep: T -> bool)
    ensures multiset(Filter(xs, keep)) + multiset(Filter(xs, Not(keep))) == multiset(xs)
    ensures |Filter(xs, keep)| + |Filter(xs, Not(keep))| == |xs|
  {
    FilterSplitMultiset(xs, keep);
    assert |multiset(Filter(xs, keep)) + multiset(Filter(xs, Not(keep)))| == |multiset(xs)|;
  }

  /** When everything is rejected, nothing is selected. */
  lemma {:induction false} FilterNone<T>(xs: seq<T>, keep: T -> bool)
    requires forall x :: x in xs ==> !keep(x)
    ensures Filter(xs, keep) == []
    decreases |xs|
  {
    if xs != [] {
      var n := |xs| - 1;
      var init := xs[..n];
      forall x | x in init ensures !keep(x) {
        var i :| 0 <= i < |init| && init[i] == x;
        assert xs[i] == x;
      }
      FilterNone(init, keep);
      assert !keep(xs[n]) by {
        assert xs[n] in xs;
      }
    }
  }

  /** When everything is accepted, everything is selected. */
  lemma {:induction false} FilterAll<T>(xs: seq<T>, keep: T -> bool)
    requires forall x :: x in xs ==> keep(x)
    ensures Filter(xs, keep) == xs
    decreases |xs|
  {
    if xs != [] {
      var n := |xs| - 1;
      var init := xs[..n];
      forall x | x in init ensures keep(x) {
        var i :| 0 <= i < |init| && init[i] == x;
        assert xs[i] == x;
      }
      FilterAll(init, keep);
      assert keep(xs[n]) by {
        assert xs[n] in xs;
      }
      assert xs == init + [xs[n]];
    }
  }

  /** An element is selected from an image iff it is accepted and some
      element of the source maps to it. */
  lemma FilterMapMembership<T, U>(xs: seq<T>, f: T -> U, keep: U -> bool)
    ensures forall y :: y in Filter(Map(xs, f), keep) <==> keep(y) && exists i :: 0 <= i < |xs| && f(xs[i]) == y
  {
    var ys := Map(xs, f);
    FilterMembership(ys, keep);
    forall y ensures y in ys <==> exists i :: 0 <= i < |xs| && f(xs[i]) == y {
      if y in ys {
        var i :| 0 <= i < |ys| && ys[i] == y;
        assert f(xs[i]) == y;
      }
      if exists i :: 0 <= i < |xs| && f(xs[i]) == y {
        var i :| 0 <= i < |xs| && f(xs[i]) == y;
        assert ys[i] == y;
      }
    }
  }

  /** The loop form of `Filter`: one pass, appending each accepted element. */
  method FilterInOrder<T>(xs: seq<T>, keep: T -> bool) returns (r: seq<T>)
    ensures r == Filter(xs, keep)
  {
    r := [];
    for i := 0 to |xs|
      invariant r == Filter(xs[..i], keep)
    {
      FilterAppend(xs[..i], [xs[i]], keep);
      assert xs[..i + 1] == xs[..i] + [xs[i]];
      assert [xs[i]][..0] == [];
      if keep(xs[i]) {
        r := r + [xs[i]];
      }
    }
    assert xs[..|xs|] == xs;
  }

  /** Filtering the image of a single element. */
  lemma FilterMapOne<T, U>(x: T, f: T -> U, keep: U -> bool)
    ensures Filter(Map([x], f), keep) == if keep(f(x)) then [f(x)] else []
    ensures |Filter(Map([x], f), Not(keep))| == if keep(f(x)) then 0 else 1
  {
    assert Map([x], f) == [f(x)];
    assert [f(x)][..0] == [];
  }

  /** Filtering the image of two elements. */
  lemma FilterMapTwo<T, U>(x: T, y: T, f: T -> U, keep: U -> bool)
    requires keep(f(x)) && keep(f(y))
    ensures Filter(Map([x, y], f), keep) == [f(x), f(y)]
    ensures Filter(Map([x, y], f), Not(keep)) == []
  {
    assert Map([x, y], f) == [f(x), f(y)];
    FilterAll([f(x), f(y)], keep);
    FilterNone([f(x), f(y)], Not(keep));
  }

  /** `FilterAtPositions` for the image of a sequence, read back in terms of
      the source elements. */
  lemma FilterMapAtPositions<T, U>(xs: seq<T>, f: T -> U, keep: U -> bool)
    ensures var r, ix := Filter(Map(xs, f), keep), Positions(Map(xs, f), keep);
      && |r| == |ix|
      && (forall j :: 0 <= j < |r| ==> ix[j] < |xs| && r[j] == f(xs[ix[j]]))
      && (forall j, k :: 0 <= j < k < |ix| ==> ix[j] < ix[k])
      && (forall i :: 0 <= i < |xs| && keep(f(xs[i])) ==> i in ix)
  {
    var ys := Map(xs, f);
    FilterAtPositions(ys, keep);
    assert forall i :: 0 <= i < |xs| ==> ys[i] == f(xs[i]);
  }
}

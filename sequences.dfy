/**
 * Order-preserving selection from a list, as PHP's array_filter does it on
 * a list (the re-indexing of keys aside).
 */
module Sequences {

  /** The elements of xs that keep accepts, in their original order. */
  function Filter<T>(xs: seq<T>, keep: T -> bool): (r: seq<T>)
    ensures |r| <= |xs|
    ensures forall k :: 0 <= k < |r| ==> r[k] in xs && keep(r[k])
    ensures forall i :: 0 <= i < |xs| && keep(xs[i]) ==> xs[i] in r
    decreases |xs|
  {
    if xs == [] then []
    else
      var rest := Filter(xs[1..], keep);
      assert forall i :: 1 <= i < |xs| ==> xs[i] == xs[1..][i - 1];
      if keep(xs[0]) then [xs[0]] + rest else rest
  }

  /** Filtering a concatenation filters each part. */
  lemma {:induction false} FilterAppend<T>(a: seq<T>, b: seq<T>, keep: T -> bool)
    ensures Filter(a + b, keep) == Filter(a, keep) + Filter(b, keep)
    decreases |a|
  {
    if a == [] {
      assert a + b == b;
    } else {
      assert (a + b)[0] == a[0];
      assert (a + b)[1..] == a[1..] + b;
      FilterAppend(a[1..], b, keep);
    }
  }

  /** A filter that accepts everything keeps the list. */
  lemma {:induction false} FilterAll<T>(xs: seq<T>, keep: T -> bool)
    requires forall x :: keep(x)
    ensures Filter(xs, keep) == xs
    decreases |xs|
  {
    if xs != [] {
      FilterAll(xs[1..], keep);
    }
  }

  /** Filtering twice by the same test is filtering once. */
  lemma {:induction false} FilterIdempotent<T>(xs: seq<T>, keep: T -> bool)
    ensures Filter(Filter(xs, keep), keep) == Filter(xs, keep)
    decreases |xs|
  {
    if xs != [] {
      FilterIdempotent(xs[1..], keep);
      var rest := Filter(xs[1..], keep);
      if keep(xs[0]) {
        assert ([xs[0]] + rest)[1..] == rest;
      }
    }
  }

  /** Filtering by p and then by q is filtering by "p and q". */
  lemma {:induction false} FilterFilter<T>(xs: seq<T>, p: T -> bool, q: T -> bool, both: T -> bool)
    requires forall x :: both(x) == (p(x) && q(x))
    ensures Filter(Filter(xs, p), q) == Filter(xs, both)
    decreases |xs|
  {
    if xs != [] {
      FilterFilter(xs[1..], p, q, both);
      var rest := Filter(xs[1..], p);
      if p(xs[0]) {
        assert ([xs[0]] + rest)[0] == xs[0];
        assert ([xs[0]] + rest)[1..] == rest;
      }
    }
  }

  /** A test and its complement split a list into two parts that together hold every element. */
  lemma {:induction false} FilterPartition<T>(xs: seq<T>, keep: T -> bool, drop: T -> bool)
    requires forall x :: drop(x) == !keep(x)
    ensures |Filter(xs, keep)| + |Filter(xs, drop)| == |xs|
    ensures multiset(Filter(xs, keep)) + multiset(Filter(xs, drop)) == multiset(xs)
    decreases |xs|
  {
    if xs != [] {
      FilterPartition(xs[1..], keep, drop);
      assert xs == [xs[0]] + xs[1..];
    }
  }

  /** The positions (counted from offset) of the elements of xs that keep accepts. */
  ghost function KeptPositions<T>(xs: seq<T>, keep: T -> bool, offset: nat): seq<nat>
    decreases |xs|
  {
    if xs == [] then []
    else (if keep(xs[0]) then [offset] else []) + KeptPositions(xs[1..], keep, offset + 1)
  }

  lemma {:induction false} KeptPositionsInRange<T>(xs: seq<T>, keep: T -> bool, offset: nat)
    ensures forall k :: 0 <= k < |KeptPositions(xs, keep, offset)| ==>
      offset <= KeptPositions(xs, keep, offset)[k] < offset + |xs|
    decreases |xs|
  {
    if xs != [] {
      KeptPositionsInRange(xs[1..], keep, offset + 1);
    }
  }

  lemma {:induction false} KeptPositionsIncrease<T>(xs: seq<T>, keep: T -> bool, offset: nat)
    ensures forall k, l :: 0 <= k < l < |KeptPositions(xs, keep, offset)| ==> KeptPositions(xs, keep, offset)[k] < KeptPositions(xs, keep, offset)[l]
    decreases |xs|
  {
    if xs != [] {
      KeptPositionsIncrease(xs[1..], keep, offset + 1);
      KeptPositionsInRange(xs[1..], keep, offset + 1);
      var rest := KeptPositions(xs[1..], keep, offset + 1);
      var ix := KeptPositions(xs, keep, offset);
      if keep(xs[0]) {
        assert ix == [offset] + rest;
        forall k, l | 0 <= k < l < |ix|
          ensures ix[k] < ix[l]
        {
          assert ix[l] == rest[l - 1];
            if k > 0 {
            assert ix[k] == rest[k - 1];
          }
        }
      } else {
        assert ix == rest;
      }
    }
  }

  lemma {:induction false} KeptPositionsExact<T>(xs: seq<T>, keep: T -> bool, offset: nat)
    ensures forall i :: 0 <= i < |xs| ==> (keep(xs[i]) <==> offset + i in KeptPositions(xs, keep, offset))
    decreases |xs|
  {
    if xs != [] {
      var head: seq<nat> := if keep(xs[0]) then [offset] else [];
      var rest := KeptPositions(xs[1..], keep, offset + 1);
      var ix := KeptPositions(xs, keep, offset);
      assert ix == head + rest;
      KeptPositionsExact(xs[1..], keep, offset + 1);
      KeptPositionsInRange(xs[1..], keep, offset + 1);
      assert offset !in rest;
      assert keep(xs[0]) <==> offset + 0 in ix;
      forall i | 1 <= i < |xs|
        ensures keep(xs[i]) <==> offset + i in ix
      {
        assert xs[i] == xs[1..][i - 1];
        assert offset + i in ix <==> (offset + 1) + (i - 1) in rest;
      }
    }
  }

  lemma {:induction false} KeptPositionsCount<T>(xs: seq<T>, keep: T -> bool, offset: nat)
    ensures |KeptPositions(xs, keep, offset)| == |Filter(xs, keep)|
    decreases |xs|
  {
    if xs != [] {
      KeptPositionsCount(xs[1..], keep, offset + 1);
    }
  }

  lemma {:induction false} KeptPositionsReadAt<T>(xs: seq<T>, keep: T -> bool, offset: nat, k: nat)
    requires k < |KeptPositions(xs, keep, offset)|
    ensures offset <= KeptPositions(xs, keep, offset)[k] < offset + |xs|
    ensures k < |Filter(xs, keep)|
    ensures xs[KeptPositions(xs, keep, offset)[k] - offset] == Filter(xs, keep)[k]
    decreases |xs|
  {
    var rest := KeptPositions(xs[1..], keep, offset + 1);
    var fr := Filter(xs[1..], keep);
    if keep(xs[0]) {
      assert KeptPositions(xs, keep, offset) == [offset] + rest;
      assert Filter(xs, keep) == [xs[0]] + fr;
      if k > 0 {
        KeptPositionsReadAt(xs[1..], keep, offset + 1, k - 1);
      }
    } else {
      KeptPositionsReadAt(xs[1..], keep, offset + 1, k);
    }
  }

  /**
   * Filter reads xs at exactly the accepted positions, in increasing order:
   * it keeps every accepted element, drops every other one and never
   * reorders what it keeps.
   */
  lemma FilterKeepsOrder<T>(xs: seq<T>, keep: T -> bool)
    ensures var ix, r := KeptPositions(xs, keep, 0), Filter(xs, keep);
      && |ix| == |r|
      && (forall k :: 0 <= k < |ix| ==> ix[k] < |xs| && xs[ix[k]] == r[k])
      && (forall k, l :: 0 <= k < l < |ix| ==> ix[k] < ix[l])
      && (forall i :: 0 <= i < |xs| ==> (keep(xs[i]) <==> i in ix))
  {
    KeptPositionsCount(xs, keep, 0);
    forall k | 0 <= k < |KeptPositions(xs, keep, 0)|
      ensures KeptPositions(xs, keep, 0)[k] < |xs| && xs[KeptPositions(xs, keep, 0)[k]] == Filter(xs, keep)[k]
    {
      KeptPositionsReadAt(xs, keep, 0, k);
    }
    KeptPositionsIncrease(xs, keep, 0);
    KeptPositionsExact(xs, keep, 0);
  }

  /** The lists f gives for the elements of xs, concatenated in order. */
  function FlatMap<A, B>(xs: seq<A>, f: A -> seq<B>): seq<B>
    decreases |xs|
  {
    if xs == [] then [] else f(xs[0]) + FlatMap(xs[1..], f)
  }

  lemma FlatMapCons<A, B>(x: A, xs: seq<A>, f: A -> seq<B>)
    ensures FlatMap([x] + xs, f) == f(x) + FlatMap(xs, f)
  {
    assert ([x] + xs)[0] == x;
    assert ([x] + xs)[1..] == xs;
  }

  /** Mapping a concatenation maps each part. */
  lemma {:induction false} FlatMapAppend<A, B>(a: seq<A>, b: seq<A>, f: A -> seq<B>)
    ensures FlatMap(a + b, f) == FlatMap(a, f) + FlatMap(b, f)
    decreases |a|
  {
    if a == [] {
      assert a + b == b;
    } else {
      assert (a + b)[0] == a[0];
      assert (a + b)[1..] == a[1..] + b;
      FlatMapAppend(a[1..], b, f);
    }
  }

  /** One more element adds what f gives for it. */
  lemma FlatMapSnoc<A, B>(xs: seq<A>, x: A, f: A -> seq<B>)
    ensures FlatMap(xs + [x], f) == FlatMap(xs, f) + f(x)
  {
    FlatMapAppend(xs, [x], f);
    FlatMapCons(x, [], f);
    assert [x] + [] == [x];
    assert f(x) + [] == f(x);
  }

  /** Mapping one more element of a prefix adds what f gives for it. */
  lemma FlatMapPrefix<A, B>(xs: seq<A>, i: nat, f: A -> seq<B>)
    requires i < |xs|
    ensures FlatMap(xs[..i + 1], f) == FlatMap(xs[..i], f) + f(xs[i])
  {
    assert xs[..i + 1] == xs[..i] + [xs[i]];
    FlatMapSnoc(xs[..i], xs[i], f);
  }

  /**
   * When f gives one element g(x) for the elements keep accepts and none for
   * the others, mapping is filtering by keep and applying g.
   */
  lemma {:induction false} FlatMapSingles<A, B>(xs: seq<A>, f: A -> seq<B>, keep: A -> bool, g: A -> B)
    requires forall x :: f(x) == if keep(x) then [g(x)] else []
    ensures |FlatMap(xs, f)| == |Filter(xs, keep)|
    ensures forall k :: 0 <= k < |FlatMap(xs, f)| ==> FlatMap(xs, f)[k] == g(Filter(xs, keep)[k])
    decreases |xs|
  {
    if xs != [] {
      FlatMapSingles(xs[1..], f, keep, g);
      var rest := Filter(xs[1..], keep);
      if keep(xs[0]) {
        assert Filter(xs, keep) == [xs[0]] + rest;
        assert FlatMap(xs, f) == [g(xs[0])] + FlatMap(xs[1..], f);
      } else {
        assert FlatMap(xs, f) == FlatMap(xs[1..], f);
      }
    }
  }

  /** Elements that each give exactly one value, followed by one that gives none, give those values. */
  lemma {:induction false} FlatMapOnes<A, B>(xs: seq<A>, last: A, ys: seq<B>, f: A -> seq<B>)
    requires |xs| == |ys| && f(last) == []
    requires forall k :: 0 <= k < |xs| ==> f(xs[k]) == [ys[k]]
    ensures FlatMap(xs + [last], f) == ys
    decreases |xs|
  {
    if xs == [] {
      assert xs + [last] == [last];
      FlatMapCons(last, [], f);
    } else {
      assert xs + [last] == [xs[0]] + (xs[1..] + [last]);
      FlatMapCons(xs[0], xs[1..] + [last], f);
      FlatMapOnes(xs[1..], last, ys[1..], f);
      assert [ys[0]] + ys[1..] == ys;
    }
  }
}

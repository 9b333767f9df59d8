/**
 * std::sort, modelled by a functional insertion sort over a comparator, and
 * the canonical ascending sequence of a finite set. Under a strict total
 * order the strictly ascending sequence of a set of distinct elements is
 * unique, so any sorting algorithm gives the result Ordered names.
 */
module Sorting {

  /** `lt` is a strict total order: irreflexive, transitive, and any two distinct values compare. */
  ghost predicate StrictTotal<T(!new)>(lt: (T, T) -> bool)
  {
    (forall a :: !lt(a, a)) &&
    (forall a, b, c :: lt(a, b) && lt(b, c) ==> lt(a, c)) &&
    (forall a, b :: a != b ==> lt(a, b) || lt(b, a))
  }

  /** No later element is below an earlier one. */
  predicate Sorted<T>(xs: seq<T>, lt: (T, T) -> bool)
  {
    forall i, j :: 0 <= i < j < |xs| ==> !lt(xs[j], xs[i])
  }

  /** Every earlier element is below every later one. */
  predicate StrictlySorted<T>(xs: seq<T>, lt: (T, T) -> bool)
  {
    forall i, j :: 0 <= i < j < |xs| ==> lt(xs[i], xs[j])
  }

  predicate Distinct<T(==)>(xs: seq<T>)
  {
    forall i, j :: 0 <= i < j < |xs| ==> xs[i] != xs[j]
  }

  /** `x` placed before the first element it is not above. */
  function Insert<T>(x: T, xs: seq<T>, lt: (T, T) -> bool): (r: seq<T>)
    ensures multiset(r) == multiset(xs) + multiset{x}
    ensures |r| == |xs| + 1
  {
    if xs == [] then [x]
    else if lt(xs[0], x) then
      assert xs == [xs[0]] + xs[1..];
      [xs[0]] + Insert(x, xs[1..], lt)
    else [x] + xs
  }

  /** The elements of `xs` in ascending order; a permutation of `xs`. */
  function SortBy<T>(xs: seq<T>, lt: (T, T) -> bool): (r: seq<T>)
    ensures multiset(r) == multiset(xs)
    ensures |r| == |xs|
  {
    if xs == [] then []
    else
      assert xs == [xs[0]] + xs[1..];
      Insert(xs[0], SortBy(xs[1..], lt), lt)
  }

  lemma {:induction false} InsertSorted<T(!new)>(x: T, xs: seq<T>, lt: (T, T) -> bool)
    requires StrictTotal(lt) && Sorted(xs, lt)
    ensures Sorted(Insert(x, xs, lt), lt)
  {
    if xs != [] {
      var r := Insert(x, xs, lt);
      if lt(xs[0], x) {
        var tail := Insert(x, xs[1..], lt);
        InsertSorted(x, xs[1..], lt);
        assert r == [xs[0]] + tail;
        forall j | 0 <= j < |tail|
          ensures !lt(tail[j], xs[0])
        {
          assert tail[j] in multiset(xs[1..]) + multiset{x};
          if tail[j] != x {
            assert tail[j] in xs[1..];
            var p :| 0 <= p < |xs[1..]| && xs[1..][p] == tail[j];
            assert xs[p + 1] == tail[j];
          }
        }
      } else {
        forall j | 0 < j < |xs|
          ensures !lt(xs[j], x)
        {
          assert !lt(xs[j], xs[0]);
          if xs[j] != xs[0] {
            assert lt(xs[0], xs[j]);
          }
        }
        assert r == [x] + xs;
      }
    }
  }

  /** SortBy leaves its result in ascending order. */
  lemma {:induction false} SortBySorted<T(!new)>(xs: seq<T>, lt: (T, T) -> bool)
    requires StrictTotal(lt)
    ensures Sorted(SortBy(xs, lt), lt)
  {
    if xs != [] {
      SortBySorted(xs[1..], lt);
      InsertSorted(xs[0], SortBy(xs[1..], lt), lt);
    }
  }

  /** An ascending sequence without repeats is strictly ascending. */
  lemma SortedDistinctStrict<T(!new)>(xs: seq<T>, lt: (T, T) -> bool)
    requires StrictTotal(lt) && Sorted(xs, lt) && Distinct(xs)
    ensures StrictlySorted(xs, lt)
  {
    forall i, j | 0 <= i < j < |xs|
      ensures lt(xs[i], xs[j])
    {
      assert xs[i] != xs[j] && !lt(xs[j], xs[i]);
    }
  }

  /** Counting: an element that occurs at two positions occurs at least twice in the multiset. */
  lemma {:induction false} TwiceCounted<T>(xs: seq<T>, i: nat, j: nat)
    requires i < j < |xs| && xs[i] == xs[j]
    ensures multiset(xs)[xs[i]] >= 2
  {
    var a, b, c := xs[..i], xs[i + 1..j], xs[j + 1..];
    assert xs == a + [xs[i]] + b + [xs[j]] + c;
  }

  /** Counting: an element of a repeat-free sequence occurs exactly once in the multiset. */
  lemma {:induction false} DistinctCounted<T>(xs: seq<T>, x: T)
    requires Distinct(xs)
    ensures multiset(xs)[x] <= 1
    decreases |xs|
  {
    if xs != [] {
      var ys := xs[..|xs| - 1];
      assert xs == ys + [xs[|xs| - 1]];
      assert Distinct(ys);
      DistinctCounted(ys, x);
      if x == xs[|xs| - 1] {
        assert x !in ys;
      }
    }
  }

  /** A permutation of a repeat-free sequence has no repeats. */
  lemma PermutationDistinct<T>(xs: seq<T>, ys: seq<T>)
    requires multiset(xs) == multiset(ys) && Distinct(xs)
    ensures Distinct(ys)
  {
    forall i, j | 0 <= i < j < |ys|
      ensures ys[i] != ys[j]
    {
      if ys[i] == ys[j] {
        TwiceCounted(ys, i, j);
        DistinctCounted(xs, ys[i]);
      }
    }
  }

  /** `m` is in `s` and below every other element of `s`. */
  ghost predicate IsLeast<T>(m: T, s: set<T>, lt: (T, T) -> bool)
  {
    m in s && forall x :: x in s && x != m ==> lt(m, x)
  }

  /** A non-empty set has a least element. */
  lemma {:induction false} LeastExists<T(!new)>(s: set<T>, lt: (T, T) -> bool)
    requires s != {} && StrictTotal(lt)
    ensures exists m :: IsLeast(m, s, lt)
    decreases |s|
  {
    var y :| y in s;
    if s == {y} {
      assert IsLeast(y, s, lt);
    } else {
      var t := s - {y};
      assert t != {};
      LeastExists(t, lt);
      var m :| IsLeast(m, t, lt);
      if lt(m, y) {
        forall x | x in s && x != m
          ensures lt(m, x)
        {
          if x != y {
            assert x in t;
          }
        }
        assert IsLeast(m, s, lt);
      } else {
        assert m in t && m != y;
        assert lt(y, m);
        forall x | x in s && x != y
          ensures lt(y, x)
        {
          if x != m {
            assert x in t;
            assert lt(m, x);
          }
        }
        assert IsLeast(y, s, lt);
      }
    }
  }

  /** The least element is unique. */
  lemma LeastUnique<T(!new)>(a: T, b: T, s: set<T>, lt: (T, T) -> bool)
    requires StrictTotal(lt) && IsLeast(a, s, lt)
    requires b in s && forall x :: x in s && x != b ==> lt(b, x)
    ensures a == b
  {
  }

  ghost function Least<T(!new)>(s: set<T>, lt: (T, T) -> bool): (m: T)
    requires s != {} && StrictTotal(lt)
    ensures IsLeast(m, s, lt)
  {
    LeastExists(s, lt);
    var m :| IsLeast(m, s, lt); m
  }

  /** The elements of `s`, strictly ascending. */
  ghost function Ordered<T(!new)>(s: set<T>, lt: (T, T) -> bool): (r: seq<T>)
    requires StrictTotal(lt)
    ensures forall x :: x in r <==> x in s
    ensures |r| == |s|
    ensures StrictlySorted(r, lt)
    decreases |s|
  {
    if s == {} then []
    else
      var m := Least(s, lt);
      var rest := Ordered(s - {m}, lt);
      assert forall j :: 0 <= j < |rest| ==> rest[j] in s - {m};
      [m] + rest
  }

  /** A strictly ascending sequence is determined by its elements: it is Ordered of its set. */
  lemma {:induction false} SortedUnique<T(!new)>(r: seq<T>, s: set<T>, lt: (T, T) -> bool)
    requires StrictTotal(lt) && StrictlySorted(r, lt)
    requires forall x :: x in r <==> x in s
    ensures r == Ordered(s, lt)
    decreases |r|
  {
    if r == [] {
      assert s == {};
    } else {
      assert r[0] in s;
      var m := Least(s, lt);
      forall x | x in s && x != r[0]
        ensures lt(r[0], x)
      {
        var p :| 0 <= p < |r| && r[p] == x;
        assert p > 0;
      }
      LeastUnique(m, r[0], s, lt);
      var rest := r[1..];
      assert StrictlySorted(rest, lt);
      forall x
        ensures x in rest <==> x in s - {m}
      {
        if x in rest {
          var p :| 0 <= p < |rest| && rest[p] == x;
          assert lt(r[0], r[p + 1]);
        }
        if x in s - {m} {
          assert x in r;
        }
      }
      SortedUnique(rest, s - {m}, lt);
      assert r == [m] + rest;
    }
  }

  // ---------------------------------------------------------------------
  // Permutations of positions
  // ---------------------------------------------------------------------

  /** 0, 1, ..., n - 1. */
  function Range(n: nat): (r: seq<nat>)
    ensures |r| == n && forall i :: 0 <= i < n ==> r[i] == i
  {
    seq(n, i => i)
  }

  /** `ix` lists every position below `n` exactly once. */
  predicate IsPermutation(ix: seq<nat>, n: nat)
  {
    multiset(ix) == multiset(Range(n))
  }

  /** The positions of a permutation are in range. */
  lemma PermutationInRange(ix: seq<nat>, n: nat)
    requires IsPermutation(ix, n)
    ensures |ix| == n && forall j :: 0 <= j < |ix| ==> ix[j] < n
  {
    assert |multiset(ix)| == |multiset(Range(n))|;
    forall j | 0 <= j < |ix|
      ensures ix[j] < n
    {
      assert ix[j] in multiset(Range(n));
    }
  }

  /** Every position of `ix` is below `n`. */
  predicate InRange(ix: seq<nat>, n: nat)
  {
    forall j :: 0 <= j < |ix| ==> ix[j] < n
  }

  /** The elements of `xs` at the positions `ix`, in the order of `ix`. */
  function Gather<T>(xs: seq<T>, ix: seq<nat>): seq<T>
    requires InRange(ix, |xs|)
  {
    seq(|ix|, j requires 0 <= j < |ix| => xs[ix[j]])
  }

  /** Taking the same element off two equal multisets leaves equal multisets. */
  lemma RemoveOne(a: seq<nat>, front: seq<nat>, back: seq<nat>, e: nat)
    requires multiset(a + [e]) == multiset(front + [e] + back)
    ensures multiset(a) == multiset(front + back)
  {
    assert multiset(a + [e]) == multiset(a) + multiset{e};
    assert multiset(front + [e] + back) == multiset(front + back) + multiset{e};
    assert multiset(a) == multiset(a + [e]) - multiset{e};
    assert multiset(front + back) == multiset(front + [e] + back) - multiset{e};
  }

  lemma GatherConcat<T>(xs: seq<T>, a: seq<nat>, b: seq<nat>)
    requires InRange(a, |xs|) && InRange(b, |xs|)
    ensures InRange(a + b, |xs|)
    ensures multiset(Gather(xs, a + b)) == multiset(Gather(xs, a)) + multiset(Gather(xs, b))
  {
    assert InRange(a + b, |xs|) by {
      forall j | 0 <= j < |a + b|
        ensures (a + b)[j] < |xs|
      {
        if j >= |a| {
          assert (a + b)[j] == b[j - |a|];
        }
      }
    }
    assert Gather(xs, a + b) == Gather(xs, a) + Gather(xs, b);
  }

  /** Positions with the multiset of in-range positions are in range. */
  lemma MultisetInRange(ix1: seq<nat>, ix2: seq<nat>, n: nat)
    requires InRange(ix1, n) && multiset(ix1) == multiset(ix2)
    ensures InRange(ix2, n)
  {
    forall j | 0 <= j < |ix2|
      ensures ix2[j] < n
    {
      assert ix2[j] in multiset(ix1);
    }
  }

  /** One more position on each side: the gathered multisets stay equal. */
  lemma GatherStep<T>(xs: seq<T>, init: seq<nat>, e: nat, front: seq<nat>, back: seq<nat>)
    requires InRange(init, |xs|) && InRange(front, |xs|) && InRange(back, |xs|) && e < |xs|
    requires InRange(front + back, |xs|)
    requires multiset(Gather(xs, init)) == multiset(Gather(xs, front + back))
    ensures InRange(init + [e], |xs|) && InRange(front + [e] + back, |xs|)
    ensures multiset(Gather(xs, init + [e])) == multiset(Gather(xs, front + [e] + back))
  {
    assert InRange([e], |xs|);
    GatherConcat(xs, init, [e]);
    GatherConcat(xs, front, [e]);
    GatherConcat(xs, front + [e], back);
    GatherConcat(xs, front, back);
  }

  /** Gathering at position lists with the same multiset gives sequences with the same multiset. */
  lemma {:induction false} GatherMultiset<T>(xs: seq<T>, ix1: seq<nat>, ix2: seq<nat>)
    requires InRange(ix1, |xs|)
    requires multiset(ix1) == multiset(ix2)
    ensures InRange(ix2, |xs|)
    ensures multiset(Gather(xs, ix1)) == multiset(Gather(xs, ix2))
    decreases |ix1|
  {
    MultisetInRange(ix1, ix2, |xs|);
    if ix1 != [] {
      var n := |ix1|;
      var e := ix1[n - 1];
      var init := ix1[..n - 1];
      assert ix1 == init + [e];
      assert e in multiset(ix2);
      var p :| 0 <= p < |ix2| && ix2[p] == e;
      var front, back := ix2[..p], ix2[p + 1..];
      assert ix2 == front + [e] + back;
      RemoveOne(init, front, back, e);
      GatherMultiset(xs, init, front + back);
      GatherStep(xs, init, e, front, back);
    }
  }

  /** Reading a sequence through a permutation of its positions only reorders it. */
  lemma PermutedMultiset<T>(xs: seq<T>, ix: seq<nat>)
    requires IsPermutation(ix, |xs|)
    ensures forall j :: 0 <= j < |ix| ==> ix[j] < |xs|
    ensures multiset(Gather(xs, ix)) == multiset(xs)
  {
    PermutationInRange(ix, |xs|);
    GatherMultiset(xs, Range(|xs|), ix);
    assert Gather(xs, Range(|xs|)) == xs;
  }
}

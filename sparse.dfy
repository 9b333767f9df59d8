/**
 * Sparse vectors: maps from a key to a value, an absent key reading as 0.
 * Both clustering tools keep their feature vectors this way (integer keys in
 * the constrained k-means, word keys in k-means++), and both add, scale and
 * compare them by the same key-wise rules.
 */
module SparseVectors {
  import opened SetSums

  type Vec<K> = map<K, real>

  /** The value stored under `k`, or 0 when there is none. */
  function Get<K>(v: Vec<K>, k: K): real
  {
    if k in v then v[k] else 0.0
  }

  /** The term of key `k` in the squared distance of `a` and `b`. */
  function SqTerm<K>(a: Vec<K>, b: Vec<K>): K -> real
  {
    k => (Get(a, k) - Get(b, k)) * (Get(a, k) - Get(b, k))
  }

  /** The squared Euclidean distance: the squared differences summed over the union of the keys. */
  ghost function SqDist<K>(a: Vec<K>, b: Vec<K>): real
  {
    Sum(a.Keys + b.Keys, SqTerm(a, b))
  }

  /** A square is never negative, and it is positive exactly when its root is not zero. */
  lemma Square(x: real)
    ensures x * x >= 0.0
    ensures x * x > 0.0 <==> x != 0.0
    ensures (-x) * (-x) == x * x
  {
    if x < 0.0 {
      var y := -x;
      assert y * y > 0.0;
      assert y * y == x * x;
    } else if x > 0.0 {
      assert x * x > 0.0;
    }
  }

  /** Every term is non-negative, and positive exactly where the two vectors differ. */
  lemma SqTermFacts<K>(a: Vec<K>, b: Vec<K>, k: K)
    ensures SqTerm(a, b)(k) >= 0.0
    ensures SqTerm(a, b)(k) > 0.0 <==> Get(a, k) != Get(b, k)
  {
    var x := Get(a, k) - Get(b, k);
    Square(x);
    if x != 0.0 {
      calc {
        SqTerm(a, b)(k);
      ==
        x * x;
      >
        0.0;
      }
    }
  }

  /** Each term is the same with the two vectors swapped. */
  lemma SqTermSymmetric<K>(a: Vec<K>, b: Vec<K>, k: K)
    ensures SqTerm(a, b)(k) == SqTerm(b, a)(k)
  {
    var x := Get(a, k) - Get(b, k);
    Square(x);
    assert Get(b, k) - Get(a, k) == -x;
  }

  /** The distance does not depend on the order of its arguments. */
  lemma SqDistSymmetric<K>(a: Vec<K>, b: Vec<K>)
    ensures SqDist(a, b) == SqDist(b, a)
  {
    forall k | k in a.Keys + b.Keys
      ensures SqTerm(a, b)(k) == SqTerm(b, a)(k)
    {
      SqTermSymmetric(a, b, k);
    }
    SumCongruent(a.Keys + b.Keys, SqTerm(a, b), SqTerm(b, a));
    assert a.Keys + b.Keys == b.Keys + a.Keys;
  }

  /** The distance is never negative, and it is zero exactly when the vectors agree on every key. */
  lemma SqDistZero<K>(a: Vec<K>, b: Vec<K>)
    ensures SqDist(a, b) >= 0.0
    ensures SqDist(a, b) == 0.0 <==> forall k :: Get(a, k) == Get(b, k)
  {
    forall k | k in a.Keys + b.Keys
      ensures SqTerm(a, b)(k) >= 0.0
      ensures SqTerm(a, b)(k) == 0.0 <==> Get(a, k) == Get(b, k)
    {
      SqTermFacts(a, b, k);
    }
    SumNonNegative(a.Keys + b.Keys, SqTerm(a, b));
  }

  /** A vector is at distance zero from itself. */
  lemma SqDistSelf<K>(a: Vec<K>)
    ensures SqDist(a, a) == 0.0
  {
    SqDistZero(a, a);
  }

  /**
   * The distance loop of both tools: the first pass over the keys of `a`
   * (reading 0 for keys `b` lacks), then a pass over the keys of `b` that
   * the first pass did not visit.
   */
  method Distance<K>(a: Vec<K>, b: Vec<K>) returns (dist: real)
    ensures dist == SqDist(a, b)
  {
    dist := 0.0;
    var check: set<K> := {};
    var rest := a.Keys;
    while rest != {}
      invariant rest + check == a.Keys && rest !! check
      invariant dist == Sum(check, SqTerm(a, b))
    {
      var k :| k in rest;
      var val1 := a[k];
      var val2 := Get(b, k);
      dist := dist + (val1 - val2) * (val1 - val2);
      assert SqTerm(a, b)(k) == (val1 - val2) * (val1 - val2);
      SumRemove(check + {k}, SqTerm(a, b), k);
      assert check + {k} - {k} == check;
      check := check + {k};
      rest := rest - {k};
    }
    ghost var first := dist;
    ghost var visited: set<K> := {};
    rest := b.Keys;
    while rest != {}
      invariant rest + visited == b.Keys && rest !! visited
      invariant dist == first + Sum(visited - check, SqTerm(a, b))
    {
      var k :| k in rest;
      if k !in check {
        var val2 := b[k];
        var val1 := Get(a, k);
        dist := dist + (val1 - val2) * (val1 - val2);
        assert SqTerm(a, b)(k) == (val1 - val2) * (val1 - val2);
        SumRemove(visited + {k} - check, SqTerm(a, b), k);
        assert visited + {k} - check - {k} == visited - check;
      } else {
        assert visited + {k} - check == visited - check;
      }
      visited := visited + {k};
      rest := rest - {k};
    }
    SumUnion(check, b.Keys - check, SqTerm(a, b));
    assert check + (b.Keys - check) == a.Keys + b.Keys;
  }

  /** `a` with `b` added key by key; keys of either are kept. */
  function AddInto<K(!new)>(a: Vec<K>, b: Vec<K>): (r: Vec<K>)
    ensures r.Keys == a.Keys + b.Keys
    ensures forall k :: Get(r, k) == Get(a, k) + Get(b, k)
  {
    map k | k in a.Keys + b.Keys :: Get(a, k) + Get(b, k)
  }

  /** Every value divided by `n`; the key set is unchanged. */
  function Divide<K(!new)>(a: Vec<K>, n: real): (r: Vec<K>)
    requires n != 0.0
    ensures r.Keys == a.Keys
    ensures forall k :: Get(r, k) * n == Get(a, k)
  {
    map k | k in a :: a[k] / n
  }

  /** Two maps with the same keys and the same readings are equal. */
  lemma MapsAgree<K>(x: Vec<K>, y: Vec<K>)
    requires x.Keys == y.Keys && forall k :: Get(x, k) == Get(y, k)
    ensures x == y
  {
    forall k | k in x
      ensures x[k] == y[k]
    {
      assert Get(x, k) == Get(y, k);
    }
  }

  /** `v` with every key of `keys` it lacks stored as 0, as a lookup with operator[] leaves it. */
  function Pad<K(!new)>(v: Vec<K>, keys: set<K>): (r: Vec<K>)
    ensures r.Keys == v.Keys + keys
    ensures forall k :: Get(r, k) == Get(v, k)
  {
    map k | k in v.Keys + keys :: Get(v, k)
  }

  /** Storing the reading of one more key extends the padding by that key. */
  lemma PadStep<K(!new)>(v: Vec<K>, keys: set<K>, k: K)
    ensures Pad(v, keys)[k := Get(v, k)] == Pad(v, keys + {k})
  {
    MapsAgree(Pad(v, keys)[k := Get(v, k)], Pad(v, keys + {k}));
  }

  /** The distance depends only on the readings: stored zeros change nothing. */
  lemma SqDistReadings<K>(a: Vec<K>, b: Vec<K>, a2: Vec<K>, b2: Vec<K>)
    requires forall k :: Get(a, k) == Get(a2, k)
    requires forall k :: Get(b, k) == Get(b2, k)
    ensures SqDist(a, b) == SqDist(a2, b2)
  {
    var all := a.Keys + b.Keys + a2.Keys + b2.Keys;
    forall k | k in all
      ensures SqTerm(a, b)(k) == SqTerm(a2, b2)(k)
    {
      SqTermReadings(a, b, a2, b2, k);
    }
    forall k | k in all && k !in a.Keys + b.Keys
      ensures SqTerm(a, b)(k) == 0.0
    {
      SqTermOff(a, b, k);
    }
    forall k | k in all && k !in a2.Keys + b2.Keys
      ensures SqTerm(a2, b2)(k) == 0.0
    {
      SqTermOff(a2, b2, k);
    }
    SumDropZeros(all, a.Keys + b.Keys, SqTerm(a, b));
    SumCongruent(all, SqTerm(a, b), SqTerm(a2, b2));
    SumDropZeros(all, a2.Keys + b2.Keys, SqTerm(a2, b2));
  }

  /** Equal readings give equal terms. */
  lemma SqTermReadings<K>(a: Vec<K>, b: Vec<K>, a2: Vec<K>, b2: Vec<K>, k: K)
    requires Get(a, k) == Get(a2, k) && Get(b, k) == Get(b2, k)
    ensures SqTerm(a, b)(k) == SqTerm(a2, b2)(k)
  {
    var x := Get(a, k) - Get(b, k);
    assert Get(a2, k) - Get(b2, k) == x;
  }

  /** A key neither vector holds contributes nothing. */
  lemma SqTermOff<K>(a: Vec<K>, b: Vec<K>, k: K)
    requires k !in a.Keys + b.Keys
    ensures SqTerm(a, b)(k) == 0.0
  {
    assert Get(a, k) == 0.0 && Get(b, k) == 0.0;
  }

  /** The term of key `k` in the inner product of `a` and `b`. */
  function ProdTerm<K>(a: Vec<K>, b: Vec<K>): K -> real
  {
    k => Get(a, k) * Get(b, k)
  }

  /** The term of key `k`, given the two readings. */
  lemma ProdTermAt<K>(a: Vec<K>, b: Vec<K>, k: K, x: real, y: real)
    requires x == Get(a, k) && y == Get(b, k)
    ensures ProdTerm(a, b)(k) == x * y
  {
  }

  /** The inner product: the products summed over the keys both vectors hold. */
  ghost function Inner<K>(a: Vec<K>, b: Vec<K>): real
  {
    Sum(a.Keys * b.Keys, ProdTerm(a, b))
  }

  /** Summing the products over any superset of the common keys gives the inner product. */
  lemma InnerOver<K>(a: Vec<K>, b: Vec<K>, s: set<K>)
    requires a.Keys * b.Keys <= s
    ensures Sum(s, ProdTerm(a, b)) == Inner(a, b)
  {
    forall k | k in s && k !in a.Keys * b.Keys
      ensures ProdTerm(a, b)(k) == 0.0
    {
      if k !in a {
        assert Get(a, k) == 0.0;
      } else {
        assert Get(b, k) == 0.0;
      }
    }
    SumDropZeros(s, a.Keys * b.Keys, ProdTerm(a, b));
  }

  /** The inner product does not depend on the order of its arguments. */
  lemma InnerSymmetric<K>(a: Vec<K>, b: Vec<K>)
    ensures Inner(a, b) == Inner(b, a)
  {
    SumCongruent(a.Keys * b.Keys, ProdTerm(a, b), ProdTerm(b, a));
    assert a.Keys * b.Keys == b.Keys * a.Keys;
  }

  /** The inner product depends only on the readings: stored zeros change nothing. */
  lemma InnerReadings<K>(a: Vec<K>, b: Vec<K>, a2: Vec<K>, b2: Vec<K>)
    requires forall k :: Get(a, k) == Get(a2, k)
    requires forall k :: Get(b, k) == Get(b2, k)
    ensures Inner(a, b) == Inner(a2, b2)
  {
    var all := a.Keys + b.Keys + a2.Keys + b2.Keys;
    InnerOver(a, b, all);
    InnerOver(a2, b2, all);
    SumCongruent(all, ProdTerm(a, b), ProdTerm(a2, b2));
  }
}

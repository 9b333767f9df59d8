/**
 * Sums over finite sets taken in no particular order, and sums of sequences.
 * The programs sum over hash maps, whose iteration order is unspecified; with
 * exact reals the order does not matter, and SumRemove is the fact that says so.
 */
module SetSums {

  /** Some element of a non-empty set. */
  ghost function Pick<K>(s: set<K>): (k: K)
    requires s != {}
    ensures k in s
  {
    var k :| k in s; k
  }

  /** The sum of `f` over the elements of `s`. */
  ghost function Sum<K>(s: set<K>, f: K -> real): real
    decreases |s|
  {
    if s == {} then 0.0 else var k := Pick(s); f(k) + Sum(s - {k}, f)
  }

  /** Any element may be taken out first: the sum does not depend on the order. */
  lemma {:induction false} SumRemove<K>(s: set<K>, f: K -> real, k: K)
    requires k in s
    ensures Sum(s, f) == f(k) + Sum(s - {k}, f)
    decreases |s|
  {
    var j := Pick(s);
    if j != k {
      SumRemove(s - {j}, f, k);
      SumRemove(s - {k}, f, j);
      assert s - {j} - {k} == s - {k} - {j};
    }
  }

  /** The sum over a disjoint union is the sum of the sums. */
  lemma {:induction false} SumUnion<K>(a: set<K>, b: set<K>, f: K -> real)
    requires a !! b
    ensures Sum(a + b, f) == Sum(a, f) + Sum(b, f)
    decreases |a|
  {
    if a != {} {
      var k :| k in a;
      SumRemove(a + b, f, k);
      SumRemove(a, f, k);
      assert (a + b) - {k} == (a - {k}) + b;
      SumUnion(a - {k}, b, f);
    } else {
      assert a + b == b;
    }
  }

  /** Two functions that agree on `s` have the same sum over `s`. */
  lemma {:induction false} SumCongruent<K>(s: set<K>, f: K -> real, g: K -> real)
    requires forall k :: k in s ==> f(k) == g(k)
    ensures Sum(s, f) == Sum(s, g)
    decreases |s|
  {
    if s != {} {
      var k :| k in s;
      SumRemove(s, f, k);
      SumRemove(s, g, k);
      SumCongruent(s - {k}, f, g);
    }
  }

  /** Elements where `f` is zero contribute nothing. */
  lemma {:induction false} SumDropZeros<K>(s: set<K>, t: set<K>, f: K -> real)
    requires t <= s
    requires forall k :: k in s && k !in t ==> f(k) == 0.0
    ensures Sum(s, f) == Sum(t, f)
    decreases |s|
  {
    if s != t {
      var k :| k in s && k !in t;
      SumRemove(s, f, k);
      SumDropZeros(s - {k}, t, f);
    }
  }

  /** A sum of non-negative terms is non-negative, and it is zero exactly when every term is. */
  lemma {:induction false} SumNonNegative<K>(s: set<K>, f: K -> real)
    requires forall k :: k in s ==> f(k) >= 0.0
    ensures Sum(s, f) >= 0.0
    ensures Sum(s, f) == 0.0 <==> forall k :: k in s ==> f(k) == 0.0
    decreases |s|
  {
    if s != {} {
      var k :| k in s;
      SumRemove(s, f, k);
      SumNonNegative(s - {k}, f);
    }
  }

  /** The sum of a sequence, grown at the back as the accumulating loops grow it. */
  function SumSeq(xs: seq<real>): real
    decreases |xs|
  {
    if xs == [] then 0.0 else SumSeq(xs[..|xs| - 1]) + xs[|xs| - 1]
  }

  lemma {:induction false} SumSeqCons(x: real, xs: seq<real>)
    ensures SumSeq([x] + xs) == x + SumSeq(xs)
    decreases |xs|
  {
    if xs != [] {
      var ys := xs[..|xs| - 1];
      assert ([x] + xs)[..|xs|] == [x] + ys;
      SumSeqCons(x, ys);
    }
  }
}

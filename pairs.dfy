/**
 * The (key, value) pair comparators: greater_pair of the factorisation
 * tool, and greater_pair / less_pair of the HOG distance tool, which
 * sorts (file name, distance) pairs with less_pair and shows the first ten.
 */
module Pairs {
  import opened Strings
  import opened Sorting

  /** A std::pair of a name and a value (a score or a distance). */
  datatype Pair = Pair(first: string, second: real)

  /** greater_pair: the larger value first, and on equal values the larger key. */
  predicate GreaterPair(left: Pair, right: Pair)
  {
    if left.second > right.second then true
    else if left.second == right.second then StrLess(right.first, left.first)
    else false
  }

  /** less_pair: the smaller value first, and on equal values the smaller key. */
  predicate LessPair(left: Pair, right: Pair)
  {
    if left.second < right.second then true
    else if left.second == right.second then StrLess(left.first, right.first)
    else false
  }

  /** The lexicographic order on (value, key), independent of the if-chain above. */
  predicate LexLess(a: Pair, b: Pair)
  {
    a.second < b.second || (a.second == b.second && StrLess(a.first, b.first))
  }

  /** less_pair is the lexicographic order on (value, key); greater_pair is its reverse. */
  lemma PairsAreLexicographic(a: Pair, b: Pair)
    ensures LessPair(a, b) <==> LexLess(a, b)
    ensures GreaterPair(a, b) <==> LexLess(b, a)
  {
  }

  /** As documented: a larger value is greater, a smaller one is not, whatever the keys. */
  lemma GreaterPairByValue(a: Pair, b: Pair)
    ensures a.second > b.second ==> GreaterPair(a, b)
    ensures a.second < b.second ==> !GreaterPair(a, b)
  {
  }

  /** greater_pair(a, b) is less_pair(b, a). */
  lemma GreaterIsReversedLess(a: Pair, b: Pair)
    ensures GreaterPair(a, b) == LessPair(b, a)
  {
  }

  /** less_pair is a strict total order, as std::sort needs. */
  lemma LessPairOrder()
    ensures StrictTotal(LessPair)
  {
    forall a: Pair
      ensures !LessPair(a, a)
    {
      StrLessIrreflexive(a.first);
    }
    forall a: Pair, b: Pair, c: Pair | LessPair(a, b) && LessPair(b, c)
      ensures LessPair(a, c)
    {
      if a.second == b.second && b.second == c.second {
        StrLessTransitive(a.first, b.first, c.first);
      }
    }
    forall a: Pair, b: Pair | a != b
      ensures LessPair(a, b) || LessPair(b, a)
    {
      if a.second == b.second {
        StrLessTotal(a.first, b.first);
      }
    }
  }

  /** greater_pair is a strict total order too. */
  lemma GreaterPairOrder()
    ensures StrictTotal(GreaterPair)
  {
    LessPairOrder();
    forall a: Pair, b: Pair
      ensures GreaterPair(a, b) == LessPair(b, a)
    {
      GreaterIsReversedLess(a, b);
    }
  }

  /** Of two distinct pairs exactly one is greater_pair than the other; a pair is never greater than itself. */
  lemma GreaterPairExactlyOne(a: Pair, b: Pair)
    ensures !GreaterPair(a, a)
    ensures a != b ==> GreaterPair(a, b) != GreaterPair(b, a)
  {
    GreaterPairOrder();
  }

  /** How many entries calc_distances prints. */
  const MaxShown: nat := 10

  /** The entries printed: the distances sorted with less_pair, cut to MaxShown. */
  function Shown(distances: seq<Pair>): (r: seq<Pair>)
    ensures |r| == if |distances| < MaxShown then |distances| else MaxShown
  {
    var sorted := SortBy(distances, LessPair);
    sorted[..if |sorted| < MaxShown then |sorted| else MaxShown]
  }

  /** The sort and the print loop of calc_distances / calc_distances_text. */
  method CalcDistances(distances: seq<Pair>) returns (shown: seq<Pair>)
    ensures shown == Shown(distances)
  {
    var sorted := SortBy(distances, LessPair);
    shown := [];
    var i := 0;
    while i < MaxShown && i < |sorted|
      invariant i <= |sorted| && i <= MaxShown
      invariant shown == sorted[..i]
    {
      shown := shown + [sorted[i]];
      i := i + 1;
    }
  }

  /**
   * The printed entries come from the input, in ascending distance (ties by
   * ascending name), and no entry left out is below a printed one.
   */
  lemma ShownSmallest(distances: seq<Pair>)
    ensures multiset(Shown(distances)) <= multiset(distances)
    ensures Sorted(Shown(distances), LessPair)
    ensures forall x, y :: x in Shown(distances) && y in distances && y !in Shown(distances) ==> !LessPair(y, x)
  {
    var sorted := SortBy(distances, LessPair);
    var shown := Shown(distances);
    var m := |shown|;
    SortedByLessPair(distances);
    assert sorted == shown + sorted[m..];
    assert multiset(sorted) == multiset(shown) + multiset(sorted[m..]);
    forall x, y | x in shown && y in distances && y !in shown
      ensures !LessPair(y, x)
    {
      var i :| 0 <= i < m && shown[i] == x;
      assert y in multiset(sorted);
      var j :| 0 <= j < |sorted| && sorted[j] == y;
    }
  }

  /** The distances sorted with less_pair are in ascending order. */
  lemma SortedByLessPair(distances: seq<Pair>)
    ensures Sorted(SortBy(distances, LessPair), LessPair)
  {
    LessPairOrder();
    SortBySorted(distances, LessPair);
  }
}

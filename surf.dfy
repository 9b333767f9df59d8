/**
 * SURF descriptor matching: the nearest neighbour of a query descriptor
 * among the candidates with the same laplacian sign, accepted only when it
 * is clearly closer than the second nearest (the ratio test), and the list
 * of matched index pairs between two images. The descriptor distance (a
 * square root of summed squares) is supplied as a function of the indexes.
 */
module Surf {
  /** The initial min_dist and secmin_dist. */
  const Cap: real := 1000000.0

  /** A match needs min_dist < Ratio * secmin_dist. */
  const Ratio: real := 0.6

  /** The scan state of nearest_neighbor: neighbor (-1 for none), min_dist, secmin_dist. */
  datatype Scan = Scan(neighbor: int, min: real, secmin: real)

  /** Candidate `i` takes part: its laplacian is the query's. */
  predicate Eligible(laplacian: int, laps: seq<int>, i: nat)
  {
    i < |laps| && laps[i] == laplacian
  }

  /** The state after the loop of nearest_neighbor has seen the first `upto` candidates. */
  function ScanOf(laplacian: int, laps: seq<int>, dist: nat -> real, upto: nat): Scan
    requires upto <= |laps|
  {
    if upto == 0 then Scan(-1, Cap, Cap)
    else
      var s := ScanOf(laplacian, laps, dist, upto - 1);
      var i := upto - 1;
      if laplacian != laps[i] then s
      else if dist(i) < s.min then Scan(i, dist(i), s.min)
      else if dist(i) < s.secmin then Scan(s.neighbor, s.min, dist(i))
      else s
  }

  /**
   * After the scan, min_dist is the smallest eligible distance and
   * secmin_dist the smallest among the others, both capped at Cap;
   * neighbor is the first eligible index attaining min_dist, or -1 when no
   * distance is below Cap.
   */
  lemma {:induction false} ScanFacts(laplacian: int, laps: seq<int>, dist: nat -> real, upto: nat)
    requires upto <= |laps|
    ensures var s := ScanOf(laplacian, laps, dist, upto);
      && s.min <= s.secmin <= Cap
      && (s.neighbor == -1 ==> s.min == Cap && s.secmin == Cap)
      && (s.neighbor != -1 ==> 0 <= s.neighbor < upto && Eligible(laplacian, laps, s.neighbor) && dist(s.neighbor) == s.min)
      && (forall i: nat :: i < upto && Eligible(laplacian, laps, i) ==> s.min <= dist(i))
      && (forall i: nat :: i < s.neighbor && Eligible(laplacian, laps, i) ==> s.min < dist(i))
      && (forall i: nat :: i < upto && Eligible(laplacian, laps, i) && i != s.neighbor ==> s.secmin <= dist(i))
      && (s.secmin == Cap ||
          exists i: nat :: i < upto && Eligible(laplacian, laps, i) && i != s.neighbor && dist(i) == s.secmin)
    decreases upto
  {
    if upto > 0 {
      ScanFacts(laplacian, laps, dist, upto - 1);
      var s := ScanOf(laplacian, laps, dist, upto - 1);
      var i := upto - 1;
      if laplacian == laps[i] && dist(i) < s.min && s.neighbor != -1 {
        assert Eligible(laplacian, laps, s.neighbor) && s.neighbor != i && dist(s.neighbor) == s.min;
      }
    }
  }

  /** The result of nearest_neighbor: the neighbour if it passes the ratio test, else -1. */
  function Nearest(laplacian: int, laps: seq<int>, dist: nat -> real): int
  {
    var s := ScanOf(laplacian, laps, dist, |laps|);
    if s.min < Ratio * s.secmin then s.neighbor else -1
  }

  /** nearest_neighbor over the candidates' laplacians `laps`, `dist(i)` being the distance to candidate i. */
  method NearestNeighbor(laplacian: int, laps: seq<int>, dist: nat -> real) returns (r: int)
    ensures r == Nearest(laplacian, laps, dist)
  {
    var neighbor: int := -1;
    var minDist := Cap;
    var secminDist := Cap;
    var i: nat := 0;
    while i < |laps|
      invariant i <= |laps|
      invariant Scan(neighbor, minDist, secminDist) == ScanOf(laplacian, laps, dist, i)
    {
      if laplacian == laps[i] {
        var d := dist(i);
        if d < minDist {
          secminDist := minDist;
          minDist := d;
          neighbor := i;
        } else if d < secminDist {
          secminDist := d;
        }
      }
      i := i + 1;
    }
    if minDist < Ratio * secminDist {
      r := neighbor;
    } else {
      r := -1;
    }
  }

  /**
   * A match is the first eligible candidate at the smallest distance, that
   * distance is below Ratio times every other eligible distance and below
   * Ratio * Cap. NearestConverse states the other direction: such a
   * candidate is returned.
   */
  lemma NearestMeaning(laplacian: int, laps: seq<int>, dist: nat -> real)
    ensures var r := Nearest(laplacian, laps, dist);
      && -1 <= r < |laps|
      && (r != -1 ==>
            && Eligible(laplacian, laps, r)
            && dist(r) < Ratio * Cap
            && (forall i: nat :: i < r && Eligible(laplacian, laps, i) ==> dist(r) < dist(i))
            && (forall i: nat :: Eligible(laplacian, laps, i) && i != r ==> dist(r) < Ratio * dist(i)))
  {
    ScanFacts(laplacian, laps, dist, |laps|);
    var s := ScanOf(laplacian, laps, dist, |laps|);
    var r := Nearest(laplacian, laps, dist);
    if r != -1 {
      forall i: nat | Eligible(laplacian, laps, i) && i != r
        ensures dist(r) < Ratio * dist(i)
      {
        assert s.secmin <= dist(i);
      }
    }
  }

  /**
   * The converse of NearestMeaning: with distances that are never negative
   * (they are square roots), an eligible candidate below Ratio * Cap and below
   * Ratio times every other eligible distance is the match.
   */
  lemma NearestConverse(laplacian: int, laps: seq<int>, dist: nat -> real, c: nat)
    requires forall i: nat :: dist(i) >= 0.0
    requires Eligible(laplacian, laps, c) && dist(c) < Ratio * Cap
    requires forall i: nat :: Eligible(laplacian, laps, i) && i != c ==> dist(c) < Ratio * dist(i)
    ensures Nearest(laplacian, laps, dist) == c
  {
    ScanFacts(laplacian, laps, dist, |laps|);
    var s := ScanOf(laplacian, laps, dist, |laps|);
    assert s.min <= dist(c);
    assert s.neighbor != -1;
    assert s.neighbor == c;
    if s.secmin != Cap {
      var i: nat :| i < |laps| && Eligible(laplacian, laps, i) && i != s.neighbor && dist(i) == s.secmin;
      assert dist(c) < Ratio * dist(i);
    }
  }

  /** With no candidate of the query's laplacian, there is no match. */
  lemma NoCandidateNoMatch(laplacian: int, laps: seq<int>, dist: nat -> real)
    requires forall i: nat :: i < |laps| ==> laps[i] != laplacian
    ensures Nearest(laplacian, laps, dist) == -1
  {
    ScanFacts(laplacian, laps, dist, |laps|);
  }

  /** With a single candidate of the query's laplacian, it matches exactly when its distance is below Ratio * Cap. */
  lemma OneCandidate(laplacian: int, laps: seq<int>, dist: nat -> real, c: nat)
    requires Eligible(laplacian, laps, c)
    requires forall i: nat :: i < |laps| && i != c ==> laps[i] != laplacian
    ensures Nearest(laplacian, laps, dist) == (if dist(c) < Ratio * Cap then c else -1)
  {
    ScanFacts(laplacian, laps, dist, |laps|);
    var s := ScanOf(laplacian, laps, dist, |laps|);
    if dist(c) < Cap {
      assert s.neighbor == c;
      assert s.secmin == Cap;
    } else {
      assert s.min == Cap;
    }
  }

  /** The distances from query descriptor `i` to the candidates. */
  function Row(dist: (nat, nat) -> real, i: nat): nat -> real
  {
    (k: nat) => dist(i, k)
  }

  /** The matches of the first `upto` query descriptors: (i, neighbour) pairs, flattened. */
  function PairsOf(laps1: seq<int>, laps2: seq<int>, dist: (nat, nat) -> real, upto: nat): seq<int>
    requires upto <= |laps1|
  {
    if upto == 0 then []
    else
      var i := upto - 1;
      var neighbor := Nearest(laps1[i], laps2, Row(dist, i));
      PairsOf(laps1, laps2, dist, i) + (if neighbor >= 0 then [i, neighbor] else [])
  }

  /** A query index at even position `p` of the flattened list. */
  function QueryAt(pairs: seq<int>, p: nat): int
    requires 2 * p < |pairs|
  {
    pairs[2 * p]
  }

  /** The neighbour index at odd position `2p + 1`. */
  function NeighbourAt(pairs: seq<int>, p: nat): int
    requires 2 * p + 1 < |pairs|
  {
    pairs[2 * p + 1]
  }

  /**
   * The list has even length; the query indexes strictly increase; each
   * neighbour is the query's match; and every query with a match is listed.
   */
  lemma {:induction false} PairsFacts(laps1: seq<int>, laps2: seq<int>, dist: (nat, nat) -> real, upto: nat)
    requires upto <= |laps1|
    ensures var ps := PairsOf(laps1, laps2, dist, upto);
      && |ps| % 2 == 0
      && (forall p: nat :: 2 * p < |ps| ==>
            && 0 <= QueryAt(ps, p) < upto
            && NeighbourAt(ps, p) == Nearest(laps1[QueryAt(ps, p)], laps2, Row(dist, QueryAt(ps, p)))
            && NeighbourAt(ps, p) >= 0)
      && (forall p: nat, q: nat :: p < q && 2 * q < |ps| ==> QueryAt(ps, p) < QueryAt(ps, q))
      && (forall i: nat :: i < upto && Nearest(laps1[i], laps2, Row(dist, i)) >= 0 ==>
            exists p: nat :: 2 * p < |ps| && QueryAt(ps, p) == i)
    decreases upto
  {
    if upto > 0 {
      var i := upto - 1;
      var front := PairsOf(laps1, laps2, dist, i);
      var ps := PairsOf(laps1, laps2, dist, upto);
      PairsFacts(laps1, laps2, dist, i);
      var neighbor := Nearest(laps1[i], laps2, Row(dist, i));
      if neighbor >= 0 {
        assert ps == front + [i, neighbor];
        var last := |front| / 2;
        assert QueryAt(ps, last) == i && NeighbourAt(ps, last) == neighbor;
        forall p: nat | 2 * p < |front|
          ensures QueryAt(ps, p) == QueryAt(front, p) && NeighbourAt(ps, p) == NeighbourAt(front, p)
        {
        }
      } else {
        assert ps == front;
      }
    }
  }

  /** find_pairs: appends the matches of every descriptor of the first image to `pairs0`. */
  method FindPairs(laps1: seq<int>, laps2: seq<int>, dist: (nat, nat) -> real, pairs0: seq<int>)
    returns (pairs: seq<int>)
    ensures pairs == pairs0 + PairsOf(laps1, laps2, dist, |laps1|)
  {
    pairs := pairs0;
    var i: nat := 0;
    while i < |laps1|
      invariant i <= |laps1|
      invariant pairs == pairs0 + PairsOf(laps1, laps2, dist, i)
    {
      var neighbor := NearestNeighbor(laps1[i], laps2, Row(dist, i));
      if neighbor >= 0 {
        pairs := pairs + [i, neighbor];
      }
      i := i + 1;
    }
  }
}

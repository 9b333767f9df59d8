/**
 * COP-KMeans: k-means clustering under must-link and cannot-link
 * constraints. The engine keeps the input vectors, the current centres, the
 * label of every vector and the two constraint relations; it seeds the
 * centres k-means++ style, then alternates a constraint-aware assignment
 * pass with a mean update until the assignment stops changing.
 *
 * The random numbers of the program are parameters here: the index of the
 * first centre (rand() % N) and, per further centre, the draw
 * rand() / RAND_MAX * potential itself, a value in [0, potential].
 * Points are sparse vectors with natural-number keys.
 */
module CopKMeans {
  import opened Wrappers
  import opened SetSums
  import opened SparseVectors
  import opened Strings

  const MaxIter: nat := 10
  const EmptyKey: nat := 0
  const LongDist: real := 1000000000000000.0

  type Point = Vec<nat>

  // ---------------------------------------------------------------------
  // Seeding (choose_smart_centers)
  // ---------------------------------------------------------------------

  /** The closest-distance update of the seeding loop: keep the old value unless the new one is smaller. */
  function Tighter(old_: real, d: real): real
  {
    if old_ > d then d else old_
  }

  /** The squared distance of `v` to the nearest of the centres `cs`. */
  ghost function MinDist(v: Point, cs: seq<Point>): real
    requires |cs| > 0
    decreases |cs|
  {
    if |cs| == 1 then SqDist(v, cs[0])
    else Tighter(MinDist(v, cs[..|cs| - 1]), SqDist(v, cs[|cs| - 1]))
  }

  /** closest_dist: for every vector, its squared distance to the nearest centre so far. */
  ghost function ClosestDists(vs: seq<Point>, cs: seq<Point>): (r: seq<real>)
    requires |cs| > 0
    ensures |r| == |vs|
  {
    seq(|vs|, i requires 0 <= i < |vs| => MinDist(vs[i], cs))
  }

  /**
   * The selection scan: the first index from `i` on whose closest distance is
   * at least what remains of the draw, subtracting each distance passed over;
   * index 0 when the draw outlasts the scan.
   */
  function ScanFrom(cd: seq<real>, r: real, i: nat): (k: nat)
    requires i <= |cd|
    ensures k == 0 || i <= k < |cd|
    decreases |cd| - i
  {
    if i == |cd| then 0
    else if r <= cd[i] then i
    else ScanFrom(cd, r - cd[i], i + 1)
  }

  /** Some running total of the closest distances, past position `i`, reaches the draw `r`. */
  predicate Reached(cd: seq<real>, r: real, i: nat)
  {
    exists j :: i < j <= |cd| && r <= SumSeq(cd[..j])
  }

  /**
   * The scan started at `i` with what remains of the draw after the first
   * `i` distances lands on the first position at which the running total of
   * the distances reaches the draw, and on index 0 when no total does.
   */
  lemma ScanCumulative(cd: seq<real>, r: real, i: nat)
    requires i <= |cd|
    ensures var k := ScanFrom(cd, r - SumSeq(cd[..i]), i);
      && (Reached(cd, r, i) ==>
            i <= k < |cd| && r <= SumSeq(cd[..k + 1]) && forall j :: i < j <= k ==> SumSeq(cd[..j]) < r)
      && (!Reached(cd, r, i) ==> k == 0)
  {
    if Reached(cd, r, i) {
      ScanLands(cd, r, i, r - SumSeq(cd[..i]));
    } else {
      ScanFallsBack(cd, r, i, r - SumSeq(cd[..i]));
    }
  }

  /** When some running total reaches the draw, the scan lands on the first such position. */
  lemma {:induction false} ScanLands(cd: seq<real>, r: real, i: nat, rest: real)
    requires i <= |cd| && rest == r - SumSeq(cd[..i]) && Reached(cd, r, i)
    ensures var k := ScanFrom(cd, rest, i);
      i <= k < |cd| && r <= SumSeq(cd[..k + 1]) && forall j :: i < j <= k ==> SumSeq(cd[..j]) < r
    decreases |cd| - i
  {
    var j0 :| i < j0 <= |cd| && r <= SumSeq(cd[..j0]);
    SumSeqStep(cd, i);
    if rest > cd[i] {
      ReachedStep(cd, r, i);
      ScanLands(cd, r, i + 1, rest - cd[i]);
    }
  }

  /** When no running total reaches the draw, the scan falls back to index 0. */
  lemma {:induction false} ScanFallsBack(cd: seq<real>, r: real, i: nat, rest: real)
    requires i <= |cd| && rest == r - SumSeq(cd[..i]) && !Reached(cd, r, i)
    ensures ScanFrom(cd, rest, i) == 0
    decreases |cd| - i
  {
    if i < |cd| {
      SumSeqStep(cd, i);
      assert !(r <= SumSeq(cd[..i + 1]));
      ReachedStep(cd, r, i);
      ScanFallsBack(cd, r, i + 1, rest - cd[i]);
    }
  }

  /** The running total after `i + 1` distances. */
  lemma SumSeqStep(cd: seq<real>, i: nat)
    requires i < |cd|
    ensures SumSeq(cd[..i + 1]) == SumSeq(cd[..i]) + cd[i]
  {
    assert cd[..i + 1][..i] == cd[..i];
  }

  /** When the total after `i + 1` distances falls short, reaching past `i` is reaching past `i + 1`. */
  lemma ReachedStep(cd: seq<real>, r: real, i: nat)
    requires i < |cd| && SumSeq(cd[..i + 1]) < r
    ensures Reached(cd, r, i) <==> Reached(cd, r, i + 1)
  {
    if Reached(cd, r, i) {
      var j :| i < j <= |cd| && r <= SumSeq(cd[..j]);
      assert j != i + 1;
    }
  }

  /** The centres a sequence of picked indices stands for: copies of those vectors. */
  function Copies(vs: seq<Point>, picked: seq<nat>): seq<Point>
    requires forall k :: 0 <= k < |picked| ==> picked[k] < |vs|
  {
    seq(|picked|, k requires 0 <= k < |picked| => vs[picked[k]])
  }

  /** The potential: the closest distances of all vectors to the centres picked so far, summed. */
  ghost function Potential(vs: seq<Point>, picked: seq<nat>): real
    requires |picked| > 0 && forall k :: 0 <= k < |picked| ==> picked[k] < |vs|
  {
    SumSeq(ClosestDists(vs, Copies(vs, picked)))
  }

  /**
   * The indices seeding picks for `n` centres: `first`, then one scan per
   * further centre with draw `draws[k - 1]` (a value in [0, potential]).
   * At least one centre is picked, even for `n == 0`.
   */
  ghost function Seeding(vs: seq<Point>, first: nat, draws: seq<real>, n: nat): (picked: seq<nat>)
    requires first < |vs|
    requires |draws| + 1 >= n
    ensures |picked| == if n == 0 then 1 else n
    ensures picked[0] == first
    ensures forall k :: 0 <= k < |picked| ==> picked[k] < |vs|
    decreases n
  {
    if n <= 1 then [first]
    else
      var prev := Seeding(vs, first, draws, n - 1);
      prev + [ScanFrom(ClosestDists(vs, Copies(vs, prev)), draws[n - 2], 0)]
  }

  /** Adding a centre can only bring the nearest centre closer. */
  lemma MinDistSnoc(v: Point, cs: seq<Point>, c: Point)
    requires |cs| > 0
    ensures MinDist(v, cs + [c]) == Tighter(MinDist(v, cs), SqDist(v, c))
    ensures MinDist(v, cs + [c]) <= MinDist(v, cs)
  {
    assert (cs + [c])[..|cs|] == cs;
  }

  /** The first centre nearest to `v`: MinDist is attained there. */
  ghost function ClosestCentre(v: Point, cs: seq<Point>): (j: nat)
    requires |cs| > 0
    ensures j < |cs| && MinDist(v, cs) == SqDist(v, cs[j])
    decreases |cs|
  {
    if |cs| == 1 then 0
    else if MinDist(v, cs[..|cs| - 1]) > SqDist(v, cs[|cs| - 1]) then |cs| - 1
    else ClosestCentre(v, cs[..|cs| - 1])
  }

  /** MinDist is no larger than the distance to any centre. */
  lemma {:induction false} MinDistIsMinimum(v: Point, cs: seq<Point>)
    requires |cs| > 0
    ensures forall j :: 0 <= j < |cs| ==> MinDist(v, cs) <= SqDist(v, cs[j])
    decreases |cs|
  {
    if |cs| > 1 {
      var init := cs[..|cs| - 1];
      MinDistIsMinimum(v, init);
      assert forall j :: 0 <= j < |init| ==> init[j] == cs[j];
    }
  }

  /** Closest distances are never negative. */
  lemma ClosestDistsNonNegative(vs: seq<Point>, cs: seq<Point>)
    requires |cs| > 0
    ensures forall i :: 0 <= i < |vs| ==> ClosestDists(vs, cs)[i] >= 0.0
  {
    forall i | 0 <= i < |vs|
      ensures ClosestDists(vs, cs)[i] >= 0.0
    {
      SqDistZero(vs[i], cs[ClosestCentre(vs[i], cs)]);
    }
  }

  /**
   * A positive draw no larger than the remaining potential stops at an index
   * whose closest distance is positive: a point already chosen as a centre
   * (distance 0) is never chosen again.
   */
  lemma {:induction false} ScanPositive(cd: seq<real>, r: real, i: nat)
    requires i <= |cd|
    requires forall j :: 0 <= j < |cd| ==> cd[j] >= 0.0
    requires 0.0 < r <= SumSeq(cd[i..])
    ensures i <= ScanFrom(cd, r, i) < |cd|
    ensures cd[ScanFrom(cd, r, i)] > 0.0
    decreases |cd| - i
  {
    if i < |cd| {
      assert cd[i..] == [cd[i]] + cd[i + 1..];
      SumSeqCons(cd[i], cd[i + 1..]);
      if r > cd[i] {
        ScanPositive(cd, r - cd[i], i + 1);
      }
    }
  }

  /** A zero draw picks index 0, whatever has been picked before: seeding may repeat a centre. */
  lemma SeedingZeroDraw(vs: seq<Point>, first: nat, draws: seq<real>, n: nat)
    requires first < |vs| && |draws| + 1 >= n && n >= 2
    requires draws[n - 2] == 0.0
    ensures Seeding(vs, first, draws, n)[n - 1] == 0
  {
    var prev := Seeding(vs, first, draws, n - 1);
    ClosestDistsNonNegative(vs, Copies(vs, prev));
  }

  /**
   * A positive draw no larger than the potential picks a point at a positive
   * distance from every centre picked before it, so its vector differs from
   * each of theirs.
   */
  lemma SeedingPicksNewPoint(vs: seq<Point>, first: nat, draws: seq<real>, n: nat)
    requires first < |vs| && |draws| + 1 >= n && n >= 2
    requires 0.0 < draws[n - 2] <= Potential(vs, Seeding(vs, first, draws, n - 1))
    ensures forall j :: 0 <= j < n - 1 ==>
      vs[Seeding(vs, first, draws, n)[n - 1]] != vs[Seeding(vs, first, draws, n)[j]]
  {
    var prev := Seeding(vs, first, draws, n - 1);
    var cs := Copies(vs, prev);
    var cd := ClosestDists(vs, cs);
    ClosestDistsNonNegative(vs, cs);
    assert cd[0..] == cd;
    ScanPositive(cd, draws[n - 2], 0);
    var k := ScanFrom(cd, draws[n - 2], 0);
    var picked := Seeding(vs, first, draws, n);
    assert picked == prev + [k];
    MinDistIsMinimum(vs[k], cs);
    forall j | 0 <= j < n - 1
      ensures vs[picked[n - 1]] != vs[picked[j]]
    {
      assert picked[j] == prev[j] && cs[j] == vs[prev[j]];
      assert SqDist(vs[k], cs[j]) > 0.0;
      if vs[k] == cs[j] {
        SqDistSelf(vs[k]);
      }
    }
  }

  lemma CopiesSnoc(vs: seq<Point>, picked: seq<nat>, i: nat)
    requires i < |vs| && forall k :: 0 <= k < |picked| ==> picked[k] < |vs|
    ensures Copies(vs, picked + [i]) == Copies(vs, picked) + [vs[i]]
  {
  }

  /** One more pick extends the seeding by the scan over the current closest distances. */
  lemma SeedingStep(vs: seq<Point>, first: nat, draws: seq<real>, n: nat, picked: seq<nat>, index: nat)
    requires first < |vs| && n >= 1 && |draws| >= n
    requires picked == Seeding(vs, first, draws, n)
    requires index == ScanFrom(ClosestDists(vs, Copies(vs, picked)), draws[n - 1], 0)
    ensures Seeding(vs, first, draws, n + 1) == picked + [index]
  {
  }

  /** The first pass of seeding: every closest distance is the distance to the first centre. */
  method InitClosest(vs: seq<Point>, c: Point) returns (closest: array<real>, potential: real)
    ensures fresh(closest)
    ensures closest[..] == ClosestDists(vs, [c])
    ensures potential == SumSeq(closest[..])
  {
    closest := new real[|vs|];
    potential := 0.0;
    for i := 0 to |vs|
      invariant forall j :: 0 <= j < i ==> closest[j] == MinDist(vs[j], [c])
      invariant potential == SumSeq(closest[..i])
    {
      var d := Distance(vs[i], c);
      closest[i] := d;
      assert closest[..i + 1][..i] == closest[..i];
      potential := potential + d;
    }
    assert closest[..] == closest[..|vs|];
  }

  /** The update pass after a new centre `c`: each closest distance drops to the distance to `c` if that is smaller. */
  method Tighten(closest: array<real>, vs: seq<Point>, cs: seq<Point>, c: Point) returns (potential: real)
    requires |cs| > 0 && closest.Length == |vs|
    requires closest[..] == ClosestDists(vs, cs)
    modifies closest
    ensures closest[..] == ClosestDists(vs, cs + [c])
    ensures potential == SumSeq(closest[..])
  {
    potential := 0.0;
    for i := 0 to |vs|
      invariant forall j :: 0 <= j < i ==> closest[j] == MinDist(vs[j], cs + [c])
      invariant forall j :: i <= j < |vs| ==> closest[j] == MinDist(vs[j], cs)
      invariant potential == SumSeq(closest[..i])
    {
      var d := Distance(vs[i], c);
      MinDistSnoc(vs[i], cs, c);
      if closest[i] > d {
        closest[i] := d;
      }
      assert closest[..i + 1][..i] == closest[..i];
      potential := potential + closest[i];
    }
    assert closest[..] == closest[..|vs|];
  }

  /** The selection scan over the closest distances. */
  method Scan(closest: array<real>, draw: real) returns (index: nat)
    ensures index == ScanFrom(closest[..], draw, 0)
  {
    var randval := draw;
    index := 0;
    var i: nat := 0;
    while i < closest.Length
      invariant i <= closest.Length
      invariant ScanFrom(closest[..], randval, i) == ScanFrom(closest[..], draw, 0)
    {
      if randval <= closest[i] {
        index := i;
        return;
      } else {
        randval := randval - closest[i];
      }
      i := i + 1;
    }
  }

  /** The seeding loop of choose_smart_centers on the vectors `vs`. */
  method SeedCenters(vs: seq<Point>, first: nat, draws: seq<real>, ncenters: nat) returns (picked: seq<nat>, cs: seq<Point>)
    requires first < |vs| && |draws| + 1 >= ncenters
    ensures picked == Seeding(vs, first, draws, ncenters)
    ensures cs == Copies(vs, picked)
  {
    picked := [first];
    cs := [vs[first]];
    var closest, potential := InitClosest(vs, vs[first]);
    var cnt: nat := 1;
    while cnt < ncenters
      invariant 1 <= cnt && (cnt <= ncenters || cnt == 1)
      invariant picked == Seeding(vs, first, draws, cnt)
      invariant cs == Copies(vs, picked)
      invariant closest.Length == |vs|
      invariant closest[..] == ClosestDists(vs, cs)
      invariant potential == SumSeq(closest[..])
    {
      var index := Scan(closest, draws[cnt - 1]);
      SeedingStep(vs, first, draws, cnt, picked, index);
      var center := vs[index];
      potential := Tighten(closest, vs, cs, center);
      CopiesSnoc(vs, picked, index);
      picked := picked + [index];
      cs := cs + [center];
      cnt := cnt + 1;
    }
  }

  // ---------------------------------------------------------------------
  // Assignment (assign_clusters)
  // ---------------------------------------------------------------------

  datatype AssignError = MultipleMustTargets | MustTargetInCannot | NoClosestCluster

  /** Every pair of the constraint relation names indices below `n`. */
  predicate InRange(ps: seq<(nat, nat)>, n: nat)
  {
    forall k :: 0 <= k < |ps| ==> ps[k].0 < n && ps[k].1 < n
  }

  /** Every pair's reverse is present too: add_constraint inserts both directions. */
  predicate Symmetric(ps: seq<(nat, nat)>)
  {
    forall k :: 0 <= k < |ps| ==> (ps[k].1, ps[k].0) in ps
  }

  /**
   * The must-link check for point `i`: the common cluster of its must-link
   * partners assigned so far (slots other than the sentinel `K`), None when
   * there is none, and an error as soon as two partners disagree. The pairs
   * are visited in insertion order, as the multimap's equal range visits them.
   */
  function MustTarget(a: seq<nat>, ps: seq<(nat, nat)>, i: nat, K: nat): Result<Option<nat>, AssignError>
    requires InRange(ps, |a|)
    decreases |ps|
  {
    if ps == [] then Ok(None)
    else
      var last := ps[|ps| - 1];
      match MustTarget(a, ps[..|ps| - 1], i, K)
      case Err(e) => Err(e)
      case Ok(t) =>
        if last.0 != i || a[last.1] == K then Ok(t)
        else if t.None? then Ok(Some(a[last.1]))
        else if t.value != a[last.1] then Err(MultipleMustTargets)
        else Ok(t)
  }

  /** cannot_cluster: the clusters already holding a cannot-link partner of point `i`. */
  function Blocked(a: seq<nat>, ps: seq<(nat, nat)>, i: nat, K: nat): set<nat>
    requires InRange(ps, |a|)
    decreases |ps|
  {
    if ps == [] then {}
    else
      var last := ps[|ps| - 1];
      Blocked(a, ps[..|ps| - 1], i, K) + if last.0 == i && a[last.1] != K then {a[last.1]} else {}
  }

  /**
   * The distance search over the centres `cs`, skipping blocked clusters:
   * the index and distance of the first strictly smallest distance below
   * LONG_DIST, or (K, LONG_DIST) when no centre qualifies.
   */
  ghost function Nearest(v: Point, cs: seq<Point>, blocked: set<nat>, K: nat): (nat, real)
    decreases |cs|
  {
    if cs == [] then (K, LongDist)
    else
      var best := Nearest(v, cs[..|cs| - 1], blocked, K);
      var j := |cs| - 1;
      if j in blocked then best
      else if SqDist(v, cs[j]) < best.1 then (j, SqDist(v, cs[j]))
      else best
  }

  /**
   * The cluster point `i` gets when the slots read `a`: the must-link target
   * if there is one (an error if a cannot-link partner holds it), otherwise
   * the outcome of the distance search. The search result is rejected when
   * it equals `bound`: the program compares it with the number of vectors,
   * the intended check compares it with the number of centres.
   */
  ghost function Slot(vs: seq<Point>, cs: seq<Point>, must: seq<(nat, nat)>, cannot: seq<(nat, nat)>,
                      a: seq<nat>, i: nat, bound: nat): Result<nat, AssignError>
    requires i < |vs| == |a| && InRange(must, |a|) && InRange(cannot, |a|)
  {
    var K := |cs|;
    var blocked := Blocked(a, cannot, i, K);
    match MustTarget(a, must, i, K)
    case Err(e) => Err(e)
    case Ok(t) =>
      if t.Some? then
        if t.value in blocked then Err(MustTargetInCannot) else Ok(t.value)
      else
        var found := Nearest(vs[i], cs, blocked, K).0;
        if found == bound then Err(NoClosestCluster) else Ok(found)
  }

  /** The assignment pass from point `i` on, with the slots reading `a`. */
  ghost function AssignFrom(vs: seq<Point>, cs: seq<Point>, must: seq<(nat, nat)>, cannot: seq<(nat, nat)>,
                            a: seq<nat>, i: nat, bound: nat): (r: Result<seq<nat>, AssignError>)
    requires i <= |vs| == |a| && InRange(must, |a|) && InRange(cannot, |a|)
    ensures r.Ok? ==> |r.value| == |a| && r.value[..i] == a[..i]
    decreases |vs| - i
  {
    if i == |vs| then Ok(a)
    else match Slot(vs, cs, must, cannot, a, i, bound)
      case Err(e) => Err(e)
      case Ok(c) => AssignFrom(vs, cs, must, cannot, a[i := c], i + 1, bound)
  }

  /** The whole assignment pass: every slot starts at the sentinel |cs|, then points are placed in index order. */
  ghost function Assignment(vs: seq<Point>, cs: seq<Point>, must: seq<(nat, nat)>, cannot: seq<(nat, nat)>,
                            bound: nat): (r: Result<seq<nat>, AssignError>)
    requires InRange(must, |vs|) && InRange(cannot, |vs|)
    ensures r.Ok? ==> |r.value| == |vs|
  {
    AssignFrom(vs, cs, must, cannot, seq(|vs|, _ => |cs|), 0, bound)
  }

  /** Once the must-link check has failed, later pairs do not change the outcome. */
  lemma {:induction false} MustTargetErrStays(a: seq<nat>, ps: seq<(nat, nat)>, n: nat, i: nat, K: nat)
    requires InRange(ps, |a|) && n <= |ps|
    requires MustTarget(a, ps[..n], i, K).Err?
    ensures MustTarget(a, ps, i, K) == MustTarget(a, ps[..n], i, K)
    decreases |ps| - n
  {
    if n < |ps| {
      assert ps[..n + 1][..n] == ps[..n];
      MustTargetErrStays(a, ps, n + 1, i, K);
    } else {
      assert ps[..n] == ps;
    }
  }

  /** The must-link loop of assign_clusters, leaving at the first disagreement. */
  method FindMustTarget(assign: array<nat>, ps: seq<(nat, nat)>, i: nat, K: nat) returns (t: Result<Option<nat>, AssignError>)
    requires InRange(ps, assign.Length)
    ensures t == MustTarget(assign[..], ps, i, K)
  {
    ghost var a := assign[..];
    var target: Option<nat> := None;
    for k := 0 to |ps|
      invariant MustTarget(a, ps[..k], i, K) == Ok(target)
    {
      assert ps[..k + 1][..k] == ps[..k];
      var (x, y) := ps[k];
      if x == i && assign[y] != K {
        if target.None? {
          target := Some(assign[y]);
        } else if target.value != assign[y] {
          MustTargetErrStays(a, ps, k + 1, i, K);
          return Err(MultipleMustTargets);
        }
      }
    }
    assert ps[..|ps|] == ps;
    t := Ok(target);
  }

  /** The cannot-link loop of assign_clusters. */
  method CollectBlocked(assign: array<nat>, ps: seq<(nat, nat)>, i: nat, K: nat) returns (blocked: set<nat>)
    requires InRange(ps, assign.Length)
    ensures blocked == Blocked(assign[..], ps, i, K)
  {
    blocked := {};
    for k := 0 to |ps|
      invariant blocked == Blocked(assign[..], ps[..k], i, K)
    {
      assert ps[..k + 1][..k] == ps[..k];
      var (x, y) := ps[k];
      if x == i && assign[y] != K {
        blocked := blocked + {assign[y]};
      }
    }
    assert ps[..|ps|] == ps;
  }

  /** The distance search of assign_clusters over the centres not blocked. */
  method SearchNearest(v: Point, cs: seq<Point>, blocked: set<nat>) returns (minIndex: nat)
    ensures minIndex == Nearest(v, cs, blocked, |cs|).0
  {
    minIndex := |cs|;
    var minDist := LongDist;
    for j := 0 to |cs|
      invariant (minIndex, minDist) == Nearest(v, cs[..j], blocked, |cs|)
    {
      assert cs[..j + 1][..j] == cs[..j];
      if j !in blocked {
        var dist := Distance(v, cs[j]);
        if dist < minDist {
          minIndex, minDist := j, dist;
        }
      }
    }
    assert cs[..|cs|] == cs;
  }

  /**
   * assign_clusters on values: fills `assign`, or reports the error on which
   * the program exits. The distance search is rejected when it finds no
   * cluster, i.e. when it returns the sentinel |cs|.
   */
  method Assign(vs: seq<Point>, cs: seq<Point>, must: seq<(nat, nat)>, cannot: seq<(nat, nat)>, assign: array<nat>)
    returns (err: Option<AssignError>)
    requires assign.Length == |vs| && InRange(must, |vs|) && InRange(cannot, |vs|)
    modifies assign
    ensures err.None? ==> Assignment(vs, cs, must, cannot, |cs|) == Ok(assign[..])
    ensures err.Some? ==> Assignment(vs, cs, must, cannot, |cs|) == Err(err.value)
  {
    var K := |cs|;
    for i := 0 to |vs|
      invariant forall j :: 0 <= j < i ==> assign[j] == K
    {
      assign[i] := K;
    }
    assert assign[..] == seq(|vs|, _ => K);
    for i := 0 to |vs|
      invariant AssignFrom(vs, cs, must, cannot, assign[..], i, K) == Assignment(vs, cs, must, cannot, K)
    {
      var t := FindMustTarget(assign, must, i, K);
      if t.Err? {
        return Some(t.error);
      }
      var blocked := CollectBlocked(assign, cannot, i, K);
      var c: nat;
      if t.value.Some? {
        if t.value.value in blocked {
          return Some(MustTargetInCannot);
        }
        c := t.value.value;
      } else {
        c := SearchNearest(vs[i], cs, blocked);
        if c == K {
          return Some(NoClosestCluster);
        }
      }
      assert Slot(vs, cs, must, cannot, assign[..], i, K) == Ok(c);
      assign[i] := c;
    }
    return None;
  }

  /**
   * The distance search finds the first unblocked centre with the strictly
   * smallest distance below LONG_DIST; when every unblocked centre is at
   * LONG_DIST or more (or all are blocked) it reports (K, LONG_DIST).
   */
  lemma {:induction false} NearestMeaning(v: Point, cs: seq<Point>, blocked: set<nat>, K: nat)
    requires K >= |cs|
    ensures Nearest(v, cs, blocked, K).0 == K ==> Nearest(v, cs, blocked, K).1 == LongDist
    ensures Nearest(v, cs, blocked, K).0 != K ==>
      var (mi, md) := Nearest(v, cs, blocked, K);
      mi < |cs| && mi !in blocked && md == SqDist(v, cs[mi]) && md < LongDist &&
      forall j :: 0 <= j < mi && j !in blocked ==> SqDist(v, cs[j]) > md
    ensures forall j :: 0 <= j < |cs| && j !in blocked ==> Nearest(v, cs, blocked, K).1 <= SqDist(v, cs[j])
    decreases |cs|
  {
    if cs != [] {
      var init := cs[..|cs| - 1];
      NearestMeaning(v, init, blocked, K);
      assert forall j :: 0 <= j < |init| ==> init[j] == cs[j];
    }
  }

  /**
   * The must-link check succeeds with `t` exactly when every assigned
   * partner of `i` is in cluster `t` (None: there is no assigned partner);
   * it fails exactly when two assigned partners are in different clusters.
   */
  lemma {:induction false} MustTargetMeaning(a: seq<nat>, ps: seq<(nat, nat)>, i: nat, K: nat)
    requires InRange(ps, |a|)
    ensures MustTarget(a, ps, i, K).Ok? ==>
      forall k :: 0 <= k < |ps| && ps[k].0 == i && a[ps[k].1] != K ==>
        MustTarget(a, ps, i, K).value == Some(a[ps[k].1])
    ensures MustTarget(a, ps, i, K) == Ok(None) ==>
      forall k :: 0 <= k < |ps| && ps[k].0 == i ==> a[ps[k].1] == K
    ensures (MustTarget(a, ps, i, K).Ok? && MustTarget(a, ps, i, K).value.Some?) ==>
      exists k :: 0 <= k < |ps| && ps[k].0 == i && a[ps[k].1] != K && MustTarget(a, ps, i, K).value == Some(a[ps[k].1])
    ensures MustTarget(a, ps, i, K).Err? ==>
      exists k1, k2 :: 0 <= k1 < |ps| && 0 <= k2 < |ps| && ps[k1].0 == i && ps[k2].0 == i &&
        a[ps[k1].1] != K && a[ps[k2].1] != K && a[ps[k1].1] != a[ps[k2].1]
    decreases |ps|
  {
    if ps != [] {
      var init := ps[..|ps| - 1];
      MustTargetMeaning(a, init, i, K);
      assert forall k :: 0 <= k < |init| ==> init[k] == ps[k];
      var last := |ps| - 1;
      var r := MustTarget(a, init, i, K);
      if r.Ok? && r.value.Some? && ps[last].0 == i && a[ps[last].1] != K && r.value.value != a[ps[last].1] {
        var k :| 0 <= k < |init| && init[k].0 == i && a[init[k].1] != K && r.value == Some(a[init[k].1]);
        assert ps[k].0 == i && a[ps[k].1] != a[ps[last].1];
      }
    }
  }

  /** A cluster is blocked exactly when an assigned cannot-link partner of `i` is in it. */
  lemma {:induction false} BlockedMeaning(a: seq<nat>, ps: seq<(nat, nat)>, i: nat, K: nat, c: nat)
    requires InRange(ps, |a|)
    ensures c in Blocked(a, ps, i, K) <==>
      exists k :: 0 <= k < |ps| && ps[k].0 == i && a[ps[k].1] != K && a[ps[k].1] == c
    decreases |ps|
  {
    if ps != [] {
      var init := ps[..|ps| - 1];
      BlockedMeaning(a, init, i, K, c);
      assert forall k :: 0 <= k < |init| ==> init[k] == ps[k];
    }
  }

  /** The slots as they read when point `j` is placed: final values before `j`, the sentinel from `j` on. */
  function Before(r: seq<nat>, j: nat, K: nat): (a: seq<nat>)
    requires j <= |r|
  {
    r[..j] + seq(|r| - j, _ => K)
  }

  /** A successful pass placed every point by the rule of Slot, applied to the slots as they read at that time. */
  lemma {:induction false} AssignFromTrace(vs: seq<Point>, cs: seq<Point>, must: seq<(nat, nat)>, cannot: seq<(nat, nat)>,
                                           a: seq<nat>, i: nat, bound: nat, r: seq<nat>)
    requires i <= |vs| == |a| && InRange(must, |a|) && InRange(cannot, |a|)
    requires forall j :: i <= j < |a| ==> a[j] == |cs|
    requires AssignFrom(vs, cs, must, cannot, a, i, bound) == Ok(r)
    ensures forall j :: i <= j < |r| ==> Slot(vs, cs, must, cannot, Before(r, j, |cs|), j, bound) == Ok(r[j])
    decreases |vs| - i
  {
    if i < |vs| {
      var c := Slot(vs, cs, must, cannot, a, i, bound).value;
      AssignFromTrace(vs, cs, must, cannot, a[i := c], i + 1, bound, r);
      assert r[..i + 1] == a[i := c][..i + 1];
      assert a == Before(r, i, |cs|);
    }
  }

  /** The whole pass, traced. */
  lemma AssignmentTrace(vs: seq<Point>, cs: seq<Point>, must: seq<(nat, nat)>, cannot: seq<(nat, nat)>,
                        bound: nat, r: seq<nat>)
    requires InRange(must, |vs|) && InRange(cannot, |vs|)
    requires Assignment(vs, cs, must, cannot, bound) == Ok(r)
    ensures |r| == |vs|
    ensures forall j :: 0 <= j < |r| ==> Slot(vs, cs, must, cannot, Before(r, j, |cs|), j, bound) == Ok(r[j])
  {
    AssignFromTrace(vs, cs, must, cannot, seq(|vs|, _ => |cs|), 0, bound, r);
  }

  /** With the intended guard, a placed point always gets a real cluster, never the sentinel. */
  lemma SlotBelow(vs: seq<Point>, cs: seq<Point>, must: seq<(nat, nat)>, cannot: seq<(nat, nat)>, a: seq<nat>, i: nat)
    requires i < |vs| == |a| && InRange(must, |a|) && InRange(cannot, |a|)
    requires forall j :: 0 <= j < |a| ==> a[j] <= |cs|
    requires Slot(vs, cs, must, cannot, a, i, |cs|).Ok?
    ensures Slot(vs, cs, must, cannot, a, i, |cs|).value < |cs|
  {
    MustTargetMeaning(a, must, i, |cs|);
    NearestMeaning(vs[i], cs, Blocked(a, cannot, i, |cs|), |cs|);
  }

  lemma {:induction false} AssignFromBelow(vs: seq<Point>, cs: seq<Point>, must: seq<(nat, nat)>, cannot: seq<(nat, nat)>,
                                           a: seq<nat>, i: nat, r: seq<nat>)
    requires i <= |vs| == |a| && InRange(must, |a|) && InRange(cannot, |a|)
    requires forall j :: 0 <= j < |a| ==> a[j] <= |cs|
    requires forall j :: 0 <= j < i ==> a[j] < |cs|
    requires AssignFrom(vs, cs, must, cannot, a, i, |cs|) == Ok(r)
    ensures forall j :: 0 <= j < |r| ==> r[j] < |cs|
    decreases |vs| - i
  {
    if i < |vs| {
      SlotBelow(vs, cs, must, cannot, a, i);
      var c := Slot(vs, cs, must, cannot, a, i, |cs|).value;
      AssignFromBelow(vs, cs, must, cannot, a[i := c], i + 1, r);
    }
  }

  /**
   * With the guard comparing against the number of centres, a successful
   * pass leaves every point in a real cluster: move_centers can index every
   * centre it touches.
   */
  lemma AssignedInRange(vs: seq<Point>, cs: seq<Point>, must: seq<(nat, nat)>, cannot: seq<(nat, nat)>, r: seq<nat>)
    requires InRange(must, |vs|) && InRange(cannot, |vs|)
    requires Assignment(vs, cs, must, cannot, |cs|) == Ok(r)
    ensures |r| == |vs| && forall j :: 0 <= j < |r| ==> r[j] < |cs|
  {
    AssignFromBelow(vs, cs, must, cannot, seq(|vs|, _ => |cs|), 0, r);
  }

  /** Must-link partners that both hold a real cluster share it. */
  lemma MustLinksKept(vs: seq<Point>, cs: seq<Point>, must: seq<(nat, nat)>, cannot: seq<(nat, nat)>, bound: nat, r: seq<nat>)
    requires InRange(must, |vs|) && InRange(cannot, |vs|) && Symmetric(must)
    requires Assignment(vs, cs, must, cannot, bound) == Ok(r)
    ensures forall k :: 0 <= k < |must| && r[must[k].0] != |cs| && r[must[k].1] != |cs| ==>
      r[must[k].0] == r[must[k].1]
  {
    AssignmentTrace(vs, cs, must, cannot, bound, r);
    forall k | 0 <= k < |must| && r[must[k].0] != |cs| && r[must[k].1] != |cs|
      ensures r[must[k].0] == r[must[k].1]
    {
      var (x, y) := must[k];
      var hi, lo := if x < y then y else x, if x < y then x else y;
      if hi != lo {
        assert (hi, lo) in must;
        var a := Before(r, hi, |cs|);
        assert a[lo] == r[lo];
        MustTargetMeaning(a, must, hi, |cs|);
      }
    }
  }

  /** Cannot-link partners (two different points) that both hold a real cluster hold different ones. */
  lemma CannotLinksKept(vs: seq<Point>, cs: seq<Point>, must: seq<(nat, nat)>, cannot: seq<(nat, nat)>, bound: nat, r: seq<nat>)
    requires InRange(must, |vs|) && InRange(cannot, |vs|) && Symmetric(cannot)
    requires Assignment(vs, cs, must, cannot, bound) == Ok(r)
    ensures forall k ::
      (0 <= k < |cannot| && cannot[k].0 != cannot[k].1 && r[cannot[k].0] != |cs| && r[cannot[k].1] != |cs|) ==>
      r[cannot[k].0] != r[cannot[k].1]
  {
    AssignmentTrace(vs, cs, must, cannot, bound, r);
    forall k | 0 <= k < |cannot| && cannot[k].0 != cannot[k].1 && r[cannot[k].0] != |cs| && r[cannot[k].1] != |cs|
      ensures r[cannot[k].0] != r[cannot[k].1]
    {
      var (x, y) := cannot[k];
      var hi, lo := if x < y then y else x, if x < y then x else y;
      assert (hi, lo) in cannot;
      var a := Before(r, hi, |cs|);
      assert a[lo] == r[lo];
      var kk :| 0 <= kk < |cannot| && cannot[kk] == (hi, lo);
      BlockedMeaning(a, cannot, hi, |cs|, r[lo]);
      NearestMeaning(vs[hi], cs, Blocked(a, cannot, hi, |cs|), |cs|);
    }
  }

  /**
   * The guard as written (cop_kmeans.cc:182 compares with the number of
   * vectors): two points, one centre, and a cannot-link between the points.
   * Point 0 takes cluster 0; for point 1 cluster 0 is blocked, the search
   * finds nothing and leaves the sentinel 1 == |cs|, which differs from
   * |vs| == 2, so the pass completes with point 1 in the non-existent
   * cluster 1. move_centers then indexes centre 1 of a one-centre vector.
   */
  lemma SentinelSurvives()
    ensures Assignment([map[1 := 1.0], map[1 := 2.0]], [map[1 := 1.0]], [], [(0, 1), (1, 0)], 2) == Ok([0, 1])
  {
    var vs: seq<Point> := [map[1 := 1.0], map[1 := 2.0]];
    var cs: seq<Point> := [map[1 := 1.0]];
    var cannot := [(0, 1), (1, 0)];
    SentinelSteps(vs, cs, cannot, 2);
  }

  /** With the intended guard the same input is rejected: no cluster can take point 1. */
  lemma GuardRejects()
    ensures Assignment([map[1 := 1.0], map[1 := 2.0]], [map[1 := 1.0]], [], [(0, 1), (1, 0)], 1) == Err(NoClosestCluster)
  {
    var vs: seq<Point> := [map[1 := 1.0], map[1 := 2.0]];
    var cs: seq<Point> := [map[1 := 1.0]];
    var cannot := [(0, 1), (1, 0)];
    SentinelSteps(vs, cs, cannot, 1);
  }

  /** The two placements of the example, for either guard. */
  lemma SentinelSteps(vs: seq<Point>, cs: seq<Point>, cannot: seq<(nat, nat)>, bound: nat)
    requires vs == [map[1 := 1.0], map[1 := 2.0]] && cs == [map[1 := 1.0]] && cannot == [(0, 1), (1, 0)]
    requires bound == 1 || bound == 2
    ensures Slot(vs, cs, [], cannot, [1, 1], 0, bound) == Ok(0)
    ensures Slot(vs, cs, [], cannot, [0, 1], 1, bound) == if bound == 2 then Ok(1) else Err(NoClosestCluster)
    ensures Assignment(vs, cs, [], cannot, bound) ==
      if bound == 2 then Ok([0, 1]) else Err(NoClosestCluster)
  {
    assert cannot[..1] == [(0, 1)] && cannot[..1][..0] == [];
    assert Blocked([1, 1], cannot[..1], 0, 1) == {};
    assert Blocked([1, 1], cannot, 0, 1) == {};
    SqDistSelf(vs[0]);
    assert cs[..0] == [];
    assert Nearest(vs[0], cs, {}, 1) == (0, SqDist(vs[0], cs[0]));
    assert Blocked([0, 1], cannot[..1], 1, 1) == {};
    assert Blocked([0, 1], cannot, 1, 1) == {0};
    assert Nearest(vs[1], cs, {0}, 1) == (1, LongDist);
    assert seq(2, _ => |cs|) == [1, 1];
    assert [1, 1][0 := 0] == [0, 1];
    assert [0, 1][1 := 1] == [0, 1];
    assert AssignFrom(vs, cs, [], cannot, [0, 1], 2, bound) == Ok([0, 1]);
    if bound == 2 {
      assert AssignFrom(vs, cs, [], cannot, [0, 1], 1, bound) == Ok([0, 1]);
    } else {
      assert AssignFrom(vs, cs, [], cannot, [0, 1], 1, bound) == Err(NoClosestCluster);
    }
    assert AssignFrom(vs, cs, [], cannot, [1, 1], 0, bound) == AssignFrom(vs, cs, [], cannot, [0, 1], 1, bound);
  }

  // ---------------------------------------------------------------------
  // Mean update (move_centers)
  // ---------------------------------------------------------------------

  /** The key-wise sum of those of the first `n` vectors whose slot is `c`. */
  function ClusterSum(vs: seq<Point>, a: seq<nat>, c: nat, n: nat): Point
    requires n <= |a| == |vs|
    decreases n
  {
    if n == 0 then map[]
    else if a[n - 1] == c then AddInto(ClusterSum(vs, a, c, n - 1), vs[n - 1])
    else ClusterSum(vs, a, c, n - 1)
  }

  /** The number of the first `n` slots that hold `c`. */
  function Count(a: seq<nat>, c: nat, n: nat): nat
    requires n <= |a|
    decreases n
  {
    if n == 0 then 0 else Count(a, c, n - 1) + if a[n - 1] == c then 1 else 0
  }

  /** The centres after move_centers: each cluster's key-wise mean, or the empty vector for a cluster without members. */
  function MovedCenters(vs: seq<Point>, a: seq<nat>, K: nat): (r: seq<Point>)
    requires |a| == |vs|
    ensures |r| == K
  {
    seq(K, c requires 0 <= c < K =>
      if Count(a, c, |a|) == 0 then map[] else Divide(ClusterSum(vs, a, c, |a|), Count(a, c, |a|) as real))
  }

  /** The sum of the values under key `k` of those of the first `n` vectors whose slot is `c`. */
  function MemberTotal(vs: seq<Point>, a: seq<nat>, c: nat, k: nat, n: nat): real
    requires n <= |a| == |vs|
    decreases n
  {
    if n == 0 then 0.0
    else MemberTotal(vs, a, c, k, n - 1) + if a[n - 1] == c then Get(vs[n - 1], k) else 0.0
  }

  /** The cluster sum holds exactly the keys of the members, each with the members' total. */
  lemma {:induction false} ClusterSumMeaning(vs: seq<Point>, a: seq<nat>, c: nat, n: nat)
    requires n <= |a| == |vs|
    ensures forall k :: k in ClusterSum(vs, a, c, n) <==> exists i :: 0 <= i < n && a[i] == c && k in vs[i]
    ensures forall k :: Get(ClusterSum(vs, a, c, n), k) == MemberTotal(vs, a, c, k, n)
    ensures Count(a, c, n) == 0 ==> ClusterSum(vs, a, c, n) == map[]
    decreases n
  {
    if n > 0 {
      ClusterSumMeaning(vs, a, c, n - 1);
    }
  }

  /**
   * move_centers: a cluster without members ends as the empty vector; any
   * other ends with exactly its members' keys, and each value times the
   * member count is the members' total under that key (the mean).
   */
  lemma MovedCentersMeaning(vs: seq<Point>, a: seq<nat>, K: nat, c: nat)
    requires |a| == |vs| && c < K
    ensures Count(a, c, |a|) == 0 ==> MovedCenters(vs, a, K)[c] == map[]
    ensures Count(a, c, |a|) > 0 ==>
      (forall k :: k in MovedCenters(vs, a, K)[c] <==> exists i :: 0 <= i < |a| && a[i] == c && k in vs[i]) &&
      (forall k :: Get(MovedCenters(vs, a, K)[c], k) * (Count(a, c, |a|) as real) == MemberTotal(vs, a, c, k, |a|))
  {
    MovedCenterAt(vs, a, K, c);
    ClusterSumMeaning(vs, a, c, |a|);
    var n := Count(a, c, |a|);
    if n > 0 {
      var sum := ClusterSum(vs, a, c, |a|);
      var m := MovedCenters(vs, a, K)[c];
      forall k
        ensures k in m <==> exists i :: 0 <= i < |a| && a[i] == c && k in vs[i]
      {
        assert k in m <==> k in sum;
      }
      forall k
        ensures Get(m, k) * (n as real) == MemberTotal(vs, a, c, k, |a|)
      {
        assert Get(m, k) * (n as real) == Get(sum, k);
      }
    }
  }

  /** The new center of slot `c`, read off the sequence. */
  lemma MovedCenterAt(vs: seq<Point>, a: seq<nat>, K: nat, c: nat)
    requires |a| == |vs| && c < K
    ensures MovedCenters(vs, a, K)[c] ==
      if Count(a, c, |a|) == 0 then map[] else Divide(ClusterSum(vs, a, c, |a|), Count(a, c, |a|) as real)
  {
  }

  /** The insert-or-add loop of move_centers: `v` added key by key into `center`. */
  method AddVectorInto(center: Point, v: Point) returns (r: Point)
    ensures r == AddInto(center, v)
  {
    r := center;
    var rest := v.Keys;
    while rest != {}
      invariant rest <= v.Keys
      invariant r.Keys == center.Keys + (v.Keys - rest)
      invariant forall k :: Get(r, k) == Get(center, k) + if k in v.Keys - rest then Get(v, k) else 0.0
    {
      var k :| k in rest;
      if k in r {
        r := r[k := r[k] + v[k]];
      } else {
        r := r[k := v[k]];
      }
      rest := rest - {k};
    }
    MapsAgree(r, AddInto(center, v));
  }

  /** The division loop of move_centers. */
  method DivideAll(center: Point, n: real) returns (r: Point)
    requires n != 0.0
    ensures r == Divide(center, n)
  {
    r := center;
    var rest := center.Keys;
    while rest != {}
      invariant rest <= center.Keys && r.Keys == center.Keys
      invariant forall k :: k in r ==> r[k] == if k in rest then center[k] else center[k] / n
    {
      var k :| k in rest;
      r := r[k := r[k] / n];
      rest := rest - {k};
    }
  }

  /** move_centers on values: clear, accumulate every vector into its cluster, divide the non-empty ones. */
  method Move(vs: seq<Point>, K: nat, assign: array<nat>) returns (cs: seq<Point>)
    requires assign.Length == |vs| && forall i :: 0 <= i < |vs| ==> assign[i] < K
    ensures cs == MovedCenters(vs, assign[..], K)
  {
    ghost var a := assign[..];
    cs := seq(K, _ => map[]);
    var count := new nat[K](_ => 0);
    for i := 0 to |vs|
      invariant |cs| == K && assign[..] == a
      invariant forall c :: 0 <= c < K ==> cs[c] == ClusterSum(vs, a, c, i) && count[c] == Count(a, c, i)
    {
      var c := assign[i];
      var sum := AddVectorInto(cs[c], vs[i]);
      cs := cs[c := sum];
      count[c] := count[c] + 1;
    }
    for c := 0 to K
      invariant |cs| == K
      invariant forall d :: 0 <= d < c ==> cs[d] == MovedCenters(vs, a, K)[d]
      invariant forall d :: c <= d < K ==> cs[d] == ClusterSum(vs, a, d, |vs|) && count[d] == Count(a, d, |vs|)
    {
      if count[c] != 0 {
        var q := DivideAll(cs[c], count[c] as real);
        cs := cs[c := q];
      } else {
        ClusterSumMeaning(vs, a, c, |vs|);
      }
    }
  }

  // ---------------------------------------------------------------------
  // Constraints and the execute loop
  // ---------------------------------------------------------------------

  datatype Constraint = Must | Cannot

  /** Every pair names two stored vectors, and the relation is symmetric. */
  ghost predicate Linked(ps: seq<(nat, nat)>, n: nat)
  {
    InRange(ps, n) && Symmetric(ps)
  }

  /**
   * The two relations after add_constraint(l1, l2, kind): unchanged when
   * either label is unknown; otherwise both directions of the pair are
   * appended to the relation of that kind, and the other relation is left alone.
   */
  function Constrained(labels: map<string, nat>, must: seq<(nat, nat)>, cannot: seq<(nat, nat)>,
                       l1: string, l2: string, kind: Constraint): (r: (seq<(nat, nat)>, seq<(nat, nat)>))
    ensures l1 !in labels || l2 !in labels ==> r == (must, cannot)
    ensures l1 in labels && l2 in labels ==>
      var (i, j) := (labels[l1], labels[l2]);
      var (grown, kept) := if kind == Must then (r.0, r.1) else (r.1, r.0);
      var (before, other) := if kind == Must then (must, cannot) else (cannot, must);
      kept == other && |grown| == |before| + 2 && grown[..|before|] == before &&
      (i, j) in grown && (j, i) in grown
  {
    if l1 !in labels || l2 !in labels then (must, cannot)
    else
      var added := [(labels[l1], labels[l2]), (labels[l2], labels[l1])];
      if kind == Must then (must + added, cannot) else (must, cannot + added)
  }

  /** add_constraint keeps both relations symmetric and within the stored vectors. */
  lemma ConstrainedLinked(labels: map<string, nat>, must: seq<(nat, nat)>, cannot: seq<(nat, nat)>,
                          l1: string, l2: string, kind: Constraint, n: nat)
    requires forall l :: l in labels ==> labels[l] < n
    requires Linked(must, n) && Linked(cannot, n)
    ensures Linked(Constrained(labels, must, cannot, l1, l2, kind).0, n)
    ensures Linked(Constrained(labels, must, cannot, l1, l2, kind).1, n)
  {
    if l1 in labels && l2 in labels {
      var added := [(labels[l1], labels[l2]), (labels[l2], labels[l1])];
      AppendLinked(if kind == Must then must else cannot, added, n);
    }
  }

  /** Appending a pair together with its reverse keeps a relation linked. */
  lemma AppendLinked(ps: seq<(nat, nat)>, added: seq<(nat, nat)>, n: nat)
    requires Linked(ps, n) && |added| == 2 && added[1] == (added[0].1, added[0].0)
    requires added[0].0 < n && added[0].1 < n
    ensures Linked(ps + added, n)
  {
    var qs := ps + added;
    forall k | 0 <= k < |qs|
      ensures (qs[k].1, qs[k].0) in qs
    {
      if k < |ps| {
        var kk :| 0 <= kk < |ps| && ps[kk] == (ps[k].1, ps[k].0);
        assert qs[kk] == ps[kk];
      } else if k == |ps| {
        assert qs[|ps| + 1] == added[1];
      } else {
        assert qs[|ps|] == added[0];
      }
    }
  }

  /**
   * What execute leaves behind: the last assignment, the centres moved from
   * it, the number of passes made, and whether the last assignment repeated
   * the one before it.
   */
  datatype Outcome = Outcome(assign: seq<nat>, centers: seq<Point>, passes: nat, converged: bool)

  /**
   * The loop of execute from pass `done` on, with the previous assignment
   * `prev`: assign, move the centres (also on the pass that converges), and
   * stop when the assignment equals `prev` element-wise or after MAX_ITER
   * passes. An assignment error ends the run.
   */
  ghost function Iterate(vs: seq<Point>, cs: seq<Point>, must: seq<(nat, nat)>, cannot: seq<(nat, nat)>,
                         prev: seq<nat>, done: nat): (r: Result<Outcome, AssignError>)
    requires InRange(must, |vs|) && InRange(cannot, |vs|) && done < MaxIter
    ensures r.Ok? ==> done < r.value.passes <= MaxIter && (r.value.converged || r.value.passes == MaxIter)
    ensures r.Ok? ==> |r.value.assign| == |vs| && r.value.centers == MovedCenters(vs, r.value.assign, |cs|)
    decreases MaxIter - done
  {
    match Assignment(vs, cs, must, cannot, |cs|)
    case Err(e) => Err(e)
    case Ok(a) =>
      var moved := MovedCenters(vs, a, |cs|);
      if a == prev then Ok(Outcome(a, moved, done + 1, true))
      else if done + 1 == MaxIter then Ok(Outcome(a, moved, MaxIter, false))
      else Iterate(vs, moved, must, cannot, a, done + 1)
  }

  /**
   * A run that converges on a later pass than its first ends at a fixed
   * point: assigning against the final centres gives the final assignment again.
   */
  lemma {:induction false} IterateFixedPoint(vs: seq<Point>, cs: seq<Point>, must: seq<(nat, nat)>, cannot: seq<(nat, nat)>,
                                             prev: seq<nat>, done: nat)
    requires InRange(must, |vs|) && InRange(cannot, |vs|) && done < MaxIter
    requires Iterate(vs, cs, must, cannot, prev, done).Ok?
    requires Iterate(vs, cs, must, cannot, prev, done).value.converged
    requires Iterate(vs, cs, must, cannot, prev, done).value.passes > done + 1
    ensures var o := Iterate(vs, cs, must, cannot, prev, done).value;
      Assignment(vs, o.centers, must, cannot, |o.centers|) == Ok(o.assign)
    decreases MaxIter - done
  {
    var a := Assignment(vs, cs, must, cannot, |cs|).value;
    var moved := MovedCenters(vs, a, |cs|);
    var o := Iterate(vs, moved, must, cannot, a, done + 1);
    assert Iterate(vs, cs, must, cannot, prev, done) == o;
    if o.value.passes > done + 2 {
      IterateFixedPoint(vs, moved, must, cannot, a, done + 1);
    } else {
      assert Assignment(vs, moved, must, cannot, |moved|) == Ok(a);
    }
  }

  /**
   * A run that completes places every point in a real cluster, keeps every
   * must-link pair together and every cannot-link pair of two different
   * points apart.
   */
  lemma {:induction false} IterateSound(vs: seq<Point>, cs: seq<Point>, must: seq<(nat, nat)>, cannot: seq<(nat, nat)>,
                                        prev: seq<nat>, done: nat)
    requires Linked(must, |vs|) && Linked(cannot, |vs|) && done < MaxIter
    requires Iterate(vs, cs, must, cannot, prev, done).Ok?
    ensures var o := Iterate(vs, cs, must, cannot, prev, done).value;
      forall j :: 0 <= j < |o.assign| ==> o.assign[j] < |cs|
    ensures var o := Iterate(vs, cs, must, cannot, prev, done).value;
      forall k :: 0 <= k < |must| ==> o.assign[must[k].0] == o.assign[must[k].1]
    ensures var o := Iterate(vs, cs, must, cannot, prev, done).value;
      forall k :: 0 <= k < |cannot| && cannot[k].0 != cannot[k].1 ==> o.assign[cannot[k].0] != o.assign[cannot[k].1]
    decreases MaxIter - done
  {
    var a := Assignment(vs, cs, must, cannot, |cs|).value;
    var moved := MovedCenters(vs, a, |cs|);
    if a == prev || done + 1 == MaxIter {
      AssignedInRange(vs, cs, must, cannot, a);
      MustLinksKept(vs, cs, must, cannot, |cs|, a);
      CannotLinksKept(vs, cs, must, cannot, |cs|, a);
    } else {
      IterateSound(vs, moved, must, cannot, a, done + 1);
    }
  }

  /** is_same_array: whether the first `size` elements of the two arrays agree. */
  method IsSameArray(left: array<nat>, right: array<nat>, size: nat) returns (same: bool)
    requires size <= left.Length && size <= right.Length
    ensures same <==> left[..size] == right[..size]
  {
    for i := 0 to size
      invariant forall k :: 0 <= k < i ==> left[k] == right[k]
    {
      if left[i] != right[i] {
        assert left[..size][i] != right[..size][i];
        return false;
      }
    }
    assert left[..size] == right[..size];
    return true;
  }

  /**
   * The loop of execute on values: up to MAX_ITER passes of assign, move,
   * compare with the previous assignment and, when they differ, copy.
   */
  method Run(vs: seq<Point>, cs0: seq<Point>, must: seq<(nat, nat)>, cannot: seq<(nat, nat)>, prev0: seq<nat>)
    returns (r: Result<Outcome, AssignError>)
    requires InRange(must, |vs|) && InRange(cannot, |vs|) && |prev0| == |vs|
    ensures r == Iterate(vs, cs0, must, cannot, prev0, 0)
  {
    var assign := new nat[|vs|];
    var prev := new nat[|vs|](i requires 0 <= i < |vs| => prev0[i]);
    assert prev[..] == prev0;
    var cs := cs0;
    for i := 0 to MaxIter
      invariant |cs| == |cs0|
      invariant i < MaxIter ==> Iterate(vs, cs, must, cannot, prev[..], i) == Iterate(vs, cs0, must, cannot, prev0, 0)
      invariant i == MaxIter ==>
        (assign[..] == prev[..] && Iterate(vs, cs0, must, cannot, prev0, 0) == Ok(Outcome(assign[..], cs, MaxIter, false)))
    {
      ghost var before := cs;
      var err := Assign(vs, cs, must, cannot, assign);
      if err.Some? {
        return Err(err.value);
      }
      ghost var a := assign[..];
      AssignedInRange(vs, cs, must, cannot, a);
      cs := Move(vs, |cs|, assign);
      assert cs == MovedCenters(vs, a, |before|);
      var same := IsSameArray(assign, prev, |vs|);
      if same {
        assert assign[..] == assign[..|vs|] && prev[..] == prev[..|vs|];
        return Ok(Outcome(assign[..], cs, i + 1, true));
      }
      CopyArray(assign, prev);
    }
    return Ok(Outcome(assign[..], cs, MaxIter, false));
  }

  /** std::copy of `src` over `dst`, element by element. */
  method CopyArray(src: array<nat>, dst: array<nat>)
    requires src.Length == dst.Length && src != dst
    modifies dst
    ensures dst[..] == src[..]
  {
    for j := 0 to src.Length
      invariant forall k :: 0 <= k < j ==> dst[k] == src[k]
    {
      dst[j] := src[j];
    }
  }

  class KMeans {
    var vectors: seq<Point>
    var centers: seq<Point>
    var labels: map<string, nat>
    var must: seq<(nat, nat)>
    var cannot: seq<(nat, nat)>

    /** Labels name stored vectors; both constraint relations are symmetric and name stored vectors. */
    ghost predicate Valid()
      reads this
    {
      (forall l :: l in labels ==> labels[l] < |vectors|) &&
      Linked(must, |vectors|) && Linked(cannot, |vectors|)
    }

    constructor ()
      ensures Valid()
      ensures vectors == [] && centers == [] && labels == map[] && must == [] && cannot == []
    {
      vectors, centers, labels, must, cannot := [], [], map[], [], [];
    }

    /**
     * add_vector: the vector is stored at the next index and the label is
     * pointed at it; a label seen before is redirected, its old vector stays stored.
     */
    method AddVector(name: string, vec: Point)
      requires name != "" && vec != map[]
      modifies this
      ensures vectors == old(vectors) + [vec] && labels == old(labels)[name := |old(vectors)|]
      ensures centers == old(centers) && must == old(must) && cannot == old(cannot)
      ensures old(Valid()) ==> Valid()
    {
      labels := labels[name := |vectors|];
      vectors := vectors + [vec];
    }

    /** add_constraint: records the pair in both directions, or does nothing when a label is unknown. */
    method AddConstraint(label1: string, label2: string, kind: Constraint)
      modifies this
      ensures (must, cannot) == Constrained(old(labels), old(must), old(cannot), label1, label2, kind)
      ensures vectors == old(vectors) && centers == old(centers) && labels == old(labels)
      ensures old(Valid()) ==> Valid()
    {
      ConstrainedLinkedIfValid(label1, label2, kind);
      if label1 !in labels {
        return;
      }
      var index1 := labels[label1];
      if label2 !in labels {
        return;
      }
      var index2 := labels[label2];
      match kind
      case Must =>
        must := must + [(index1, index2), (index2, index1)];
      case Cannot =>
        cannot := cannot + [(index1, index2), (index2, index1)];
    }

    /** The relations Constrained describes are linked whenever the current state is valid. */
    lemma ConstrainedLinkedIfValid(label1: string, label2: string, kind: Constraint)
      ensures Valid() ==> Linked(Constrained(labels, must, cannot, label1, label2, kind).0, |vectors|)
      ensures Valid() ==> Linked(Constrained(labels, must, cannot, label1, label2, kind).1, |vectors|)
    {
      if Valid() {
        ConstrainedLinked(labels, must, cannot, label1, label2, kind, |vectors|);
      }
    }

    /**
     * choose_smart_centers: picks `first`, then one centre per draw; the
     * centres are copies of the picked vectors.
     */
    method ChooseSmartCenters(ncenters: nat, first: nat, draws: seq<real>) returns (picked: seq<nat>)
      requires first < |vectors| && |draws| + 1 >= ncenters
      modifies this
      ensures vectors == old(vectors) && labels == old(labels)
      ensures must == old(must) && cannot == old(cannot)
      ensures picked == Seeding(vectors, first, draws, ncenters)
      ensures centers == Copies(vectors, picked)
    {
      var cs;
      picked, cs := SeedCenters(vectors, first, draws, ncenters);
      centers := cs;
    }

    /** assign_clusters: the assignment pass over the stored vectors and centres. */
    method AssignClusters(assign: array<nat>) returns (err: Option<AssignError>)
      requires Valid() && assign.Length == |vectors|
      modifies assign
      ensures err.None? ==> Assignment(vectors, centers, must, cannot, |centers|) == Ok(assign[..])
      ensures err.Some? ==> Assignment(vectors, centers, must, cannot, |centers|) == Err(err.value)
    {
      err := Assign(vectors, centers, must, cannot, assign);
    }

    /** move_centers: every centre becomes the mean of its cluster, or empty when the cluster has no members. */
    method MoveCenters(assign: array<nat>)
      requires assign.Length == |vectors| && forall i :: 0 <= i < assign.Length ==> assign[i] < |centers|
      modifies this
      ensures vectors == old(vectors) && labels == old(labels)
      ensures must == old(must) && cannot == old(cannot)
      ensures centers == MovedCenters(vectors, assign[..], |old(centers)|)
    {
      centers := Move(vectors, |centers|, assign);
    }

    /**
     * execute: seed the centres, then run the assign/move loop from the
     * previous assignment `prev0` (the program's uninitialised array). On
     * success the stored centres are the final ones.
     */
    method Execute(nclusters: nat, first: nat, draws: seq<real>, prev0: seq<nat>)
      returns (picked: seq<nat>, r: Result<Outcome, AssignError>)
      requires Valid() && nclusters <= |vectors| && first < |vectors| && |draws| + 1 >= nclusters
      requires |prev0| == |vectors|
      modifies this
      ensures vectors == old(vectors) && labels == old(labels) && must == old(must) && cannot == old(cannot)
      ensures picked == Seeding(vectors, first, draws, nclusters)
      ensures r == Iterate(vectors, Copies(vectors, picked), must, cannot, prev0, 0)
      ensures r.Ok? ==> centers == r.value.centers
    {
      picked := ChooseSmartCenters(nclusters, first, draws);
      r := Run(vectors, centers, must, cannot, prev0);
      if r.Ok? {
        centers := r.value.centers;
      }
    }
  }

  // ---------------------------------------------------------------------
  // Reading the input files (read_vectors, read_constraints)
  // ---------------------------------------------------------------------

  const Delimiter: string := "\t"

  /** The vector of a line so far, with the key numbering as it stands. */
  datatype Numbered = Numbered(vec: Point, keymap: map<string, nat>, curkey: nat)

  /** vec->insert of a non-zero value: a key already present keeps its value. */
  function Insert(v: Point, key: nat, point: real): Point
  {
    if point != 0.0 && key !in v then v[key := point] else v
  }

  /**
   * One name/value pair of a line: a name seen before keeps its number, a
   * new one takes `curkey` (also when its value is zero and nothing is stored).
   */
  function AddPair(p: Numbered, name: string, point: real): Numbered
  {
    if name in p.keymap then Numbered(Insert(p.vec, p.keymap[name], point), p.keymap, p.curkey)
    else Numbered(Insert(p.vec, p.curkey, point), p.keymap[name := p.curkey], p.curkey + 1)
  }

  /** The vector of a line split into fields `f`, after its first `m` name/value pairs (fields 2j-1 and 2j). */
  function PairsRead(f: seq<string>, m: nat, keymap: map<string, nat>, curkey: nat, atof: string -> real): Numbered
    requires 2 * m < |f|
    decreases m
  {
    if m == 0 then Numbered(map[], keymap, curkey)
    else AddPair(PairsRead(f, m - 1, keymap, curkey, atof), f[2 * m - 1], atof(f[2 * m]))
  }

  /** Key names are numbered 1, 2, ... without gaps or repeats; `curkey` is the next number. */
  predicate Numbering(keymap: map<string, nat>, curkey: nat)
  {
    curkey == |keymap| + EmptyKey + 1 &&
    (forall n :: n in keymap ==> EmptyKey < keymap[n] < curkey) &&
    (forall n1, n2 :: n1 in keymap && n2 in keymap && n1 != n2 ==> keymap[n1] != keymap[n2])
  }

  /** A stored record's vector: non-empty, no key is EMPTY_KEY, no value is zero. */
  predicate Clean(v: Point)
  {
    v != map[] && forall k :: k in v ==> k != EmptyKey && v[k] != 0.0
  }

  /** Only non-zero values under numbered keys. */
  predicate ValuesNumbered(p: Numbered)
  {
    forall k :: k in p.vec ==> EmptyKey < k < p.curkey && p.vec[k] != 0.0
  }

  /** Numbering a new name with `curkey` keeps the numbering consistent. */
  lemma NumberingStep(keymap: map<string, nat>, curkey: nat, name: string)
    requires Numbering(keymap, curkey) && name !in keymap
    ensures Numbering(keymap[name := curkey], curkey + 1)
  {
    var q := keymap[name := curkey];
    assert |q| == |keymap| + 1;
    forall n1, n2 | n1 in q && n2 in q && n1 != n2
      ensures q[n1] != q[n2]
    {
      if n1 != name && n2 != name {
        assert q[n1] == keymap[n1] && q[n2] == keymap[n2];
      }
    }
  }

  /**
   * One pair keeps the numbering consistent, numbers its name, renumbers no
   * name, keeps every stored value and stores only a non-zero value under a
   * numbered key.
   */
  lemma AddPairFacts(p: Numbered, name: string, point: real)
    requires Numbering(p.keymap, p.curkey) && ValuesNumbered(p)
    ensures var q := AddPair(p, name, point);
      Numbering(q.keymap, q.curkey) && ValuesNumbered(q) && name in q.keymap &&
      (forall n :: n in p.keymap ==> n in q.keymap && q.keymap[n] == p.keymap[n]) &&
      (forall k :: k in p.vec ==> k in q.vec && q.vec[k] == p.vec[k])
  {
    if name !in p.keymap {
      NumberingStep(p.keymap, p.curkey, name);
    }
  }

  /**
   * Reading pairs keeps the numbering consistent, never renumbers a name,
   * and stores only non-zero values under numbered keys.
   */
  lemma {:induction false} PairsReadFacts(f: seq<string>, m: nat, keymap: map<string, nat>, curkey: nat, atof: string -> real)
    requires 2 * m < |f| && Numbering(keymap, curkey)
    ensures var p := PairsRead(f, m, keymap, curkey, atof);
      Numbering(p.keymap, p.curkey) && ValuesNumbered(p) &&
      (forall n :: n in keymap ==> n in p.keymap && p.keymap[n] == keymap[n])
    decreases m
  {
    if m > 0 {
      PairsReadFacts(f, m - 1, keymap, curkey, atof);
      AddPairFacts(PairsRead(f, m - 1, keymap, curkey, atof), f[2 * m - 1], atof(f[2 * m]));
    }
  }

  /** A key that has a value after `i` pairs has the same value after any later pair: the first value is kept. */
  lemma {:induction false} PairsReadKeepsFirst(f: seq<string>, i: nat, m: nat, keymap: map<string, nat>, curkey: nat,
                                               atof: string -> real)
    requires i <= m && 2 * m < |f|
    ensures forall k :: k in PairsRead(f, i, keymap, curkey, atof).vec ==>
      k in PairsRead(f, m, keymap, curkey, atof).vec &&
      PairsRead(f, m, keymap, curkey, atof).vec[k] == PairsRead(f, i, keymap, curkey, atof).vec[k]
    decreases m - i
  {
    if i < m {
      PairsReadKeepsFirst(f, i, m - 1, keymap, curkey, atof);
    }
  }

  /** What read_vectors carries from line to line, together with the records stored so far. */
  datatype Loaded = Loaded(vectors: seq<Point>, labels: map<string, nat>, keymap: map<string, nat>, curkey: nat,
                           stale: seq<string>)

  /**
   * One line of read_vectors. Its fields (the pieces between tabs) are
   * appended to `stale`. A field count that is not odd is a format error:
   * nothing is added, and the fields stay behind for the next line exactly
   * when `keepStale` holds. The program's `continue` skips splited.clear(),
   * so it keeps them; the reader as intended drops them. Otherwise the pairs
   * are read, and the record is added when its label (field 0) and its
   * vector are non-empty.
   */
  function ReadLine(st: Loaded, line: string, atof: string -> real, keepStale: bool): Loaded
  {
    var f := st.stale + Pieces(line, Delimiter);
    if |f| % 2 != 1 then st.(stale := if keepStale then f else [])
    else
      var p := PairsRead(f, |f| / 2, st.keymap, st.curkey, atof);
      var st2 := st.(keymap := p.keymap, curkey := p.curkey, stale := []);
      if f[0] != "" && p.vec != map[] then
        st2.(vectors := st.vectors + [p.vec], labels := st.labels[f[0] := |st.vectors|])
      else st2
  }

  /** The lines read in order. */
  function ReadAll(st: Loaded, lines: seq<string>, atof: string -> real, keepStale: bool): Loaded
    decreases |lines|
  {
    if lines == [] then st
    else ReadLine(ReadAll(st, lines[..|lines| - 1], atof, keepStale), lines[|lines| - 1], atof, keepStale)
  }

  /** The state read_vectors starts from: the engine's records, an empty key numbering starting at EMPTY_KEY + 1. */
  function Start(vectors: seq<Point>, labels: map<string, nat>): Loaded
  {
    Loaded(vectors, labels, map[], EmptyKey + 1, [])
  }

  /** The facts ReadAllFacts keeps, for one state measured against the records `n` held before. */
  predicate Grown(st: Loaded, vectors: seq<Point>)
  {
    Numbering(st.keymap, st.curkey) &&
    |st.vectors| >= |vectors| && st.vectors[..|vectors|] == vectors &&
    (forall i :: |vectors| <= i < |st.vectors| ==> Clean(st.vectors[i])) &&
    (forall l :: l in st.labels ==> st.labels[l] < |st.vectors|) &&
    (forall l :: l in st.labels && st.labels[l] >= |vectors| ==> l != "")
  }

  /** One line keeps the facts. */
  lemma ReadLineGrown(st: Loaded, line: string, atof: string -> real, keepStale: bool, vectors: seq<Point>)
    requires Grown(st, vectors)
    ensures Grown(ReadLine(st, line, atof, keepStale), vectors)
  {
    var f := st.stale + Pieces(line, Delimiter);
    if |f| % 2 == 1 {
      PairsReadFacts(f, |f| / 2, st.keymap, st.curkey, atof);
      var r := ReadLine(st, line, atof, keepStale);
      if |r.vectors| > |st.vectors| {
        assert r.vectors[..|st.vectors|] == st.vectors;
        assert r.vectors[..|vectors|] == st.vectors[..|vectors|];
      }
    }
  }

  /**
   * Reading keeps the records read before, adds only clean records under
   * non-empty labels, keeps labels pointing at stored records and keeps the
   * numbering consistent.
   */
  lemma {:induction false} ReadAllFacts(st: Loaded, lines: seq<string>, atof: string -> real, keepStale: bool)
    requires Numbering(st.keymap, st.curkey)
    requires forall l :: l in st.labels ==> st.labels[l] < |st.vectors|
    ensures Grown(ReadAll(st, lines, atof, keepStale), st.vectors)
    decreases |lines|
  {
    if lines == [] {
      assert st.vectors[..|st.vectors|] == st.vectors;
    } else {
      ReadAllFacts(st, lines[..|lines| - 1], atof, keepStale);
      ReadLineGrown(ReadAll(st, lines[..|lines| - 1], atof, keepStale), lines[|lines| - 1], atof, keepStale, st.vectors);
    }
  }

  /** The intended reader never keeps fields behind. */
  lemma {:induction false} NothingStale(st: Loaded, lines: seq<string>, atof: string -> real)
    requires st.stale == []
    ensures ReadAll(st, lines, atof, false).stale == []
    decreases |lines|
  {
    if lines != [] {
      NothingStale(st, lines[..|lines| - 1], atof);
    }
  }

  /** With the intended reader, a line with an even number of fields changes nothing. */
  lemma MalformedLineSkipped(st: Loaded, lines: seq<string>, line: string, atof: string -> real)
    requires st.stale == []
    requires |Pieces(line, Delimiter)| % 2 == 0
    ensures ReadLine(ReadAll(st, lines, atof, false), line, atof, false) == ReadAll(st, lines, atof, false)
  {
    NothingStale(st, lines, atof);
  }

  /** The value function of the two example files below: "2" reads as 2, every other text as 0. */
  function ReadTwo(s: string): real
  {
    if s == "2" then 2.0 else 0.0
  }

  /**
   * read_vectors as written on the lines "a<TAB>b" and "x<TAB>1<TAB>2": the
   * first line has two fields and is rejected, but its fields stay in
   * splited, so the second line is read as a<TAB>b<TAB>x<TAB>1<TAB>2. The
   * record is stored under the label of the rejected line, "b" takes key 1
   * and "1" takes key 2.
   */
  lemma StaleFieldsCarried()
    ensures var r := ReadAll(Start([], map[]), ["a\tb", "x\t1\t2"], ReadTwo, true);
      r.vectors == [map[2 := 2.0]] && r.labels == map["a" := 0]
  {
    TwoLineSteps(true);
    ExamplePieces();
    var f := ["a", "b", "x", "1", "2"];
    assert ["a", "b"] + Pieces("x\t1\t2", Delimiter) == f;
    StalePairs();
    var st1 := Start([], map[]).(stale := ["a", "b"]);
    var lines := ["a\tb", "x\t1\t2"];
    assert ReadAll(Start([], map[]), lines, ReadTwo, true) == ReadLine(st1, lines[1], ReadTwo, true);
  }

  /** The pairs of the second example line behind the stale fields of the first. */
  lemma StalePairs()
    ensures PairsRead(["a", "b", "x", "1", "2"], 2, map[], 1, ReadTwo) == Numbered(map[2 := 2.0], map["b" := 1, "1" := 2], 3)
  {
    var f := ["a", "b", "x", "1", "2"];
    assert ReadTwo("x") == 0.0 && ReadTwo("2") == 2.0;
    assert PairsRead(f, 1, map[], 1, ReadTwo) == Numbered(map[], map["b" := 1], 2);
    assert "1" !in map["b" := 1];
  }

  /** The same two lines read as intended: only the second line's record, labelled "x", with "1" as key 1. */
  lemma MalformedLineDropped()
    ensures var r := ReadAll(Start([], map[]), ["a\tb", "x\t1\t2"], ReadTwo, false);
      r.vectors == [map[1 := 2.0]] && r.labels == map["x" := 0]
  {
    TwoLineSteps(false);
    ExamplePieces();
    var f := ["x", "1", "2"];
    assert [] + Pieces("x\t1\t2", Delimiter) == f;
    assert ReadTwo("2") == 2.0;
    assert PairsRead(f, 1, map[], 1, ReadTwo) == Numbered(map[1 := 2.0], map["1" := 1], 2);
  }

  /** The pieces of the two example lines. */
  lemma ExamplePieces()
    ensures Pieces("a\tb", Delimiter) == ["a", "b"]
    ensures Pieces("x\t1\t2", Delimiter) == ["x", "1", "2"]
  {
    assert Join(["a", "b"], Delimiter) == "a\tb";
    PiecesOfJoin(["a", "b"], '\t');
    assert Join(["x", "1", "2"], Delimiter) == "x\t1\t2" by {
      assert Join(["1", "2"], Delimiter) == "1\t2";
      JoinCons("x", ["1", "2"], Delimiter);
    }
    PiecesOfJoin(["x", "1", "2"], '\t');
  }

  /** How the two readers treat the first example line. */
  lemma TwoLineSteps(keepStale: bool)
    ensures ReadAll(Start([], map[]), ["a\tb"], ReadTwo, keepStale) ==
      Start([], map[]).(stale := if keepStale then ["a", "b"] else [])
    ensures ["a\tb", "x\t1\t2"][..1] == ["a\tb"]
  {
    ExamplePieces();
    assert ["a\tb"][..0] == [];
  }

  /** The pair loop of read_vectors over the fields of one line with an odd number of fields. */
  method ReadPairs(f: seq<string>, keymap0: map<string, nat>, curkey0: nat, atof: string -> real)
    returns (vec: Point, keymap: map<string, nat>, curkey: nat)
    requires |f| % 2 == 1
    ensures Numbered(vec, keymap, curkey) == PairsRead(f, |f| / 2, keymap0, curkey0, atof)
  {
    vec, keymap, curkey := map[], keymap0, curkey0;
    var i := 1;
    ghost var m := 0;
    while i < |f|
      invariant i == 2 * m + 1 && i <= |f|
      invariant Numbered(vec, keymap, curkey) == PairsRead(f, m, keymap0, curkey0, atof)
    {
      var key: nat;
      if f[i] in keymap {
        key := keymap[f[i]];
      } else {
        key := curkey;
        keymap := keymap[f[i] := curkey];
        curkey := curkey + 1;
      }
      var point := atof(f[i + 1]);
      if point != 0.0 && key !in vec {
        vec := vec[key := point];
      }
      i, m := i + 2, m + 1;
    }
  }

  /**
   * read_vectors over the lines of the file, as intended: each line is split
   * on tabs, a line with an even number of fields is dropped together with
   * its fields, the pairs of the others are numbered and read, and a record
   * with a label and a non-empty vector is handed to add_vector.
   */
  method ReadVectors(lines: seq<string>, atof: string -> real, kmeans: KMeans)
    modifies kmeans
    ensures var r := ReadAll(Start(old(kmeans.vectors), old(kmeans.labels)), lines, atof, false);
      kmeans.vectors == r.vectors && kmeans.labels == r.labels
    ensures kmeans.centers == old(kmeans.centers) && kmeans.must == old(kmeans.must) && kmeans.cannot == old(kmeans.cannot)
    ensures old(kmeans.Valid()) ==> kmeans.Valid()
  {
    ghost var start := Start(kmeans.vectors, kmeans.labels);
    var keymap: map<string, nat> := map[];
    var curkey: nat := EmptyKey + 1;
    var splited: seq<string> := [];
    for n := 0 to |lines|
      invariant ReadAll(start, lines[..n], atof, false) == Loaded(kmeans.vectors, kmeans.labels, keymap, curkey, splited)
      invariant kmeans.centers == old(kmeans.centers) && kmeans.must == old(kmeans.must) && kmeans.cannot == old(kmeans.cannot)
      invariant old(kmeans.Valid()) ==> kmeans.Valid()
    {
      assert lines[..n + 1][..n] == lines[..n];
      var cnt;
      splited, cnt := Split(lines[n], Delimiter, splited);
      if |splited| % 2 != 1 {
        splited := [];
        continue;
      }
      var vec;
      vec, keymap, curkey := ReadPairs(splited, keymap, curkey, atof);
      if splited[0] != "" && vec != map[] {
        kmeans.AddVector(splited[0], vec);
      }
      splited := [];
    }
    assert lines[..|lines|] == lines;
  }

  /**
   * The constraint a line of read_constraints asks for: exactly three
   * fields, the third exactly "c" (cannot-link) or "m" (must-link); every
   * other line is skipped.
   */
  function LineConstraint(line: string): Option<(string, string, Constraint)>
  {
    var f := Pieces(line, Delimiter);
    if |f| != 3 then None
    else if f[2] == "c" then Some((f[0], f[1], Cannot))
    else if f[2] == "m" then Some((f[0], f[1], Must))
    else None
  }

  /**
   * A line made of two tab-free labels and a tab-free kind is read back as
   * the constraint between those labels when the kind is "c" or "m", and is
   * skipped otherwise.
   */
  lemma LineConstraintOfFields(l1: string, l2: string, kind: string)
    requires '\t' !in l1 && '\t' !in l2 && '\t' !in kind
    ensures LineConstraint(l1 + "\t" + l2 + "\t" + kind) ==
      if kind == "c" then Some((l1, l2, Cannot)) else if kind == "m" then Some((l1, l2, Must)) else None
  {
    assert Join([l1, l2, kind], Delimiter) == l1 + "\t" + l2 + "\t" + kind by {
      JoinCons(l2, [kind], Delimiter);
      JoinCons(l1, [l2, kind], Delimiter);
    }
    PiecesOfJoin([l1, l2, kind], '\t');
  }

  /** Only a line with exactly two tabs can carry a constraint. */
  lemma LineConstraintTabs(line: string)
    ensures LineConstraint(line).Some? ==> multiset(line)['\t'] == 2
  {
    PiecesCount(line, '\t');
  }

  /** The two relations after the constraint lines, applied in order. */
  function ConstrainAll(labels: map<string, nat>, must: seq<(nat, nat)>, cannot: seq<(nat, nat)>, lines: seq<string>)
    : (seq<(nat, nat)>, seq<(nat, nat)>)
    decreases |lines|
  {
    if lines == [] then (must, cannot)
    else
      var (m, c) := ConstrainAll(labels, must, cannot, lines[..|lines| - 1]);
      match LineConstraint(lines[|lines| - 1])
      case None => (m, c)
      case Some(t) => Constrained(labels, m, c, t.0, t.1, t.2)
  }

  /** Reading constraint lines keeps both relations symmetric and within the stored vectors. */
  lemma {:induction false} ConstrainAllLinked(labels: map<string, nat>, must: seq<(nat, nat)>, cannot: seq<(nat, nat)>,
                                              lines: seq<string>, n: nat)
    requires forall l :: l in labels ==> labels[l] < n
    requires Linked(must, n) && Linked(cannot, n)
    ensures Linked(ConstrainAll(labels, must, cannot, lines).0, n)
    ensures Linked(ConstrainAll(labels, must, cannot, lines).1, n)
    decreases |lines|
  {
    if lines != [] {
      ConstrainAllLinked(labels, must, cannot, lines[..|lines| - 1], n);
      var (m, c) := ConstrainAll(labels, must, cannot, lines[..|lines| - 1]);
      match LineConstraint(lines[|lines| - 1])
      case None =>
      case Some(t) => ConstrainedLinked(labels, m, c, t.0, t.1, t.2, n);
    }
  }

  /** read_constraints over the lines of the file: each line that names a constraint is handed to add_constraint. */
  method ReadConstraints(lines: seq<string>, kmeans: KMeans)
    modifies kmeans
    ensures (kmeans.must, kmeans.cannot) == ConstrainAll(old(kmeans.labels), old(kmeans.must), old(kmeans.cannot), lines)
    ensures kmeans.vectors == old(kmeans.vectors) && kmeans.labels == old(kmeans.labels) && kmeans.centers == old(kmeans.centers)
    ensures old(kmeans.Valid()) ==> kmeans.Valid()
  {
    for n := 0 to |lines|
      invariant (kmeans.must, kmeans.cannot) == ConstrainAll(old(kmeans.labels), old(kmeans.must), old(kmeans.cannot), lines[..n])
      invariant kmeans.vectors == old(kmeans.vectors) && kmeans.labels == old(kmeans.labels)
      invariant kmeans.centers == old(kmeans.centers)
      invariant old(kmeans.Valid()) ==> kmeans.Valid()
    {
      assert lines[..n + 1][..n] == lines[..n];
      var splited, cnt := Split(lines[n], Delimiter, []);
      assert splited == Pieces(lines[n], Delimiter);
      if |splited| == 3 {
        if splited[2] == "c" {
          kmeans.AddConstraint(splited[0], splited[1], Cannot);
        } else if splited[2] == "m" {
          kmeans.AddConstraint(splited[0], splited[1], Must);
        }
      }
    }
    assert lines[..|lines|] == lines;
  }
}

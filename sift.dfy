/**
 * The visual-words tool for SIFT descriptors: centroids read from a
 * tab-separated file (128 slots each), descriptors read from a text file
 * (indented lines of numbers, a non-indented line closing a descriptor),
 * each descriptor assigned to its nearest centroid by squared Euclidean
 * distance, and the per-file histogram of centroid ids.
 */
module Sift {
  import opened Wrappers
  import opened SetSums
  import opened Strings
  import SparseVectors

  /** SIZE: the slots of a centroid. */
  const Size: nat := 128

  /** The initial min_dist of search_nearest_centroid. */
  const Cap: real := 1000000.0

  // ---------------------------------------------------------------------
  // euclid_distance_squared
  // ---------------------------------------------------------------------

  function Sq(x: real): real
  {
    x * x
  }

  /** The squared differences of two equal-length vectors, summed from the front. */
  function SqEuclid(a: seq<real>, b: seq<real>): real
    requires |a| == |b|
  {
    if |a| == 0 then 0.0 else SqEuclid(a[..|a| - 1], b[..|b| - 1]) + Sq(a[|a| - 1] - b[|b| - 1])
  }

  /** euclid_distance_squared; the source asserts the lengths agree. */
  method EuclidDistanceSquared(vec1: seq<real>, vec2: seq<real>) returns (dist: real)
    requires |vec1| == |vec2|
    ensures dist == SqEuclid(vec1, vec2)
  {
    dist := 0.0;
    for i := 0 to |vec1|
      invariant dist == SqEuclid(vec1[..i], vec2[..i])
    {
      assert vec1[..i + 1][..i] == vec1[..i] && vec2[..i + 1][..i] == vec2[..i];
      dist := dist + (vec1[i] - vec2[i]) * (vec1[i] - vec2[i]);
    }
    assert vec1[..|vec1|] == vec1 && vec2[..|vec2|] == vec2;
  }

  /** A square is never negative, and positive exactly when its root is not zero. */
  lemma SqSign(x: real)
    ensures Sq(x) >= 0.0
    ensures Sq(x) > 0.0 <==> x != 0.0
  {
    SparseVectors.Square(x);
    if x != 0.0 {
      calc {
        Sq(x);
      ==
        x * x;
      >
        0.0;
      }
    } else {
      calc {
        Sq(x);
      ==
        0.0 * 0.0;
      ==
        0.0;
      }
    }
  }

  /** The distance does not depend on the order of its arguments. */
  lemma {:induction false} SqEuclidSymmetric(a: seq<real>, b: seq<real>)
    requires |a| == |b|
    ensures SqEuclid(a, b) == SqEuclid(b, a)
    decreases |a|
  {
    if |a| > 0 {
      var n := |a| - 1;
      SqEuclidSymmetric(a[..n], b[..n]);
      SparseVectors.Square(a[n] - b[n]);
      assert b[n] - a[n] == -(a[n] - b[n]);
    }
  }

  /** The distance is never negative, and it is zero exactly for equal vectors. */
  lemma {:induction false} SqEuclidZero(a: seq<real>, b: seq<real>)
    requires |a| == |b|
    ensures SqEuclid(a, b) >= 0.0
    ensures SqEuclid(a, b) == 0.0 <==> a == b
    decreases |a|
  {
    if |a| > 0 {
      var n := |a| - 1;
      SqEuclidZero(a[..n], b[..n]);
      var d := a[n] - b[n];
      SqSign(d);
      var rest := SqEuclid(a[..n], b[..n]);
      assert SqEuclid(a, b) == rest + Sq(d);
      assert a == a[..n] + [a[n]] && b == b[..n] + [b[n]];
      if a == b {
        assert a[..n] == b[..n] && d == 0.0;
      } else if a[..n] == b[..n] {
        assert a[n] != b[n];
      } else {
        assert rest > 0.0;
      }
    }
  }

  // ---------------------------------------------------------------------
  // search_nearest_centroid
  // ---------------------------------------------------------------------

  /** Every centroid has the feature's length, as euclid_distance_squared asserts. */
  predicate SameLengths(feature: seq<real>, centroids: seq<seq<real>>)
  {
    forall i :: 0 <= i < |centroids| ==> |centroids[i]| == |feature|
  }

  function DistTo(feature: seq<real>, centroids: seq<seq<real>>, i: nat): real
    requires SameLengths(feature, centroids) && i < |centroids|
  {
    SqEuclid(feature, centroids[i])
  }

  /** min_id and min_dist. */
  datatype Best = Best(id: nat, dist: real)

  /** The state after the loop has seen the first `upto` centroids. */
  function SearchOf(feature: seq<real>, centroids: seq<seq<real>>, upto: nat): Best
    requires SameLengths(feature, centroids) && upto <= |centroids|
  {
    if upto == 0 then Best(0, Cap)
    else
      var b := SearchOf(feature, centroids, upto - 1);
      var d := DistTo(feature, centroids, upto - 1);
      if d < b.dist then Best(upto - 1, d) else b
  }

  function NearestCentroid(feature: seq<real>, centroids: seq<seq<real>>): nat
    requires SameLengths(feature, centroids)
  {
    SearchOf(feature, centroids, |centroids|).id
  }

  method SearchNearestCentroid(feature: seq<real>, centroids: seq<seq<real>>) returns (minId: nat)
    requires SameLengths(feature, centroids)
    ensures minId == NearestCentroid(feature, centroids)
  {
    minId := 0;
    var minDist := Cap;
    for i := 0 to |centroids|
      invariant Best(minId, minDist) == SearchOf(feature, centroids, i)
    {
      var dist := EuclidDistanceSquared(feature, centroids[i]);
      if dist < minDist {
        minId := i;
        minDist := dist;
      }
    }
  }

  /** The scan keeps the first strictly smallest distance below Cap, and index 0 while there is none. */
  lemma {:induction false} SearchFacts(feature: seq<real>, centroids: seq<seq<real>>, upto: nat)
    requires SameLengths(feature, centroids) && upto <= |centroids|
    ensures var b := SearchOf(feature, centroids, upto);
      && b.dist <= Cap
      && (b.dist < Cap ==> b.id < upto && b.dist == DistTo(feature, centroids, b.id))
      && (b.dist == Cap ==> b.id == 0)
      && (forall i :: 0 <= i < upto ==> b.dist <= DistTo(feature, centroids, i))
      && (forall i :: 0 <= i < b.id ==> b.dist < DistTo(feature, centroids, i))
    decreases upto
  {
    if upto > 0 {
      SearchFacts(feature, centroids, upto - 1);
    }
  }

  /**
   * search_nearest_centroid returns the first index with the smallest
   * distance when some distance is below Cap, and 0 otherwise (also when
   * there are no centroids).
   */
  lemma NearestCentroidMeaning(feature: seq<real>, centroids: seq<seq<real>>)
    requires SameLengths(feature, centroids)
    ensures var id := NearestCentroid(feature, centroids);
      && ((forall i :: 0 <= i < |centroids| ==> DistTo(feature, centroids, i) >= Cap) ==> id == 0)
      && ((exists i :: 0 <= i < |centroids| && DistTo(feature, centroids, i) < Cap) ==>
            && id < |centroids|
            && DistTo(feature, centroids, id) < Cap
            && (forall i :: 0 <= i < |centroids| ==> DistTo(feature, centroids, id) <= DistTo(feature, centroids, i))
            && (forall i :: 0 <= i < id ==> DistTo(feature, centroids, id) < DistTo(feature, centroids, i)))
  {
    SearchFacts(feature, centroids, |centroids|);
  }

  // ---------------------------------------------------------------------
  // read_centroids
  // ---------------------------------------------------------------------

  /** The slot index of pair `q` (field 1 + 2q). */
  function IndexAt(fields: seq<string>, atoi: string -> int, q: nat): int
    requires 1 + 2 * q < |fields|
  {
    atoi(fields[1 + 2 * q])
  }

  /** Pair `q` can be read: its value field exists and its index is a slot. */
  predicate PairOk(fields: seq<string>, atoi: string -> int, q: nat)
    requires 1 + 2 * q < |fields|
  {
    2 + 2 * q < |fields| && 0 <= IndexAt(fields, atoi, q) < Size
  }

  /** The number of pairs the loop `for (i = 1; i < size; i += 2)` visits. */
  function PairCount(fields: seq<string>): nat
  {
    |fields| / 2
  }

  /**
   * The centroid after the first `p` pairs: 128 zero slots, each pair setting
   * one. None where the source would index out of bounds (a value field
   * missing, or a slot index outside 0..127).
   */
  function Slots(fields: seq<string>, atoi: string -> int, atof: string -> real, p: nat): Option<seq<real>>
    requires p <= PairCount(fields)
  {
    if p == 0 then Some(seq(Size, _ => 0.0))
    else
      var q := p - 1;
      match Slots(fields, atoi, atof, q)
      case None => None
      case Some(c) =>
        if !PairOk(fields, atoi, q) || |c| != Size then None
        else Some(c[IndexAt(fields, atoi, q) := atof(fields[2 + 2 * q])])
  }

  /** No pair from `q` to `p - 1` sets slot `s`. */
  predicate NotSetAfter(fields: seq<string>, atoi: string -> int, s: nat, q: nat, p: nat)
    requires p <= PairCount(fields)
  {
    forall r: nat :: q <= r < p ==> IndexAt(fields, atoi, r) != s
  }

  /**
   * The line is read exactly when every pair can be read; then every slot
   * holds the value of the last pair naming it, or 0 when none does.
   */
  lemma {:induction false} SlotsMeaning(fields: seq<string>, atoi: string -> int, atof: string -> real, p: nat)
    requires p <= PairCount(fields)
    ensures Slots(fields, atoi, atof, p).Some? <==> forall q: nat :: q < p ==> PairOk(fields, atoi, q)
    ensures Slots(fields, atoi, atof, p).Some? ==>
      var c := Slots(fields, atoi, atof, p).value;
      && |c| == Size
      && (forall s: nat :: s < Size && NotSetAfter(fields, atoi, s, 0, p) ==> c[s] == 0.0)
      && (forall s: nat, q: nat :: s < Size && q < p && IndexAt(fields, atoi, q) == s && NotSetAfter(fields, atoi, s, q + 1, p) ==>
            c[s] == atof(fields[2 + 2 * q]))
    decreases p
  {
    if p > 0 {
      var q := p - 1;
      SlotsMeaning(fields, atoi, atof, q);
      if Slots(fields, atoi, atof, p).Some? {
        var c := Slots(fields, atoi, atof, p).value;
        var prev := Slots(fields, atoi, atof, q).value;
        var k := IndexAt(fields, atoi, q);
        forall s: nat, r: nat | s < Size && r < p && IndexAt(fields, atoi, r) == s && NotSetAfter(fields, atoi, s, r + 1, p)
          ensures c[s] == atof(fields[2 + 2 * r])
        {
          if r < q {
            assert IndexAt(fields, atoi, q) != s;
            assert NotSetAfter(fields, atoi, s, r + 1, q);
          }
        }
        forall s: nat | s < Size && NotSetAfter(fields, atoi, s, 0, p)
          ensures c[s] == 0.0
        {
          assert IndexAt(fields, atoi, q) != s;
          assert NotSetAfter(fields, atoi, s, 0, q);
        }
      } else {
        var prev := Slots(fields, atoi, atof, q);
        if prev.Some? {
          assert !PairOk(fields, atoi, q);
        }
      }
    }
  }

  /** One line of read_centroids, split on tabs: the (index, value) pairs after the first field. */
  method ReadCentroid(splited: seq<string>, atoi: string -> int, atof: string -> real) returns (r: Option<seq<real>>)
    ensures r == Slots(splited, atoi, atof, PairCount(splited))
  {
    var centroid: seq<real> := seq(Size, _ => 0.0);
    var i: nat := 1;
    ghost var p: nat := 0;
    while i < |splited|
      invariant i == 2 * p + 1 && p <= PairCount(splited)
      invariant Slots(splited, atoi, atof, p) == Some(centroid) && |centroid| == Size
    {
      if i + 1 >= |splited| {
        assert !PairOk(splited, atoi, p);
        return None;
      }
      var index := atoi(splited[i]);
      if index < 0 || index >= Size {
        assert !PairOk(splited, atoi, p);
        SlotsFail(splited, atoi, atof, p + 1);
        return None;
      }
      centroid := centroid[index := atof(splited[i + 1])];
      i := i + 2;
      p := p + 1;
    }
    r := Some(centroid);
  }

  /** Once a pair cannot be read, the whole line cannot. */
  lemma {:induction false} SlotsFail(fields: seq<string>, atoi: string -> int, atof: string -> real, p: nat)
    requires p <= PairCount(fields) && Slots(fields, atoi, atof, p).None?
    ensures Slots(fields, atoi, atof, PairCount(fields)).None?
    decreases PairCount(fields) - p
  {
    if p < PairCount(fields) {
      SlotsFail(fields, atoi, atof, p + 1);
    }
  }

  /** read_centroids: one centroid per line, in file order. */
  function Centroids(lines: seq<string>, atoi: string -> int, atof: string -> real): Option<seq<seq<real>>>
  {
    if lines == [] then Some([])
    else
      var fields := Pieces(lines[|lines| - 1], [Tab]);
      match Centroids(lines[..|lines| - 1], atoi, atof)
      case None => None
      case Some(cs) =>
        match Slots(fields, atoi, atof, PairCount(fields))
        case None => None
        case Some(c) => Some(cs + [c])
  }

  /** Every line gives one centroid of Size slots. */
  lemma {:induction false} CentroidsShape(lines: seq<string>, atoi: string -> int, atof: string -> real)
    ensures Centroids(lines, atoi, atof).Some? ==>
      var cs := Centroids(lines, atoi, atof).value;
      |cs| == |lines| && forall i :: 0 <= i < |cs| ==> |cs[i]| == Size
    decreases |lines|
  {
    if lines != [] {
      var fields := Pieces(lines[|lines| - 1], [Tab]);
      CentroidsShape(lines[..|lines| - 1], atoi, atof);
      SlotsMeaning(fields, atoi, atof, PairCount(fields));
    }
  }

  method ReadCentroids(lines: seq<string>, atoi: string -> int, atof: string -> real)
    returns (centroids: Option<seq<seq<real>>>)
    ensures centroids == Centroids(lines, atoi, atof)
  {
    var cs: seq<seq<real>> := [];
    for n := 0 to |lines|
      invariant Centroids(lines[..n], atoi, atof) == Some(cs)
    {
      assert lines[..n + 1][..n] == lines[..n];
      var splited := SplitAll(lines[n], [Tab]);
      var c := ReadCentroid(splited, atoi, atof);
      if c.None? {
        assert Centroids(lines[..n + 1], atoi, atof).None?;
        CentroidsPrefixFails(lines, atoi, atof, n + 1);
        return None;
      }
      cs := cs + [c.value];
    }
    assert lines[..|lines|] == lines;
    centroids := Some(cs);
  }

  /** A line that cannot be read makes the whole file unreadable. */
  lemma {:induction false} CentroidsPrefixFails(lines: seq<string>, atoi: string -> int, atof: string -> real, n: nat)
    requires n <= |lines| && Centroids(lines[..n], atoi, atof).None?
    ensures Centroids(lines, atoi, atof).None?
    decreases |lines| - n
  {
    if n < |lines| {
      assert lines[..n + 1][..n] == lines[..n];
      CentroidsPrefixFails(lines, atoi, atof, n + 1);
    } else {
      assert lines[..n] == lines;
    }
  }

  // ---------------------------------------------------------------------
  // read_sift
  // ---------------------------------------------------------------------

  /** The line continues a descriptor: its first character is a space. */
  predicate Indented(line: string)
  {
    |line| > 0 && line[0] == ' '
  }

  /** The numbers of an indented line: its non-empty space-separated fields through atoi. */
  function LineNumbers(line: string, atoi: string -> int): seq<real>
  {
    NumbersOf(Pieces(line, " "), atoi)
  }

  /** The parser of read_sift for indented lines. */
  function NumbersFn(atoi: string -> int): string -> seq<real>
  {
    line => LineNumbers(line, atoi)
  }

  /** The descriptors emitted so far and the one being gathered (vec). */
  datatype SiftState = SiftState(features: seq<seq<real>>, vec: seq<real>)

  /** The state after the first `upto` lines, `numbers` giving the numbers of an indented line. */
  function SiftOf(lines: seq<string>, numbers: string -> seq<real>, upto: nat): SiftState
    requires upto <= |lines|
  {
    if upto == 0 then SiftState([], [])
    else Feed(SiftOf(lines, numbers, upto - 1), lines[upto - 1], numbers)
  }

  /** One line of read_sift: an indented line adds its numbers, any other closes the pending descriptor. */
  function Feed(st: SiftState, line: string, numbers: string -> seq<real>): SiftState
  {
    if Indented(line) then SiftState(st.features, st.vec + numbers(line))
    else if st.vec != [] then SiftState(st.features + [st.vec], [])
    else st
  }

  /** read_sift: appends the descriptors of `lines` to `features0`. */
  method ReadSift(lines: seq<string>, atoi: string -> int, features0: seq<seq<real>>)
    returns (features: seq<seq<real>>)
    ensures features == features0 + SiftOf(lines, NumbersFn(atoi), |lines|).features
  {
    features := features0;
    var vec: seq<real> := [];
    for n := 0 to |lines|
      invariant features == features0 + SiftOf(lines, NumbersFn(atoi), n).features
      invariant vec == SiftOf(lines, NumbersFn(atoi), n).vec
    {
      var line := lines[n];
      if |line| > 0 && line[0] == ' ' {
        var splited := SplitAll(line, " ");
        vec := AppendNumbers(splited, atoi, vec);
      } else if vec != [] {
        features := features + [vec];
        vec := [];
      }
    }
  }

  /** The inner loop of read_sift: appends the numbers of the non-empty fields to `vec0`. */
  method AppendNumbers(splited: seq<string>, atoi: string -> int, vec0: seq<real>) returns (vec: seq<real>)
    ensures vec == vec0 + NumbersOf(splited, atoi)
  {
    vec := vec0;
    for k := 0 to |splited|
      invariant vec + NumbersOf(splited[k..], atoi) == vec0 + NumbersOf(splited, atoi)
    {
      NumbersOfCons(splited[k..], atoi);
      assert splited[k..][1..] == splited[k + 1..];
      if splited[k] != "" {
        vec := vec + [atoi(splited[k]) as real];
      }
    }
    assert splited[|splited|..] == [];
  }

  /** The numbers of the non-empty fields of `fields`, in order. */
  function NumbersOf(fields: seq<string>, atoi: string -> int): seq<real>
  {
    if fields == [] then []
    else (if fields[0] == "" then [] else [atoi(fields[0]) as real]) + NumbersOf(fields[1..], atoi)
  }

  lemma NumbersOfCons(fields: seq<string>, atoi: string -> int)
    requires fields != []
    ensures NumbersOf(fields, atoi) == (if fields[0] == "" then [] else [atoi(fields[0]) as real]) + NumbersOf(fields[1..], atoi)
  {
  }

  /** The numbers of a line are atoi of its non-empty space-separated fields, one each, in order. */
  lemma LineNumbersOf(line: string, atoi: string -> int)
    ensures var fields := NonEmpty(Pieces(line, " "));
      LineNumbers(line, atoi) == seq(|fields|, i requires 0 <= i < |fields| => atoi(fields[i]) as real)
  {
    NumbersNonEmpty(Pieces(line, " "), atoi);
  }

  lemma {:induction false} NumbersNonEmpty(fields: seq<string>, atoi: string -> int)
    ensures var ne := NonEmpty(fields);
      seq(|ne|, i requires 0 <= i < |ne| => atoi(ne[i]) as real) == NumbersOf(fields, atoi)
    decreases |fields|
  {
    if fields != [] {
      NumbersNonEmpty(fields[1..], atoi);
      NumbersOfCons(fields, atoi);
      var rest := NonEmpty(fields[1..]);
      var tail := seq(|rest|, i requires 0 <= i < |rest| => atoi(rest[i]) as real);
      if fields[0] != "" {
        var ne := NonEmpty(fields);
        assert ne == [fields[0]] + rest;
        var all := seq(|ne|, i requires 0 <= i < |ne| => atoi(ne[i]) as real);
        assert all == [atoi(fields[0]) as real] + tail;
      }
    }
  }

  /** All the numbers of the indented lines among the first `upto`, in order. */
  function AllNumbers(lines: seq<string>, numbers: string -> seq<real>, upto: nat): seq<real>
    requires upto <= |lines|
  {
    if upto == 0 then []
    else AllNumbers(lines, numbers, upto - 1) + (if Indented(lines[upto - 1]) then numbers(lines[upto - 1]) else [])
  }

  /** The descriptors laid end to end. */
  function Flatten(features: seq<seq<real>>): seq<real>
  {
    if features == [] then [] else Flatten(features[..|features| - 1]) + features[|features| - 1]
  }

  /**
   * No number is lost or reordered: the emitted descriptors followed by the
   * pending one are exactly the numbers read.
   */
  lemma {:induction false} SiftKeepsNumbers(lines: seq<string>, numbers: string -> seq<real>, upto: nat)
    requires upto <= |lines|
    ensures Flatten(SiftOf(lines, numbers, upto).features) + SiftOf(lines, numbers, upto).vec == AllNumbers(lines, numbers, upto)
    decreases upto
  {
    if upto > 0 {
      SiftKeepsNumbers(lines, numbers, upto - 1);
      FeedKeeps(SiftOf(lines, numbers, upto - 1), lines[upto - 1], numbers);
    }
  }

  /** One line appends its numbers, if indented, to the emitted and pending numbers. */
  lemma FeedKeeps(st: SiftState, line: string, numbers: string -> seq<real>)
    ensures var next := Feed(st, line, numbers);
      Flatten(next.features) + next.vec == Flatten(st.features) + st.vec + (if Indented(line) then numbers(line) else [])
  {
    if !Indented(line) && st.vec != [] {
      FlattenSnoc(st.features, st.vec);
    }
  }

  /** Closing a descriptor appends it to the flattened numbers. */
  lemma FlattenSnoc(features: seq<seq<real>>, v: seq<real>)
    ensures Flatten(features + [v]) == Flatten(features) + v
  {
    assert (features + [v])[..|features|] == features;
  }

  /** No descriptor is empty. */
  predicate NoneEmpty(features: seq<seq<real>>)
  {
    forall i :: 0 <= i < |features| ==> |features[i]| > 0
  }

  /** A non-indented line closes a descriptor only when one is pending, so no emitted descriptor is empty. */
  lemma {:induction false} SiftNoneEmpty(lines: seq<string>, numbers: string -> seq<real>, upto: nat)
    requires upto <= |lines|
    ensures NoneEmpty(SiftOf(lines, numbers, upto).features)
    decreases upto
  {
    if upto > 0 {
      SiftNoneEmpty(lines, numbers, upto - 1);
      FeedNoneEmpty(SiftOf(lines, numbers, upto - 1), lines[upto - 1], numbers);
    }
  }

  /** One line never emits an empty descriptor. */
  lemma FeedNoneEmpty(st: SiftState, line: string, numbers: string -> seq<real>)
    requires NoneEmpty(st.features)
    ensures NoneEmpty(Feed(st, line, numbers).features)
  {
    if !Indented(line) && st.vec != [] {
      var fs := st.features + [st.vec];
      forall i | 0 <= i < |fs|
        ensures |fs[i]| > 0
      {
        if i < |st.features| {
          assert fs[i] == st.features[i];
        }
      }
    }
  }

  /** A descriptor still pending at the end of the file is dropped. */
  lemma PendingDropped(lines: seq<string>, numbers: string -> seq<real>, line: string)
    requires Indented(line)
    ensures SiftOf(lines + [line], numbers, |lines| + 1).features == SiftOf(lines, numbers, |lines|).features
  {
    SiftPrefix(lines, [line], numbers, |lines|);
  }

  /** The state after `upto` lines depends only on those lines. */
  lemma {:induction false} SiftPrefix(lines: seq<string>, more: seq<string>, numbers: string -> seq<real>, upto: nat)
    requires upto <= |lines|
    ensures SiftOf(lines + more, numbers, upto) == SiftOf(lines, numbers, upto)
    decreases upto
  {
    if upto > 0 {
      SiftPrefix(lines, more, numbers, upto - 1);
      assert (lines + more)[upto - 1] == lines[upto - 1];
    }
  }

  // ---------------------------------------------------------------------
  // The histogram of main
  // ---------------------------------------------------------------------

  /** The nearest centroid of each feature. */
  function Ids(features: seq<seq<real>>, centroids: seq<seq<real>>): seq<nat>
    requires forall i :: 0 <= i < |features| ==> SameLengths(features[i], centroids)
  {
    seq(|features|, i requires 0 <= i < |features| => NearestCentroid(features[i], centroids))
  }

  /** The count under `id`, 0 when absent (histogram[id] on a std::map). */
  function Count(h: map<nat, nat>, id: nat): nat
  {
    if id in h then h[id] else 0
  }

  /** The histogram of `ids`, counted front to back. */
  function Counts(ids: seq<nat>): map<nat, nat>
  {
    if ids == [] then map[]
    else var h := Counts(ids[..|ids| - 1]); var id := ids[|ids| - 1]; h[id := Count(h, id) + 1]
  }

  /** The histogram loop of main for one file. */
  method Histogram(features: seq<seq<real>>, centroids: seq<seq<real>>) returns (histogram: map<nat, nat>)
    requires forall i :: 0 <= i < |features| ==> SameLengths(features[i], centroids)
    ensures histogram == Counts(Ids(features, centroids))
  {
    ghost var ids := Ids(features, centroids);
    histogram := map[];
    for i := 0 to |features|
      invariant histogram == Counts(ids[..i])
    {
      var id := SearchNearestCentroid(features[i], centroids);
      assert ids[..i + 1][..i] == ids[..i] && ids[..i + 1][i] == id;
      histogram := histogram[id := (if id in histogram then histogram[id] else 0) + 1];
    }
    assert ids[..|features|] == ids;
  }

  /** The histogram holds exactly the ids seen, each with its number of occurrences. */
  lemma {:induction false} CountsMeaning(ids: seq<nat>)
    ensures forall id :: id in Counts(ids) <==> id in ids
    ensures forall id :: Count(Counts(ids), id) == multiset(ids)[id]
    decreases |ids|
  {
    if ids != [] {
      var front := ids[..|ids| - 1];
      CountsMeaning(front);
      assert ids == front + [ids[|ids| - 1]];
    }
  }

  /** The count of a key as a real, for summing. */
  function CountOf(h: map<nat, nat>): nat -> real
  {
    (id: nat) => Count(h, id) as real
  }

  /** The counts add up to the number of features. */
  lemma {:induction false} CountsTotal(ids: seq<nat>)
    ensures Sum(Counts(ids).Keys, CountOf(Counts(ids))) == |ids| as real
    decreases |ids|
  {
    if ids != [] {
      var front := ids[..|ids| - 1];
      var id := ids[|ids| - 1];
      var h := Counts(front);
      var h2 := Counts(ids);
      CountsTotal(front);
      forall k | k in h.Keys - {id}
        ensures CountOf(h2)(k) == CountOf(h)(k)
      {
      }
      SumCongruent(h.Keys - {id}, CountOf(h2), CountOf(h));
      SumRemove(h2.Keys, CountOf(h2), id);
      assert h2.Keys - {id} == h.Keys - {id};
      if id in h {
        SumRemove(h.Keys, CountOf(h), id);
      } else {
        assert h.Keys - {id} == h.Keys;
      }
    }
  }
}

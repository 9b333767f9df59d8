/**
 * k-means++ over a hash database of word vectors (cluster/kmeans/kmeanspp.cc).
 *
 * The database is a sequence of records in iteration order; a hash database
 * holds each key once, so the maps the program keys by record key
 * (closest_dist, assign) are sequences indexed by record position here. Every
 * pass of the program re-parses the record text; parsing is deterministic, so
 * the model parses each record once (Vectors) and the passes work on the
 * parsed vectors. The distance (cosine_dist in the program) and atof are
 * parameters; the random first index and the draws are inputs.
 */
module KMeansPlusPlus {
  import opened SetSums
  import opened SparseVectors
  import opened Strings

  type Vector = Vec<string>

  /** MAX_ITERATION: the largest number of move/reassign rounds. */
  const MaxIteration: nat := 10

  /** The characters operator>> skips between tokens. */
  const Whitespace: set<char> := {' ', '\t', '\n', '\r', '\U{000B}', '\U{000C}'}

  /** One database record: its key and its text. */
  datatype Record = Record(key: string, value: string)

  // ---------------------------------------------------------------------
  // Vector operations
  // ---------------------------------------------------------------------

  /** add_vector: every value of `vec2` added to `vec1` under the same key. */
  method AddVector(vec1: Vector, vec2: Vector) returns (r: Vector)
    ensures r == AddInto(vec1, vec2)
  {
    r := vec1;
    var rest := vec2.Keys;
    while rest != {}
      invariant rest <= vec2.Keys
      invariant r.Keys == vec1.Keys + (vec2.Keys - rest)
      invariant forall k :: Get(r, k) == Get(vec1, k) + (if k in vec2.Keys - rest then vec2[k] else 0.0)
    {
      var key :| key in rest;
      r := r[key := Get(r, key) + vec2[key]];
      rest := rest - {key};
    }
    MapsAgree(r, AddInto(vec1, vec2));
  }

  /** Every value multiplied by `x`; the keys stay. */
  function Scale(v: Vector, x: real): (r: Vector)
    ensures r.Keys == v.Keys
  {
    map k | k in v :: v[k] * x
  }

  /** Each reading of the scaled vector is the old one times `x`. */
  lemma ScaleAt(v: Vector, x: real, k: string)
    ensures Get(Scale(v, x), k) == Get(v, k) * x
  {
    if k in v {
      assert Scale(v, x)[k] == v[k] * x;
    }
  }

  /** mult_each: every value of `vec` multiplied by `x`, key by key. */
  method MultEach(vec: Vector, x: real) returns (r: Vector)
    ensures r == Scale(vec, x)
  {
    r := vec;
    var rest := vec.Keys;
    while rest != {}
      invariant rest <= vec.Keys && r.Keys == vec.Keys
      invariant forall k :: k in r ==> r[k] == if k in rest then vec[k] else vec[k] * x
    {
      var key :| key in rest;
      r := r[key := r[key] * x];
      rest := rest - {key};
    }
    MapsAgree(r, Scale(vec, x));
  }

  // ---------------------------------------------------------------------
  // parse_dbmdata
  // ---------------------------------------------------------------------

  /** `vec` after the first `m` word/value token pairs, each pair storing the word's value. */
  function Parsed(ts: seq<string>, m: nat, vec: Vector, atof: string -> real): Vector
    requires 2 * m <= |ts|
  {
    if m == 0 then vec else Parsed(ts, m - 1, vec, atof)[ts[2 * m - 2] := atof(ts[2 * m - 1])]
  }

  /** The vector a record's text describes. */
  function VectorOf(data: string, atof: string -> real): Vector
  {
    var ts := Tokens(data, Whitespace);
    Parsed(ts, |ts| / 2, map[], atof)
  }

  /**
   * parse_dbmdata: the whitespace-separated tokens of `data` read as word,
   * value, word, value, ... into `vec`.
   */
  method ParseDbmData(data: string, vec: Vector, atof: string -> real) returns (r: Vector)
    ensures r == Parsed(Tokens(data, Whitespace), |Tokens(data, Whitespace)| / 2, vec, atof)
  {
    r := ParseTokens(Tokens(data, Whitespace), vec, atof);
  }

  /** The loop of parse_dbmdata over the tokens: an even-numbered token is a word, the next its value. */
  method ParseTokens(tokens: seq<string>, vec: Vector, atof: string -> real) returns (r: Vector)
    ensures r == Parsed(tokens, |tokens| / 2, vec, atof)
  {
    r := vec;
    var word := "";
    ghost var m: nat := 0;
    for cnt := 0 to |tokens|
      invariant cnt == 2 * m || cnt == 2 * m + 1
      invariant r == Parsed(tokens, m, vec, atof)
      invariant cnt == 2 * m + 1 ==> word == tokens[cnt - 1]
    {
      if cnt % 2 == 0 {
        word := tokens[cnt];
      } else {
        r := r[word := atof(tokens[cnt])];
        m := m + 1;
      }
    }
    assert m == |tokens| / 2;
  }

  /** A word is stored exactly when it was stored before or is the word of a complete pair. */
  lemma {:induction false} ParsedKeys(ts: seq<string>, m: nat, vec: Vector, atof: string -> real)
    requires 2 * m <= |ts|
    ensures forall w :: w in Parsed(ts, m, vec, atof) <==> w in vec || exists p :: 0 <= p < m && ts[2 * p] == w
  {
    if m > 0 {
      ParsedKeys(ts, m - 1, vec, atof);
      forall w | w in Parsed(ts, m, vec, atof) && w !in vec
        ensures exists p :: 0 <= p < m && ts[2 * p] == w
      {
        if w == ts[2 * m - 2] {
          assert ts[2 * (m - 1)] == w;
        }
      }
    }
  }

  /**
   * A word takes the value of its last pair, whatever that value is (zeros
   * are kept); the pairs of other words do not touch it.
   */
  lemma {:induction false} ParsedLastWins(ts: seq<string>, m: nat, vec: Vector, atof: string -> real, p: nat)
    requires 2 * m <= |ts| && p < m
    requires forall q :: p < q < m ==> ts[2 * q] != ts[2 * p]
    ensures ts[2 * p] in Parsed(ts, m, vec, atof)
    ensures Parsed(ts, m, vec, atof)[ts[2 * p]] == atof(ts[2 * p + 1])
  {
    if p < m - 1 {
      ParsedLastWins(ts, m - 1, vec, atof, p);
      assert ts[2 * (m - 1)] != ts[2 * p];
    }
  }

  /** A word in no pair keeps the value it had before. */
  lemma {:induction false} ParsedKeepsOthers(ts: seq<string>, m: nat, vec: Vector, atof: string -> real, w: string)
    requires 2 * m <= |ts| && w in vec
    requires forall q :: 0 <= q < m ==> ts[2 * q] != w
    ensures w in Parsed(ts, m, vec, atof) && Parsed(ts, m, vec, atof)[w] == vec[w]
  {
    if m > 0 {
      ParsedKeepsOthers(ts, m - 1, vec, atof, w);
      assert ts[2 * (m - 1)] != w;
    }
  }

  /** A token left over after the last complete pair is ignored. */
  lemma ParsedTrailingWord(ts: seq<string>, word: string, vec: Vector, atof: string -> real)
    requires |ts| % 2 == 0
    ensures Parsed(ts + [word], |ts + [word]| / 2, vec, atof) == Parsed(ts, |ts| / 2, vec, atof)
  {
    ParsedPrefix(ts, ts + [word], |ts| / 2, vec, atof);
  }

  /** The first `m` pairs are all that is read of them. */
  lemma {:induction false} ParsedPrefix(ts: seq<string>, us: seq<string>, m: nat, vec: Vector, atof: string -> real)
    requires 2 * m <= |ts| && 2 * m <= |us| && ts[..2 * m] == us[..2 * m]
    ensures Parsed(ts, m, vec, atof) == Parsed(us, m, vec, atof)
  {
    if m > 0 {
      assert ts[..2 * m - 2] == us[..2 * m - 2] by {
        assert ts[..2 * m - 2] == ts[..2 * m][..2 * m - 2];
        assert us[..2 * m - 2] == us[..2 * m][..2 * m - 2];
      }
      assert ts[2 * m - 2] == ts[..2 * m][2 * m - 2] == us[2 * m - 2];
      assert ts[2 * m - 1] == ts[..2 * m][2 * m - 1] == us[2 * m - 1];
      ParsedPrefix(ts, us, m - 1, vec, atof);
    }
  }

  /** The records' vectors, in database order. */
  function Vectors(db: seq<Record>, atof: string -> real): (vs: seq<Vector>)
    ensures |vs| == |db|
  {
    if db == [] then [] else Vectors(db[..|db| - 1], atof) + [VectorOf(db[|db| - 1].value, atof)]
  }

  lemma {:induction false} VectorsAt(db: seq<Record>, atof: string -> real, i: nat)
    requires i < |db|
    ensures Vectors(db, atof)[i] == VectorOf(db[i].value, atof)
  {
    if i < |db| - 1 {
      VectorsAt(db[..|db| - 1], atof, i);
    }
  }

  /** One database pass: every record's text parsed into a fresh vector. */
  method ReadVectors(db: seq<Record>, atof: string -> real) returns (vs: seq<Vector>)
    ensures vs == Vectors(db, atof)
  {
    vs := [];
    for i := 0 to |db|
      invariant vs == Vectors(db[..i], atof)
    {
      var vec := ParseDbmData(db[i].value, map[], atof);
      assert db[..i + 1][..i] == db[..i];
      vs := vs + [vec];
    }
    assert db[..|db|] == db;
  }

  // ---------------------------------------------------------------------
  // squared_dist and product
  // ---------------------------------------------------------------------

  /** The first pass of squared_dist, over the keys of `vec1`; the lookups store 0 in `vec2` for keys it lacks. */
  method DistFirstPass(vec1: Vector, vec2: Vector) returns (dist: real, out2: Vector)
    ensures dist == Sum(vec1.Keys, SqTerm(vec1, vec2))
    ensures out2 == Pad(vec2, vec1.Keys)
  {
    dist := 0.0;
    out2 := vec2;
    var check: set<string> := {};
    var rest := vec1.Keys;
    while rest != {}
      invariant rest + check == vec1.Keys && rest !! check
      invariant out2.Keys == vec2.Keys + check && forall k :: Get(out2, k) == Get(vec2, k)
      invariant dist == Sum(check, SqTerm(vec1, vec2))
    {
      var key :| key in rest;
      var p1 := vec1[key];
      var p2 := Get(out2, key);
      out2 := out2[key := p2];
      dist := dist + (p1 - p2) * (p1 - p2);
      assert SqTerm(vec1, vec2)(key) == (p1 - p2) * (p1 - p2);
      SumRemove(check + {key}, SqTerm(vec1, vec2), key);
      assert check + {key} - {key} == check;
      check := check + {key};
      rest := rest - {key};
    }
    MapsAgree(out2, Pad(vec2, vec1.Keys));
  }

  /**
   * The second pass of squared_dist, over the keys of `out2` (the padded
   * `vec2`) that the first pass did not mark; the lookups store 0 in `vec1`.
   */
  method DistSecondPass(vec1: Vector, vec2: Vector, out2: Vector, first: real) returns (dist: real, out1: Vector)
    requires out2 == Pad(vec2, vec1.Keys)
    ensures dist == first + Sum(vec2.Keys - vec1.Keys, SqTerm(vec1, vec2))
    ensures out1 == Pad(vec1, vec2.Keys)
  {
    dist := first;
    out1 := vec1;
    var visited: set<string> := {};
    ghost var added: set<string> := {};
    var rest := out2.Keys;
    while rest != {}
      invariant rest + visited == out2.Keys && rest !! visited
      invariant added == visited - vec1.Keys
      invariant out1.Keys == vec1.Keys + added && forall k :: Get(out1, k) == Get(vec1, k)
      invariant dist == first + Sum(added, SqTerm(vec1, vec2))
    {
      var key :| key in rest;
      dist, out1, added := SecondPassStep(vec1, vec2, out2, first, key, dist, out1, added);
      visited := visited + {key};
      rest := rest - {key};
    }
    assert added == vec2.Keys - vec1.Keys;
    MapsAgree(out1, Pad(vec1, vec2.Keys));
  }

  /** One key of the second pass: a key `vec1` holds was counted by the first pass and is skipped. */
  method SecondPassStep(vec1: Vector, vec2: Vector, out2: Vector, ghost first: real, key: string,
                        dist0: real, out10: Vector, ghost added0: set<string>)
    returns (dist: real, out1: Vector, ghost added: set<string>)
    requires out2 == Pad(vec2, vec1.Keys) && key in out2 && key !in added0
    requires out10.Keys == vec1.Keys + added0 && forall k :: Get(out10, k) == Get(vec1, k)
    requires dist0 == first + Sum(added0, SqTerm(vec1, vec2))
    ensures added == if key in vec1.Keys then added0 else added0 + {key}
    ensures out1.Keys == vec1.Keys + added && forall k :: Get(out1, k) == Get(vec1, k)
    ensures dist == first + Sum(added, SqTerm(vec1, vec2))
  {
    dist, out1, added := dist0, out10, added0;
    if key !in vec1.Keys {
      var p1 := Get(out1, key);
      out1 := out1[key := p1];
      var p2 := out2[key];
      dist := dist + (p1 - p2) * (p1 - p2);
      assert SqTerm(vec1, vec2)(key) == (p1 - p2) * (p1 - p2);
      SumRemove(added + {key}, SqTerm(vec1, vec2), key);
      assert added + {key} - {key} == added;
      added := added + {key};
    }
  }

  /**
   * squared_dist: the squared distance; its operator[] lookups leave each
   * argument holding every key of the other, as 0 where it was missing.
   */
  method SquaredDist(vec1: Vector, vec2: Vector) returns (dist: real, out1: Vector, out2: Vector)
    ensures dist == SqDist(vec1, vec2)
    ensures out1 == Pad(vec1, vec2.Keys) && out2 == Pad(vec2, vec1.Keys)
  {
    var first;
    first, out2 := DistFirstPass(vec1, vec2);
    dist, out1 := DistSecondPass(vec1, vec2, out2, first);
    SumUnion(vec1.Keys, vec2.Keys - vec1.Keys, SqTerm(vec1, vec2));
    assert vec1.Keys + (vec2.Keys - vec1.Keys) == vec1.Keys + vec2.Keys;
  }

  /**
   * The loop of product over `keys`: the products summed, each lookup
   * storing 0 in a vector that lacks the key.
   */
  method ProductOver(vec1: Vector, vec2: Vector, keys: set<string>) returns (prod: real, out1: Vector, out2: Vector)
    ensures prod == Sum(keys, ProdTerm(vec1, vec2))
    ensures out1 == Pad(vec1, keys) && out2 == Pad(vec2, keys)
  {
    prod := 0.0;
    out1, out2 := vec1, vec2;
    var done: set<string> := {};
    var rest := keys;
    while rest != {}
      invariant rest + done == keys && rest !! done
      invariant out1.Keys == vec1.Keys + done && forall k :: Get(out1, k) == Get(vec1, k)
      invariant out2.Keys == vec2.Keys + done && forall k :: Get(out2, k) == Get(vec2, k)
      invariant prod == Sum(done, ProdTerm(vec1, vec2))
    {
      var key :| key in rest;
      prod, out1, out2 := ProductStep(vec1, vec2, key, prod, out1, out2, done);
      done := done + {key};
      rest := rest - {key};
    }
    MapsAgree(out1, Pad(vec1, keys));
    MapsAgree(out2, Pad(vec2, keys));
  }

  /** One key of the product loop: both lookups, then the product added. */
  method ProductStep(vec1: Vector, vec2: Vector, key: string, prod0: real, out10: Vector, out20: Vector,
                     ghost done: set<string>)
    returns (prod: real, out1: Vector, out2: Vector)
    requires key !in done
    requires out10.Keys == vec1.Keys + done && forall k :: Get(out10, k) == Get(vec1, k)
    requires out20.Keys == vec2.Keys + done && forall k :: Get(out20, k) == Get(vec2, k)
    requires prod0 == Sum(done, ProdTerm(vec1, vec2))
    ensures out1.Keys == vec1.Keys + (done + {key}) && forall k :: Get(out1, k) == Get(vec1, k)
    ensures out2.Keys == vec2.Keys + (done + {key}) && forall k :: Get(out2, k) == Get(vec2, k)
    ensures prod == Sum(done + {key}, ProdTerm(vec1, vec2))
  {
    var point1 := Get(out10, key);
    out1 := out10[key := point1];
    var point2 := Get(out20, key);
    out2 := out20[key := point2];
    prod := prod0 + point1 * point2;
    ProdTermAt(vec1, vec2, key, point1, point2);
    SumRemove(done + {key}, ProdTerm(vec1, vec2), key);
    assert done + {key} - {key} == done;
  }

  /**
   * product: the inner product, summed over the keys of the smaller vector
   * (`vec2` on a tie); the lookups store 0 in the other one for keys it lacks.
   */
  method Product(vec1: Vector, vec2: Vector) returns (prod: real, out1: Vector, out2: Vector)
    ensures prod == Inner(vec1, vec2)
    ensures |vec1| < |vec2| ==> out1 == vec1 && out2 == Pad(vec2, vec1.Keys)
    ensures |vec1| >= |vec2| ==> out1 == Pad(vec1, vec2.Keys) && out2 == vec2
  {
    if |vec1| < |vec2| {
      prod, out1, out2 := ProductOver(vec1, vec2, vec1.Keys);
      InnerOver(vec1, vec2, vec1.Keys);
      MapsAgree(out1, vec1);
    } else {
      prod, out1, out2 := ProductOver(vec1, vec2, vec2.Keys);
      InnerOver(vec1, vec2, vec2.Keys);
      MapsAgree(out2, vec2);
    }
  }

  // ---------------------------------------------------------------------
  // choose_smart_centers
  // ---------------------------------------------------------------------

  /** The centres the seeding returns: copies of the picked records. */
  function Seeds(vs: seq<Vector>, first: nat, draws: seq<real>, n: nat, dist: (Vector, Vector) -> real): (cs: seq<Vector>)
    requires first < |vs| && 1 <= n <= |draws| + 1
    ensures |cs| == n
  {
    var picked := SmartPicks(vs, first, draws, n, dist);
    seq(n, j requires 0 <= j < n => vs[picked[j]])
  }

  /**
   * The scan of one pick from record `i` on, with `r` what is left of the
   * draw: stop at the first record whose distance covers it, or at the last.
   */
  function ScanKey(cd: seq<real>, r: real, i: nat): (k: nat)
    requires i < |cd|
    ensures i <= k < |cd|
    decreases |cd| - i
  {
    if r <= cd[i] || i == |cd| - 1 then i else ScanKey(cd, r - cd[i], i + 1)
  }

  /** Every record's distance to the centre `c`, in database order. */
  function DistsTo(vs: seq<Vector>, c: Vector, dist: (Vector, Vector) -> real): seq<real>
  {
    seq(|vs|, i requires 0 <= i < |vs| => dist(vs[i], c))
  }

  /**
   * The records picked as the first `n` centres: `first`, then one scan per
   * draw over the distances to the centre picked last (closest_dist is
   * overwritten by each pass, not lowered to the smaller value).
   */
  function SmartPicks(vs: seq<Vector>, first: nat, draws: seq<real>, n: nat, dist: (Vector, Vector) -> real): (picked: seq<nat>)
    requires first < |vs| && 1 <= n <= |draws| + 1
    ensures |picked| == n && picked[0] == first
    ensures forall j :: 0 <= j < n ==> picked[j] < |vs|
  {
    if n == 1 then [first]
    else
      var prev := SmartPicks(vs, first, draws, n - 1, dist);
      prev + [ScanKey(DistsTo(vs, vs[prev[n - 2]], dist), draws[n - 2], 0)]
  }

  /**
   * The scan lands on the first record at which the running total of the
   * distances reaches the draw; only the last record is taken without.
   */
  lemma {:induction false} ScanKeyCumulative(cd: seq<real>, r: real, i: nat)
    requires i < |cd|
    ensures var k := ScanKey(cd, r - SumSeq(cd[..i]), i);
      (forall j :: i < j <= k ==> SumSeq(cd[..j]) < r) &&
      (r <= SumSeq(cd[..k + 1]) || k == |cd| - 1)
    decreases |cd| - i
  {
    assert cd[..i + 1][..i] == cd[..i];
    var rest := r - SumSeq(cd[..i]);
    if !(rest <= cd[i] || i == |cd| - 1) {
      ScanKeyCumulative(cd, r, i + 1);
      assert rest - cd[i] == r - SumSeq(cd[..i + 1]);
    }
  }

  /**
   * A positive draw within the potential (the sum of the distances) lands on
   * a record at a positive distance: with distances that vanish only between
   * equal vectors, never on a copy of the centre picked last.
   */
  lemma ScanKeyPositive(cd: seq<real>, r: real)
    requires |cd| > 0 && forall j :: 0 <= j < |cd| ==> cd[j] >= 0.0
    requires 0.0 < r <= SumSeq(cd)
    ensures cd[ScanKey(cd, r, 0)] > 0.0
  {
    var k := ScanKey(cd, r, 0);
    ScanKeyCumulative(cd, r, 0);
    assert cd[..0] == [];
    assert cd[..|cd|] == cd;
    assert cd[..k + 1][..k] == cd[..k];
    if k > 0 {
      assert SumSeq(cd[..k]) < r;
    }
  }

  /** A draw beyond the potential takes the last record. */
  lemma ScanKeyFallback(cd: seq<real>, r: real)
    requires |cd| > 0 && r > SumSeq(cd)
    requires forall j :: 0 <= j < |cd| ==> cd[j] >= 0.0
    ensures ScanKey(cd, r, 0) == |cd| - 1
  {
    var k := ScanKey(cd, r, 0);
    ScanKeyCumulative(cd, r, 0);
    assert cd[..0] == [];
    assert cd[..|cd|] == cd;
    if k < |cd| - 1 {
      SumSeqPrefixBound(cd, k + 1);
    }
  }

  /** With non-negative terms, a prefix sums to no more than the whole. */
  lemma {:induction false} SumSeqPrefixBound(cd: seq<real>, n: nat)
    requires n <= |cd| && forall j :: 0 <= j < |cd| ==> cd[j] >= 0.0
    ensures SumSeq(cd[..n]) <= SumSeq(cd)
    decreases |cd| - n
  {
    if n < |cd| {
      SumSeqPrefixBound(cd, n + 1);
      assert cd[..n + 1][..n] == cd[..n];
    } else {
      assert cd[..n] == cd;
    }
  }

  /**
   * Since each pass overwrites closest_dist with the distances to the newest
   * centre, a record already picked can be picked again: with two different
   * records at distance 1 and a draw of 1 each time, the third pick is the
   * first record once more.
   */
  lemma SmartPicksRepeat()
    ensures var vs := [map["a" := 1.0], map["b" := 1.0]];
      var dist := (u: Vector, v: Vector) => if u == v then 0.0 else 1.0;
      SmartPicks(vs, 0, [1.0, 1.0], 3, dist) == [0, 1, 0]
  {
    var vs: seq<Vector> := [map["a" := 1.0], map["b" := 1.0]];
    var dist := (u: Vector, v: Vector) => if u == v then 0.0 else 1.0;
    assert vs[0] != vs[1] by {
      assert "a" in vs[0] && "a" !in vs[1];
    }
    assert DistsTo(vs, vs[0], dist) == [0.0, 1.0];
    assert SmartPicks(vs, 0, [1.0, 1.0], 2, dist) == [0, 1];
    assert DistsTo(vs, vs[1], dist) == [1.0, 0.0];
  }

  /**
   * The "update closest distance" pass: every record's distance to the
   * centre `c` stored in `closest`, and their sum returned as the potential.
   */
  method StoreDistances(vs: seq<Vector>, c: Vector, dist: (Vector, Vector) -> real, closest: array<real>) returns (potential: real)
    requires closest.Length == |vs|
    modifies closest
    ensures closest[..] == DistsTo(vs, c, dist)
    ensures potential == SumSeq(closest[..])
  {
    potential := 0.0;
    for i := 0 to |vs|
      invariant forall j :: 0 <= j < i ==> closest[j] == dist(vs[j], c)
      invariant potential == SumSeq(closest[..i])
    {
      closest[i] := dist(vs[i], c);
      assert closest[..i + 1][..i] == closest[..i];
      potential := potential + closest[i];
    }
    assert closest[..] == closest[..|vs|];
  }

  /** The scan of one pick over `closest`. */
  method Scan(closest: array<real>, randval: real) returns (index: nat)
    requires closest.Length > 0
    ensures index == ScanKey(closest[..], randval, 0)
  {
    var r := randval;
    index := 0;
    var i := 0;
    while i < closest.Length
      invariant 0 <= i <= closest.Length
      invariant i < closest.Length ==> ScanKey(closest[..], r, i) == ScanKey(closest[..], randval, 0)
      invariant i == closest.Length ==> index == ScanKey(closest[..], randval, 0)
    {
      index := i;
      if r <= closest[i] {
        return;
      }
      r := r - closest[i];
      i := i + 1;
    }
  }

  /**
   * choose_smart_centers: `ncenters` centres, copies of the records
   * SmartPicks names, and the potential the last pass leaves.
   */
  method ChooseSmartCenters(vs: seq<Vector>, first: nat, draws: seq<real>, ncenters: nat, dist: (Vector, Vector) -> real)
    returns (centers: seq<Vector>, potential: real)
    requires first < |vs| && 1 <= ncenters <= |draws| + 1
    ensures centers == Seeds(vs, first, draws, ncenters, dist)
    ensures potential == SumSeq(DistsTo(vs, centers[ncenters - 1], dist))
  {
    var closest := new real[|vs|];
    centers := [vs[first]];
    ghost var picked: seq<nat> := [first];
    potential := StoreDistances(vs, vs[first], dist, closest);
    while |centers| < ncenters
      invariant 1 <= |centers| <= ncenters
      invariant picked == SmartPicks(vs, first, draws, |centers|, dist)
      invariant |picked| == |centers| && forall j :: 0 <= j < |centers| ==> centers[j] == vs[picked[j]]
      invariant closest[..] == DistsTo(vs, centers[|centers| - 1], dist)
      invariant potential == SumSeq(closest[..])
      decreases ncenters - |centers|
    {
      var k := Scan(closest, draws[|centers| - 1]);
      picked := picked + [k];
      centers := centers + [vs[k]];
      potential := StoreDistances(vs, vs[k], dist, closest);
    }
    assert centers == Seeds(vs, first, draws, ncenters, dist);
  }

  // ---------------------------------------------------------------------
  // assign_clusters
  // ---------------------------------------------------------------------

  /**
   * The search of assign_clusters from centre `i` on, with the running
   * minimum `mindist` (negative while none is held) found at `minidx`.
   */
  function FirstMin(v: Vector, cs: seq<Vector>, dist: (Vector, Vector) -> real, i: nat, mindist: real, minidx: nat): (k: nat)
    requires i <= |cs|
    ensures minidx < |cs| ==> k < |cs|
    decreases |cs| - i
  {
    if i == |cs| then minidx
    else
      var d := dist(v, cs[i]);
      if mindist < 0.0 || mindist > d then FirstMin(v, cs, dist, i + 1, d, i)
      else FirstMin(v, cs, dist, i + 1, mindist, minidx)
  }

  /** The centre assign_clusters gives `v`: the search started with mindist -1 at centre 0. */
  function Closest(v: Vector, cs: seq<Vector>, dist: (Vector, Vector) -> real): nat
  {
    FirstMin(v, cs, dist, 0, -1.0, 0)
  }

  /** The search keeps the first of the nearest centres seen so far. */
  lemma {:induction false} FirstMinNearest(v: Vector, cs: seq<Vector>, dist: (Vector, Vector) -> real, i: nat, mindist: real, minidx: nat)
    requires 0 < i <= |cs| && minidx < i
    requires forall j :: 0 <= j < |cs| ==> dist(v, cs[j]) >= 0.0
    requires mindist == dist(v, cs[minidx])
    requires forall j :: 0 <= j < i ==> mindist <= dist(v, cs[j])
    requires forall j :: 0 <= j < minidx ==> mindist < dist(v, cs[j])
    ensures var k := FirstMin(v, cs, dist, i, mindist, minidx);
      k < |cs| &&
      (forall j :: 0 <= j < |cs| ==> dist(v, cs[k]) <= dist(v, cs[j])) &&
      (forall j :: 0 <= j < k ==> dist(v, cs[k]) < dist(v, cs[j]))
    decreases |cs| - i
  {
    if i < |cs| {
      var d := dist(v, cs[i]);
      if mindist > d {
        FirstMinNearest(v, cs, dist, i + 1, d, i);
      } else {
        FirstMinNearest(v, cs, dist, i + 1, mindist, minidx);
      }
    }
  }

  /**
   * With non-negative distances each point goes to the first of its nearest
   * centres, and to centre 0 when there are no centres.
   */
  lemma ClosestIsFirstNearest(v: Vector, cs: seq<Vector>, dist: (Vector, Vector) -> real)
    requires forall j :: 0 <= j < |cs| ==> dist(v, cs[j]) >= 0.0
    ensures |cs| == 0 ==> Closest(v, cs, dist) == 0
    ensures |cs| > 0 ==> var k := Closest(v, cs, dist);
      k < |cs| &&
      (forall j :: 0 <= j < |cs| ==> dist(v, cs[k]) <= dist(v, cs[j])) &&
      (forall j :: 0 <= j < k ==> dist(v, cs[k]) < dist(v, cs[j]))
  {
    if |cs| > 0 {
      FirstMinNearest(v, cs, dist, 1, dist(v, cs[0]), 0);
    }
  }

  /** Every record's centre, in database order. */
  function AssignAll(vs: seq<Vector>, cs: seq<Vector>, dist: (Vector, Vector) -> real): (a: seq<nat>)
    ensures |a| == |vs|
    ensures |cs| > 0 ==> forall i :: 0 <= i < |a| ==> a[i] < |cs|
  {
    seq(|vs|, i requires 0 <= i < |vs| => Closest(vs[i], cs, dist))
  }

  /** The inner loop of assign_clusters over the centres. */
  method FindClosest(v: Vector, cs: seq<Vector>, dist: (Vector, Vector) -> real) returns (minidx: nat)
    ensures minidx == Closest(v, cs, dist)
  {
    var mindist := -1.0;
    minidx := 0;
    for i := 0 to |cs|
      invariant FirstMin(v, cs, dist, i, mindist, minidx) == Closest(v, cs, dist)
    {
      var d := dist(v, cs[i]);
      if mindist < 0.0 || mindist > d {
        mindist := d;
        minidx := i;
      }
    }
  }

  /** assign_clusters: every record's centre. */
  method AssignClusters(vs: seq<Vector>, cs: seq<Vector>, dist: (Vector, Vector) -> real) returns (assign: seq<nat>)
    ensures assign == AssignAll(vs, cs, dist)
  {
    assign := [];
    for i := 0 to |vs|
      invariant |assign| == i && forall j :: 0 <= j < i ==> assign[j] == Closest(vs[j], cs, dist)
    {
      var minidx := FindClosest(vs[i], cs, dist);
      assign := assign + [minidx];
    }
  }

  // ---------------------------------------------------------------------
  // move_centers
  // ---------------------------------------------------------------------

  /** The records among the first `n` assigned to cluster `c`, in order: the cluster's member list. */
  function MembersOf(a: seq<nat>, c: nat, n: nat): (ps: seq<nat>)
    requires n <= |a|
    ensures forall j :: 0 <= j < |ps| ==> ps[j] < n && a[ps[j]] == c
    ensures forall p :: 0 <= p < n && a[p] == c ==> p in ps
    ensures forall j, j' :: 0 <= j < j' < |ps| ==> ps[j] < ps[j']
  {
    if n == 0 then [] else MembersOf(a, c, n - 1) + (if a[n - 1] == c then [n - 1] else [])
  }

  /** The sum of the listed records' vectors. */
  function SumOf(vs: seq<Vector>, ps: seq<nat>): Vector
    requires forall j :: 0 <= j < |ps| ==> ps[j] < |vs|
  {
    if ps == [] then map[] else AddInto(SumOf(vs, ps[..|ps| - 1]), vs[ps[|ps| - 1]])
  }

  /** The listed records' readings of key `k`. */
  function Readings(vs: seq<Vector>, ps: seq<nat>, k: string): seq<real>
    requires forall j :: 0 <= j < |ps| ==> ps[j] < |vs|
  {
    seq(|ps|, j requires 0 <= j < |ps| => Get(vs[ps[j]], k))
  }

  /** The sum holds a key exactly when a listed vector does, and its reading is the sum of theirs. */
  lemma {:induction false} SumOfMeaning(vs: seq<Vector>, ps: seq<nat>, k: string)
    requires forall j :: 0 <= j < |ps| ==> ps[j] < |vs|
    ensures k in SumOf(vs, ps) <==> exists j :: 0 <= j < |ps| && k in vs[ps[j]]
    ensures Get(SumOf(vs, ps), k) == SumSeq(Readings(vs, ps, k))
  {
    if ps != [] {
      var qs := ps[..|ps| - 1];
      SumOfMeaning(vs, qs, k);
      assert Readings(vs, ps, k)[..|ps| - 1] == Readings(vs, qs, k);
      if k in vs[ps[|ps| - 1]] {
        assert exists j :: 0 <= j < |ps| && k in vs[ps[j]] by {
          assert k in vs[ps[|ps| - 1]];
        }
      }
      if exists j :: 0 <= j < |ps| && k in vs[ps[j]] {
        var j :| 0 <= j < |ps| && k in vs[ps[j]];
        if j < |ps| - 1 {
          assert qs[j] == ps[j];
        }
      }
    }
  }

  /** The factor mult_each is given to turn a sum of `n` vectors into their mean. */
  function Reciprocal(n: nat): real
    requires n > 0
  {
    1.0 / n as real
  }

  /** One moved centre: the previous one when the cluster has no members, otherwise their mean. */
  function MovedCenter(vs: seq<Vector>, a: seq<nat>, prev: Vector, c: nat): Vector
    requires |a| == |vs|
  {
    var m := MembersOf(a, c, |a|);
    if m == [] then prev else Scale(SumOf(vs, m), Reciprocal(|m|))
  }

  /** move_centers applied to every centre. */
  function Moved(vs: seq<Vector>, a: seq<nat>, cs: seq<Vector>): (r: seq<Vector>)
    requires |a| == |vs|
    ensures |r| == |cs|
  {
    seq(|cs|, c requires 0 <= c < |cs| => MovedCenter(vs, a, cs[c], c))
  }

  /** A cluster with no members keeps its centre. */
  lemma MovedEmpty(vs: seq<Vector>, a: seq<nat>, cs: seq<Vector>, c: nat)
    requires |a| == |vs| && c < |cs| && MembersOf(a, c, |a|) == []
    ensures Moved(vs, a, cs)[c] == cs[c]
  {
    assert Moved(vs, a, cs)[c] == MovedCenter(vs, a, cs[c], c);
  }

  /** The centre of a cluster with members holds a key exactly when one of its members does. */
  lemma MovedKeys(vs: seq<Vector>, a: seq<nat>, cs: seq<Vector>, c: nat, k: string)
    requires |a| == |vs| && c < |cs| && MembersOf(a, c, |a|) != []
    ensures var m := MembersOf(a, c, |a|);
      k in Moved(vs, a, cs)[c] <==> exists j :: 0 <= j < |m| && k in vs[m[j]]
  {
    var m := MembersOf(a, c, |a|);
    assert Moved(vs, a, cs)[c] == Scale(SumOf(vs, m), Reciprocal(|m|));
    SumOfMeaning(vs, m, k);
  }

  /** The mean of some readings, as move_centers forms it: their sum scaled by the reciprocal of their count. */
  function Mean(xs: seq<real>): real
    requires xs != []
  {
    SumSeq(xs) * Reciprocal(|xs|)
  }

  /** The centre of a cluster with members is their mean, key by key. */
  lemma MovedMean(vs: seq<Vector>, a: seq<nat>, cs: seq<Vector>, c: nat, k: string)
    requires |a| == |vs| && c < |cs| && MembersOf(a, c, |a|) != []
    ensures Get(Moved(vs, a, cs)[c], k) == Mean(Readings(vs, MembersOf(a, c, |a|), k))
  {
    var m := MembersOf(a, c, |a|);
    var r := Readings(vs, m, k);
    SumOfMeaning(vs, m, k);
    assert |r| == |m|;
    assert Moved(vs, a, cs)[c] == Scale(SumOf(vs, m), Reciprocal(|r|));
    ScaledMean(SumOf(vs, m), r, k);
  }

  /** Scaling a reading that sums `xs` by the reciprocal of their count gives their mean. */
  lemma ScaledMean(v: Vector, xs: seq<real>, k: string)
    requires xs != [] && Get(v, k) == SumSeq(xs)
    ensures Get(Scale(v, Reciprocal(|xs|)), k) == Mean(xs)
  {
    if k !in v {
      assert SumSeq(xs) == 0.0;
    }
  }

  /** The members of cluster `c` are exactly the records assigned to it. */
  lemma MembersExact(a: seq<nat>, c: nat, p: nat)
    requires p < |a|
    ensures p in MembersOf(a, c, |a|) <==> a[p] == c
  {
  }

  /** Moving twice with the same assignment changes nothing more. */
  lemma MovedIdempotent(vs: seq<Vector>, a: seq<nat>, cs: seq<Vector>)
    requires |a| == |vs|
    ensures Moved(vs, a, Moved(vs, a, cs)) == Moved(vs, a, cs)
  {
  }

  /** The sum of a member list, accumulated with add_vector from an empty centre. */
  method SumMembers(vs: seq<Vector>, members: seq<nat>) returns (center: Vector)
    requires forall j :: 0 <= j < |members| ==> members[j] < |vs|
    ensures center == SumOf(vs, members)
  {
    center := map[];
    for j := 0 to |members|
      invariant center == SumOf(vs, members[..j])
    {
      assert members[..j + 1][..j] == members[..j];
      center := AddVector(center, vs[members[j]]);
    }
    assert members[..|members|] == members;
  }

  /**
   * move_centers: the member lists built from the assignment, then every
   * centre of a non-empty cluster replaced by the mean of its members.
   */
  method MoveCenters(vs: seq<Vector>, assign: seq<nat>, centers: seq<Vector>) returns (r: seq<Vector>)
    requires |assign| == |vs| && forall i :: 0 <= i < |assign| ==> assign[i] < |centers|
    ensures r == Moved(vs, assign, centers)
  {
    var clusters: seq<seq<nat>> := seq(|centers|, _ => []);
    for i := 0 to |assign|
      invariant |clusters| == |centers|
      invariant forall c :: 0 <= c < |centers| ==> clusters[c] == MembersOf(assign, c, i)
    {
      clusters := clusters[assign[i] := clusters[assign[i]] + [i]];
    }
    r := centers;
    for c := 0 to |centers|
      invariant |r| == |centers|
      invariant forall d :: 0 <= d < c ==> r[d] == MovedCenter(vs, assign, centers[d], d)
      invariant forall d :: c <= d < |centers| ==> r[d] == centers[d]
    {
      if |clusters[c]| == 0 {
        continue;
      }
      var center := SumMembers(vs, clusters[c]);
      center := MultEach(center, 1.0 / |clusters[c]| as real);
      assert 1.0 / |clusters[c]| as real == Reciprocal(|clusters[c]|);
      r := r[c := center];
    }
  }

  // ---------------------------------------------------------------------
  // kmeans
  // ---------------------------------------------------------------------

  /** The outcome of kmeans: the assignment, the centres and the number of rounds made. */
  datatype Clustering = Clustering(assign: seq<nat>, centers: seq<Vector>, rounds: nat)

  /**
   * The rounds of kmeans from round `done` on: move the centres, reassign,
   * and stop when no record changes cluster (keeping the old assignment and
   * the moved centres) or after MaxIteration rounds.
   */
  function Rounds(vs: seq<Vector>, cs: seq<Vector>, a: seq<nat>, dist: (Vector, Vector) -> real, done: nat): (r: Clustering)
    requires |a| == |vs| && done <= MaxIteration
    ensures done <= r.rounds <= MaxIteration && |r.centers| == |cs| && |r.assign| == |vs|
    decreases MaxIteration - done
  {
    if done == MaxIteration then Clustering(a, cs, done)
    else
      var moved := Moved(vs, a, cs);
      var next := AssignAll(vs, moved, dist);
      if next == a then Clustering(a, moved, done + 1)
      else Rounds(vs, moved, next, dist, done + 1)
  }

  /** kmeans: one assignment to the initial centres, then the rounds. */
  function KMeansRun(vs: seq<Vector>, cs: seq<Vector>, dist: (Vector, Vector) -> real): Clustering
  {
    Rounds(vs, cs, AssignAll(vs, cs, dist), dist, 0)
  }

  /** The assignment kmeans returns is the assignment to the centres it returns. */
  lemma {:induction false} RoundsConsistent(vs: seq<Vector>, cs: seq<Vector>, a: seq<nat>, dist: (Vector, Vector) -> real, done: nat)
    requires a == AssignAll(vs, cs, dist) && done <= MaxIteration
    ensures Rounds(vs, cs, a, dist, done).assign == AssignAll(vs, Rounds(vs, cs, a, dist, done).centers, dist)
    decreases MaxIteration - done
  {
    if done < MaxIteration {
      var moved := Moved(vs, a, cs);
      var next := AssignAll(vs, moved, dist);
      if next != a {
        RoundsConsistent(vs, moved, next, dist, done + 1);
      }
    }
  }

  /**
   * A run that stops before MaxIteration rounds ends at a fixed point: moving
   * the centres again and reassigning would change neither.
   */
  lemma {:induction false} RoundsFixedPoint(vs: seq<Vector>, cs: seq<Vector>, a: seq<nat>, dist: (Vector, Vector) -> real, done: nat)
    requires |a| == |vs| && done <= MaxIteration
    ensures var r := Rounds(vs, cs, a, dist, done);
      r.rounds < MaxIteration ==>
        Moved(vs, r.assign, r.centers) == r.centers && AssignAll(vs, r.centers, dist) == r.assign
    decreases MaxIteration - done
  {
    if done < MaxIteration {
      var moved := Moved(vs, a, cs);
      var next := AssignAll(vs, moved, dist);
      if next == a {
        assert Rounds(vs, cs, a, dist, done) == Clustering(a, moved, done + 1);
        MovedIdempotent(vs, a, cs);
      } else {
        assert Rounds(vs, cs, a, dist, done) == Rounds(vs, moved, next, dist, done + 1);
        RoundsFixedPoint(vs, moved, next, dist, done + 1);
      }
    }
  }

  /** The change check of kmeans: whether some record's cluster differs. */
  method Changed(assign: seq<nat>, newassign: seq<nat>) returns (changed: bool)
    requires |assign| == |newassign|
    ensures changed <==> assign != newassign
  {
    changed := false;
    var i := 0;
    while i < |assign|
      invariant 0 <= i <= |assign|
      invariant assign[..i] == newassign[..i]
    {
      if assign[i] != newassign[i] {
        changed := true;
        return;
      }
      assert assign[..i + 1] == assign[..i] + [assign[i]];
      assert newassign[..i + 1] == newassign[..i] + [newassign[i]];
      i := i + 1;
    }
    assert assign == assign[..i] && newassign == newassign[..i];
  }

  /** kmeans: at least one centre, so every assignment names a centre that exists. */
  method KMeans(vs: seq<Vector>, cs0: seq<Vector>, dist: (Vector, Vector) -> real) returns (r: Clustering)
    requires |cs0| > 0
    ensures r == KMeansRun(vs, cs0, dist)
  {
    var assign: seq<nat> := AssignClusters(vs, cs0, dist);
    var centers: seq<Vector> := cs0;
    for i := 0 to MaxIteration
      invariant |centers| == |cs0| && |assign| == |vs|
      invariant forall j :: 0 <= j < |assign| ==> assign[j] < |centers|
      invariant Rounds(vs, centers, assign, dist, i) == KMeansRun(vs, cs0, dist)
    {
      centers := MoveCenters(vs, assign, centers);
      var newassign: seq<nat> := AssignClusters(vs, centers, dist);
      var changed := Changed(assign, newassign);
      if !changed {
        return Clustering(assign, centers, i + 1);
      }
      assign := newassign;
    }
    r := Clustering(assign, centers, MaxIteration);
  }

  // ---------------------------------------------------------------------
  // main: seeding, clustering and the saved assignment
  // ---------------------------------------------------------------------

  /** No two records share a key, as in a hash database. */
  predicate UniqueKeys(db: seq<Record>)
  {
    forall i, j :: 0 <= i < j < |db| ==> db[i].key != db[j].key
  }

  /**
   * The body of main without the I/O: seed `ncenters` centres, cluster, and
   * return the assignment keyed by record key, as save_clusters writes it.
   */
  method Cluster(db: seq<Record>, ncenters: nat, first: nat, draws: seq<real>,
                 dist: (Vector, Vector) -> real, atof: string -> real) returns (saved: map<string, nat>)
    requires UniqueKeys(db) && first < |db| && 1 <= ncenters <= |draws| + 1
    ensures saved.Keys == set i | 0 <= i < |db| :: db[i].key
    ensures var vs := Vectors(db, atof);
      var r := KMeansRun(vs, Seeds(vs, first, draws, ncenters, dist), dist);
      forall i :: 0 <= i < |db| ==> saved[db[i].key] == r.assign[i] && r.assign[i] < ncenters
  {
    var vs := ReadVectors(db, atof);
    var centers, _ := ChooseSmartCenters(vs, first, draws, ncenters, dist);
    var r := KMeans(vs, centers, dist);
    RoundsConsistent(vs, centers, AssignAll(vs, centers, dist), dist, 0);
    saved := SaveClusters(db, r.assign);
  }

  /** save_clusters without the file: every record's key mapped to its cluster. */
  method SaveClusters(db: seq<Record>, assign: seq<nat>) returns (saved: map<string, nat>)
    requires UniqueKeys(db) && |assign| == |db|
    ensures saved.Keys == set i | 0 <= i < |db| :: db[i].key
    ensures forall i :: 0 <= i < |db| ==> saved[db[i].key] == assign[i]
  {
    saved := map[];
    for i := 0 to |db|
      invariant saved.Keys == set j | 0 <= j < i :: db[j].key
      invariant forall j :: 0 <= j < i ==> saved[db[j].key] == assign[j]
    {
      saved := saved[db[i].key := assign[i]];
    }
  }
}

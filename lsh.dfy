/**
 * The LSH pair finder: a record reader that stops after a fixed number of
 * word/value pairs, sign-bit signatures against a sample of random records,
 * and, for each shuffle of the signature bits, the records whose sorted
 * signatures lie within ten positions of each other, compared once each by
 * cosine similarity.
 *
 * The Tokyo Cabinet database is a map from record key to record text; the
 * random record sample, the shuffles, atof and sqrt are parameters.
 */
module Lsh {
  import opened Wrappers
  import opened SetSums
  import opened SparseVectors
  import opened Strings
  import opened Sorting

  type Vector = Vec<string>

  /** The record store: key to record text. */
  type Db = map<string, string>

  const NumRandomKey: nat := 100
  const NumShuffle: nat := 15
  const NumNeighbor: nat := 10
  const MaxVectorKey: nat := 50
  const MinCosine: real := 0.7

  // ---------------------------------------------------------------------
  // read_vector
  // ---------------------------------------------------------------------

  /** The fields read_vector's loop can reach: every tab-separated piece that a tab follows. */
  function Consumed(value: string): seq<string>
  {
    var ps := Pieces(value, [Tab]);
    ps[..|ps| - 1]
  }

  /** The loop's state when it stops: the vector, and how many pairs it stored. */
  datatype Reading = Reading(v: Vector, stored: nat)

  /**
   * The loop of read_vector from field `i` on: even fields name the key,
   * odd fields give its value, which is stored (overwriting) when the key is
   * non-empty and the value non-zero; the loop stops once `knum` pairs are stored.
   */
  function Fill(fs: seq<string>, i: nat, key: string, kwcnt: nat, knum: int, v: Vector,
                atof: string -> real): Reading
    requires i <= |fs|
    decreases |fs| - i
  {
    if i == |fs| || kwcnt >= knum then Reading(v, kwcnt)
    else if i % 2 == 0 then Fill(fs, i + 1, fs[i], kwcnt, knum, v, atof)
    else if key != "" && atof(fs[i]) != 0.0 then
      Fill(fs, i + 1, key, kwcnt + 1, knum, v[key := atof(fs[i])], atof)
    else Fill(fs, i + 1, key, kwcnt, knum, v, atof)
  }

  /** read_vector: `v` after reading the record stored under `key`, if any. */
  function ReadRecord(db: Db, key: Option<string>, knum: int, v: Vector, atof: string -> real): Vector
  {
    if key.None? || key.value !in db then v
    else Fill(Consumed(db[key.value]), 0, "", 0, knum, v, atof).v
  }

  /** read_vector, with the find/substr loop shrinking the record text. */
  method ReadVector(db: Db, key: Option<string>, knum: int, v0: Vector, atof: string -> real)
    returns (v: Vector)
    ensures v == ReadRecord(db, key, knum, v0, atof)
    ensures key.None? || key.value !in db ==> v == v0
  {
    v := v0;
    if key.None? {
      return;
    }
    if key.value in db {
      var vecstr := db[key.value];
      ghost var all := Pieces(vecstr, [Tab]);
      ghost var fs := Consumed(vecstr);
      var name: string := "";
      var cnt: nat := 0;
      var kwcnt: nat := 0;
      var p := Find(vecstr, [Tab]);
      while p.Some? && kwcnt < knum
        invariant cnt < |all| && Pieces(vecstr, [Tab]) == all[cnt..]
        invariant p == Find(vecstr, [Tab])
        invariant Fill(fs, cnt, name, kwcnt, knum, v, atof) == Fill(fs, 0, "", 0, knum, v0, atof)
        decreases |vecstr|
      {
        vecstr, cnt, name, kwcnt, v := ReadField(vecstr, p.value, cnt, name, kwcnt, knum, v, atof, all, fs);
        p := Find(vecstr, [Tab]);
      }
    }
  }

  /** One turn of read_vector's loop: an even field names the key, an odd one gives its value. */
  method ReadField(vecstr0: string, p: nat, cnt0: nat, name0: string, kwcnt0: nat, knum: int, v1: Vector,
                   atof: string -> real, ghost all: seq<string>, ghost fs: seq<string>)
    returns (vecstr: string, cnt: nat, name: string, kwcnt: nat, v: Vector)
    requires Find(vecstr0, [Tab]) == Some(p) && kwcnt0 < knum
    requires cnt0 < |all| && Pieces(vecstr0, [Tab]) == all[cnt0..] && fs == all[..|all| - 1]
    ensures cnt == cnt0 + 1 && cnt < |all| && Pieces(vecstr, [Tab]) == all[cnt..]
    ensures Fill(fs, cnt, name, kwcnt, knum, v, atof) == Fill(fs, cnt0, name0, kwcnt0, knum, v1, atof)
    ensures |vecstr| < |vecstr0|
  {
    var s := vecstr0[..p];
    PiecesStep(vecstr0, [Tab], p);
    assert all[cnt0..] == [all[cnt0]] + all[cnt0 + 1..];
    assert cnt0 < |fs| && fs[cnt0] == s;
    name, kwcnt, v := name0, kwcnt0, v1;
    if cnt0 % 2 == 0 {
      name := s;
    } else {
      var point := atof(s);
      if name != "" && point != 0.0 {
        v := v[name := point];
        kwcnt := kwcnt + 1;
      }
    }
    cnt := cnt0 + 1;
    vecstr := vecstr0[p + 1..];
  }

  /** Every entry the loop changes or adds has a non-empty key and a non-zero value, and none is removed. */
  predicate OnlyStores(v: Vector, r: Vector)
  {
    v.Keys <= r.Keys && forall k :: k in r && !(k in v && r[k] == v[k]) ==> k != "" && r[k] != 0.0
  }

  lemma {:induction false} FillChanges(fs: seq<string>, i: nat, key: string, kwcnt: nat, knum: int,
                                       v: Vector, atof: string -> real)
    requires i <= |fs|
    ensures OnlyStores(v, Fill(fs, i, key, kwcnt, knum, v, atof).v)
    decreases |fs| - i
  {
    if i == |fs| || kwcnt >= knum {
    } else if i % 2 == 0 {
      FillChanges(fs, i + 1, fs[i], kwcnt, knum, v, atof);
    } else if key != "" && atof(fs[i]) != 0.0 {
      var w := v[key := atof(fs[i])];
      FillChanges(fs, i + 1, key, kwcnt + 1, knum, w, atof);
      StoreThen(v, w, Fill(fs, i + 1, key, kwcnt + 1, knum, w, atof).v, key, atof(fs[i]));
    } else {
      FillChanges(fs, i + 1, key, kwcnt, knum, v, atof);
    }
  }

  /** One store followed by more stores is still only stores. */
  lemma StoreThen(v: Vector, w: Vector, r: Vector, key: string, x: real)
    requires key != "" && x != 0.0 && w == v[key := x]
    requires OnlyStores(w, r)
    ensures OnlyStores(v, r)
  {
    forall k | k in r && !(k in v && r[k] == v[k])
      ensures k != "" && r[k] != 0.0
    {
      if k in w && r[k] == w[k] {
        assert k == key;
      }
    }
  }

  /** The loop never lowers the count of stored pairs, and stops by the time it reaches `knum`. */
  lemma {:induction false} FillStored(fs: seq<string>, i: nat, key: string, kwcnt: nat, knum: int,
                                      v: Vector, atof: string -> real)
    requires i <= |fs|
    ensures kwcnt <= Fill(fs, i, key, kwcnt, knum, v, atof).stored
    ensures kwcnt <= knum ==> Fill(fs, i, key, kwcnt, knum, v, atof).stored <= knum
    decreases |fs| - i
  {
    if i == |fs| || kwcnt >= knum {
    } else if i % 2 == 0 {
      FillStored(fs, i + 1, fs[i], kwcnt, knum, v, atof);
    } else if key != "" && atof(fs[i]) != 0.0 {
      FillStored(fs, i + 1, key, kwcnt + 1, knum, v[key := atof(fs[i])], atof);
    } else {
      FillStored(fs, i + 1, key, kwcnt, knum, v, atof);
    }
  }

  /** From state (`v`, `kwcnt`) to `r`: no key removed, and at most one key added per pair stored. */
  predicate KeysBound(v: Vector, kwcnt: nat, r: Reading)
  {
    v.Keys <= r.v.Keys && |r.v.Keys| + kwcnt <= |v.Keys| + r.stored
  }

  /** The loop adds at most one key for each pair it stores, and removes none. */
  lemma {:induction false} FillKeys(fs: seq<string>, i: nat, key: string, kwcnt: nat, knum: int,
                                    v: Vector, atof: string -> real)
    requires i <= |fs|
    ensures KeysBound(v, kwcnt, Fill(fs, i, key, kwcnt, knum, v, atof))
    decreases |fs| - i
  {
    if i == |fs| || kwcnt >= knum {
    } else if i % 2 == 0 {
      FillKeys(fs, i + 1, fs[i], kwcnt, knum, v, atof);
    } else if key != "" && atof(fs[i]) != 0.0 {
      var w := v[key := atof(fs[i])];
      FillKeys(fs, i + 1, key, kwcnt + 1, knum, w, atof);
      KeysStore(v, w, kwcnt, key, atof(fs[i]), Fill(fs, i + 1, key, kwcnt + 1, knum, w, atof));
    } else {
      FillKeys(fs, i + 1, key, kwcnt, knum, v, atof);
    }
  }

  /** The bound carries back over a step that stores a pair. */
  lemma KeysStore(v: Vector, w: Vector, kwcnt: nat, key: string, x: real, r: Reading)
    requires w == v[key := x] && KeysBound(w, kwcnt + 1, r)
    ensures KeysBound(v, kwcnt, r)
  {
    assert w.Keys == v.Keys + {key};
  }

  /** Removing a subset removes exactly its elements from the count. */
  lemma SubsetDifference(a: set<string>, b: set<string>)
    requires a <= b
    ensures |b - a| == |b| - |a|
  {
    assert b == a + (b - a);
  }

  /**
   * read_vector leaves `v` as it is or changes entries only to non-empty keys
   * with non-zero values, adding at most `knum` keys.
   */
  lemma ReadStores(db: Db, key: Option<string>, knum: int, v: Vector, atof: string -> real)
    ensures OnlyStores(v, ReadRecord(db, key, knum, v, atof))
    ensures |ReadRecord(db, key, knum, v, atof).Keys - v.Keys| <= (if knum < 0 then 0 else knum)
  {
    if key.Some? && key.value in db {
      FillChanges(Consumed(db[key.value]), 0, "", 0, knum, v, atof);
      FillStored(Consumed(db[key.value]), 0, "", 0, knum, v, atof);
      FillKeys(Consumed(db[key.value]), 0, "", 0, knum, v, atof);
    }
    SubsetDifference(v.Keys, ReadRecord(db, key, knum, v, atof).Keys);
  }

  /** Joining tab-free fields and a last field: the loop reaches exactly the fields before the last. */
  lemma ConsumedOfJoin(fs: seq<string>, last: string)
    requires forall i :: 0 <= i < |fs| ==> Tab !in fs[i]
    requires Tab !in last
    ensures Consumed(Join(fs + [last], [Tab])) == fs
  {
    var xs := fs + [last];
    forall i | 0 <= i < |xs|
      ensures Tab !in xs[i]
    {
      if i < |fs| {
        assert xs[i] == fs[i];
      }
    }
    PiecesOfJoin(xs, Tab);
    assert xs[..|xs| - 1] == fs;
  }

  /** The text after the last tab of a record is never read. */
  lemma LastFieldUnread(db: Db, key: string, fs: seq<string>, x: string, y: string, knum: int,
                        v: Vector, atof: string -> real)
    requires forall i :: 0 <= i < |fs| ==> Tab !in fs[i]
    requires Tab !in x && Tab !in y
    requires key in db && db[key] == Join(fs + [x], [Tab])
    ensures ReadRecord(db, Some(key), knum, v, atof)
         == ReadRecord(db[key := Join(fs + [y], [Tab])], Some(key), knum, v, atof)
  {
    ConsumedOfJoin(fs, x);
    ConsumedOfJoin(fs, y);
  }

  /** A record without a tab contributes nothing. */
  lemma UntabbedRecordUnread(db: Db, key: string, knum: int, v: Vector, atof: string -> real)
    requires key in db && Tab !in db[key]
    ensures ReadRecord(db, Some(key), knum, v, atof) == v
  {
    CharOccurs(db[key], Tab);
  }

  /** A worked record: the second value is zero and is skipped, the trailing field is ignored. */
  lemma ReadVectorExample(atof: string -> real)
    requires atof("1") == 1.0 && atof("0") == 0.0
    ensures ReadRecord(map["k" := "a\t1\tb\t0\tc\t1"], Some("k"), MaxVectorKey, map[], atof)
         == map["a" := 1.0]
  {
    var fs := ["a", "1", "b", "0", "c"];
    assert forall i :: 0 <= i < |fs| ==> Tab !in fs[i];
    ExampleRecord();
    assert fs + ["1"] == ["a", "1", "b", "0", "c", "1"];
    ConsumedOfJoin(fs, "1");
    ExampleFill(atof);
  }

  /** The example record as its fields joined by tabs. */
  lemma ExampleRecord()
    ensures Join(["a", "1", "b", "0", "c", "1"], [Tab]) == "a\t1\tb\t0\tc\t1"
  {
    JoinCons("c", ["1"], [Tab]);
    assert ["c", "1"] == ["c"] + ["1"];
    JoinCons("0", ["c", "1"], [Tab]);
    assert ["0", "c", "1"] == ["0"] + ["c", "1"];
    JoinCons("b", ["0", "c", "1"], [Tab]);
    assert ["b", "0", "c", "1"] == ["b"] + ["0", "c", "1"];
    JoinCons("1", ["b", "0", "c", "1"], [Tab]);
    assert ["1", "b", "0", "c", "1"] == ["1"] + ["b", "0", "c", "1"];
    JoinCons("a", ["1", "b", "0", "c", "1"], [Tab]);
    assert ["a", "1", "b", "0", "c", "1"] == ["a"] + ["1", "b", "0", "c", "1"];
  }

  /** The loop over the example's reachable fields, one step at a time. */
  lemma ExampleFill(atof: string -> real)
    requires atof("1") == 1.0 && atof("0") == 0.0
    ensures Fill(["a", "1", "b", "0", "c"], 0, "", 0, MaxVectorKey, map[], atof).v == map["a" := 1.0]
  {
    var fs := ["a", "1", "b", "0", "c"];
    var m: Vector := map[];
    var m1 := m["a" := 1.0];
    assert Fill(fs, 0, "", 0, MaxVectorKey, m, atof) == Fill(fs, 1, "a", 0, MaxVectorKey, m, atof);
    assert Fill(fs, 1, "a", 0, MaxVectorKey, m, atof) == Fill(fs, 2, "a", 1, MaxVectorKey, m1, atof);
    assert Fill(fs, 2, "a", 1, MaxVectorKey, m1, atof) == Fill(fs, 3, "b", 1, MaxVectorKey, m1, atof);
    assert Fill(fs, 3, "b", 1, MaxVectorKey, m1, atof) == Fill(fs, 4, "b", 1, MaxVectorKey, m1, atof);
    assert Fill(fs, 4, "b", 1, MaxVectorKey, m1, atof) == Fill(fs, 5, "c", 1, MaxVectorKey, m1, atof);
    assert Fill(fs, 5, "c", 1, MaxVectorKey, m1, atof).v == m1;
  }

  // ---------------------------------------------------------------------
  // inner_product, norm, cosine
  // ---------------------------------------------------------------------

  /** inner_product: the products summed over the keys of `v1` that `v2` also holds. */
  method InnerProduct(v1: Vector, v2: Vector) returns (result: real)
    ensures result == Inner(v1, v2)
  {
    result := 0.0;
    var done: set<string> := {};
    var rest := v1.Keys;
    while rest != {}
      invariant rest + done == v1.Keys && rest !! done
      invariant result == Sum(done * v2.Keys, ProdTerm(v1, v2))
    {
      var key :| key in rest;
      if key in v2 {
        var p1 := v1[key];
        var p2 := v2[key];
        result := result + p1 * p2;
        ProdTermAt(v1, v2, key, p1, p2);
        SumRemove((done + {key}) * v2.Keys, ProdTerm(v1, v2), key);
        assert (done + {key}) * v2.Keys - {key} == done * v2.Keys;
      } else {
        assert (done + {key}) * v2.Keys == done * v2.Keys;
      }
      done := done + {key};
      rest := rest - {key};
    }
  }

  /** What the model asks of the square root it is given: non-negative, and zero only at zero. */
  ghost predicate RootLike(sqrt: real -> real)
  {
    forall x :: x >= 0.0 ==> sqrt(x) >= 0.0 && (sqrt(x) == 0.0 <==> x == 0.0)
  }

  /** The length of a vector: 0 when it is empty, otherwise the root of its sum of squares. */
  ghost function NormOf(v: Vector, sqrt: real -> real): real
  {
    if |v| == 0 then 0.0 else sqrt(Inner(v, v))
  }

  /** The sum of squares loop of norm. */
  method SumSquares(v: Vector) returns (result: real)
    ensures result == Inner(v, v)
  {
    result := 0.0;
    var done: set<string> := {};
    var rest := v.Keys;
    while rest != {}
      invariant rest + done == v.Keys && rest !! done
      invariant result == Sum(done, ProdTerm(v, v))
    {
      var key :| key in rest;
      var point := v[key];
      result := result + point * point;
      ProdTermAt(v, v, key, point, point);
      SumRemove(done + {key}, ProdTerm(v, v), key);
      assert done + {key} - {key} == done;
      done := done + {key};
      rest := rest - {key};
    }
    assert v.Keys * v.Keys == v.Keys;
  }

  /** norm. */
  method Norm(v: Vector, sqrt: real -> real) returns (r: real)
    ensures r == NormOf(v, sqrt)
    ensures |v| == 0 ==> r == 0.0
  {
    if |v| == 0 {
      return 0.0;
    }
    var result := SumSquares(v);
    r := sqrt(result);
  }

  /** `p` divided by the product of two non-zero lengths. */
  function Quotient(p: real, len1: real, len2: real): real
    requires len1 != 0.0 && len2 != 0.0
  {
    p / (len1 * len2)
  }

  /** The cosine of two vectors, or 0 when either has length 0. */
  ghost function CosineOf(v1: Vector, v2: Vector, sqrt: real -> real): real
  {
    var len1 := NormOf(v1, sqrt);
    var len2 := NormOf(v2, sqrt);
    if len1 == 0.0 || len2 == 0.0 then 0.0 else Quotient(Inner(v1, v2), len1, len2)
  }

  /** cosine. */
  method Cosine(v1: Vector, v2: Vector, sqrt: real -> real) returns (c: real)
    ensures c == CosineOf(v1, v2, sqrt)
    ensures NormOf(v1, sqrt) == 0.0 || NormOf(v2, sqrt) == 0.0 ==> c == 0.0
  {
    var len1 := Norm(v1, sqrt);
    var len2 := Norm(v2, sqrt);
    if len1 == 0.0 || len2 == 0.0 {
      return 0.0;
    }
    var prod := InnerProduct(v1, v2);
    c := Quotient(prod, len1, len2);
  }

  /** The cosine does not depend on the order of its arguments. */
  lemma CosineSymmetric(v1: Vector, v2: Vector, sqrt: real -> real)
    ensures CosineOf(v1, v2, sqrt) == CosineOf(v2, v1, sqrt)
  {
    InnerSymmetric(v1, v2);
    var len1 := NormOf(v1, sqrt);
    var len2 := NormOf(v2, sqrt);
    assert len1 * len2 == len2 * len1;
  }

  /** The sum of squares is never negative, and it is zero only when every stored value is. */
  lemma SelfInner(v: Vector)
    ensures Inner(v, v) >= 0.0
    ensures Inner(v, v) == 0.0 ==> forall k :: Get(v, k) == 0.0
  {
    forall k | k in v.Keys * v.Keys
      ensures ProdTerm(v, v)(k) >= 0.0
      ensures ProdTerm(v, v)(k) == 0.0 <==> Get(v, k) == 0.0
    {
      var x := Get(v, k);
      var t := ProdTerm(v, v)(k);
      ProdTermAt(v, v, k, x, x);
      assert t == x * x;
      Square(x);
      if x != 0.0 {
        calc {
          t;
        ==
          x * x;
        >
          0.0;
        }
      }
    }
    SumNonNegative(v.Keys * v.Keys, ProdTerm(v, v));
    if Inner(v, v) == 0.0 {
      forall k
        ensures Get(v, k) == 0.0
      {
        if k in v {
          assert k in v.Keys * v.Keys;
        }
      }
    }
  }

  /** A vector whose every reading is 0 has inner product 0 with anything. */
  lemma SilentInner(v1: Vector, v2: Vector)
    requires forall k :: Get(v1, k) == 0.0
    ensures Inner(v1, v2) == 0.0
  {
    SumDropZeros(v1.Keys * v2.Keys, {}, ProdTerm(v1, v2));
  }

  /** A quotient by a positive number has the sign of the dividend. */
  lemma QuotientSign(p: real, a: real, b: real)
    requires a > 0.0 && b > 0.0
    ensures Quotient(p, a, b) > 0.0 <==> p > 0.0
  {
    var d := a * b;
    assert d > 0.0;
    if p > 0.0 {
      assert p / d > 0.0;
    } else {
      assert p / d <= 0.0;
    }
  }

  /** With a square root that is zero only at zero, the cosine is positive exactly when the inner product is. */
  lemma CosineSign(v1: Vector, v2: Vector, sqrt: real -> real)
    requires RootLike(sqrt)
    ensures CosineOf(v1, v2, sqrt) > 0.0 <==> Inner(v1, v2) > 0.0
  {
    var len1 := NormOf(v1, sqrt);
    var len2 := NormOf(v2, sqrt);
    SelfInner(v1);
    SelfInner(v2);
    if len1 == 0.0 {
      if |v1| > 0 {
        assert Inner(v1, v1) == 0.0;
      } else {
        assert forall k :: Get(v1, k) == 0.0;
      }
      SilentInner(v1, v2);
    } else if len2 == 0.0 {
      if |v2| > 0 {
        assert Inner(v2, v2) == 0.0;
      } else {
        assert forall k :: Get(v2, k) == 0.0;
      }
      SilentInner(v2, v1);
      InnerSymmetric(v1, v2);
    } else {
      QuotientSign(Inner(v1, v2), len1, len2);
    }
  }

  // ---------------------------------------------------------------------
  // Bit signatures
  // ---------------------------------------------------------------------

  type Bit = b: int | 0 <= b <= 1

  /** Bit i is 1 exactly when the cosine with the i-th random vector is positive. */
  ghost function Signature(v: Vector, randvecs: seq<Vector>, sqrt: real -> real): (bit: seq<Bit>)
    ensures |bit| == |randvecs|
  {
    seq(|randvecs|, i requires 0 <= i < |randvecs| => if CosineOf(v, randvecs[i], sqrt) > 0.0 then 1 else 0)
  }

  /** A bit is the sign of the inner product with its random vector. */
  lemma SignatureSign(v: Vector, randvecs: seq<Vector>, sqrt: real -> real, i: nat)
    requires RootLike(sqrt) && i < |randvecs|
    ensures Signature(v, randvecs, sqrt)[i] == 1 <==> Inner(v, randvecs[i]) > 0.0
  {
    CosineSign(v, randvecs[i], sqrt);
  }

  /** The bit loop for one record. */
  method CalcSignature(v: Vector, randvecs: seq<Vector>, sqrt: real -> real) returns (bit: seq<Bit>)
    ensures bit == Signature(v, randvecs, sqrt)
  {
    bit := [];
    for i := 0 to |randvecs|
      invariant bit == Signature(v, randvecs[..i], sqrt)
    {
      var cos := Cosine(v, randvecs[i], sqrt);
      if cos > 0.0 {
        bit := bit + [1];
      } else {
        bit := bit + [0];
      }
      assert randvecs[..i + 1] == randvecs[..i] + [randvecs[i]];
      SignatureSnoc(v, randvecs[..i], randvecs[i], sqrt);
    }
    assert randvecs[..|randvecs|] == randvecs;
  }

  /** One more random vector appends one more bit. */
  lemma SignatureSnoc(v: Vector, rs: seq<Vector>, r: Vector, sqrt: real -> real)
    ensures Signature(v, rs + [r], sqrt) == Signature(v, rs, sqrt) + [if CosineOf(v, r, sqrt) > 0.0 then 1 else 0]
  {
    var long := Signature(v, rs + [r], sqrt);
    var short := Signature(v, rs, sqrt);
    assert forall i :: 0 <= i < |rs| ==> long[i] == short[i];
  }

  /** The vector of the record stored under `key`, as read_vector gives it to a fresh map. */
  function VectorOf(db: Db, key: string, atof: string -> real): Vector
  {
    ReadRecord(db, Some(key), MaxVectorKey, map[], atof)
  }

  /** The random vectors: the vectors of the sampled keys. */
  function RandomVectors(db: Db, keys: seq<string>, atof: string -> real): (rs: seq<Vector>)
    ensures |rs| == |keys|
  {
    seq(|keys|, i requires 0 <= i < |keys| => VectorOf(db, keys[i], atof))
  }

  method ReadRandomVectors(db: Db, keys: seq<string>, atof: string -> real) returns (randvecs: seq<Vector>)
    ensures randvecs == RandomVectors(db, keys, atof)
  {
    randvecs := [];
    for i := 0 to |keys|
      invariant randvecs == RandomVectors(db, keys[..i], atof)
    {
      var v := ReadVector(db, Some(keys[i]), MaxVectorKey, map[], atof);
      randvecs := randvecs + [v];
      assert keys[..i + 1][..i] == keys[..i];
    }
    assert keys[..|keys|] == keys;
  }

  /** The signatures of every record whose vector is not empty. */
  ghost function BitsOf(db: Db, randvecs: seq<Vector>, sqrt: real -> real, atof: string -> real)
    : (bits: map<string, seq<Bit>>)
    ensures forall k :: k in bits ==> |bits[k]| == |randvecs|
  {
    map k | k in db && VectorOf(db, k, atof) != map[] :: Signature(VectorOf(db, k, atof), randvecs, sqrt)
  }

  /** The "Calculate bits" loop. */
  method CalcBits(db: Db, randvecs: seq<Vector>, sqrt: real -> real, atof: string -> real)
    returns (bits: map<string, seq<Bit>>)
    ensures bits == BitsOf(db, randvecs, sqrt, atof)
  {
    bits := map[];
    var done: set<string> := {};
    var rest := db.Keys;
    while rest != {}
      invariant rest + done == db.Keys && rest !! done
      invariant bits.Keys == set k | k in done && VectorOf(db, k, atof) != map[]
      invariant forall k :: k in bits ==> bits[k] == Signature(VectorOf(db, k, atof), randvecs, sqrt)
    {
      var key :| key in rest;
      var v := ReadVector(db, Some(key), MaxVectorKey, map[], atof);
      if v != map[] {
        var bit := CalcSignature(v, randvecs, sqrt);
        bits := bits[key := bit];
      }
      done := done + {key};
      rest := rest - {key};
    }
    assert bits.Keys == BitsOf(db, randvecs, sqrt, atof).Keys;
  }

  // ---------------------------------------------------------------------
  // select_keys_randomly: the key-collecting pass
  // ---------------------------------------------------------------------

  /** The sample size: the limit, or the number of records when there are fewer. */
  function SampleSize(limit: int, rnum: int): int
  {
    if limit > rnum then rnum else limit
  }

  /** The keys, in iteration order, whose positions were drawn. */
  function Selected(order: seq<string>, chosen: set<nat>): seq<string>
  {
    if order == [] then []
    else Selected(order[..|order| - 1], chosen) + (if |order| - 1 in chosen then [order[|order| - 1]] else [])
  }

  /** The drawn positions below `n`. */
  function Below(chosen: set<nat>, n: nat): set<nat>
  {
    set i | i in chosen && i < n
  }

  /** One key per drawn position, in iteration order. */
  lemma {:induction false} SelectedCount(order: seq<string>, chosen: set<nat>)
    ensures |Selected(order, chosen)| == |Below(chosen, |order|)|
    ensures forall k :: k in Selected(order, chosen) <==> exists i :: i in Below(chosen, |order|) && order[i] == k
    decreases |order|
  {
    if order == [] {
      assert Below(chosen, 0) == {};
    } else {
      var n := |order| - 1;
      var front := order[..n];
      SelectedCount(front, chosen);
      if n in chosen {
        assert Below(chosen, n + 1) == Below(chosen, n) + {n};
      } else {
        assert Below(chosen, n + 1) == Below(chosen, n);
      }
      forall k | k in Selected(order, chosen)
        ensures exists i :: i in Below(chosen, |order|) && order[i] == k
      {
        if k in Selected(front, chosen) {
          var i :| i in Below(chosen, n) && front[i] == k;
          assert order[i] == k;
        } else {
          assert order[n] == k;
        }
      }
      forall k | exists i :: i in Below(chosen, |order|) && order[i] == k
        ensures k in Selected(order, chosen)
      {
        var i :| i in Below(chosen, |order|) && order[i] == k;
        if i < n {
          assert front[i] == k;
        }
      }
    }
  }

  /** The iteration pass of select_keys_randomly. */
  method SelectKeys(order: seq<string>, chosen: set<nat>) returns (keys: seq<string>)
    ensures keys == Selected(order, chosen)
  {
    keys := [];
    var idx := 0;
    while idx < |order|
      invariant idx <= |order|
      invariant keys == Selected(order[..idx], chosen)
    {
      if idx in chosen {
        keys := keys + [order[idx]];
      }
      assert order[..idx + 1][..idx] == order[..idx];
      idx := idx + 1;
    }
    assert order[..|order|] == order;
  }

  /** With fewer records than NumRandomKey every record is drawn, so the sample is shorter than NumRandomKey. */
  lemma SmallSample(order: seq<string>, chosen: set<nat>)
    requires |order| < NumRandomKey
    requires |chosen| == SampleSize(NumRandomKey, |order|)
    requires forall i :: i in chosen ==> i < |order|
    ensures |Selected(order, chosen)| == |order| < NumRandomKey
  {
    SelectedCount(order, chosen);
    assert Below(chosen, |order|) == chosen;
  }

  // ---------------------------------------------------------------------
  // The bit strings of one shuffle
  // ---------------------------------------------------------------------

  /** How the stringstream writes a bit. */
  function Digit(b: Bit): char
  {
    if b == 1 then '1' else '0'
  }

  /** The digits of a signature, in order. */
  function Digits(bit: seq<Bit>): (s: string)
    ensures |s| == |bit|
  {
    seq(|bit|, j requires 0 <= j < |bit| => Digit(bit[j]))
  }

  /**
   * The string of one record as the shuffle loop writes it: bit `j` (not
   * `indexes[j]`) for each of the `|indexes|` positions; None when that
   * reads past the end of the signature.
   */
  function WrittenString(bit: seq<Bit>, indexes: seq<nat>): Option<string>
  {
    if |indexes| > |bit| then None else Some(Digits(bit[..|indexes|]))
  }

  /** As written, the shuffle has no effect: any two shuffles of one length give the same string. */
  lemma ShuffleIgnored(bit: seq<Bit>, ix1: seq<nat>, ix2: seq<nat>)
    requires |ix1| == |ix2|
    ensures WrittenString(bit, ix1) == WrittenString(bit, ix2)
  {
  }

  /** As written, a signature shorter than NumRandomKey is read past its end. */
  lemma ShortSignatureOverruns(bit: seq<Bit>)
    requires |bit| < NumRandomKey
    ensures WrittenString(bit, Range(NumRandomKey)).None?
  {
  }

  /** The string of one record with the shuffle applied: bit `indexes[j]` at position `j`. */
  function ShuffledString(bit: seq<Bit>, indexes: seq<nat>): (s: string)
    requires InRange(indexes, |bit|)
    ensures |s| == |indexes|
    ensures forall j :: 0 <= j < |indexes| ==> s[j] == Digit(bit[indexes[j]])
  {
    Digits(Gather(bit, indexes))
  }

  /** Under a permutation of the bit positions the string is a rearrangement of the signature's digits. */
  lemma ShuffledStringPermutes(bit: seq<Bit>, indexes: seq<nat>)
    requires IsPermutation(indexes, |bit|)
    ensures InRange(indexes, |bit|)
    ensures multiset(ShuffledString(bit, indexes)) == multiset(Digits(bit))
  {
    PermutedMultiset(Digits(bit), indexes);
    assert ShuffledString(bit, indexes) == Gather(Digits(bit), indexes);
  }

  /** Unlike the string as written, the shuffled one does depend on the shuffle. */
  lemma ShuffleMatters()
    ensures WrittenString([1, 0], [1, 0]) == Some("10")
    ensures ShuffledString([1, 0], [1, 0]) == "01"
  {
    var bit: seq<Bit> := [1, 0];
    assert bit[..2] == bit;
    assert Digits(bit) == "10";
    var t := ShuffledString(bit, [1, 0]);
    assert t[0] == '0' && t[1] == '1';
  }

  /** The inner stringstream loop, with the shuffle applied. */
  method BitString(bit: seq<Bit>, indexes: seq<nat>) returns (s: string)
    requires InRange(indexes, |bit|)
    ensures s == ShuffledString(bit, indexes)
  {
    s := "";
    for j := 0 to |indexes|
      invariant |s| == j
      invariant forall q :: 0 <= q < j ==> s[q] == Digit(bit[indexes[q]])
    {
      s := s + [Digit(bit[indexes[j]])];
    }
  }

  /** The inner stringstream loop as written: bit `j` for each of the `|indexes|` positions, None past the signature's end. */
  method WrittenBitString(bit: seq<Bit>, indexes: seq<nat>) returns (s: Option<string>)
    ensures s == WrittenString(bit, indexes)
  {
    var str := "";
    for j := 0 to |indexes|
      invariant j <= |bit| ==> |str| == j && forall q :: 0 <= q < j ==> str[q] == Digit(bit[q])
    {
      if j >= |bit| {
        return None;
      }
      str := str + [Digit(bit[j])];
    }
    if |indexes| > |bit| {
      return None;
    }
    assert str == Digits(bit[..|indexes|]);
    s := Some(str);
  }

  /** With a full-width signature the string as written is the unshuffled one, whatever the shuffle. */
  lemma WrittenIsIdentity(bit: seq<Bit>, ix: seq<nat>)
    requires |ix| == |bit|
    ensures InRange(Range(|bit|), |bit|)
    ensures WrittenString(bit, ix) == Some(ShuffledString(bit, Range(|bit|)))
  {
    assert bit[..|ix|] == bit;
    assert Gather(bit, Range(|bit|)) == bit;
  }

  // ---------------------------------------------------------------------
  // Sorting the (string, key) pairs
  // ---------------------------------------------------------------------

  /** One element of bits_shuffled: the record's bit string and its key. */
  datatype Entry = Entry(sig: string, key: string)

  /** std::pair's `<`: by bit string, then by key. */
  predicate EntryLess(a: Entry, b: Entry)
  {
    StrLess(a.sig, b.sig) || (!StrLess(b.sig, a.sig) && StrLess(a.key, b.key))
  }

  /** Two strings neither of which is below the other are equal. */
  lemma StrSame(x: string, y: string)
    requires !StrLess(x, y) && !StrLess(y, x)
    ensures x == y
  {
    if x != y {
      StrLessTotal(x, y);
    }
  }

  lemma EntryTransitive(a: Entry, b: Entry, c: Entry)
    requires EntryLess(a, b) && EntryLess(b, c)
    ensures EntryLess(a, c)
  {
    if StrLess(a.sig, b.sig) {
      if StrLess(b.sig, c.sig) {
        StrLessTransitive(a.sig, b.sig, c.sig);
      } else {
        StrSame(b.sig, c.sig);
      }
    } else {
      StrSame(a.sig, b.sig);
      if !StrLess(b.sig, c.sig) {
        StrSame(b.sig, c.sig);
        StrLessTransitive(a.key, b.key, c.key);
      }
    }
  }

  /** The pair order is a strict total order, as std::sort needs. */
  lemma EntryOrder()
    ensures StrictTotal(EntryLess)
  {
    forall a: Entry
      ensures !EntryLess(a, a)
    {
      StrLessIrreflexive(a.sig);
      StrLessIrreflexive(a.key);
    }
    forall a: Entry, b: Entry, c: Entry | EntryLess(a, b) && EntryLess(b, c)
      ensures EntryLess(a, c)
    {
      EntryTransitive(a, b, c);
    }
    forall a: Entry, b: Entry | a != b
      ensures EntryLess(a, b) || EntryLess(b, a)
    {
      if a.sig != b.sig {
        StrLessTotal(a.sig, b.sig);
      } else {
        StrLessIrreflexive(a.sig);
        StrLessTotal(a.key, b.key);
      }
    }
  }

  /** Every signature has `n` bits. */
  predicate Widths(bits: map<string, seq<Bit>>, n: nat)
  {
    forall k :: k in bits ==> |bits[k]| == n
  }

  /** bits_shuffled after std::sort: one pair per record, with its shuffled string, in ascending order. */
  ghost function Shuffled(bits: map<string, seq<Bit>>, indexes: seq<nat>, n: nat): (es: seq<Entry>)
    requires Widths(bits, n) && IsPermutation(indexes, n)
    ensures InRange(indexes, n)
    ensures forall e :: e in es <==> e.key in bits && e.sig == ShuffledString(bits[e.key], indexes)
    ensures StrictlySorted(es, EntryLess)
  {
    PermutationInRange(indexes, n);
    EntryOrder();
    Ordered(EntriesOf(bits, indexes, bits.Keys), EntryLess)
  }

  /** Every record with a signature appears exactly once. */
  lemma ShuffledCount(bits: map<string, seq<Bit>>, indexes: seq<nat>, n: nat)
    requires Widths(bits, n) && IsPermutation(indexes, n)
    ensures |Shuffled(bits, indexes, n)| == |bits|
  {
    PermutationInRange(indexes, n);
    EntryOrder();
    EntriesOver(bits, indexes, bits.Keys);
  }

  /** The pairs the shuffle loop builds for the records with keys in `ks`: shuffled string and key. */
  ghost function EntriesOf(bits: map<string, seq<Bit>>, indexes: seq<nat>, ks: set<string>): set<Entry>
    requires forall k :: k in bits ==> InRange(indexes, |bits[k]|)
    requires ks <= bits.Keys
  {
    set k | k in ks :: Entry(ShuffledString(bits[k], indexes), k)
  }

  /** One pair per key. */
  lemma EntriesOver(bits: map<string, seq<Bit>>, indexes: seq<nat>, ks: set<string>)
    requires forall k :: k in bits ==> InRange(indexes, |bits[k]|)
    requires ks <= bits.Keys
    ensures |EntriesOf(bits, indexes, ks)| == |ks|
    decreases ks
  {
    if ks != {} {
      var k :| k in ks;
      var rest := ks - {k};
      EntriesOver(bits, indexes, rest);
      var e := Entry(ShuffledString(bits[k], indexes), k);
      assert EntriesOf(bits, indexes, ks) == EntriesOf(bits, indexes, rest) + {e};
      assert e !in EntriesOf(bits, indexes, rest);
    } else {
      assert EntriesOf(bits, indexes, ks) == {};
    }
  }

  /** The loop that builds bits_shuffled, then std::sort. */
  method SortedEntries(bits: map<string, seq<Bit>>, indexes: seq<nat>, ghost n: nat) returns (es: seq<Entry>)
    requires Widths(bits, n) && IsPermutation(indexes, n)
    ensures es == Shuffled(bits, indexes, n)
  {
    PermutationInRange(indexes, n);
    var list: seq<Entry> := [];
    var rest := bits.Keys;
    while rest != {}
      invariant rest <= bits.Keys
      invariant forall e :: e in list <==> e in EntriesOf(bits, indexes, bits.Keys) && e.key !in rest
      invariant Distinct(list)
    {
      var key :| key in rest;
      var sig := BitString(bits[key], indexes);
      list := list + [Entry(sig, key)];
      rest := rest - {key};
    }
    EntryOrder();
    es := SortBy(list, EntryLess);
    SortBySorted(list, EntryLess);
    PermutationDistinct(list, es);
    SortedDistinctStrict(es, EntryLess);
    forall e
      ensures e in es <==> e in EntriesOf(bits, indexes, bits.Keys)
    {
      assert e in es <==> e in multiset(es);
      assert e in list <==> e in multiset(list);
    }
    SortedUnique(es, EntriesOf(bits, indexes, bits.Keys), EntryLess);
  }

  /**
   * As written, every pass sorts the pairs of the unshuffled strings: for
   * any shuffle of the NumRandomKey positions, the pairs the loop builds are
   * those of Shuffled with the identity order.
   */
  lemma WrittenEntries(bits: map<string, seq<Bit>>, ix: seq<nat>)
    requires Widths(bits, NumRandomKey) && |ix| == NumRandomKey
    ensures IsPermutation(Range(NumRandomKey), NumRandomKey)
    ensures forall e :: e in Shuffled(bits, Range(NumRandomKey), NumRandomKey) <==>
      e.key in bits && WrittenString(bits[e.key], ix) == Some(e.sig)
  {
    forall k | k in bits
      ensures WrittenString(bits[k], ix) == Some(ShuffledString(bits[k], Range(NumRandomKey)))
    {
      WrittenIsIdentity(bits[k], ix);
    }
  }

  // ---------------------------------------------------------------------
  // The neighbour window and the pair check
  // ---------------------------------------------------------------------

  /** The first neighbour position of `j`. */
  function WindowStart(j: nat): nat
  {
    if j > NumNeighbor then j - NumNeighbor else 0
  }

  /** The last neighbour position of `j` among `size` positions. */
  function WindowEnd(j: nat, size: nat): int
  {
    if j + NumNeighbor < size then j + NumNeighbor else size - 1
  }

  /** The window holds exactly the positions within NumNeighbor of `j`. */
  lemma WindowBounds(j: nat, size: nat, k: nat)
    requires j < size
    ensures WindowStart(j) <= k <= WindowEnd(j, size) <==> k < size && j <= k + NumNeighbor && k <= j + NumNeighbor
  {
  }

  /** One comparison: the record at position j, its neighbour, and whether j is the earlier position. */
  datatype Visit = Visit(here: string, there: string, before: bool)

  /** chkkey: the two keys, the earlier position first, with a tab between. */
  function PairKey(x: Visit): string
  {
    if x.before then x.here + [Tab] + x.there else x.there + [Tab] + x.here
  }

  /** The comparisons of position `j` with positions WindowStart(j) up to `upto` (exclusive), skipping `j` itself. */
  function WindowVisits(es: seq<Entry>, j: nat, upto: nat): seq<Visit>
    requires j < |es| && upto <= |es|
  {
    if upto <= WindowStart(j) then []
    else
      var k := upto - 1;
      WindowVisits(es, j, k) + (if k == j then [] else [Visit(es[j].key, es[k].key, j < k)])
  }

  /** The comparisons of positions 0 through `upto - 1`, each with its whole window. */
  function PassVisits(es: seq<Entry>, upto: nat): seq<Visit>
    requires upto <= |es|
  {
    if upto == 0 then []
    else PassVisits(es, upto - 1) + WindowVisits(es, upto - 1, WindowEnd(upto - 1, |es|) + 1)
  }

  /** A line of the output file: chkkey and the cosine. */
  datatype Line = Line(pair: string, cos: real)

  /** The pair keys seen so far (the check map) and the lines written so far. */
  datatype Seen = Seen(check: set<string>, lines: seq<Line>)

  /** One comparison: a new pair key is marked seen, and written when its cosine exceeds MinCosine. */
  function Step(st: Seen, x: Visit, cos: (string, string) -> real): Seen
  {
    var chk := PairKey(x);
    if chk in st.check then st
    else
      var c := cos(x.here, x.there);
      Seen(st.check + {chk}, if c > MinCosine then st.lines + [Line(chk, c)] else st.lines)
  }

  /** The comparisons `xs`, in order. */
  function Fold(st: Seen, xs: seq<Visit>, cos: (string, string) -> real): Seen
  {
    if xs == [] then st else Step(Fold(st, xs[..|xs| - 1], cos), xs[|xs| - 1], cos)
  }

  lemma FoldSnoc(st: Seen, xs: seq<Visit>, x: Visit, cos: (string, string) -> real)
    ensures Fold(st, xs + [x], cos) == Step(Fold(st, xs, cos), x, cos)
  {
    assert (xs + [x])[..|xs|] == xs;
  }

  /** Comparing `xs` then `ys` is comparing `xs + ys`. */
  lemma {:induction false} FoldAppend(st: Seen, xs: seq<Visit>, ys: seq<Visit>, cos: (string, string) -> real)
    ensures Fold(st, xs + ys, cos) == Fold(Fold(st, xs, cos), ys, cos)
    decreases |ys|
  {
    if ys == [] {
      assert xs + ys == xs;
    } else {
      var front := ys[..|ys| - 1];
      var y := ys[|ys| - 1];
      assert ys == front + [y];
      assert xs + ys == (xs + front) + [y];
      FoldSnoc(st, xs + front, y, cos);
      FoldSnoc(Fold(st, xs, cos), front, y, cos);
      FoldAppend(st, xs, front, cos);
    }
  }

  /** The pair keys of the comparisons `xs`. */
  function PairsOf(xs: seq<Visit>): set<string>
  {
    set x | x in xs :: PairKey(x)
  }

  /** The check map ends up holding every pair key compared. */
  lemma {:induction false} FoldChecks(st: Seen, xs: seq<Visit>, cos: (string, string) -> real)
    ensures Fold(st, xs, cos).check == st.check + PairsOf(xs)
    decreases |xs|
  {
    if xs != [] {
      var front := xs[..|xs| - 1];
      FoldChecks(st, front, cos);
      assert xs == front + [xs[|xs| - 1]];
      assert PairsOf(xs) == PairsOf(front) + {PairKey(xs[|xs| - 1])};
    }
  }

  /** What the output promises: distinct pair keys, each seen, each with a cosine above MinCosine. */
  predicate Good(st: Seen)
  {
    (forall i :: 0 <= i < |st.lines| ==> st.lines[i].pair in st.check && st.lines[i].cos > MinCosine) &&
    (forall i, j :: 0 <= i < j < |st.lines| ==> st.lines[i].pair != st.lines[j].pair)
  }

  /** Comparisons keep the output good. */
  lemma {:induction false} FoldGood(st: Seen, xs: seq<Visit>, cos: (string, string) -> real)
    requires Good(st)
    ensures Good(Fold(st, xs, cos))
    decreases |xs|
  {
    if xs != [] {
      FoldGood(st, xs[..|xs| - 1], cos);
    }
  }

  /** Lines are only ever added at the end, each for a compared pair with a cosine above MinCosine. */
  lemma {:induction false} FoldLines(st: Seen, xs: seq<Visit>, cos: (string, string) -> real)
    ensures st.lines <= Fold(st, xs, cos).lines
    ensures forall i :: |st.lines| <= i < |Fold(st, xs, cos).lines| ==>
      exists x :: x in xs && Fold(st, xs, cos).lines[i] == Line(PairKey(x), cos(x.here, x.there))
    decreases |xs|
  {
    if xs != [] {
      var front := xs[..|xs| - 1];
      var x := xs[|xs| - 1];
      FoldLines(st, front, cos);
      var mid := Fold(st, front, cos);
      var r := Fold(st, xs, cos);
      forall i | |st.lines| <= i < |r.lines|
        ensures exists y :: y in xs && r.lines[i] == Line(PairKey(y), cos(y.here, y.there))
      {
        if i < |mid.lines| {
          var y :| y in front && mid.lines[i] == Line(PairKey(y), cos(y.here, y.there));
          assert r.lines[i] == mid.lines[i];
          assert y in xs;
        } else {
          assert r.lines[i] == Line(PairKey(x), cos(x.here, x.there));
        }
      }
    }
  }

  /** Comparisons whose pair keys were all seen change nothing. */
  lemma {:induction false} FoldIdle(st: Seen, xs: seq<Visit>, cos: (string, string) -> real)
    requires PairsOf(xs) <= st.check
    ensures Fold(st, xs, cos) == st
    decreases |xs|
  {
    if xs != [] {
      var front := xs[..|xs| - 1];
      assert PairsOf(front) <= PairsOf(xs);
      FoldIdle(st, front, cos);
      assert PairKey(xs[|xs| - 1]) in PairsOf(xs);
    }
  }

  /** Repeating a pass over the same order adds nothing: its pair keys are all seen. */
  lemma RepeatedPassIdle(st: Seen, xs: seq<Visit>, cos: (string, string) -> real)
    ensures Fold(st, xs + xs, cos) == Fold(st, xs, cos)
  {
    FoldAppend(st, xs, xs, cos);
    FoldChecks(st, xs, cos);
    FoldIdle(Fold(st, xs, cos), xs, cos);
  }

  /** A tab-joined pair of tab-free strings determines both strings. */
  lemma TabJoinInjective(a: string, b: string, c: string, d: string)
    requires Tab !in a && Tab !in c && a + [Tab] + b == c + [Tab] + d
    ensures a == c && b == d
  {
    FindAfterPrefix(a, Tab, b);
    FindAfterPrefix(c, Tab, d);
    var s := a + [Tab] + b;
    assert a == s[..|a|] && c == s[..|c|];
    assert b == s[|a| + 1..] && d == s[|c| + 1..];
  }

  /** With tab-free keys and a symmetric cosine, comparisons with one pair key have one cosine. */
  lemma SamePairSameCos(x: Visit, y: Visit, cos: (string, string) -> real)
    requires Tab !in x.here && Tab !in x.there && Tab !in y.here && Tab !in y.there
    requires forall a, b :: cos(a, b) == cos(b, a)
    requires PairKey(x) == PairKey(y)
    ensures cos(x.here, x.there) == cos(y.here, y.there)
  {
    var (a, b) := if x.before then (x.here, x.there) else (x.there, x.here);
    var (c, d) := if y.before then (y.here, y.there) else (y.there, y.here);
    TabJoinInjective(a, b, c, d);
  }

  /** Keys free of tabs in every comparison. */
  predicate TabFree(xs: seq<Visit>)
  {
    forall x :: x in xs ==> Tab !in x.here && Tab !in x.there
  }

  /** Some line carries pair key `p`. */
  predicate Written(lines: seq<Line>, p: string)
  {
    exists i :: 0 <= i < |lines| && lines[i].pair == p
  }

  /** Every comparison of `xs` with a cosine above MinCosine has its pair key written. */
  predicate Complete(lines: seq<Line>, xs: seq<Visit>, cos: (string, string) -> real)
  {
    forall x :: x in xs && cos(x.here, x.there) > MinCosine ==> Written(lines, PairKey(x))
  }

  lemma WrittenPrefix(a: seq<Line>, b: seq<Line>, p: string)
    requires a <= b && Written(a, p)
    ensures Written(b, p)
  {
    var i :| 0 <= i < |a| && a[i].pair == p;
    assert b[i] == a[i];
  }

  /**
   * Starting with none of their pair keys seen, every comparison of `xs`
   * whose cosine exceeds MinCosine has its pair key written, provided keys
   * are tab-free and the cosine symmetric.
   */
  lemma {:induction false} FoldComplete(st: Seen, xs: seq<Visit>, cos: (string, string) -> real)
    requires TabFree(xs) && forall a, b :: cos(a, b) == cos(b, a)
    requires PairsOf(xs) !! st.check
    ensures Complete(Fold(st, xs, cos).lines, xs, cos)
    decreases |xs|
  {
    if xs != [] {
      var front := xs[..|xs| - 1];
      var last := xs[|xs| - 1];
      assert xs == front + [last];
      assert PairsOf(front) <= PairsOf(xs);
      FoldComplete(st, front, cos);
      FoldChecks(st, front, cos);
      assert PairKey(last) in PairsOf(xs);
      CompleteStep(st.check, Fold(st, front, cos), front, last, cos);
    }
  }

  /** One more comparison keeps the written lines complete. */
  lemma CompleteStep(check0: set<string>, mid: Seen, front: seq<Visit>, last: Visit, cos: (string, string) -> real)
    requires TabFree(front + [last]) && forall a, b :: cos(a, b) == cos(b, a)
    requires Complete(mid.lines, front, cos)
    requires mid.check == check0 + PairsOf(front) && PairKey(last) !in check0
    ensures Complete(Step(mid, last, cos).lines, front + [last], cos)
  {
    var r := Step(mid, last, cos);
    assert mid.lines <= r.lines;
    forall x | x in front + [last] && cos(x.here, x.there) > MinCosine
      ensures Written(r.lines, PairKey(x))
    {
      if x in front {
        WrittenPrefix(mid.lines, r.lines, PairKey(x));
      } else if PairKey(x) !in mid.check {
        assert r.lines[|mid.lines|].pair == PairKey(x);
      } else {
        var y :| y in front && PairKey(y) == PairKey(x);
        assert y in front + [last];
        SamePairSameCos(x, y, cos);
        WrittenPrefix(mid.lines, r.lines, PairKey(y));
      }
    }
  }

  // ---------------------------------------------------------------------
  // lsh
  // ---------------------------------------------------------------------

  /** The cosine of the vectors read for two keys. */
  ghost function PairCos(db: Db, sqrt: real -> real, atof: string -> real): (string, string) -> real
  {
    (a: string, b: string) => CosineOf(VectorOf(db, a, atof), VectorOf(db, b, atof), sqrt)
  }

  /**
   * `cos` gives the cosine of the vectors read for any two keys. The loops
   * below are proved for any such `cos`; PairCos is one.
   */
  ghost predicate RecordCosines(cos: (string, string) -> real, db: Db, sqrt: real -> real, atof: string -> real)
  {
    forall a: string, b: string {:trigger CosineOf(VectorOf(db, a, atof), VectorOf(db, b, atof), sqrt)} ::
      cos(a, b) == CosineOf(VectorOf(db, a, atof), VectorOf(db, b, atof), sqrt)
  }

  lemma PairCosRecords(db: Db, sqrt: real -> real, atof: string -> real)
    ensures RecordCosines(PairCos(db, sqrt, atof), db, sqrt, atof)
  {
  }

  /** The body of the k loop for one neighbour: check the pair key, compare, write. */
  method Compare(db: Db, key: string, keyNeigh: string, before: bool, v: Vector,
                 check0: set<string>, lines0: seq<Line>, sqrt: real -> real, atof: string -> real,
                 ghost cos: (string, string) -> real)
    returns (check: set<string>, lines: seq<Line>)
    requires v == VectorOf(db, key, atof) && RecordCosines(cos, db, sqrt, atof)
    ensures Seen(check, lines) == Step(Seen(check0, lines0), Visit(key, keyNeigh, before), cos)
  {
    check, lines := check0, lines0;
    var chkkey := if before then key + [Tab] + keyNeigh else keyNeigh + [Tab] + key;
    if chkkey !in check {
      check := check + {chkkey};
      var vNeigh := ReadVector(db, Some(keyNeigh), MaxVectorKey, map[], atof);
      var c := Cosine(v, vNeigh, sqrt);
      assert vNeigh == VectorOf(db, keyNeigh, atof);
      assert c == cos(key, keyNeigh);
      if c > MinCosine {
        lines := lines + [Line(chkkey, c)];
      }
    }
  }

  /** One turn of the k loop: position `k` of the window of `j`, after the earlier ones. */
  method VisitNeighbour(db: Db, es: seq<Entry>, j: nat, k: nat, v: Vector, check0: set<string>, lines0: seq<Line>,
                        sqrt: real -> real, atof: string -> real, ghost cos: (string, string) -> real, ghost st0: Seen)
    returns (check: set<string>, lines: seq<Line>)
    requires j < |es| && WindowStart(j) <= k < |es|
    requires v == VectorOf(db, es[j].key, atof) && RecordCosines(cos, db, sqrt, atof)
    requires Seen(check0, lines0) == Fold(st0, WindowVisits(es, j, k), cos)
    ensures Seen(check, lines) == Fold(st0, WindowVisits(es, j, k + 1), cos)
  {
    ghost var visited := WindowVisits(es, j, k);
    if j != k {
      var key, keyNeigh := es[j].key, es[k].key;
      ghost var x := Visit(key, keyNeigh, j < k);
      check, lines := Compare(db, key, keyNeigh, j < k, v, check0, lines0, sqrt, atof, cos);
      assert WindowVisits(es, j, k + 1) == visited + [x];
      FoldSnoc(st0, visited, x, cos);
    } else {
      check, lines := check0, lines0;
      assert WindowVisits(es, j, k + 1) == visited;
    }
  }

  /** The k loop for position `j`, whose record's vector is `v`. */
  method VisitWindow(db: Db, es: seq<Entry>, j: nat, v: Vector, check0: set<string>, lines0: seq<Line>,
                     sqrt: real -> real, atof: string -> real, ghost cos: (string, string) -> real)
    returns (check: set<string>, lines: seq<Line>)
    requires j < |es| && v == VectorOf(db, es[j].key, atof) && RecordCosines(cos, db, sqrt, atof)
    ensures Seen(check, lines) == Fold(Seen(check0, lines0), WindowVisits(es, j, WindowEnd(j, |es|) + 1), cos)
  {
    ghost var st0 := Seen(check0, lines0);
    var size := |es|;
    var start := WindowStart(j);
    var end := WindowEnd(j, size);
    check, lines := check0, lines0;
    assert WindowVisits(es, j, start) == [];
    var k: nat := start;
    while k <= end
      invariant start <= k <= end + 1
      invariant Seen(check, lines) == Fold(st0, WindowVisits(es, j, k), cos)
    {
      check, lines := VisitNeighbour(db, es, j, k, v, check, lines, sqrt, atof, cos, st0);
      k := k + 1;
    }
  }

  /** One turn of the j loop: read the vector of position `j`, then its window. */
  method VisitPosition(db: Db, es: seq<Entry>, j: nat, check0: set<string>, lines0: seq<Line>,
                       sqrt: real -> real, atof: string -> real, ghost cos: (string, string) -> real, ghost st0: Seen)
    returns (check: set<string>, lines: seq<Line>)
    requires j < |es| && RecordCosines(cos, db, sqrt, atof)
    requires Seen(check0, lines0) == Fold(st0, PassVisits(es, j), cos)
    ensures Seen(check, lines) == Fold(st0, PassVisits(es, j + 1), cos)
  {
    var v := ReadVector(db, Some(es[j].key), MaxVectorKey, map[], atof);
    ghost var window := WindowVisits(es, j, WindowEnd(j, |es|) + 1);
    check, lines := VisitWindow(db, es, j, v, check0, lines0, sqrt, atof, cos);
    FoldAppend(st0, PassVisits(es, j), window, cos);
    assert PassVisits(es, j + 1) == PassVisits(es, j) + window;
  }

  /** The j loop of one shuffle. */
  method VisitPass(db: Db, es: seq<Entry>, check0: set<string>, lines0: seq<Line>,
                   sqrt: real -> real, atof: string -> real, ghost cos: (string, string) -> real)
    returns (check: set<string>, lines: seq<Line>)
    requires RecordCosines(cos, db, sqrt, atof)
    ensures Seen(check, lines) == Fold(Seen(check0, lines0), PassVisits(es, |es|), cos)
  {
    ghost var st0 := Seen(check0, lines0);
    check, lines := check0, lines0;
    var j: nat := 0;
    while j < |es|
      invariant j <= |es|
      invariant Seen(check, lines) == Fold(st0, PassVisits(es, j), cos)
    {
      check, lines := VisitPosition(db, es, j, check, lines, sqrt, atof, cos, st0);
      j := j + 1;
    }
  }

  /** Every shuffle is a permutation of the `n` bit positions. */
  predicate Shuffles(shuffles: seq<seq<nat>>, n: nat)
  {
    forall s :: 0 <= s < |shuffles| ==> IsPermutation(shuffles[s], n)
  }

  /** The comparisons of the first `m` shuffles, in order. */
  ghost function AllVisits(bits: map<string, seq<Bit>>, shuffles: seq<seq<nat>>, n: nat, m: nat): seq<Visit>
    requires Widths(bits, n) && Shuffles(shuffles, n) && m <= |shuffles|
  {
    if m == 0 then [] else AllVisits(bits, shuffles, n, m - 1) + PassOf(bits, shuffles, n, m - 1)
  }

  /** The comparisons of shuffle `s`. */
  ghost function PassOf(bits: map<string, seq<Bit>>, shuffles: seq<seq<nat>>, n: nat, s: nat): seq<Visit>
    requires Widths(bits, n) && Shuffles(shuffles, n) && s < |shuffles|
  {
    var es := Shuffled(bits, shuffles[s], n);
    PassVisits(es, |es|)
  }

  /** The lines lsh writes, for the sampled keys and the given shuffles. */
  ghost function LshLines(db: Db, keys: seq<string>, shuffles: seq<seq<nat>>,
                          sqrt: real -> real, atof: string -> real): seq<Line>
    requires Shuffles(shuffles, |keys|)
  {
    var bits := BitsOf(db, RandomVectors(db, keys, atof), sqrt, atof);
    Fold(Seen({}, []), AllVisits(bits, shuffles, |keys|, |shuffles|), PairCos(db, sqrt, atof)).lines
  }

  /** The shuffle loop: one check map across all shuffles. */
  method Passes(db: Db, bits: map<string, seq<Bit>>, shuffles: seq<seq<nat>>, ghost n: nat,
                sqrt: real -> real, atof: string -> real, ghost cos: (string, string) -> real)
    returns (lines: seq<Line>)
    requires Widths(bits, n) && Shuffles(shuffles, n) && |shuffles| == NumShuffle
    requires RecordCosines(cos, db, sqrt, atof)
    ensures lines == Fold(Seen({}, []), AllVisits(bits, shuffles, n, |shuffles|), cos).lines
  {
    var check: set<string> := {};
    lines := [];
    assert AllVisits(bits, shuffles, n, 0) == [];
    var i: nat := 0;
    while i < NumShuffle
      invariant i <= NumShuffle
      invariant Seen(check, lines) == Fold(Seen({}, []), AllVisits(bits, shuffles, n, i), cos)
    {
      check, lines := VisitShuffle(db, bits, shuffles, n, i, check, lines, sqrt, atof, cos);
      i := i + 1;
    }
  }

  /** One turn of the shuffle loop: sort by shuffle `i`, then compare the neighbours. */
  method VisitShuffle(db: Db, bits: map<string, seq<Bit>>, shuffles: seq<seq<nat>>, ghost n: nat, i: nat,
                      check0: set<string>, lines0: seq<Line>,
                      sqrt: real -> real, atof: string -> real, ghost cos: (string, string) -> real)
    returns (check: set<string>, lines: seq<Line>)
    requires Widths(bits, n) && Shuffles(shuffles, n) && i < |shuffles|
    requires RecordCosines(cos, db, sqrt, atof)
    requires Seen(check0, lines0) == Fold(Seen({}, []), AllVisits(bits, shuffles, n, i), cos)
    ensures Seen(check, lines) == Fold(Seen({}, []), AllVisits(bits, shuffles, n, i + 1), cos)
  {
    var es := SortedEntries(bits, shuffles[i], n);
    ghost var pass := PassVisits(es, |es|);
    assert pass == PassOf(bits, shuffles, n, i);
    check, lines := VisitPass(db, es, check0, lines0, sqrt, atof, cos);
    FoldAppend(Seen({}, []), AllVisits(bits, shuffles, n, i), pass, cos);
    assert AllVisits(bits, shuffles, n, i + 1) == AllVisits(bits, shuffles, n, i) + pass;
  }

  /** lsh after the sample is drawn: the random vectors, the bits, then the shuffle loop. */
  method Lsh(db: Db, keys: seq<string>, shuffles: seq<seq<nat>>, sqrt: real -> real, atof: string -> real)
    returns (lines: seq<Line>)
    requires |shuffles| == NumShuffle && Shuffles(shuffles, |keys|)
    ensures lines == LshLines(db, keys, shuffles, sqrt, atof)
  {
    var randvecs := ReadRandomVectors(db, keys, atof);
    var bits := CalcBits(db, randvecs, sqrt, atof);
    PairCosRecords(db, sqrt, atof);
    lines := Passes(db, bits, shuffles, |keys|, sqrt, atof, PairCos(db, sqrt, atof));
  }

  /** NumShuffle copies of the identity order: the order every pass of the program as written sorts by. */
  function Unshuffled(n: nat): (r: seq<seq<nat>>)
    ensures |r| == NumShuffle && Shuffles(r, n)
    ensures forall s :: 0 <= s < |r| ==> r[s] == Range(n)
  {
    seq(NumShuffle, _ => Range(n))
  }

  /**
   * lsh as written. The drawn shuffles have no effect on the strings
   * (WrittenEntries), so every pass sorts by the unshuffled strings. When
   * some record has bits and fewer than NumRandomKey keys were sampled, the
   * string loop reads past the end of that record's signature
   * (ShortSignatureOverruns), reported as None; with no record holding bits
   * the string loop is never entered and the output is empty.
   */
  method LshAsWritten(db: Db, keys: seq<string>, shuffles: seq<seq<nat>>, sqrt: real -> real, atof: string -> real)
    returns (lines: Option<seq<Line>>)
    requires |keys| <= NumRandomKey && |shuffles| == NumShuffle
    ensures lines.None? <==> |keys| < NumRandomKey && BitsOf(db, RandomVectors(db, keys, atof), sqrt, atof) != map[]
    ensures BitsOf(db, RandomVectors(db, keys, atof), sqrt, atof) == map[] ==> lines == Some([])
    ensures lines.Some? ==> lines.value == LshLines(db, keys, Unshuffled(|keys|), sqrt, atof)
    ensures lines.Some? ==> lines.value == LshLines(db, keys, [Range(|keys|)], sqrt, atof)
  {
    var randvecs := ReadRandomVectors(db, keys, atof);
    var bits := CalcBits(db, randvecs, sqrt, atof);
    if |keys| < NumRandomKey && bits != map[] {
      return None;
    }
    PairCosRecords(db, sqrt, atof);
    var written := Passes(db, bits, Unshuffled(|keys|), |keys|, sqrt, atof, PairCos(db, sqrt, atof));
    WrittenOnePass(db, keys, sqrt, atof);
    if bits == map[] {
      NoBitsNoLines(db, keys, Unshuffled(|keys|), sqrt, atof);
    }
    lines := Some(written);
  }

  /** With no record holding bits, no pass compares anything and lsh writes no line. */
  lemma NoBitsNoLines(db: Db, keys: seq<string>, shuffles: seq<seq<nat>>, sqrt: real -> real, atof: string -> real)
    requires Shuffles(shuffles, |keys|)
    requires BitsOf(db, RandomVectors(db, keys, atof), sqrt, atof) == map[]
    ensures LshLines(db, keys, shuffles, sqrt, atof) == []
  {
    NoBitsNoVisits(BitsOf(db, RandomVectors(db, keys, atof), sqrt, atof), shuffles, |keys|, |shuffles|);
  }

  lemma {:induction false} NoBitsNoVisits(bits: map<string, seq<Bit>>, shuffles: seq<seq<nat>>, n: nat, m: nat)
    requires bits == map[] && Shuffles(shuffles, n) && m <= |shuffles|
    ensures AllVisits(bits, shuffles, n, m) == []
    decreases m
  {
    if m > 0 {
      NoBitsNoVisits(bits, shuffles, n, m - 1);
      ShuffledCount(bits, shuffles[m - 1], n);
    }
  }

  /** `m` copies of the comparisons `xs`, one after another. */
  function Repeat(xs: seq<Visit>, m: nat): seq<Visit>
  {
    if m == 0 then [] else Repeat(xs, m - 1) + xs
  }

  /** Comparing the same sequence again and again writes what comparing it once writes. */
  lemma {:induction false} FoldRepeat(st: Seen, xs: seq<Visit>, m: nat, cos: (string, string) -> real)
    requires m >= 1
    ensures Fold(st, Repeat(xs, m), cos) == Fold(st, xs, cos)
    decreases m
  {
    if m == 1 {
      assert Repeat(xs, 1) == [] + xs == xs;
    } else {
      var st1 := Fold(st, xs, cos);
      assert Repeat(xs, m) == Repeat(xs, m - 1) + xs;
      FoldRepeat(st, xs, m - 1, cos);
      FoldAppend(st, Repeat(xs, m - 1), xs, cos);
      FoldChecks(st, xs, cos);
      FoldIdle(st1, xs, cos);
    }
  }

  /** As written, the shuffle loop compares the pairs of one pass over the unshuffled order, again and again. */
  lemma {:induction false} UnshuffledVisits(bits: map<string, seq<Bit>>, n: nat, m: nat)
    requires Widths(bits, n) && m <= NumShuffle
    ensures AllVisits(bits, Unshuffled(n), n, m) == Repeat(PassOf(bits, Unshuffled(n), n, 0), m)
    decreases m
  {
    if m > 0 {
      UnshuffledVisits(bits, n, m - 1);
      assert Unshuffled(n)[m - 1] == Unshuffled(n)[0];
    }
  }

  /** The first `m` passes of the shuffle loop as written compare what one pass over the unshuffled order compares. */
  lemma OnePassOver(bits: map<string, seq<Bit>>, n: nat, m: nat, cos: (string, string) -> real)
    requires Widths(bits, n) && 1 <= m <= NumShuffle
    ensures Shuffles([Range(n)], n)
    ensures Fold(Seen({}, []), AllVisits(bits, Unshuffled(n), n, m), cos) ==
            Fold(Seen({}, []), AllVisits(bits, [Range(n)], n, 1), cos)
  {
    var once: seq<seq<nat>> := [Range(n)];
    assert Shuffles(once, n);
    var st0 := Seen({}, []);
    var pass := PassOf(bits, Unshuffled(n), n, 0);
    var all := AllVisits(bits, Unshuffled(n), n, m);
    var first := AllVisits(bits, once, n, 1);
    UnshuffledVisits(bits, n, m);
    assert all == Repeat(pass, m);
    FoldRepeat(st0, pass, m, cos);
    assert Fold(st0, all, cos) == Fold(st0, pass, cos);
    SamePass(bits, once, Unshuffled(n), n);
    assert first == AllVisits(bits, once, n, 0) + PassOf(bits, once, n, 0);
    assert first == pass;
  }

  /** Two shuffle lists that start with the same shuffle have the same first pass. */
  lemma SamePass(bits: map<string, seq<Bit>>, ss1: seq<seq<nat>>, ss2: seq<seq<nat>>, n: nat)
    requires Widths(bits, n) && Shuffles(ss1, n) && Shuffles(ss2, n) && |ss1| > 0 && |ss2| > 0
    requires ss1[0] == ss2[0]
    ensures PassOf(bits, ss1, n, 0) == PassOf(bits, ss2, n, 0)
  {
  }

  /**
   * As written, the passes after the first write nothing: the program's
   * output is that of one pass over the unshuffled order.
   */
  lemma WrittenOnePass(db: Db, keys: seq<string>, sqrt: real -> real, atof: string -> real)
    ensures Shuffles([Range(|keys|)], |keys|)
    ensures LshLines(db, keys, Unshuffled(|keys|), sqrt, atof) == LshLines(db, keys, [Range(|keys|)], sqrt, atof)
  {
    OnePassOver(BitsOf(db, RandomVectors(db, keys, atof), sqrt, atof), |keys|, |Unshuffled(|keys|)|, PairCos(db, sqrt, atof));
  }

  // ---------------------------------------------------------------------
  // What the lsh output promises
  // ---------------------------------------------------------------------

  /** The comparisons of a window pair `es[j]` with every other position inside it, and nothing else. */
  lemma {:induction false} WindowMembers(es: seq<Entry>, j: nat, upto: nat, x: Visit)
    requires j < |es| && upto <= |es|
    ensures x in WindowVisits(es, j, upto) <==>
      exists k :: WindowStart(j) <= k < upto && k != j && x == Visit(es[j].key, es[k].key, j < k)
    decreases upto
  {
    if upto > WindowStart(j) {
      WindowMembers(es, j, upto - 1, x);
      var k := upto - 1;
      var last := if k == j then [] else [Visit(es[j].key, es[k].key, j < k)];
      assert WindowVisits(es, j, upto) == WindowVisits(es, j, k) + last;
      if x in last {
        assert WindowStart(j) <= k < upto && k != j && x == Visit(es[j].key, es[k].key, j < k);
      }
    }
  }

  /** The comparisons of a pass are those of the windows of its positions. */
  lemma {:induction false} PassMembers(es: seq<Entry>, upto: nat, x: Visit)
    requires upto <= |es|
    ensures x in PassVisits(es, upto) <==>
      exists j :: 0 <= j < upto && x in WindowVisits(es, j, WindowEnd(j, |es|) + 1)
    decreases upto
  {
    if upto > 0 {
      PassMembers(es, upto - 1, x);
    }
  }

  /** The comparisons of all the shuffles are those of their passes. */
  lemma {:induction false} AllMembers(bits: map<string, seq<Bit>>, shuffles: seq<seq<nat>>, n: nat, m: nat, x: Visit)
    requires Widths(bits, n) && Shuffles(shuffles, n) && m <= |shuffles|
    ensures x in AllVisits(bits, shuffles, n, m) <==> exists s :: 0 <= s < m && x in PassOf(bits, shuffles, n, s)
    decreases m
  {
    if m > 0 {
      AllMembers(bits, shuffles, n, m - 1, x);
      var pass := PassOf(bits, shuffles, n, m - 1);
      assert AllVisits(bits, shuffles, n, m) == AllVisits(bits, shuffles, n, m - 1) + pass;
      if x in AllVisits(bits, shuffles, n, m) {
        if x in pass {
          assert 0 <= m - 1 < m && x in PassOf(bits, shuffles, n, m - 1);
        } else {
          var s :| 0 <= s < m - 1 && x in PassOf(bits, shuffles, n, s);
          assert 0 <= s < m && x in PassOf(bits, shuffles, n, s);
        }
      } else {
        forall s | 0 <= s < m
          ensures x !in PassOf(bits, shuffles, n, s)
        {
          if s == m - 1 {
            assert x !in pass;
          }
        }
      }
    }
  }

  /** No two positions hold the same record. */
  predicate DistinctKeys(es: seq<Entry>)
  {
    forall i, k :: 0 <= i < k < |es| ==> es[i].key != es[k].key
  }

  /** Two positions of bits_shuffled hold two different records. */
  lemma ShuffledKeysDistinct(bits: map<string, seq<Bit>>, indexes: seq<nat>, n: nat)
    requires Widths(bits, n) && IsPermutation(indexes, n)
    ensures DistinctKeys(Shuffled(bits, indexes, n))
  {
    var es := Shuffled(bits, indexes, n);
    forall i, k | 0 <= i < k < |es|
      ensures es[i].key != es[k].key
    {
      assert es[i] in es && es[k] in es;
      assert EntryLess(es[i], es[k]);
      if es[i].key == es[k].key {
        StrLessIrreflexive(es[i].sig);
        StrLessIrreflexive(es[i].key);
      }
    }
  }

  /** A comparison of a pass pairs two different positions of it. */
  lemma PassVisitKeys(es: seq<Entry>, x: Visit)
    requires DistinctKeys(es) && x in PassVisits(es, |es|)
    ensures x.here != x.there
    ensures exists i :: 0 <= i < |es| && es[i].key == x.here
    ensures exists i :: 0 <= i < |es| && es[i].key == x.there
  {
    PassMembers(es, |es|, x);
    var j :| 0 <= j < |es| && x in WindowVisits(es, j, WindowEnd(j, |es|) + 1);
    WindowVisitKeys(es, j, x);
  }

  /** A comparison of the window of `j` pairs position `j` with another position. */
  lemma WindowVisitKeys(es: seq<Entry>, j: nat, x: Visit)
    requires DistinctKeys(es) && j < |es| && x in WindowVisits(es, j, WindowEnd(j, |es|) + 1)
    ensures x.here != x.there
    ensures exists i :: 0 <= i < |es| && es[i].key == x.here
    ensures exists i :: 0 <= i < |es| && es[i].key == x.there
  {
    WindowMembers(es, j, WindowEnd(j, |es|) + 1, x);
    var k :| WindowStart(j) <= k < WindowEnd(j, |es|) + 1 && k != j && x == Visit(es[j].key, es[k].key, j < k);
    assert x.here == es[j].key && x.there == es[k].key;
    if j < k {
      assert es[j].key != es[k].key;
    } else {
      assert es[k].key != es[j].key;
    }
  }

  /** Every comparison pairs two different records that have a signature. */
  lemma VisitKeys(bits: map<string, seq<Bit>>, shuffles: seq<seq<nat>>, n: nat, x: Visit)
    requires Widths(bits, n) && Shuffles(shuffles, n)
    requires x in AllVisits(bits, shuffles, n, |shuffles|)
    ensures x.here in bits && x.there in bits && x.here != x.there
  {
    AllMembers(bits, shuffles, n, |shuffles|, x);
    var s :| 0 <= s < |shuffles| && x in PassOf(bits, shuffles, n, s);
    var es := Shuffled(bits, shuffles[s], n);
    ShuffledKeysDistinct(bits, shuffles[s], n);
    PassVisitKeys(es, x);
    var i :| 0 <= i < |es| && es[i].key == x.here;
    var k :| 0 <= k < |es| && es[k].key == x.there;
    assert es[i] in es && es[k] in es;
  }

  /** Two positions within NumNeighbor of each other are compared in the pass. */
  lemma PassHas(es: seq<Entry>, j: nat, k: nat)
    requires j < |es| && k < |es| && j != k && j <= k + NumNeighbor && k <= j + NumNeighbor
    ensures Visit(es[j].key, es[k].key, j < k) in PassVisits(es, |es|)
  {
    var x := Visit(es[j].key, es[k].key, j < k);
    WindowBounds(j, |es|, k);
    WindowMembers(es, j, WindowEnd(j, |es|) + 1, x);
    PassMembers(es, |es|, x);
  }

  /** Two records within NumNeighbor positions of each other in some shuffle are compared. */
  lemma NeighboursVisited(bits: map<string, seq<Bit>>, shuffles: seq<seq<nat>>, n: nat, s: nat, j: nat, k: nat)
    requires Widths(bits, n) && Shuffles(shuffles, n) && s < |shuffles|
    requires j < |Shuffled(bits, shuffles[s], n)| && k < |Shuffled(bits, shuffles[s], n)| && j != k
    requires j <= k + NumNeighbor && k <= j + NumNeighbor
    ensures var es := Shuffled(bits, shuffles[s], n);
      Visit(es[j].key, es[k].key, j < k) in AllVisits(bits, shuffles, n, |shuffles|)
  {
    var es := Shuffled(bits, shuffles[s], n);
    var x := Visit(es[j].key, es[k].key, j < k);
    PassHas(es, j, k);
    assert x in PassOf(bits, shuffles, n, s);
    AllMembers(bits, shuffles, n, |shuffles|, x);
  }

  /** The cosine of two records does not depend on their order. */
  lemma PairCosSymmetric(db: Db, sqrt: real -> real, atof: string -> real)
    ensures forall a, b :: PairCos(db, sqrt, atof)(a, b) == PairCos(db, sqrt, atof)(b, a)
  {
    forall a, b
      ensures PairCos(db, sqrt, atof)(a, b) == PairCos(db, sqrt, atof)(b, a)
    {
      CosineSymmetric(VectorOf(db, a, atof), VectorOf(db, b, atof), sqrt);
    }
  }

  /** No pair key is written twice, and every written cosine exceeds MinCosine. */
  lemma LshGood(db: Db, keys: seq<string>, shuffles: seq<seq<nat>>, sqrt: real -> real, atof: string -> real)
    requires Shuffles(shuffles, |keys|)
    ensures var lines := LshLines(db, keys, shuffles, sqrt, atof);
      (forall i :: 0 <= i < |lines| ==> lines[i].cos > MinCosine) &&
      (forall i, j :: 0 <= i < j < |lines| ==> lines[i].pair != lines[j].pair)
  {
    var bits := BitsOf(db, RandomVectors(db, keys, atof), sqrt, atof);
    FoldGood(Seen({}, []), AllVisits(bits, shuffles, |keys|, |shuffles|), PairCos(db, sqrt, atof));
  }

  /**
   * Every line names two different records of the database, the earlier
   * position first and a tab between, with their cosine.
   */
  lemma LshSound(db: Db, keys: seq<string>, shuffles: seq<seq<nat>>, sqrt: real -> real, atof: string -> real, i: nat)
    requires Shuffles(shuffles, |keys|)
    requires i < |LshLines(db, keys, shuffles, sqrt, atof)|
    ensures var line := LshLines(db, keys, shuffles, sqrt, atof)[i];
      exists a, b :: a in db && b in db && a != b && line == Line(a + [Tab] + b, CosineOf(VectorOf(db, a, atof), VectorOf(db, b, atof), sqrt))
  {
    var bits := BitsOf(db, RandomVectors(db, keys, atof), sqrt, atof);
    var cos := PairCos(db, sqrt, atof);
    var xs := AllVisits(bits, shuffles, |keys|, |shuffles|);
    FoldLines(Seen({}, []), xs, cos);
    var x :| x in xs && LshLines(db, keys, shuffles, sqrt, atof)[i] == Line(PairKey(x), cos(x.here, x.there));
    VisitKeys(bits, shuffles, |keys|, x);
    PairCosSymmetric(db, sqrt, atof);
    if x.before {
      assert cos(x.here, x.there) == CosineOf(VectorOf(db, x.here, atof), VectorOf(db, x.there, atof), sqrt);
    } else {
      assert cos(x.here, x.there) == CosineOf(VectorOf(db, x.there, atof), VectorOf(db, x.here, atof), sqrt);
    }
  }

  /**
   * With tab-free keys, any two records that come within NumNeighbor
   * positions of each other in some shuffle and whose cosine exceeds
   * MinCosine are written.
   */
  lemma LshComplete(db: Db, keys: seq<string>, shuffles: seq<seq<nat>>, sqrt: real -> real, atof: string -> real,
                    s: nat, j: nat, k: nat)
    requires Shuffles(shuffles, |keys|) && s < |shuffles|
    requires forall key :: key in db ==> Tab !in key
    requires var es := Shuffled(BitsOf(db, RandomVectors(db, keys, atof), sqrt, atof), shuffles[s], |keys|);
      j < k < |es| && k <= j + NumNeighbor &&
      CosineOf(VectorOf(db, es[j].key, atof), VectorOf(db, es[k].key, atof), sqrt) > MinCosine
    ensures var es := Shuffled(BitsOf(db, RandomVectors(db, keys, atof), sqrt, atof), shuffles[s], |keys|);
      Written(LshLines(db, keys, shuffles, sqrt, atof), es[j].key + [Tab] + es[k].key)
  {
    var bits := BitsOf(db, RandomVectors(db, keys, atof), sqrt, atof);
    var cos := PairCos(db, sqrt, atof);
    var xs := AllVisits(bits, shuffles, |keys|, |shuffles|);
    var es := Shuffled(bits, shuffles[s], |keys|);
    forall x | x in xs
      ensures Tab !in x.here && Tab !in x.there
    {
      VisitKeys(bits, shuffles, |keys|, x);
    }
    PairCosSymmetric(db, sqrt, atof);
    FoldComplete(Seen({}, []), xs, cos);
    NeighboursVisited(bits, shuffles, |keys|, s, j, k);
    assert Visit(es[j].key, es[k].key, true) in xs;
  }
}

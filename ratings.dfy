/**
 * The rating files of the two matrix factorisation tools: each line is
 * "user<TAB>item<TAB>rate". The readers first find the largest user and
 * item ids to size the matrix, and the MovieLens tool counts how many test
 * ratings the rounded prediction hits exactly or misses by one.
 */
module Ratings {
  import opened Wrappers
  import opened Strings

  /** size_t arithmetic wraps modulo 2^64. */
  const SizeMod: nat := 0x1_0000_0000_0000_0000

  /** The conversion of atoi's int to size_t. */
  function AsSize(x: int): (r: nat)
    ensures r < SizeMod
    ensures 0 <= x < SizeMod ==> r == x
  {
    x % SizeMod
  }

  /** The fields of a line: split on the tab, empty fields kept. */
  function FieldsOf(line: string): seq<string>
  {
    Pieces(line, [Tab])
  }

  /** The fields of every line. */
  function Rows(lines: seq<string>): (rows: seq<seq<string>>)
    ensures |rows| == |lines|
  {
    seq(|lines|, n requires 0 <= n < |lines| => FieldsOf(lines[n]))
  }

  /** The line names a user and an item: splited[1] exists. */
  predicate HasIds(fields: seq<string>)
  {
    |fields| >= 2
  }

  function UserOf(fields: seq<string>, atoi: string -> int): nat
    requires HasIds(fields)
  {
    AsSize(atoi(fields[0]))
  }

  function ItemOf(fields: seq<string>, atoi: string -> int): nat
    requires HasIds(fields)
  {
    AsSize(atoi(fields[1]))
  }

  /** max_userid and max_itemid. */
  datatype Maxima = Maxima(user: nat, item: nat)

  /** The maxima after the first `upto` rows; None when one of them has no second field. */
  function MaximaOf(rows: seq<seq<string>>, atoi: string -> int, upto: nat): Option<Maxima>
    requires upto <= |rows|
  {
    if upto == 0 then Some(Maxima(0, 0))
    else
      match MaximaOf(rows, atoi, upto - 1)
      case None => None
      case Some(m) =>
        var fields := rows[upto - 1];
        if !HasIds(fields) then None
        else
          var u := UserOf(fields, atoi);
          var i := ItemOf(fields, atoi);
          Some(Maxima(if m.user < u then u else m.user, if m.item < i then i else m.item))
  }

  /** The matrix size of read_file: one more than each maximum, in size_t. */
  datatype Dims = Dims(rows: nat, cols: nat)

  /** The size computed from the fields of the lines. */
  function DimsOf(rows: seq<seq<string>>, atoi: string -> int): Option<Dims>
  {
    match MaximaOf(rows, atoi, |rows|)
    case None => None
    case Some(m) => Some(Dims((m.user + 1) % SizeMod, (m.item + 1) % SizeMod))
  }

  /** The first pass of read_file (both tools). */
  method ReadDims(lines: seq<string>, atoi: string -> int) returns (dims: Option<Dims>)
    ensures dims == DimsOf(Rows(lines), atoi)
  {
    ghost var rows := Rows(lines);
    var maxUserid: nat := 0;
    var maxItemid: nat := 0;
    for n := 0 to |lines|
      invariant MaximaOf(rows, atoi, n) == Some(Maxima(maxUserid, maxItemid))
    {
      assert rows[n] == FieldsOf(lines[n]);
      var ok;
      ok, maxUserid, maxItemid := ReadLineIds(lines[n], atoi, rows, n, maxUserid, maxItemid);
      if !ok {
        MaximaFails(rows, atoi, n + 1);
        return None;
      }
    }
    dims := Some(Dims((maxUserid + 1) % SizeMod, (maxItemid + 1) % SizeMod));
  }

  /** One line of the first pass: split it, read both ids and raise the maxima; false when splited[1] is missing. */
  method ReadLineIds(line: string, atoi: string -> int, ghost rows: seq<seq<string>>, ghost n: nat,
                     maxUser0: nat, maxItem0: nat) returns (ok: bool, maxUserid: nat, maxItemid: nat)
    requires n < |rows| && rows[n] == FieldsOf(line)
    requires MaximaOf(rows, atoi, n) == Some(Maxima(maxUser0, maxItem0))
    ensures ok <==> MaximaOf(rows, atoi, n + 1).Some?
    ensures ok ==> MaximaOf(rows, atoi, n + 1) == Some(Maxima(maxUserid, maxItemid))
  {
    var splited, cnt := Split(line, [Tab], []);
    maxUserid, maxItemid := maxUser0, maxItem0;
    if |splited| < 2 {
      return false, maxUserid, maxItemid;
    }
    var userid := AsSize(atoi(splited[0]));
    var itemid := AsSize(atoi(splited[1]));
    if maxUserid < userid {
      maxUserid := userid;
    }
    if maxItemid < itemid {
      maxItemid := itemid;
    }
    ok := true;
  }

  /** Once a line without a second field is met, the whole read fails. */
  lemma {:induction false} MaximaFails(rows: seq<seq<string>>, atoi: string -> int, n: nat)
    requires n <= |rows| && MaximaOf(rows, atoi, n).None?
    ensures MaximaOf(rows, atoi, |rows|).None?
    decreases |rows| - n
  {
    if n < |rows| {
      MaximaFails(rows, atoi, n + 1);
    }
  }

  /**
   * The read succeeds exactly when every line has a second field; then the
   * maxima bound every id and each is 0 or an id of some line.
   */
  lemma {:induction false} MaximaMeaning(rows: seq<seq<string>>, atoi: string -> int, upto: nat)
    requires upto <= |rows|
    ensures MaximaOf(rows, atoi, upto).Some? <==> forall n :: 0 <= n < upto ==> HasIds(rows[n])
    ensures MaximaOf(rows, atoi, upto).Some? ==>
      var m := MaximaOf(rows, atoi, upto).value;
      && (forall n :: 0 <= n < upto ==> UserOf(rows[n], atoi) <= m.user && ItemOf(rows[n], atoi) <= m.item)
      && (m.user == 0 || exists n :: 0 <= n < upto && UserOf(rows[n], atoi) == m.user)
      && (m.item == 0 || exists n :: 0 <= n < upto && ItemOf(rows[n], atoi) == m.item)
    decreases upto
  {
    if upto > 0 {
      MaximaMeaning(rows, atoi, upto - 1);
    }
  }

  /** Every id indexes the matrix, unless the largest id is the largest size_t and the size wraps to 0. */
  lemma DimsCover(rows: seq<seq<string>>, atoi: string -> int)
    requires DimsOf(rows, atoi).Some?
    ensures var d := DimsOf(rows, atoi).value;
      forall n :: 0 <= n < |rows| ==>
        && HasIds(rows[n])
        && (d.rows != 0 ==> UserOf(rows[n], atoi) < d.rows)
        && (d.cols != 0 ==> ItemOf(rows[n], atoi) < d.cols)
  {
    MaximaMeaning(rows, atoi, |rows|);
  }

  // ---------------------------------------------------------------------
  // check_test_data
  // ---------------------------------------------------------------------

  /** One stored test rating, in the sparse matrix's iteration order. */
  datatype Rating = Rating(row: nat, col: nat, value: int)

  /** The rounded prediction hits the rating. */
  predicate Correct(r: Rating, rate: (nat, nat) -> int)
  {
    rate(r.row, r.col) == r.value
  }

  /** The rounded prediction is one away from the rating. */
  predicate DiffOne(r: Rating, rate: (nat, nat) -> int)
  {
    rate(r.row, r.col) - r.value == 1 || r.value - rate(r.row, r.col) == 1
  }

  /** The ratings counted in ncorrect. */
  function Hit(rate: (nat, nat) -> int): Rating -> bool
  {
    r => Correct(r, rate)
  }

  /** The ratings counted in ndiffone: not correct, and one away. */
  function Missed(rate: (nat, nat) -> int): Rating -> bool
  {
    r => !Correct(r, rate) && DiffOne(r, rate)
  }

  /** The number of test ratings satisfying `p`. */
  function CountWhere(ratings: seq<Rating>, p: Rating -> bool): (c: nat)
    ensures c <= |ratings|
  {
    if ratings == [] then 0
    else CountWhere(ratings[..|ratings| - 1], p) + (if p(ratings[|ratings| - 1]) then 1 else 0)
  }

  /** check_test_data, `rate` being the rounded prediction for a cell. */
  method CheckTestData(ratings: seq<Rating>, rate: (nat, nat) -> int) returns (ncorrect: nat, ndiffone: nat)
    ensures ncorrect == CountWhere(ratings, Hit(rate))
    ensures ndiffone == CountWhere(ratings, Missed(rate))
  {
    ncorrect, ndiffone := 0, 0;
    for n := 0 to |ratings|
      invariant ncorrect == CountWhere(ratings[..n], Hit(rate))
      invariant ndiffone == CountWhere(ratings[..n], Missed(rate))
    {
      assert ratings[..n + 1][..n] == ratings[..n];
      var it := ratings[n];
      var predicted := rate(it.row, it.col);
      if predicted == it.value {
        ncorrect := ncorrect + 1;
      } else if predicted - it.value == 1 || it.value - predicted == 1 {
        ndiffone := ndiffone + 1;
      }
    }
    assert ratings[..|ratings|] == ratings;
  }

  /** Counting two disjoint conditions separately counts their union. */
  lemma {:induction false} CountDisjoint(ratings: seq<Rating>, p: Rating -> bool, q: Rating -> bool)
    requires forall r :: !(p(r) && q(r))
    ensures CountWhere(ratings, p) + CountWhere(ratings, q) == CountWhere(ratings, r => p(r) || q(r))
    decreases |ratings|
  {
    if ratings != [] {
      CountDisjoint(ratings[..|ratings| - 1], p, q);
    }
  }

  /** No rating is counted twice: the two counts add up to at most the number of test ratings. */
  lemma CheckCountsBounded(ratings: seq<Rating>, rate: (nat, nat) -> int)
    ensures CountWhere(ratings, Hit(rate)) + CountWhere(ratings, Missed(rate))
      <= |ratings|
  {
    CountDisjoint(ratings, Hit(rate), Missed(rate));
  }

  /** Every rating is counted as correct exactly when every prediction hits. */
  lemma {:induction false} AllCorrect(ratings: seq<Rating>, rate: (nat, nat) -> int)
    ensures CountWhere(ratings, Hit(rate)) == |ratings| <==>
      forall n :: 0 <= n < |ratings| ==> Correct(ratings[n], rate)
    decreases |ratings|
  {
    if ratings != [] {
      var front := ratings[..|ratings| - 1];
      AllCorrect(front, rate);
      assert forall n :: 0 <= n < |front| ==> front[n] == ratings[n];
    }
  }
}

/**
 * The string helpers of the repository. Two different split semantics live
 * here side by side:
 *   - Split / Pieces: repeated std::string::find of an exact delimiter; empty
 *     pieces are kept (splitstring, splitAll, MF::split and the rating
 *     reader's split all run this loop);
 *   - SplitString / Tokens: find_first_not_of / find_first_of treat the
 *     delimiter as a SET of characters and never produce an empty piece
 *     (split_string in both utility files).
 */
module Strings {
  import opened Wrappers

  const Tab: char := '\t'

  /** `d` occurs in `s` starting at position `q`. */
  predicate OccursAt(s: string, d: string, q: nat) {
    q + |d| <= |s| && s[q..q + |d|] == d
  }

  /** std::string::find(d, from): the first occurrence of `d` at or after `from`. */
  function FindFrom(s: string, d: string, from: nat): (r: Option<nat>)
    ensures r.Some? ==> from <= r.value && OccursAt(s, d, r.value)
    ensures r.Some? ==> forall q :: from <= q < r.value ==> !OccursAt(s, d, q)
    ensures r.None? ==> forall q :: from <= q ==> !OccursAt(s, d, q)
    decreases |s| - from
  {
    if from + |d| > |s| then None
    else if s[from..from + |d|] == d then Some(from)
    else FindFrom(s, d, from + 1)
  }

  /** std::string::find(d): the first occurrence of `d`. */
  function Find(s: string, d: string): (r: Option<nat>)
    ensures r.Some? ==> OccursAt(s, d, r.value)
    ensures r.Some? ==> forall q: nat :: q < r.value ==> !OccursAt(s, d, q)
    ensures r.None? ==> forall q: nat :: !OccursAt(s, d, q)
  {
    FindFrom(s, d, 0)
  }

  /** A one-character delimiter occurs exactly where the character does. */
  lemma CharOccurs(s: string, c: char)
    ensures forall q: nat :: q < |s| ==> (OccursAt(s, [c], q) <==> s[q] == c)
    ensures Find(s, [c]).None? <==> c !in s
  {
    if c in s {
      var q :| 0 <= q < |s| && s[q] == c;
      assert OccursAt(s, [c], q);
    }
  }

  // ---------------------------------------------------------------------
  // Exact-delimiter split
  // ---------------------------------------------------------------------

  /** The pieces the find-loop produces: text between successive delimiters, empty ones included. */
  function Pieces(s: string, d: string): (r: seq<string>)
    requires |d| > 0
    ensures |r| >= 1
    decreases |s|
  {
    match Find(s, d)
    case None => [s]
    case Some(p) => [s[..p]] + Pieces(s[p + |d|..], d)
  }

  /** The strings of `xs` with `d` between consecutive elements (join_strings, stringstream). */
  function Join(xs: seq<string>, d: string): string
  {
    if |xs| == 0 then ""
    else if |xs| == 1 then xs[0]
    else xs[0] + d + Join(xs[1..], d)
  }

  /** One turn of the find-loop: the text before the first delimiter, then the pieces of the rest. */
  lemma PiecesStep(s: string, d: string, p: nat)
    requires |d| > 0 && Find(s, d) == Some(p)
    ensures Pieces(s, d) == [s[..p]] + Pieces(s[p + |d|..], d)
  {
  }

  /** Join grows at the back the way the stringstream loop does. */
  lemma {:induction false} JoinSnoc(xs: seq<string>, x: string, d: string)
    ensures Join(xs + [x], d) == if xs == [] then x else Join(xs, d) + d + x
  {
    if |xs| > 1 {
      assert (xs + [x])[1..] == xs[1..] + [x];
      JoinSnoc(xs[1..], x, d);
    } else if |xs| == 1 {
      assert (xs + [x])[1..] == [x];
    }
  }

  lemma JoinCons(x: string, xs: seq<string>, d: string)
    requires |xs| >= 1
    ensures Join([x] + xs, d) == x + d + Join(xs, d)
  {
    assert ([x] + xs)[1..] == xs;
  }

  /** splitstring / splitAll / MF::split: appends the pieces of `s0` to `splited`, returns their number. */
  method Split(s0: string, delimiter: string, splited: seq<string>) returns (out: seq<string>, cnt: nat)
    requires |delimiter| > 0
    ensures out == splited + Pieces(s0, delimiter)
    ensures cnt == |Pieces(s0, delimiter)|
  {
    var s := s0;
    out, cnt := splited, 0;
    var p := Find(s, delimiter);
    while p.Some?
      invariant p == Find(s, delimiter)
      invariant out + Pieces(s, delimiter) == splited + Pieces(s0, delimiter)
      invariant cnt + |Pieces(s, delimiter)| == |Pieces(s0, delimiter)|
      decreases |s|
    {
      out := out + [s[..p.value]];
      cnt := cnt + 1;
      s := s[p.value + |delimiter|..];
      p := Find(s, delimiter);
    }
    out := out + [s];
    cnt := cnt + 1;
  }

  /** splitAll: the pieces as a fresh vector. */
  method SplitAll(s: string, t: string) returns (v: seq<string>)
    requires |t| > 0
    ensures v == Pieces(s, t)
    ensures Join(v, t) == s
  {
    var cnt;
    v, cnt := Split(s, t, []);
    JoinPieces(s, t);
  }

  /** Joining the pieces with the delimiter gives back the string. */
  lemma {:induction false} JoinPieces(s: string, d: string)
    requires |d| > 0
    ensures Join(Pieces(s, d), d) == s
    decreases |s|
  {
    match Find(s, d)
    case None =>
    case Some(p) =>
      var rest := s[p + |d|..];
      var ps := Pieces(rest, d);
      assert Pieces(s, d) == [s[..p]] + ps;
      JoinPieces(rest, d);
      JoinCons(s[..p], ps, d);
      CutAt(s, d, p);
  }

  /** A string is the text before an occurrence of `d`, `d`, and the text after it. */
  lemma CutAt(s: string, d: string, p: nat)
    requires OccursAt(s, d, p)
    ensures s == s[..p] + d + s[p + |d|..]
  {
    assert s == s[..p] + s[p..p + |d|] + s[p + |d|..];
  }

  /** An occurrence in a prefix is an occurrence in the whole string. */
  lemma OccursInPrefix(s: string, d: string, p: nat, q: nat)
    requires p <= |s|
    ensures OccursAt(s[..p], d, q) ==> OccursAt(s, d, q)
  {
    if q + |d| <= p {
      assert s[..p][q..q + |d|] == s[q..q + |d|];
    }
  }

  /** No piece contains the delimiter. */
  lemma {:induction false} PiecesAvoidDelimiter(s: string, d: string)
    requires |d| > 0
    ensures forall i :: 0 <= i < |Pieces(s, d)| ==> Find(Pieces(s, d)[i], d).None?
    decreases |s|
  {
    match Find(s, d)
    case None =>
    case Some(p) =>
      var head := s[..p];
      forall q: nat ensures !OccursAt(head, d, q) {
        OccursInPrefix(s, d, p, q);
      }
      PiecesAvoidDelimiter(s[p + |d|..], d);
  }

  /** With a one-character delimiter the piece count is the number of delimiters plus one. */
  lemma {:induction false} PiecesCount(s: string, c: char)
    ensures |Pieces(s, [c])| == multiset(s)[c] + 1
    decreases |s|
  {
    CharOccurs(s, c);
    match Find(s, [c])
    case None =>
    case Some(p) =>
      var rest := s[p + 1..];
      PiecesCount(rest, c);
      assert s == s[..p] + [c] + rest;
      assert c !in s[..p] by {
        forall q | 0 <= q < p ensures s[q] != c {
          assert !OccursAt(s, [c], q);
        }
      }
      assert multiset(s) == multiset(s[..p]) + multiset{c} + multiset(rest);
  }

  /** The first delimiter of `x + [c] + t` is right after `x` when `x` has none. */
  lemma FindAfterPrefix(x: string, c: char, t: string)
    requires c !in x
    ensures Find(x + [c] + t, [c]) == Some(|x|)
  {
    var s := x + [c] + t;
    CharOccurs(s, c);
    assert OccursAt(s, [c], |x|);
  }

  /** Splitting a join with a one-character delimiter restores the strings, empty ones included. */
  lemma {:induction false} PiecesOfJoin(xs: seq<string>, c: char)
    requires |xs| >= 1
    requires forall i :: 0 <= i < |xs| ==> c !in xs[i]
    ensures Pieces(Join(xs, [c]), [c]) == xs
    decreases |xs|
  {
    if |xs| == 1 {
      CharOccurs(xs[0], c);
    } else {
      var rest := Join(xs[1..], [c]);
      FindAfterPrefix(xs[0], c, rest);
      assert (xs[0] + [c] + rest)[|xs[0]| + 1..] == rest;
      assert (xs[0] + [c] + rest)[..|xs[0]|] == xs[0];
      PiecesOfJoin(xs[1..], c);
    }
  }

  // ---------------------------------------------------------------------
  // Character-set split
  // ---------------------------------------------------------------------

  /** The texts between characters of `D`, empty ones included, in order. */
  function Fields(s: string, D: set<char>): (r: seq<string>)
    ensures |r| >= 1
    decreases |s|
  {
    if s == [] then [""]
    else
      var rest := Fields(s[1..], D);
      if s[0] in D then [""] + rest else [[s[0]] + rest[0]] + rest[1..]
  }

  /** The non-empty elements of `xs`, in order. */
  function NonEmpty(xs: seq<string>): (r: seq<string>)
    ensures forall i :: 0 <= i < |r| ==> r[i] != ""
    ensures forall i :: 0 <= i < |r| ==> r[i] in xs
  {
    if xs == [] then []
    else if xs[0] == "" then NonEmpty(xs[1..])
    else [xs[0]] + NonEmpty(xs[1..])
  }

  /** The maximal runs of characters outside `D`, in order: what split_string appends. */
  function Tokens(s: string, D: set<char>): seq<string>
  {
    NonEmpty(Fields(s, D))
  }

  /** A field contains no character of `D`. */
  lemma {:induction false} FieldsAvoid(s: string, D: set<char>)
    ensures forall i, k :: 0 <= i < |Fields(s, D)| && 0 <= k < |Fields(s, D)[i]| ==> Fields(s, D)[i][k] !in D
    decreases |s|
  {
    if s != [] {
      FieldsAvoid(s[1..], D);
    }
  }

  /** Tokens are non-empty and hold no delimiter character. */
  lemma TokensShape(s: string, D: set<char>)
    ensures forall i :: 0 <= i < |Tokens(s, D)| ==> Tokens(s, D)[i] != ""
    ensures forall i, k :: 0 <= i < |Tokens(s, D)| && 0 <= k < |Tokens(s, D)[i]| ==> Tokens(s, D)[i][k] !in D
  {
    FieldsAvoid(s, D);
    forall i, k | 0 <= i < |Tokens(s, D)| && 0 <= k < |Tokens(s, D)[i]|
      ensures Tokens(s, D)[i][k] !in D
    {
      var t := Tokens(s, D)[i];
      assert t in Fields(s, D);
      var j :| 0 <= j < |Fields(s, D)| && Fields(s, D)[j] == t;
    }
  }

  lemma {:induction false} NonEmptyAppend(xs: seq<string>, ys: seq<string>)
    ensures NonEmpty(xs + ys) == NonEmpty(xs) + NonEmpty(ys)
  {
    if xs == [] {
      assert xs + ys == ys;
    } else {
      assert (xs + ys)[0] == xs[0];
      assert (xs + ys)[1..] == xs[1..] + ys;
      NonEmptyAppend(xs[1..], ys);
    }
  }

  /** Fields of a delimiter-free prefix followed by more text. */
  lemma {:induction false} FieldsPrefix(u: string, v: string, D: set<char>)
    requires forall k :: 0 <= k < |u| ==> u[k] !in D
    ensures Fields(u + v, D) == [u + Fields(v, D)[0]] + Fields(v, D)[1..]
    decreases |u|
  {
    if u == [] {
      assert u + v == v;
      var f := Fields(v, D);
      assert u + f[0] == f[0];
      assert [f[0]] + f[1..] == f;
    } else {
      assert (u + v)[1..] == u[1..] + v;
      FieldsPrefix(u[1..], v, D);
      assert [u[0]] + (u[1..] + Fields(v, D)[0]) == u + Fields(v, D)[0];
    }
  }

  /** A delimiter character at the front is skipped. */
  lemma TokensSkip(s: string, k: nat, D: set<char>)
    requires k < |s| && s[k] in D
    ensures Tokens(s[k..], D) == Tokens(s[k + 1..], D)
  {
    assert s[k..][1..] == s[k + 1..];
  }

  /** A whole run of delimiter characters is skipped. */
  lemma {:induction false} TokensSkipRun(s: string, from: nat, to: nat, D: set<char>)
    requires from <= to <= |s|
    requires forall k :: from <= k < to ==> s[k] in D
    ensures Tokens(s[from..], D) == Tokens(s[to..], D)
    decreases (to as int) - (from as int)
  {
    if from < to {
      TokensSkip(s, from, D);
      TokensSkipRun(s, from + 1, to, D);
    }
  }

  /** A maximal run of non-delimiters at the front is the first token. */
  lemma TokensRun(s: string, i: nat, j: nat, D: set<char>)
    requires i < j <= |s|
    requires forall k :: i <= k < j ==> s[k] !in D
    requires j < |s| ==> s[j] in D
    ensures Tokens(s[i..], D) == [s[i..j]] + Tokens(s[j..], D)
  {
    var u := s[i..j];
    assert s[i..] == u + s[j..];
    FieldsPrefix(u, s[j..], D);
    if j == |s| {
      assert s[j..] == [];
      assert u + "" == u;
      assert Fields(s[i..], D) == [u];
    } else {
      assert s[j..][1..] == s[j + 1..];
      assert Fields(s[j..], D) == [""] + Fields(s[j + 1..], D);
      assert u + "" == u;
      assert Fields(s[i..], D) == [u] + Fields(s[j + 1..], D);
      TokensSkip(s, j, D);
    }
    assert Fields(s[i..], D) == [u] + Fields(s[j..], D)[1..] || j == |s|;
    NonEmptyAppend([u], if j == |s| then [] else Fields(s[j + 1..], D));
  }

  /** std::string::find_first_not_of(D, from). */
  function FirstNotOf(s: string, D: set<char>, from: nat): (r: Option<nat>)
    ensures r.Some? ==> from <= r.value < |s| && s[r.value] !in D
    ensures forall k :: from <= k < (if r.Some? then r.value else |s|) ==> s[k] in D
    decreases |s| - from
  {
    if from >= |s| then None
    else if s[from] !in D then Some(from)
    else FirstNotOf(s, D, from + 1)
  }

  /** std::string::find_first_of(D, from). */
  function FirstOf(s: string, D: set<char>, from: nat): (r: Option<nat>)
    ensures r.Some? ==> from <= r.value < |s| && s[r.value] in D
    ensures forall k :: from <= k < (if r.Some? then r.value else |s|) ==> s[k] !in D
    decreases |s| - from
  {
    if from >= |s| then None
    else if s[from] in D then Some(from)
    else FirstOf(s, D, from + 1)
  }

  /** Where the next token starts: the found position, or the end for npos. */
  function Stop(s: string, i: Option<nat>): (k: nat)
    ensures k <= |s|
  {
    if i.Some? && i.value <= |s| then i.value else |s|
  }

  /** One round of split_string that finds a delimiter after the token. */
  lemma StepFound(s: string, D: set<char>, i: nat, j: nat)
    requires i < |s| && s[i] !in D
    requires FirstOf(s, D, i) == Some(j)
    ensures Tokens(s[i..], D) == [s[i..j]] + Tokens(s[Stop(s, FirstNotOf(s, D, j + 1))..], D)
  {
    TokensRun(s, i, j, D);
    TokensSkip(s, j, D);
    TokensSkipRun(s, j + 1, Stop(s, FirstNotOf(s, D, j + 1)), D);
  }

  /** The last round of split_string: the token runs to the end. */
  lemma StepLast(s: string, D: set<char>, i: nat)
    requires i < |s| && s[i] !in D
    requires FirstOf(s, D, i).None?
    ensures Tokens(s[i..], D) == [s[i..]]
  {
    TokensRun(s, i, |s|, D);
    assert s[i..|s|] == s[i..];
    TokensEmpty(D);
    assert s[|s|..] == [];
    assert [s[i..]] + [] == [s[i..]];
  }

  /** split_string: appends the tokens of `s` to `splited`, which it does not clear. */
  method SplitString(s: string, delimiter: set<char>, splited: seq<string>) returns (out: seq<string>)
    ensures out == splited + Tokens(s, delimiter)
  {
    out := splited;
    var i: Option<nat> := FirstNotOf(s, delimiter, 0);
    TokensSkipRun(s, 0, Stop(s, i), delimiter);
    assert s[0..] == s;
    while i.Some?
      invariant i.Some? ==> i.value < |s| && s[i.value] !in delimiter
      invariant out + Tokens(s[Stop(s, i)..], delimiter) == splited + Tokens(s, delimiter)
      decreases |s| - Stop(s, i)
    {
      assert Stop(s, i) == i.value;
      out, i := SplitStringStep(s, delimiter, i.value, out, splited);
    }
    TokensEmpty(delimiter);
    assert s[|s|..] == [];
  }

  /** One token of split_string: from the non-delimiter at `i` to the next delimiter or the end. */
  method SplitStringStep(s: string, delimiter: set<char>, i: nat, out0: seq<string>, ghost splited: seq<string>)
    returns (out: seq<string>, next: Option<nat>)
    requires i < |s| && s[i] !in delimiter
    requires out0 + Tokens(s[i..], delimiter) == splited + Tokens(s, delimiter)
    ensures next.Some? ==> next.value < |s| && s[next.value] !in delimiter
    ensures out + Tokens(s[Stop(s, next)..], delimiter) == splited + Tokens(s, delimiter)
    ensures i < Stop(s, next)
  {
    var j := FirstOf(s, delimiter, i);
    if j.Some? {
      next := FirstNotOf(s, delimiter, j.value + 1);
      StepFound(s, delimiter, i, j.value);
      out := out0 + [s[i..j.value]];
      assert out0 + ([s[i..j.value]] + Tokens(s[Stop(s, next)..], delimiter))
          == out + Tokens(s[Stop(s, next)..], delimiter);
    } else {
      StepLast(s, delimiter, i);
      out := out0 + [s[i..]];
      next := None;
      TokensEmpty(delimiter);
      assert s[|s|..] == [];
    }
  }

  lemma TokensEmpty(D: set<char>)
    ensures Tokens([], D) == []
  {
    assert Fields([], D) == [""];
    assert [""][1..] == [];
  }

  /** Splitting a tab join of non-empty, delimiter-free strings gives them back. */
  lemma {:induction false} TokensOfJoin(xs: seq<string>, c: char)
    requires forall i :: 0 <= i < |xs| ==> xs[i] != "" && c !in xs[i]
    ensures Tokens(Join(xs, [c]), {c}) == xs
  {
    if xs == [] {
      TokensEmpty({c});
    } else {
      FieldsOfJoin(xs, c);
      NonEmptyKeeps(xs);
    }
  }

  lemma {:induction false} FieldsOfJoin(xs: seq<string>, c: char)
    requires |xs| >= 1
    requires forall i :: 0 <= i < |xs| ==> c !in xs[i]
    ensures Fields(Join(xs, [c]), {c}) == xs
    decreases |xs|
  {
    var x := xs[0];
    assert forall k :: 0 <= k < |x| ==> x[k] !in {c};
    if |xs| == 1 {
      FieldsPrefix(x, "", {c});
      assert x + "" == x;
    } else {
      var rest := Join(xs[1..], [c]);
      FieldsPrefix(x, [c] + rest, {c});
      assert ([c] + rest)[1..] == rest;
      FieldsOfJoin(xs[1..], c);
      assert x + [c] + rest == x + ([c] + rest);
      assert x + "" == x;
    }
  }

  lemma {:induction false} NonEmptyKeeps(xs: seq<string>)
    requires forall i :: 0 <= i < |xs| ==> xs[i] != ""
    ensures NonEmpty(xs) == xs
  {
    if xs != [] {
      NonEmptyKeeps(xs[1..]);
    }
  }

  /** join_strings: the elements with the delimiter between consecutive ones. */
  method JoinStrings(splited: seq<string>, delimiter: string) returns (r: string)
    ensures r == Join(splited, delimiter)
    ensures splited == [] ==> r == ""
  {
    r := "";
    for i := 0 to |splited|
      invariant r == Join(splited[..i], delimiter)
    {
      if i > 0 { r := r + delimiter; }
      r := r + splited[i];
      JoinSnoc(splited[..i], splited[i], delimiter);
      assert splited[..i + 1] == splited[..i] + [splited[i]];
    }
    assert splited[..|splited|] == splited;
  }

  /** The utility test: four words split on a space. */
  lemma SplitStringSpaceExample()
    ensures Tokens("This is a pen", {' '}) == ["This", "is", "a", "pen"]
  {
    var w := ["This", "is", "a", "pen"];
    assert Join(w, " ") == "This is a pen";
    TokensOfJoin(w, ' ');
  }

  /** The utility test: the same four words split on a tab. */
  lemma SplitStringTabExample()
    ensures Tokens("This\tis\ta\tpen", {'\t'}) == ["This", "is", "a", "pen"]
  {
    var w := ["This", "is", "a", "pen"];
    assert Join(w, "\t") == "This\tis\ta\tpen";
    TokensOfJoin(w, '\t');
  }

  /** The utility test: three multibyte words split on a space. */
  lemma SplitStringMultibyteSpaceExample()
    ensures Tokens("あい うえ おか", {' '}) == ["あい", "うえ", "おか"]
  {
    var m := ["あい", "うえ", "おか"];
    assert Join(m, " ") == "あい うえ おか";
    TokensOfJoin(m, ' ');
  }

  /** The utility test: three multibyte words split on a tab. */
  lemma SplitStringMultibyteTabExample()
    ensures Tokens("あい\tうえ\tおか", {'\t'}) == ["あい", "うえ", "おか"]
  {
    var m := ["あい", "うえ", "おか"];
    assert Join(m, "\t") == "あい\tうえ\tおか";
    TokensOfJoin(m, '\t');
  }

  /** The utility test: four strings joined on a tab. */
  lemma JoinStringsExample()
    ensures Join(["a", "bc", "def", "gh"], [Tab]) == "a\tbc\tdef\tgh"
  {
    JoinCons("def", ["gh"], [Tab]);
    JoinCons("bc", ["def", "gh"], [Tab]);
    JoinCons("a", ["bc", "def", "gh"], [Tab]);
    assert ["a"] + ["bc", "def", "gh"] == ["a", "bc", "def", "gh"];
  }

  // ---------------------------------------------------------------------
  // File extension
  // ---------------------------------------------------------------------

  /** std::string::rfind(c). */
  function LastIndexOf(s: string, c: char): (r: Option<nat>)
    ensures r.Some? ==> r.value < |s| && s[r.value] == c && c !in s[r.value + 1..]
    ensures r.None? ==> c !in s
  {
    if |s| == 0 then None
    else if s[|s| - 1] == c then Some(|s| - 1)
    else
      var r := LastIndexOf(s[..|s| - 1], c);
      assert s == s[..|s| - 1] + [s[|s| - 1]];
      r
  }

  /** get_extension: everything after the last '.', or "" when there is none. */
  function GetExtension(filename: string): (r: string)
    ensures '.' !in filename ==> r == ""
    ensures '.' in filename ==>
      && |r| < |filename|
      && '.' !in r
      && filename == filename[..|filename| - |r| - 1] + "." + r
  {
    match LastIndexOf(filename, '.')
    case None => ""
    case Some(i) =>
      assert filename == filename[..i] + "." + filename[i + 1..];
      filename[i + 1..]
  }

  /** The edge cases the callers meet: a trailing dot and a leading dot (the "txt" test). */
  lemma GetExtensionDotExamples()
    ensures GetExtension("list.") == ""
    ensures GetExtension(".txt") == "txt"
  {
    assert "list."[4] == '.';
    assert ".txt"[0] == '.';
  }

  /** The extension after the last of several dots, and none without a dot. */
  lemma GetExtensionPlainExamples()
    ensures GetExtension("a.b.sift") == "sift"
    ensures GetExtension("noext") == ""
  {
    assert "a.b.sift"[3] == '.';
    assert '.' !in "noext";
  }

  // ---------------------------------------------------------------------
  // std::string operator<
  // ---------------------------------------------------------------------

  /** Lexicographic order of std::string: a proper prefix, or a smaller first differing character. */
  predicate StrLess(a: string, b: string)
    decreases |a|
  {
    if a == [] then b != []
    else if b == [] then false
    else if a[0] != b[0] then a[0] < b[0]
    else StrLess(a[1..], b[1..])
  }

  lemma {:induction false} StrLessIrreflexive(a: string)
    ensures !StrLess(a, a)
    decreases |a|
  {
    if a != [] { StrLessIrreflexive(a[1..]); }
  }

  lemma {:induction false} StrLessAsymmetric(a: string, b: string)
    ensures StrLess(a, b) ==> !StrLess(b, a)
    decreases |a|
  {
    if a != [] && b != [] && a[0] == b[0] { StrLessAsymmetric(a[1..], b[1..]); }
  }

  lemma {:induction false} StrLessTransitive(a: string, b: string, c: string)
    requires StrLess(a, b) && StrLess(b, c)
    ensures StrLess(a, c)
    decreases |a|
  {
    if a != [] && a[0] == b[0] && b[0] == c[0] {
      StrLessTransitive(a[1..], b[1..], c[1..]);
    }
  }

  lemma {:induction false} StrLessTotal(a: string, b: string)
    requires a != b
    ensures StrLess(a, b) || StrLess(b, a)
    decreases |a|
  {
    if a != [] && b != [] && a[0] == b[0] {
      assert a == [a[0]] + a[1..] && b == [b[0]] + b[1..];
      StrLessTotal(a[1..], b[1..]);
    }
  }
}

// Variable-byte coding of 64-bit unsigned integers, with an optional
// delta (gap) transform.
//
// Each number is written in base 128, most significant digit first, one
// digit per byte; the last byte of a number carries 128 on top of its digit
// and so marks the end. A buffer holds the count of numbers, then the numbers.

module VariableByte {
  import opened Wrappers

  const Word: int := 0x1_0000_0000_0000_0000

  /** uint64_t */
  type u64 = x: int | 0 <= x < 0x1_0000_0000_0000_0000

  /** An unsigned char of the encoded buffer. */
  type byte = x: int | 0 <= x < 256

  // ---------------------------------------------------------------------
  // Specification of the format
  // ---------------------------------------------------------------------

  /** Base-128 digits of `n`, least significant first: what encode_number pushes. */
  function DigitsLE(n: nat): (r: seq<u64>)
    ensures |r| >= 1
    ensures r[0] == n % 128
    ensures forall i :: 0 <= i < |r| ==> r[i] < 128
    decreases n
  {
    if n < 128 then [n] else [n % 128] + DigitsLE(n / 128)
  }

  /** Base-128 digits of `n`, most significant first, none of them marked. */
  function Plain(n: nat): (r: seq<byte>)
    ensures |r| >= 1
    ensures forall i :: 0 <= i < |r| ==> r[i] < 128
    decreases n
  {
    if n < 128 then [n] else Plain(n / 128) + [n % 128]
  }

  /** The bytes of one number: its digits, most significant first, the last one marked. */
  function Bytes(n: nat): (r: seq<byte>)
    ensures |r| >= 1 && r[|r| - 1] >= 128
    ensures forall i :: 0 <= i < |r| - 1 ==> r[i] < 128
  {
    if n < 128 then [n + 128] else Plain(n / 128) + [n % 128 + 128]
  }

  /** The bytes of several numbers, one after the other. */
  function Concat(xs: seq<u64>): (r: seq<byte>)
  {
    if xs == [] then [] else Bytes(xs[0]) + Concat(xs[1..])
  }

  /** The buffer variable_byte_encode fills: the count, then every number. */
  function Encoding(xs: seq<u64>): (r: seq<byte>)
  {
    Bytes(|xs|) + Concat(xs)
  }

  function Reverse<T>(s: seq<T>): (r: seq<T>)
    ensures |r| == |s|
  {
    if s == [] then [] else Reverse(s[1..]) + [s[0]]
  }

  /**
   * Reading one number from the front of `buf` into the 64-bit accumulator
   * `acc`: the number and the bytes after it, or None when the buffer ends
   * before a marked byte.
   */
  function ReadNum(buf: seq<byte>, acc: u64): (r: Option<(u64, seq<byte>)>)
    ensures r.Some? ==> |r.value.1| < |buf| && r.value.1 == buf[|buf| - |r.value.1|..]
  {
    if buf == [] then None
    else
      var c := buf[0];
      var next := (128 * acc + (if c < 128 then c else c - 128)) % Word;
      if c < 128 then ReadNum(buf[1..], next) else Some((next, buf[1..]))
  }

  /** Reading `k` numbers, one after the other. */
  function ReadMany(buf: seq<byte>, k: nat): (r: Option<seq<u64>>)
    ensures r.Some? ==> |r.value| == k
  {
    if k == 0 then Some([])
    else
      match ReadNum(buf, 0)
      case None => None
      case Some((v, rest)) =>
        match ReadMany(rest, k - 1)
        case None => None
        case Some(ys) => Some([v] + ys)
  }

  /** What variable_byte_decode appends: the count, then that many numbers. */
  function Decoding(buf: seq<byte>): Option<seq<u64>>
  {
    match ReadNum(buf, 0)
    case None => None
    case Some((size, rest)) => ReadMany(rest, size)
  }

  /** The accumulator after folding in the digits `ds`, with 64-bit wrap-around. */
  function Horner(acc: u64, ds: seq<byte>): u64
    decreases |ds|
  {
    if ds == [] then acc else Horner((128 * acc + ds[0]) % Word, ds[1..])
  }

  // ---------------------------------------------------------------------
  // Lemmas about the format
  // ---------------------------------------------------------------------

  lemma {:induction false} HornerSnoc(acc: u64, ds: seq<byte>, d: byte)
    ensures Horner(acc, ds + [d]) == (128 * Horner(acc, ds) + d) % Word
    decreases |ds|
  {
    if ds == [] {
      assert [] + [d] == [d];
    } else {
      assert (ds + [d])[1..] == ds[1..] + [d];
      HornerSnoc((128 * acc + ds[0]) % Word, ds[1..], d);
    }
  }

  /** The digits of a 64-bit number fold back to it: the accumulator never wraps. */
  lemma {:induction false} PlainValue(n: u64)
    ensures Horner(0, Plain(n)) == n
    decreases n
  {
    if n >= 128 {
      PlainValue(n / 128);
      HornerSnoc(0, Plain(n / 128), n % 128);
    }
  }

  /** Reading over unmarked digits and then a marked byte. */
  lemma {:induction false} ReadDigits(ds: seq<byte>, b: byte, rest: seq<byte>, acc: u64)
    requires forall i :: 0 <= i < |ds| ==> ds[i] < 128
    requires b >= 128
    ensures ReadNum(ds + [b] + rest, acc) == Some(((128 * Horner(acc, ds) + b - 128) % Word, rest))
    decreases |ds|
  {
    if ds == [] {
      assert ds + [b] + rest == [b] + rest;
      assert ([b] + rest)[1..] == rest;
    } else {
      assert (ds + [b] + rest)[1..] == ds[1..] + [b] + rest;
      ReadDigits(ds[1..], b, rest, (128 * acc + ds[0]) % Word);
    }
  }

  /** A number's bytes read back as that number, whatever follows them. */
  lemma ReadBytes(n: u64, rest: seq<byte>)
    ensures ReadNum(Bytes(n) + rest, 0) == Some((n, rest))
  {
    if n < 128 {
      assert Bytes(n) + rest == [] + [n + 128] + rest;
      ReadDigits([], n + 128, rest, 0);
    } else {
      PlainValue(n / 128);
      ReadDigits(Plain(n / 128), n % 128 + 128, rest, 0);
    }
  }

  /** Numbers written one after the other read back in order. */
  lemma {:induction false} ReadConcat(xs: seq<u64>, rest: seq<byte>)
    ensures ReadMany(Concat(xs) + rest, |xs|) == Some(xs)
    decreases |xs|
  {
    if xs != [] {
      assert Concat(xs) + rest == Bytes(xs[0]) + (Concat(xs[1..]) + rest);
      ReadBytes(xs[0], Concat(xs[1..]) + rest);
      ReadConcat(xs[1..], rest);
      assert [xs[0]] + xs[1..] == xs;
    }
  }

  /**
   * The round trip: decoding an encoding gives the numbers back, and bytes
   * after the encoding are never read.
   */
  lemma RoundTrip(xs: seq<u64>, trailing: seq<byte>)
    requires |xs| < Word
    ensures Decoding(Encoding(xs) + trailing) == Some(xs)
  {
    assert Encoding(xs) + trailing == Bytes(|xs|) + (Concat(xs) + trailing);
    ReadBytes(|xs|, Concat(xs) + trailing);
    ReadConcat(xs, trailing);
  }

  /** A number takes a single byte exactly when it is below 128. */
  lemma OneByte(n: nat)
    ensures |Bytes(n)| == 1 <==> n < 128
  {
  }

  /** The digits encode_number pushes, reversed and marked, are the bytes of the number. */
  lemma {:induction false} ReversedDigits(n: nat)
    ensures Reverse(DigitsLE(n)) == Plain(n)
    ensures Reverse(DigitsLE(n)[0 := n % 128 + 128]) == Bytes(n)
    decreases n
  {
    if n >= 128 {
      ReversedDigits(n / 128);
      var ds := DigitsLE(n);
      assert ds[1..] == DigitsLE(n / 128);
      assert ds[0 := n % 128 + 128][1..] == DigitsLE(n / 128);
    }
  }

  /** The base-128 digit counts of the numbers of `xs`, added up. */
  function DigitTotal(xs: seq<u64>): nat
  {
    if xs == [] then 0 else |DigitsLE(xs[0])| + DigitTotal(xs[1..])
  }

  /** The numbers take as many bytes as they have digits. */
  lemma {:induction false} ConcatLength(xs: seq<u64>)
    ensures |Concat(xs)| == DigitTotal(xs)
    decreases |xs|
  {
    if xs != [] {
      ConcatLength(xs[1..]);
      ReversedDigits(xs[0]);
    }
  }

  /** The encoded length: the digit count of the count plus the digit counts of the numbers. */
  lemma EncodingLength(xs: seq<u64>)
    ensures |Encoding(xs)| == |DigitsLE(|xs|)| + DigitTotal(xs)
  {
    ConcatLength(xs);
    ReversedDigits(|xs|);
  }

  lemma ConcatSnoc(xs: seq<u64>, x: u64)
    ensures Concat(xs + [x]) == Concat(xs) + Bytes(x)
  {
    if xs == [] {
      assert [] + [x] == [x];
    } else {
      assert (xs + [x])[1..] == xs[1..] + [x];
      ConcatSnoc(xs[1..], x);
    }
  }

  // ---------------------------------------------------------------------
  // Encoder and decoder
  // ---------------------------------------------------------------------

  /** Adding 128 to the first element, as encode_number does after pushing. */
  function MarkFirst(s: seq<u64>): (r: seq<u64>)
    requires |s| >= 1
    ensures |r| == |s| && r[1..] == s[1..]
  {
    s[0 := (s[0] + 128) % Word]
  }

  /**
   * variable_byte_encode_number: pushes the base-128 digits of `num`, least
   * significant first, onto `encoded`, then adds 128 to its FIRST element.
   */
  method EncodeNumber(num: u64, encoded: seq<u64>) returns (out: seq<u64>)
    ensures out == MarkFirst(encoded + DigitsLE(num))
    ensures encoded == [] ==> Reverse(out) == Bytes(num)
  {
    var n := num;
    var pushed: seq<u64> := encoded;
    while true
      invariant pushed + DigitsLE(n) == encoded + DigitsLE(num)
      decreases n
    {
      pushed := pushed + [n % 128];
      if n < 128 {
        break;
      }
      n := n / 128;
    }
    out := pushed[0 := (pushed[0] + 128) % Word];
    if encoded == [] {
      assert encoded + DigitsLE(num) == DigitsLE(num);
      EncodeNumberFresh(num);
    }
  }

  /** On a cleared vector, encode_number leaves the bytes of the number in reverse. */
  lemma EncodeNumberFresh(num: u64)
    ensures Reverse(MarkFirst(DigitsLE(num))) == Bytes(num)
  {
    var ds := DigitsLE(num);
    var d := num % 128;
    assert ds[0] == d && 0 <= d < 128;
    assert (d + 128) % Word == d + 128;
    assert MarkFirst(ds) == ds[0 := d + 128];
    ReversedDigits(num);
  }

  /** One number of variable_byte_encode: encode_number on a cleared vector, copied out backwards. */
  method EncodeReversed(num: u64) returns (piece: seq<byte>)
    ensures piece == Bytes(num)
  {
    var numenc := EncodeNumber(num, []);
    piece := Reverse(numenc);
  }

  /** variable_byte_encode: NULL for no numbers, otherwise the count and the numbers. */
  method Encode(numbers: seq<u64>) returns (r: Option<seq<byte>>)
    requires |numbers| < Word
    ensures numbers == [] ==> r == None
    ensures numbers != [] ==> r == Some(Encoding(numbers))
  {
    if |numbers| == 0 {
      return None;
    }
    var bytes := EncodeReversed(|numbers|);
    var i := 0;
    while i < |numbers|
      invariant 0 <= i <= |numbers|
      invariant bytes == Bytes(|numbers|) + Concat(numbers[..i])
    {
      var piece := EncodeReversed(numbers[i]);
      EncodingStep(numbers, i);
      bytes := bytes + piece;
      i := i + 1;
    }
    assert numbers[..i] == numbers;
    r := Some(bytes);
  }

  /** The buffer after number `i`: the buffer before it, then its bytes. */
  lemma EncodingStep(numbers: seq<u64>, i: nat)
    requires |numbers| < Word && i < |numbers|
    ensures Bytes(|numbers|) + Concat(numbers[..i + 1]) == Bytes(|numbers|) + Concat(numbers[..i]) + Bytes(numbers[i])
  {
    assert numbers[..i + 1] == numbers[..i] + [numbers[i]];
    ConcatSnoc(numbers[..i], numbers[i]);
  }

  /** ReadNum on the bytes from position `p` on, giving the position after the number. */
  function ReadFrom(buf: seq<byte>, p: nat, acc: u64): (r: Option<(u64, nat)>)
    requires p <= |buf|
    ensures r.Some? ==> p < r.value.1 <= |buf|
    decreases |buf| - p
  {
    if p == |buf| then None
    else
      var c := buf[p];
      var next := (128 * acc + (if c < 128 then c else c - 128)) % Word;
      if c < 128 then ReadFrom(buf, p + 1, next) else Some((next, p + 1))
  }

  lemma {:induction false} ReadFromSuffix(buf: seq<byte>, p: nat, acc: u64)
    requires p <= |buf|
    ensures ReadFrom(buf, p, acc).None? <==> ReadNum(buf[p..], acc).None?
    ensures ReadFrom(buf, p, acc).Some? ==>
      ReadNum(buf[p..], acc).value == (ReadFrom(buf, p, acc).value.0, buf[ReadFrom(buf, p, acc).value.1..])
    decreases |buf| - p
  {
    if p < |buf| {
      assert buf[p..][0] == buf[p];
      assert buf[p..][1..] == buf[p + 1..];
      var c := buf[p];
      var next := (128 * acc + (if c < 128 then c else c - 128)) % Word;
      if c < 128 {
        ReadFromSuffix(buf, p + 1, next);
      }
    }
  }

  /** The do-while loop of variable_byte_decode: one number read from position `pos`. */
  method ReadNumber(buf: seq<byte>, pos: nat) returns (r: Option<(u64, nat)>)
    requires pos <= |buf|
    ensures r == ReadFrom(buf, pos, 0)
  {
    var n: u64 := 0;
    var p := pos;
    while true
      invariant pos <= p <= |buf|
      invariant ReadFrom(buf, p, n) == ReadFrom(buf, pos, 0)
      decreases |buf| - p
    {
      if p == |buf| {
        return None;
      }
      var c := buf[p];
      n := (128 * n + (if c < 128 then c else c - 128)) % Word;
      p := p + 1;
      if c >= 128 {
        return Some((n, p));
      }
    }
  }

  /**
   * variable_byte_decode: appends the decoded numbers to `numbers`. The
   * source reads past the end of a truncated buffer; here that is None.
   */
  method Decode(buf: seq<byte>, numbers: seq<u64>) returns (r: Option<seq<u64>>)
    ensures r == Prepend(numbers, Decoding(buf))
  {
    var head := ReadNumber(buf, 0);
    ReadFromSuffix(buf, 0, 0);
    assert buf[0..] == buf;
    if head.None? {
      return None;
    }
    r := ReadNumbers(buf, head.value.1, head.value.0, numbers);
  }

  /** The outer loop of variable_byte_decode: `size` numbers read from position `pos` on. */
  method ReadNumbers(buf: seq<byte>, pos: nat, size: u64, numbers: seq<u64>) returns (r: Option<seq<u64>>)
    requires pos <= |buf|
    ensures r == Prepend(numbers, ReadMany(buf[pos..], size))
  {
    var out := numbers;
    var p: nat := pos;
    var cnt: u64 := 0;
    while cnt < size
      invariant cnt <= size && p <= |buf|
      invariant Prepend(numbers, ReadMany(buf[pos..], size)) == Prepend(out, ReadMany(buf[p..], size - cnt))
    {
      var item := ReadNumber(buf, p);
      ReadManyStep(buf, p, size - cnt);
      if item.None? {
        return None;
      }
      var n := item.value.0;
      PrependTwice(out, [n], ReadMany(buf[item.value.1..], size - cnt - 1));
      out := out + [n];
      p := item.value.1;
      cnt := cnt + 1;
    }
    assert ReadMany(buf[p..], size - cnt) == Some([]);
    assert out + [] == out;
    r := Some(out);
  }

  /** `xs` in front of a decoded list, if there is one. */
  function Prepend(xs: seq<u64>, o: Option<seq<u64>>): Option<seq<u64>>
  {
    match o
    case None => None
    case Some(ys) => Some(xs + ys)
  }

  lemma PrependNothing(o: Option<seq<u64>>)
    ensures Prepend([], o) == o
  {
    if o.Some? {
      assert [] + o.value == o.value;
    }
  }

  lemma PrependTwice(xs: seq<u64>, ys: seq<u64>, o: Option<seq<u64>>)
    ensures Prepend(xs, Prepend(ys, o)) == Prepend(xs + ys, o)
  {
    if o.Some? {
      assert xs + (ys + o.value) == (xs + ys) + o.value;
    }
  }

  /** One round of the decoder's outer loop. */
  lemma ReadManyStep(buf: seq<byte>, p: nat, k: nat)
    requires p <= |buf| && k > 0
    ensures ReadFrom(buf, p, 0).None? ==> ReadMany(buf[p..], k).None?
    ensures ReadFrom(buf, p, 0).Some? ==>
      ReadMany(buf[p..], k) ==
      Prepend([ReadFrom(buf, p, 0).value.0], ReadMany(buf[ReadFrom(buf, p, 0).value.1..], k - 1))
  {
    ReadFromSuffix(buf, p, 0);
  }

  // ---------------------------------------------------------------------
  // Gap transform
  // ---------------------------------------------------------------------

  /** uint64_t subtraction, which wraps around. */
  function Sub(a: u64, b: u64): (r: u64)
    ensures b <= a ==> r == a - b
    ensures a < b ==> r == a - b + Word
  {
    (a - b) % Word
  }

  /** uint64_t addition, which wraps around. */
  function Add(a: u64, b: u64): (r: u64)
    ensures a + b < Word ==> r == a + b
    ensures a + b >= Word ==> r == a + b - Word
  {
    (a + b) % Word
  }

  /** The gaps compress_diff encodes: each number minus the one before it (0 for the first). */
  function Diffs(xs: seq<u64>): (r: seq<u64>)
    ensures |r| == |xs|
  {
    seq(|xs|, i requires 0 <= i < |xs| => Sub(xs[i], if i == 0 then 0 else xs[i - 1]))
  }

  /** The wrapping sum of `xs`. */
  function Total(xs: seq<u64>): u64
  {
    if xs == [] then 0 else Add(Total(xs[..|xs| - 1]), xs[|xs| - 1])
  }

  /** The running sums decompress_diff leaves in the vector. */
  function PrefixSums(xs: seq<u64>): (r: seq<u64>)
    ensures |r| == |xs|
  {
    seq(|xs|, i requires 0 <= i < |xs| => Total(xs[..i + 1]))
  }

  /** For sorted numbers the gaps are the plain differences. */
  lemma SortedDiffs(xs: seq<u64>)
    requires forall i, j :: 0 <= i <= j < |xs| ==> xs[i] <= xs[j]
    ensures forall i :: 0 < i < |xs| ==> Diffs(xs)[i] == xs[i] - xs[i - 1]
    ensures |xs| > 0 ==> Diffs(xs)[0] == xs[0]
  {
  }

  lemma {:induction false} TotalOfDiffs(xs: seq<u64>, i: nat)
    requires i < |xs|
    ensures Total(Diffs(xs)[..i + 1]) == xs[i]
  {
    var d := Diffs(xs)[..i + 1];
    assert d[..|d| - 1] == Diffs(xs)[..i];
    if i == 0 {
      assert d[..|d| - 1] == [];
    } else {
      TotalOfDiffs(xs, i - 1);
    }
  }

  /** The gap transform is undone by the running sums, wrap-around included. */
  lemma PrefixSumsOfDiffs(xs: seq<u64>)
    ensures PrefixSums(Diffs(xs)) == xs
  {
    forall i | 0 <= i < |xs| ensures PrefixSums(Diffs(xs))[i] == xs[i] {
      TotalOfDiffs(xs, i);
    }
  }

  /** compress_diff: the gaps, variable-byte encoded (NULL for no numbers). */
  method CompressDiff(numbers: seq<u64>) returns (r: Option<seq<byte>>)
    requires |numbers| < Word
    ensures numbers == [] ==> r == None
    ensures numbers != [] ==> r == Some(Encoding(Diffs(numbers)))
  {
    var diff: seq<u64> := [];
    var prev: u64 := 0;
    for i := 0 to |numbers|
      invariant diff == Diffs(numbers[..i])
      invariant prev == if i == 0 then 0 else numbers[i - 1]
    {
      assert numbers[..i + 1][..i] == numbers[..i];
      diff := diff + [Sub(numbers[i], prev)];
      prev := numbers[i];
    }
    assert numbers[..|numbers|] == numbers;
    r := Encode(diff);
  }

  /** decompress_diff's loop: every element plus the one before it, in place. */
  method RunningSums(a: array<u64>)
    modifies a
    ensures a[..] == PrefixSums(old(a[..]))
  {
    ghost var orig := a[..];
    if a.Length == 0 {
      return;
    }
    assert orig[..1][..0] == [];
    for i := 1 to a.Length
      invariant forall k :: 0 <= k < i ==> a[k] == Total(orig[..k + 1])
      invariant forall k :: i <= k < a.Length ==> a[k] == orig[k]
    {
      assert orig[..i + 1][..i] == orig[..i];
      a[i] := Add(a[i], a[i - 1]);
    }
  }

  /**
   * decompress_diff: decodes onto `numbers`, then turns the WHOLE vector,
   * earlier contents included, into running sums.
   */
  method DecompressDiff(buf: seq<byte>, numbers: seq<u64>) returns (r: Option<seq<u64>>)
    ensures Decoding(buf).None? ==> r.None?
    ensures Decoding(buf).Some? ==> r == Some(PrefixSums(numbers + Decoding(buf).value))
  {
    var decoded := Decode(buf, numbers);
    if decoded.None? {
      return None;
    }
    var v := decoded.value;
    var a := new u64[|v|](i requires 0 <= i < |v| => v[i]);
    assert a[..] == v;
    RunningSums(a);
    r := Some(a[..]);
  }

  /** compress_diff then decompress_diff into an empty vector gives the numbers back. */
  lemma CompressRoundTrip(xs: seq<u64>)
    requires |xs| < Word
    ensures Decoding(Encoding(Diffs(xs))).Some?
    ensures PrefixSums([] + Decoding(Encoding(Diffs(xs))).value) == xs
  {
    RoundTrip(Diffs(xs), []);
    assert Encoding(Diffs(xs)) + [] == Encoding(Diffs(xs));
    assert [] + Diffs(xs) == Diffs(xs);
    PrefixSumsOfDiffs(xs);
  }
}

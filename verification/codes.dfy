/** The variable-length integer code of the LS11 stream (`LS11_decode_bit`):
    a prefix of L bits (L-1 ones and a terminating zero), then exactly L
    suffix bits. Both halves are accumulated as numbers, most significant bit
    first, and the value is their sum. */
module Codes {
  import opened Common
  import opened BitReader

  /** The longest prefix the source's `int32_t` accumulators can hold: after
      31 bits the first half is 2^31 - 2, and a 32nd bit would shift a one
      into the sign bit. */
  const MaxPrefixBits: nat := 31

  /** Values the decoder can return without overflowing: the sum of the two
      halves must itself be an `int32_t`. */
  predicate Encodable(v: nat) {
    v <= Int32Max
  }

  lemma Pow2Of31()
    ensures Pow2(MaxPrefixBits) == 0x8000_0000
  {
    assert Pow2(8) == 0x100;
    Pow2Add(8, 8);
    Pow2Add(16, 15);
    assert Pow2(15) == 0x8000;
  }

  // ---------------------------------------------------------------------
  // Decoder
  // ---------------------------------------------------------------------

  /** What the first half of a code leaves: the accumulator, the number of
      bits read and the reader. */
  datatype Prefix = Prefix(acc: nat, len: nat, next: Reader)

  /** A number read from the stream, and the reader after it. */
  datatype Value = Value(n: nat, next: Reader)

  /** The first half: having read `len` one-bits into the accumulator `val`,
      keeps shifting bits in until a zero arrives. */
  function ReadPrefix(data: seq<Byte>, r: Reader, val: nat, len: nat): (res: Result<Prefix>)
    requires len < MaxPrefixBits && val == Pow2(len) - 1
    ensures res.Ok? ==> len < res.value.len <= MaxPrefixBits && res.value.acc == Pow2(res.value.len) - 2
    decreases |data| - r.pos, r.mask
  {
    ReadBitProgress(data, r);
    match ReadBit(data, r)
    case Err(e) => Err(e)
    case Ok(step) =>
    if step.bit == 0 then Ok(Prefix(2 * val, len + 1, step.next))
    else if len + 1 >= MaxPrefixBits then Err(CodeTooLong)
    else ReadPrefix(data, step.next, 2 * val + 1, len + 1)
  }

  /** The second half: `n` bits shifted into an accumulator. */
  function ReadNumber(data: seq<Byte>, r: Reader, n: nat): (res: Result<Value>)
    ensures res.Ok? ==> res.value.n < Pow2(n)
    decreases n
  {
    if n == 0 then Ok(Value(0, r))
    else
      match ReadNumber(data, r, n - 1)
      case Err(e) => Err(e)
      case Ok(high) =>
        match ReadBit(data, high.next)
        case Err(e) => Err(e)
        case Ok(step) => Ok(Value(2 * high.n + step.bit, step.next))
  }

  /** Decodes one integer: the first half, then as many bits again. */
  function DecodeCode(data: seq<Byte>, r: Reader): (res: Result<Value>)
  {
    match ReadPrefix(data, r, 0, 0)
    case Err(e) => Err(e)
    case Ok(prefix) =>
      match ReadNumber(data, prefix.next, prefix.len)
      case Err(e) => Err(e)
      case Ok(suffix) =>
        if prefix.acc + suffix.n > Int32Max then Err(CodeTooLong)
        else Ok(Value(prefix.acc + suffix.n, suffix.next))
  }

  // ---------------------------------------------------------------------
  // The code, as an independent definition
  // ---------------------------------------------------------------------

  /** The number L of prefix bits in the code of `v`: the values with an
      L-bit prefix are exactly 2^L - 2 .. 2^(L+1) - 3. */
  function CodeLength(v: nat): (l: nat)
    ensures l >= 1
    ensures Pow2(l) - 2 <= v < Pow2(l + 1) - 2
  {
    if v < 2 then 1 else 1 + CodeLength((v - 2) / 2)
  }

  /** The ranges of successive prefix lengths do not overlap, so each value
      has exactly one prefix length. */
  lemma CodeLengthUnique(v: nat, l: nat)
    requires l >= 1 && Pow2(l) - 2 <= v < Pow2(l + 1) - 2
    ensures l == CodeLength(v)
  {
    var c := CodeLength(v);
    if l < c {
      Pow2Monotonic(l + 1, c);
    } else if c < l {
      Pow2Monotonic(c + 1, l);
    }
  }

  /** The code of `v`: L-1 ones, a zero, then v - (2^L - 2) in L bits. */
  function CodeBits(v: nat): (bs: seq<Bit>)
    ensures |bs| == 2 * CodeLength(v)
  {
    var l := CodeLength(v);
    Ones(l - 1) + [0] + ToBits(v - (Pow2(l) - 2), l)
  }

  /** Every value with a prefix of at most 30 bits can be returned; with 31
      prefix bits only the suffixes 0 and 1 can, the first half being
      2^31 - 2 already; longer prefixes never. */
  lemma EncodableLength(v: nat)
    ensures Encodable(v) ==> CodeLength(v) <= MaxPrefixBits
    ensures CodeLength(v) < MaxPrefixBits ==> Encodable(v)
    ensures CodeLength(v) == MaxPrefixBits ==>
      (Encodable(v) <==> v - (Pow2(MaxPrefixBits) - 2) <= 1)
  {
    Pow2Of31();
    var l := CodeLength(v);
    if l > MaxPrefixBits {
      Pow2Monotonic(MaxPrefixBits + 1, l);
    } else if l < MaxPrefixBits {
      Pow2Monotonic(l + 1, MaxPrefixBits);
    }
  }

  /** The concrete codes of the first values. */
  lemma SmallCodes()
    ensures CodeBits(0) == [0, 0]
    ensures CodeBits(1) == [0, 1]
    ensures CodeBits(2) == [1, 0, 0, 0]
    ensures CodeBits(3) == [1, 0, 0, 1]
  {
    assert CodeLength(0) == 1 && CodeLength(1) == 1;
    assert CodeLength(2) == 2 && CodeLength(3) == 2;
    assert Ones(1) == [1];
    assert ToBits(0, 1) == [0] && ToBits(1, 1) == [1];
    assert ToBits(0, 2) == [0, 0] && ToBits(1, 2) == [0, 1];
  }

  /** The stream holds, from bit `k` on, a code with an `l`-bit prefix worth
      `v`: l-1 ones, a zero, and l bits worth v - (2^l - 2). */
  ghost predicate CodeAt(data: seq<Byte>, start: nat, k: nat, l: nat, v: nat) {
    && l >= 1
    && k + 2 * l <= Avail(data, start)
    && OnesAt(data, start, k, l - 1)
    && StreamBit(data, start, k + l - 1) == 0
    && StreamValue(data, start, k + l, l) + Pow2(l) - 2 == v
  }

  /** The stream holds the code of `v` from bit `k` on. */
  ghost predicate HoldsCode(data: seq<Byte>, start: nat, k: nat, v: nat) {
    CodeAt(data, start, k, CodeLength(v), v)
  }

  // ---------------------------------------------------------------------
  // Decoder against code
  // ---------------------------------------------------------------------

  /** A one followed by `m` ones is `m + 1` ones. */
  lemma OnesAtCons(data: seq<Byte>, start: nat, k: nat, m: nat)
    requires k < Avail(data, start) && StreamBit(data, start, k) == 1
    requires OnesAt(data, start, k + 1, m)
    ensures OnesAt(data, start, k, m + 1)
  {
    forall i | k <= i < k + (m + 1)
      ensures StreamBit(data, start, i) == 1
    {
      if i > k {
        assert k + 1 <= i < k + 1 + m;
      }
    }
  }

  /** Where the first half stops: the reader is just past the bits it
      consumed. */
  lemma {:induction false} ReadPrefixEnd(data: seq<Byte>, start: nat, r: Reader, k: nat, val: nat, len: nat, res: Prefix)
    requires Tracks(data, start, r, k)
    requires len < MaxPrefixBits && val == Pow2(len) - 1
    requires ReadPrefix(data, r, val, len) == Ok(res)
    ensures Tracks(data, start, res.next, k + (res.len - len))
    decreases MaxPrefixBits - len
  {
    var step := ReadBit(data, r).value;
    ReadBitStep(data, start, r, k, step);
    if step.bit == 1 {
      ReadPrefixEnd(data, start, step.next, k + 1, 2 * val + 1, len + 1, res);
      assert Tracks(data, start, res.next, k + (res.len - len));
    }
  }

  /** What the first half read before its zero: from bit `k` on, n-1 ones,
      where n is the number of bits it consumed. */
  lemma {:induction false} ReadPrefixOnes(data: seq<Byte>, start: nat, r: Reader, k: nat, val: nat, len: nat, res: Prefix)
    requires Tracks(data, start, r, k)
    requires len < MaxPrefixBits && val == Pow2(len) - 1
    requires ReadPrefix(data, r, val, len) == Ok(res)
    ensures OnesAt(data, start, k, res.len - len - 1)
    decreases MaxPrefixBits - len
  {
    var step := ReadBit(data, r).value;
    ReadBitStep(data, start, r, k, step);
    if step.bit == 1 {
      ReadPrefixOnes(data, start, step.next, k + 1, 2 * val + 1, len + 1, res);
      OnesAtCons(data, start, k, res.len - len - 2);
    }
  }

  /** The first half stops at a zero: the last of the n bits it consumed. */
  lemma {:induction false} ReadPrefixZero(data: seq<Byte>, start: nat, r: Reader, k: nat, val: nat, len: nat, res: Prefix)
    requires Tracks(data, start, r, k)
    requires len < MaxPrefixBits && val == Pow2(len) - 1
    requires ReadPrefix(data, r, val, len) == Ok(res)
    ensures k + (res.len - len) <= Avail(data, start)
    ensures StreamBit(data, start, k + (res.len - len) - 1) == 0
    decreases MaxPrefixBits - len
  {
    var step := ReadBit(data, r).value;
    ReadBitStep(data, start, r, k, step);
    if step.bit == 1 {
      ReadPrefixZero(data, start, step.next, k + 1, 2 * val + 1, len + 1, res);
      assert k + 1 + (res.len - (len + 1)) - 1 == k + (res.len - len) - 1;
    }
  }

  /** The first half from a fresh accumulator read L-1 ones and a zero, with
      L the prefix length it returns, and the reader is past them. */
  lemma PrefixTracks(data: seq<Byte>, start: nat, r: Reader, k: nat, p: Prefix)
    requires Tracks(data, start, r, k)
    requires ReadPrefix(data, r, 0, 0) == Ok(p)
    ensures k + p.len <= Avail(data, start)
    ensures OnesAt(data, start, k, p.len - 1)
    ensures StreamBit(data, start, k + p.len - 1) == 0
    ensures Tracks(data, start, p.next, k + p.len)
  {
    ReadPrefixEnd(data, start, r, k, 0, 0, p);
    ReadPrefixOnes(data, start, r, k, 0, 0, p);
    ReadPrefixZero(data, start, r, k, 0, 0, p);
    assert p.len - 0 == p.len;
  }

  /** Ones from bit `k` up to the bit before `k + m`, then a zero, make the
      first half return 2^L - 2 with L = len + m + 1. */
  lemma {:induction false} ReadPrefixAt(data: seq<Byte>, start: nat, r: Reader, k: nat, val: nat, len: nat, m: nat)
    returns (res: Prefix)
    requires Tracks(data, start, r, k)
    requires val == Pow2(len) - 1 && len + m + 1 <= MaxPrefixBits
    requires OnesAt(data, start, k, m) && k + m < Avail(data, start)
    requires StreamBit(data, start, k + m) == 0
    ensures ReadPrefix(data, r, val, len) == Ok(res)
    ensures res.len == len + m + 1
    decreases m
  {
    ReadBitTracks(data, start, r, k);
    var step := ReadBit(data, r).value;
    if m > 0 {
      assert StreamBit(data, start, k) == 1;
      assert OnesAt(data, start, k + 1, m - 1);
      assert k + m == k + 1 + (m - 1);
      res := ReadPrefixAt(data, start, step.next, k + 1, 2 * val + 1, len + 1, m - 1);
    } else {
      res := Prefix(2 * val, len + 1, step.next);
    }
  }

  /** After the second half the reader is past the `n` bits it read. */
  lemma {:induction false} ReadNumberNext(data: seq<Byte>, start: nat, r: Reader, k: nat, n: nat, q: Value)
    requires Tracks(data, start, r, k)
    requires ReadNumber(data, r, n) == Ok(q)
    ensures Tracks(data, start, q.next, k + n)
    decreases n
  {
    if n > 0 {
      var high := ReadNumber(data, r, n - 1).value;
      ReadNumberNext(data, start, r, k, n - 1, high);
      ReadBitStep(data, start, high.next, k + (n - 1), ReadBit(data, high.next).value);
      assert Tracks(data, start, q.next, k + n);
    }
  }

  /** The second half returns the next `n` bits of the stream read as a
      number. */
  lemma {:induction false} ReadNumberValue(data: seq<Byte>, start: nat, r: Reader, k: nat, n: nat, q: Value)
    requires Tracks(data, start, r, k)
    requires ReadNumber(data, r, n) == Ok(q)
    ensures k + n <= Avail(data, start)
    ensures q.n == StreamValue(data, start, k, n)
    decreases n
  {
    if n > 0 {
      var high := ReadNumber(data, r, n - 1).value;
      ReadNumberValue(data, start, r, k, n - 1, high);
      ReadNumberNext(data, start, r, k, n - 1, high);
      var step := ReadBit(data, high.next).value;
      ReadBitStep(data, start, high.next, k + (n - 1), step);
      assert q.n == 2 * high.n + step.bit;
      assert step.bit == StreamBit(data, start, k + n - 1);
    }
  }

  /** What the second half returns: the next `n` bits of the stream read as
      a number, with the reader past them. */
  lemma ReadNumberRead(data: seq<Byte>, start: nat, r: Reader, k: nat, n: nat, q: Value)
    requires Tracks(data, start, r, k)
    requires ReadNumber(data, r, n) == Ok(q)
    ensures k + n <= Avail(data, start)
    ensures q.n == StreamValue(data, start, k, n)
    ensures Tracks(data, start, q.next, k + n)
  {
    ReadNumberValue(data, start, r, k, n, q);
    ReadNumberNext(data, start, r, k, n, q);
  }

  /** The second half succeeds exactly when the stream still has `n` bits. */
  lemma {:induction false} ReadNumberOk(data: seq<Byte>, start: nat, r: Reader, k: nat, n: nat)
    requires Tracks(data, start, r, k)
    ensures ReadNumber(data, r, n).Ok? <==> k + n <= Avail(data, start)
    decreases n
  {
    if n > 0 {
      ReadNumberOk(data, start, r, k, n - 1);
      if ReadNumber(data, r, n - 1).Ok? {
        var high := ReadNumber(data, r, n - 1).value;
        ReadNumberRead(data, start, r, k, n - 1, high);
        ReadBitTracks(data, start, high.next, k + (n - 1));
      }
      if ReadNumber(data, r, n).Ok? {
        ReadNumberRead(data, start, r, k, n, ReadNumber(data, r, n).value);
      }
    }
  }

  /** A decode succeeds exactly when both halves do, and then adds them. */
  lemma DecodeCodeHalves(data: seq<Byte>, r: Reader, c: Value)
    requires DecodeCode(data, r) == Ok(c)
    ensures ReadPrefix(data, r, 0, 0).Ok?
    ensures var p := ReadPrefix(data, r, 0, 0).value;
      && ReadNumber(data, p.next, p.len).Ok?
      && c == Value(p.acc + ReadNumber(data, p.next, p.len).value.n, ReadNumber(data, p.next, p.len).value.next)
  {
  }

  /** Every value the decoder returns is an `int32_t`. */
  lemma DecodeCodeEncodable(data: seq<Byte>, r: Reader, c: Value)
    requires DecodeCode(data, r) == Ok(c)
    ensures Encodable(c.n)
  {
  }

  /** The two halves read a code whose prefix length is the first half's. */
  lemma HalvesRead(data: seq<Byte>, start: nat, r: Reader, k: nat, p: Prefix, q: Value)
    requires Tracks(data, start, r, k)
    requires ReadPrefix(data, r, 0, 0) == Ok(p)
    requires ReadNumber(data, p.next, p.len) == Ok(q)
    ensures CodeAt(data, start, k, p.len, p.acc + q.n)
    ensures Tracks(data, start, q.next, k + p.len + p.len)
  {
    PrefixTracks(data, start, r, k, p);
    ReadNumberRead(data, start, p.next, k + p.len, p.len, q);
  }

  /** A code with an `l`-bit prefix, l at most `MaxPrefixBits`, is read by
      the two halves. */
  lemma HalvesAt(data: seq<Byte>, start: nat, r: Reader, k: nat, l: nat, v: nat)
    returns (p: Prefix, q: Value)
    requires Tracks(data, start, r, k)
    requires CodeAt(data, start, k, l, v) && l <= MaxPrefixBits
    ensures ReadPrefix(data, r, 0, 0) == Ok(p) && p.len == l
    ensures ReadNumber(data, p.next, l) == Ok(q)
    ensures p.acc + q.n == v
    ensures Tracks(data, start, q.next, k + l + l)
  {
    assert k + (l - 1) == k + l - 1;
    p := ReadPrefixAt(data, start, r, k, 0, 0, l - 1);
    PrefixTracks(data, start, r, k, p);
    ReadNumberOk(data, start, p.next, k + l, l);
    q := ReadNumber(data, p.next, l).value;
    ReadNumberRead(data, start, p.next, k + l, l, q);
    assert p.acc == Pow2(l) - 2;
    assert q.n == StreamValue(data, start, k + l, l);
  }

  /** After a decode the reader is past exactly the code it read. */
  lemma DecodeCodeNext(data: seq<Byte>, start: nat, r: Reader, k: nat, c: Value)
    requires Tracks(data, start, r, k)
    requires DecodeCode(data, r) == Ok(c)
    ensures Tracks(data, start, c.next, k + 2 * CodeLength(c.n))
  {
    DecodeCodeHalves(data, r, c);
    var p := ReadPrefix(data, r, 0, 0).value;
    var q := ReadNumber(data, p.next, p.len).value;
    ReadPrefixEnd(data, start, r, k, 0, 0, p);
    ReadNumberNext(data, start, p.next, k + (p.len - 0), p.len, q);
    CodeLengthUnique(c.n, p.len);
    assert Tracks(data, start, q.next, k + 2 * CodeLength(c.n));
  }

  /** Whatever the decoder returns, the stream held its code, and the reader
      has moved past exactly that code. */
  lemma DecodeCodeTracks(data: seq<Byte>, start: nat, r: Reader, k: nat, c: Value)
    requires Tracks(data, start, r, k)
    requires DecodeCode(data, r) == Ok(c)
    ensures HoldsCode(data, start, k, c.n)
    ensures Tracks(data, start, c.next, k + 2 * CodeLength(c.n))
  {
    DecodeCodeHalves(data, r, c);
    var p := ReadPrefix(data, r, 0, 0).value;
    var q := ReadNumber(data, p.next, p.len).value;
    HalvesRead(data, start, r, k, p, q);
    CodeLengthUnique(c.n, p.len);
    assert k + p.len + p.len == k + 2 * CodeLength(c.n);
  }

  /** Where the stream holds the code of an encodable value, the decoder
      returns that value and moves past the code. */
  lemma DecodeCodeAt(data: seq<Byte>, start: nat, r: Reader, k: nat, v: nat)
    returns (next: Reader)
    requires Tracks(data, start, r, k)
    requires Encodable(v) && HoldsCode(data, start, k, v)
    ensures DecodeCode(data, r) == Ok(Value(v, next))
    ensures Tracks(data, start, next, k + 2 * CodeLength(v))
  {
    var l := CodeLength(v);
    EncodableLength(v);
    var p, q := HalvesAt(data, start, r, k, l, v);
    next := q.next;
    assert k + l + l == k + 2 * CodeLength(v);
  }

  /** For an encodable value, the decoder returns it exactly when the stream
      holds its code. */
  lemma DecodeCodeIff(data: seq<Byte>, start: nat, r: Reader, k: nat, v: nat)
    requires Tracks(data, start, r, k)
    requires Encodable(v)
    ensures (DecodeCode(data, r).Ok? && DecodeCode(data, r).value.n == v) <==> HoldsCode(data, start, k, v)
  {
    if DecodeCode(data, r).Ok? && DecodeCode(data, r).value.n == v {
      DecodeCodeTracks(data, start, r, k, DecodeCode(data, r).value);
    }
    if HoldsCode(data, start, k, v) {
      var next := DecodeCodeAt(data, start, r, k, v);
    }
  }

  /** Ones in the stream are ones. */
  lemma OnesAtOfBits(data: seq<Byte>, start: nat, k: nat, m: nat)
    requires BitsAt(data, start, k, Ones(m))
    ensures OnesAt(data, start, k, m)
  {
    forall i | k <= i < k + m
      ensures StreamBit(data, start, i) == 1
    {
      assert StreamBit(data, start, k + (i - k)) == Ones(m)[i - k];
    }
  }

  /** The three parts of a code in the stream. */
  lemma CodeBitsParts(data: seq<Byte>, start: nat, k: nat, l: nat, s: nat)
    requires l >= 1 && s < Pow2(l)
    requires BitsAt(data, start, k, Ones(l - 1) + [0] + ToBits(s, l))
    ensures OnesAt(data, start, k, l - 1)
    ensures StreamBit(data, start, k + l - 1) == 0
    ensures k + 2 * l <= Avail(data, start)
    ensures StreamValue(data, start, k + l, l) == s
  {
    var ones := Ones(l - 1);
    var suffix := ToBits(s, l);
    BitsAtSplit(data, start, k, ones + [0], suffix);
    BitsAtSplit(data, start, k, ones, [0]);
    assert StreamBit(data, start, (k + |ones|) + 0) == [0][0];
    assert (k + |ones|) + 0 == k + l - 1;
    OnesAtOfBits(data, start, k, l - 1);
    StreamValueOfBits(data, start, k + l, suffix);
  }

  /** Bits `CodeBits(v)` in the stream are the code of `v` there. */
  lemma CodeBitsHeld(data: seq<Byte>, start: nat, k: nat, v: nat)
    requires BitsAt(data, start, k, CodeBits(v))
    ensures HoldsCode(data, start, k, v)
  {
    var l := CodeLength(v);
    CodeBitsParts(data, start, k, l, v - (Pow2(l) - 2));
    assert CodeAt(data, start, k, l, v);
  }

  /** Ones in the stream, read as bits. */
  lemma BitsOfOnes(data: seq<Byte>, start: nat, k: nat, m: nat)
    requires OnesAt(data, start, k, m)
    ensures BitsAt(data, start, k, Ones(m))
  {
    forall i | 0 <= i < m
      ensures StreamBit(data, start, k + i) == Ones(m)[i]
    {
      assert k <= k + i < k + m;
    }
  }

  /** The parts of a code in the stream, read as its bits. */
  lemma PartsCodeBits(data: seq<Byte>, start: nat, k: nat, l: nat, s: nat)
    requires l >= 1 && s < Pow2(l) && k + 2 * l <= Avail(data, start)
    requires OnesAt(data, start, k, l - 1) && StreamBit(data, start, k + l - 1) == 0
    requires StreamValue(data, start, k + l, l) == s
    ensures BitsAt(data, start, k, Ones(l - 1) + [0] + ToBits(s, l))
  {
    PrefixPartBits(data, start, k, l);
    StreamBitsOfValue(data, start, k + l, l);
    assert k + |Ones(l - 1) + [0]| == k + l;
    BitsAtJoin(data, start, k, Ones(l - 1) + [0], ToBits(s, l));
  }

  /** Ones then a zero in the stream, read as bits. */
  lemma PrefixPartBits(data: seq<Byte>, start: nat, k: nat, l: nat)
    requires l >= 1 && k + l <= Avail(data, start)
    requires OnesAt(data, start, k, l - 1) && StreamBit(data, start, k + l - 1) == 0
    ensures BitsAt(data, start, k, Ones(l - 1) + [0])
  {
    BitsOfOnes(data, start, k, l - 1);
    assert BitsAt(data, start, k + (l - 1), [0]) by {
      assert k + (l - 1) + 0 == k + l - 1;
    }
    BitsAtJoin(data, start, k, Ones(l - 1), [0]);
  }

  /** Where the stream holds the code of `v`, its bits there are `CodeBits(v)`. */
  lemma HeldCodeBits(data: seq<Byte>, start: nat, k: nat, v: nat)
    requires HoldsCode(data, start, k, v)
    ensures BitsAt(data, start, k, CodeBits(v))
  {
    var l := CodeLength(v);
    PartsCodeBits(data, start, k, l, v - (Pow2(l) - 2));
  }

  /** The code of `v` sits in the stream exactly where its bits do. */
  lemma HoldsCodeIff(data: seq<Byte>, start: nat, k: nat, v: nat)
    ensures HoldsCode(data, start, k, v) <==> BitsAt(data, start, k, CodeBits(v))
  {
    if HoldsCode(data, start, k, v) {
      HeldCodeBits(data, start, k, v);
    }
    if BitsAt(data, start, k, CodeBits(v)) {
      CodeBitsHeld(data, start, k, v);
    }
  }

  /** Where the stream holds the bits `CodeBits(v)` of an encodable value,
      the decoder returns `v` and moves past those bits. */
  lemma DecodeCodeBitsAt(data: seq<Byte>, start: nat, r: Reader, k: nat, v: nat)
    returns (next: Reader)
    requires Tracks(data, start, r, k)
    requires Encodable(v) && BitsAt(data, start, k, CodeBits(v))
    ensures DecodeCode(data, r) == Ok(Value(v, next))
    ensures Tracks(data, start, next, k + |CodeBits(v)|)
  {
    CodeBitsHeld(data, start, k, v);
    next := DecodeCodeAt(data, start, r, k, v);
  }

  /** Whatever the decoder returns, the stream held its bits `CodeBits`, and
      the reader has moved past exactly those bits. */
  lemma DecodeCodeBitsTracks(data: seq<Byte>, start: nat, r: Reader, k: nat, c: Value)
    requires Tracks(data, start, r, k)
    requires DecodeCode(data, r) == Ok(c)
    ensures BitsAt(data, start, k, CodeBits(c.n))
    ensures Tracks(data, start, c.next, k + |CodeBits(c.n)|)
  {
    DecodeCodeTracks(data, start, r, k, c);
    HeldCodeBits(data, start, k, c.n);
  }

  // ---------------------------------------------------------------------
  // Sequences of codes
  // ---------------------------------------------------------------------

  /** The number of bits the codes of `vs` occupy. */
  function CodesSize(vs: seq<nat>): nat
    decreases |vs|
  {
    if |vs| == 0 then 0 else 2 * CodeLength(vs[0]) + CodesSize(vs[1..])
  }

  /** The codes of `vs`, one after another. */
  function CodesBits(vs: seq<nat>): (bs: seq<Bit>)
    ensures |bs| == CodesSize(vs)
    decreases |vs|
  {
    if |vs| == 0 then [] else CodeBits(vs[0]) + CodesBits(vs[1..])
  }

  /** Every value of `vs` has a code the decoder accepts. */
  ghost predicate AllEncodable(vs: seq<nat>) {
    forall i :: 0 <= i < |vs| ==> Encodable(vs[i])
  }

  /** Decoding from `r` returns the values `vs` one after another and leaves
      the reader at `next`. */
  ghost predicate DecodesTo(data: seq<Byte>, r: Reader, vs: seq<nat>, next: Reader)
    decreases |vs|
  {
    if |vs| == 0 then r == next
    else
      && DecodeCode(data, r).Ok? && DecodeCode(data, r).value.n == vs[0]
      && DecodesTo(data, DecodeCode(data, r).value.next, vs[1..], next)
  }

  /** Whatever a run of decodes returns, the stream held those codes, and the
      reader has moved past exactly them. */
  lemma {:induction false} DecodesToHeld(data: seq<Byte>, start: nat, r: Reader, k: nat, vs: seq<nat>, next: Reader)
    requires Tracks(data, start, r, k) && DecodesTo(data, r, vs, next)
    ensures BitsAt(data, start, k, CodesBits(vs))
    ensures Tracks(data, start, next, k + CodesSize(vs))
    decreases |vs|
  {
    if |vs| == 0 {
      assert BitsAt(data, start, k, []);
    } else {
      var c := DecodeCode(data, r).value;
      DecodeCodeNext(data, start, r, k, c);
      DecodesToHeld(data, start, c.next, k + 2 * CodeLength(c.n), vs[1..], next);
      assert Tracks(data, start, next, k + CodesSize(vs));
      DecodeCodeBitsTracks(data, start, r, k, c);
      BitsAtJoin(data, start, k, CodeBits(vs[0]), CodesBits(vs[1..]));
    }
  }

  /** Where the stream holds the codes of encodable values, decoding returns
      those values one after another. */
  lemma {:induction false} HeldDecodesTo(data: seq<Byte>, start: nat, r: Reader, k: nat, vs: seq<nat>)
    returns (next: Reader)
    requires Tracks(data, start, r, k)
    requires AllEncodable(vs) && BitsAt(data, start, k, CodesBits(vs))
    ensures DecodesTo(data, r, vs, next)
    ensures Tracks(data, start, next, k + CodesSize(vs))
    decreases |vs|
  {
    if |vs| == 0 {
      next := r;
    } else {
      var a, b := CodeBits(vs[0]), CodesBits(vs[1..]);
      BitsAtSplit(data, start, k, a, b);
      var mid := DecodeCodeBitsAt(data, start, r, k, vs[0]);
      assert AllEncodable(vs[1..]) by {
        forall i | 0 <= i < |vs[1..]|
          ensures Encodable(vs[1..][i])
        {
          assert vs[1..][i] == vs[i + 1];
        }
      }
      next := HeldDecodesTo(data, start, mid, k + |a|, vs[1..]);
      assert Tracks(data, start, next, k + CodesSize(vs));
    }
  }

  /** Two runs of decodes, one after the other, are one run. */
  lemma {:induction false} DecodesToJoin(data: seq<Byte>, r: Reader, a: seq<nat>, mid: Reader, b: seq<nat>, next: Reader)
    requires DecodesTo(data, r, a, mid) && DecodesTo(data, mid, b, next)
    ensures DecodesTo(data, r, a + b, next)
    decreases |a|
  {
    if |a| == 0 {
      assert a + b == b;
    } else {
      assert (a + b)[0] == a[0] && (a + b)[1..] == a[1..] + b;
      DecodesToJoin(data, DecodeCode(data, r).value.next, a[1..], mid, b, next);
    }
  }

  /** A run of decodes splits at any point. */
  lemma {:induction false} DecodesToSplit(data: seq<Byte>, r: Reader, a: seq<nat>, b: seq<nat>, next: Reader)
    returns (mid: Reader)
    requires DecodesTo(data, r, a + b, next)
    ensures DecodesTo(data, r, a, mid) && DecodesTo(data, mid, b, next)
    decreases |a|
  {
    if |a| == 0 {
      assert a + b == b;
      mid := r;
    } else {
      assert (a + b)[0] == a[0] && (a + b)[1..] == a[1..] + b;
      mid := DecodesToSplit(data, DecodeCode(data, r).value.next, a[1..], b, next);
    }
  }

  /** The byte 0x90 holds the code of 3 in its first four bits. */
  lemma HoldsThree(data: seq<Byte>, start: nat)
    requires start < |data| && data[start] == 0x90
    ensures HoldsCode(data, start, 0, 3)
  {
    assert ByteBit(0x90, 0) == 1 && ByteBit(0x90, 1) == 0;
    assert ByteBit(0x90, 2) == 0 && ByteBit(0x90, 3) == 1;
    assert OnesAt(data, start, 0, 1);
    assert StreamValue(data, start, 2, 2) == 1;
    assert CodeLength(3) == 2;
  }

  /** The bits of a first code at bit `k`, followed at bit `m` by the bits
      of the rest, are the bits of all the codes. */
  lemma CodesBitsCons(data: seq<Byte>, start: nat, k: nat, m: nat, vs: seq<nat>)
    requires |vs| > 0 && BitsAt(data, start, k, CodeBits(vs[0])) && m == k + |CodeBits(vs[0])|
    requires BitsAt(data, start, m, CodesBits(vs[1..]))
    ensures BitsAt(data, start, k, CodesBits(vs))
  {
    var a, b := CodeBits(vs[0]), CodesBits(vs[1..]);
    BitsAtJoinAt(data, start, k, m, a, b);
    assert CodesBits(vs) == a + b;
  }

  /** A worked example: a byte 0x40 starts with the bits 0 1, the code of 1,
      and the decode leaves the reader at the third bit of that byte. */
  lemma DecodeExampleOne(data: seq<Byte>, start: nat)
    requires start < |data| && data[start] == 0x40
    ensures DecodeCode(data, Fresh(start)) == Ok(Value(1, Reader(0x40, 32, start + 1)))
  {
    FreshTracks(data, start);
    assert StreamBit(data, start, 0) == 0 && StreamBit(data, start, 1) == 1;
    assert StreamValue(data, start, 1, 1) == 1;
    var next := DecodeCodeAt(data, start, Fresh(start), 0, 1);
  }

  /** A worked example: a byte 0x90 starts with the bits 1 0 0 1, the code
      of 3, and the decode leaves the reader at the fifth bit of that byte. */
  lemma DecodeExampleThree(data: seq<Byte>, start: nat)
    requires start < |data| && data[start] == 0x90
    ensures DecodeCode(data, Fresh(start)) == Ok(Value(3, Reader(0x90, 8, start + 1)))
  {
    FreshTracks(data, start);
    HoldsThree(data, start);
    var next := DecodeCodeAt(data, start, Fresh(start), 0, 3);
    assert CodeLength(3) == 2;
  }

  // ---------------------------------------------------------------------
  // Reading past the end of the archive
  // ---------------------------------------------------------------------

  /** `LS11_read_bit` as written: at the end of the file the failed `fread`
      leaves the reader as it was, and -1 comes back in place of a bit. */
  function ReadBitAsWritten(data: seq<Byte>, r: Reader): (res: (int, Reader))
  {
    if r.mask == 0 && r.pos >= |data| then (-1 as int, r)
    else
      ReadBitProgress(data, r);
      var step := ReadBit(data, r).value;
      (step.bit, step.next)
  }

  /** From a reader that has delivered `k` bits, the read as written returns
      bit `k` of the stream while there is one, and then -1 forever, the
      reader standing still. */
  lemma ReadBitAsWrittenTracks(data: seq<Byte>, start: nat, r: Reader, k: nat)
    requires Tracks(data, start, r, k)
    ensures ReadBitAsWritten(data, r).0 == (if k < Avail(data, start) then StreamBit(data, start, k) else -1)
    ensures k >= Avail(data, start) ==> ReadBitAsWritten(data, r).1 == r
    ensures k < Avail(data, start) ==> Tracks(data, start, ReadBitAsWritten(data, r).1, k + 1)
  {
    ReadBitTracks(data, start, r, k);
    ReadBitProgress(data, r);
  }

  /** An `int32_t` as its 32 bits, two's complement. */
  function Int32Bits(x: int): bv32
    requires -0x8000_0000 <= x <= Int32Max
  {
    if x < 0 then (x + 0x1_0000_0000) as bv32 else x as bv32
  }

  /** Where the first-half loop of `LS11_decode_bit` as written stands: still
      going, or left with the accumulator, the count and the reader. */
  datatype PrefixLoop =
    | Running(acc: bv32, len: nat, r: Reader)
    | Exited(acc: bv32, len: nat, next: Reader)

  /** The first-half loop as written, run for at most `passes` passes: each
      pass ORs the bit read (-1 at the end of the file) into the shifted
      accumulator, and the loop goes on while the accumulator is odd. */
  function PrefixAsWritten(data: seq<Byte>, r: Reader, acc: bv32, len: nat, passes: nat): PrefixLoop
    decreases passes
  {
    if passes == 0 then Running(acc, len, r)
    else
      var got := ReadBitAsWritten(data, r);
      var acc' := (acc << 1) | Int32Bits(got.0);
      if acc' & 1 == 1 then PrefixAsWritten(data, got.1, acc', len + 1, passes - 1)
      else Exited(acc', len + 1, got.1)
  }

  /** Once the archive is used up, the loop as written never exits: -1 ORed
      into the accumulator makes it all ones, which is odd, and the reader
      does not move. */
  lemma {:induction false} PrefixAsWrittenHangs(data: seq<Byte>, r: Reader, acc: bv32, len: nat, passes: nat)
    requires r.mask == 0 && r.pos >= |data|
    ensures PrefixAsWritten(data, r, acc, len, passes).Running?
    decreases passes
  {
    if passes > 0 {
      var all := (acc << 1) | Int32Bits(-1);
      assert all == 0xFFFF_FFFF;
      PrefixAsWrittenHangs(data, r, all, len + 1, passes - 1);
    }
  }

  /** With the end-of-file check, a first half whose ones run to the end of
      the archive reports `Truncated` instead of reading on. */
  lemma {:induction false} ReadPrefixRunsOut(data: seq<Byte>, start: nat, r: Reader, k: nat, val: nat, len: nat)
    requires Tracks(data, start, r, k)
    requires val == Pow2(len) - 1 && len + (Avail(data, start) - k) < MaxPrefixBits
    requires OnesAt(data, start, k, Avail(data, start) - k)
    ensures ReadPrefix(data, r, val, len) == Err(Truncated)
    decreases Avail(data, start) - k
  {
    ReadBitTracks(data, start, r, k);
    ReadBitProgress(data, r);
    if k < Avail(data, start) {
      var step := ReadBit(data, r).value;
      assert StreamBit(data, start, k) == 1;
      ReadBitStep(data, start, r, k, step);
      ReadPrefixRunsOut(data, start, step.next, k + 1, 2 * val + 1, len + 1);
    }
  }

  /** The decoder with the end-of-file check: a code whose prefix is cut
      off by the end of the archive, including one that starts there,
      reports `Truncated`. */
  lemma DecodeCodeAtEnd(data: seq<Byte>, start: nat, r: Reader, k: nat)
    requires Tracks(data, start, r, k)
    requires Avail(data, start) - k < MaxPrefixBits
    requires OnesAt(data, start, k, Avail(data, start) - k)
    ensures DecodeCode(data, r) == Err(Truncated)
  {
    ReadPrefixRunsOut(data, start, r, k, 0, 0);
  }
}

/** The most-significant-bit-first bit reader of the LS11 decompressor
    (`LS11_reader_t`, `LS11_reader_init`, `LS11_read_bit`), and the view of a
    byte stream as a bit stream that the reader realises. */
module BitReader {
  import opened Common

  /** The reader: the byte being consumed, the mask of its next bit (zero
      once the byte is used up), and the file position of the next byte to
      fetch. */
  datatype Reader = Reader(buf: Byte, mask: Byte, pos: nat)

  /** A reader after `LS11_reader_init` and a seek to `offset`. */
  function Fresh(offset: nat): Reader {
    Reader(0, 0, offset)
  }

  /** Whether `b & m` is non-zero, for a one-bit mask `m`: the mask's bit of
      `b` is the bit of `b / 2` under the mask `m / 2`. */
  function MaskBit(b: nat, m: nat): Bit
    decreases b + m
  {
    if m <= 1 then b % 2 else MaskBit(b / 2, m / 2)
  }

  /** A bit delivered by the reader, and the reader after it. */
  datatype Step = Step(bit: Bit, next: Reader)

  /** Returns the next bit. A new byte is fetched when, and only when, the
      mask has run out; reading past the end of the archive is an error. */
  function ReadBit(data: seq<Byte>, r: Reader): (res: Result<Step>)
  {
    if r.mask == 0 && r.pos >= |data| then Err(Truncated)
    else
      var cur := if r.mask == 0 then Reader(data[r.pos], 128, r.pos + 1) else r;
      Ok(Step(MaskBit(cur.buf, cur.mask), cur.(mask := cur.mask / 2)))
  }

  /** A read fails only at the end of the archive, and otherwise consumes
      either a fresh byte or one bit of the current one. */
  lemma ReadBitProgress(data: seq<Byte>, r: Reader)
    ensures ReadBit(data, r).Err? <==> r.mask == 0 && r.pos >= |data|
    ensures ReadBit(data, r).Err? ==> ReadBit(data, r).error == Truncated
    ensures ReadBit(data, r).Ok? && r.mask == 0 ==>
      var next := ReadBit(data, r).value.next;
      next.pos == r.pos + 1 && next.buf == data[r.pos] && next.mask == 64
    ensures ReadBit(data, r).Ok? && r.mask != 0 ==>
      var next := ReadBit(data, r).value.next;
      next.pos == r.pos && next.buf == r.buf && next.mask == r.mask / 2
  {
  }

  /** Reads `n` bits in order. */
  function ReadBits(data: seq<Byte>, r: Reader, n: nat): (res: Result<(seq<Bit>, Reader)>)
    ensures res.Ok? ==> |res.value.0| == n
    decreases n
  {
    if n == 0 then Ok(([], r))
    else
      match ReadBit(data, r)
      case Err(e) => Err(e)
      case Ok(step) =>
        match ReadBits(data, step.next, n - 1)
        case Err(e) => Err(e)
        case Ok(got) => Ok(([step.bit] + got.0, got.1))
  }

  // ---------------------------------------------------------------------
  // The byte stream seen as bits
  // ---------------------------------------------------------------------

  /** Number of bits in the archive from byte `start` on. */
  function Avail(data: seq<Byte>, start: nat): nat {
    if start <= |data| then 8 * (|data| - start) else 0
  }

  /** The mask after `j` bits of a byte were delivered: 0x80 >> j. */
  function MaskAfter(j: nat): Byte
    requires j < 8
  {
    if j == 0 then 128 else MaskAfter(j - 1) / 2
  }

  lemma {:induction false} MaskAfterPow2(j: nat)
    requires j < 8
    ensures MaskAfter(j) == Pow2(7 - j)
  {
    if j > 0 {
      MaskAfterPow2(j - 1);
      assert Pow2(8 - j) == 2 * Pow2(7 - j);
    } else {
      assert Pow2(7) == 128;
    }
  }

  /** Bit `7 - j` of `b`: the `j`-th bit when reading most significant first. */
  function ByteBit(b: Byte, j: nat): Bit
    requires j < 8
  {
    MaskBit(b, MaskAfter(j))
  }

  /** The `k`-th bit of the stream that starts at byte `start`: a bit of
      the first byte, or bit `k - 8` of the stream one byte on. */
  function StreamBit(data: seq<Byte>, start: nat, k: nat): Bit
    requires k < Avail(data, start)
    decreases k
  {
    if k < 8 then ByteBit(data[start], k) else StreamBit(data, start + 1, k - 8)
  }

  /** Bit `k` of the stream is bit `k % 8` of byte `start + k / 8`. */
  lemma {:induction false} StreamBitByte(data: seq<Byte>, start: nat, k: nat)
    requires k < Avail(data, start)
    ensures StreamBit(data, start, k) == ByteBit(data[start + k / 8], k % 8)
    decreases k
  {
    if k >= 8 {
      StreamBitByte(data, start + 1, k - 8);
      assert (k - 8) / 8 == k / 8 - 1 && (k - 8) % 8 == k % 8;
    }
  }

  /** The stream holds the bits `bs` from bit `k` on. */
  ghost predicate BitsAt(data: seq<Byte>, start: nat, k: nat, bs: seq<Bit>) {
    && k + |bs| <= Avail(data, start)
    && forall i :: 0 <= i < |bs| ==> StreamBit(data, start, k + i) == bs[i]
  }

  /** The bits `k .. k+n-1` of the stream read as an unsigned number, most
      significant first. */
  function StreamValue(data: seq<Byte>, start: nat, k: nat, n: nat): (v: nat)
    requires k + n <= Avail(data, start)
    ensures v < Pow2(n)
  {
    if n == 0 then 0 else 2 * StreamValue(data, start, k, n - 1) + StreamBit(data, start, k + n - 1)
  }

  /** Bits `k .. k+n-1` of the stream. */
  function StreamBits(data: seq<Byte>, start: nat, k: nat, n: nat): (bs: seq<Bit>)
    requires k + n <= Avail(data, start)
    ensures |bs| == n
  {
    if n == 0 then [] else StreamBits(data, start, k, n - 1) + [StreamBit(data, start, k + n - 1)]
  }

  /** Bits `k .. k+m-1` of the stream are all ones. */
  ghost predicate OnesAt(data: seq<Byte>, start: nat, k: nat, m: nat) {
    && k + m <= Avail(data, start)
    && forall i :: k <= i < k + m ==> StreamBit(data, start, i) == 1
  }

  /** Where the stream holds `bs`, its value there is the value of `bs`. */
  lemma {:induction false} StreamValueOfPrefix(data: seq<Byte>, start: nat, k: nat, bs: seq<Bit>, n: nat)
    requires BitsAt(data, start, k, bs) && n <= |bs|
    ensures StreamValue(data, start, k, n) == PrefixValue(bs, n)
  {
    if n > 0 {
      StreamValueOfPrefix(data, start, k, bs, n - 1);
      assert StreamBit(data, start, k + (n - 1)) == bs[n - 1];
    }
  }

  lemma StreamValueOfBits(data: seq<Byte>, start: nat, k: nat, bs: seq<Bit>)
    requires BitsAt(data, start, k, bs)
    ensures StreamValue(data, start, k, |bs|) == BitsValue(bs)
  {
    StreamValueOfPrefix(data, start, k, bs, |bs|);
  }

  lemma BitsAtSplit(data: seq<Byte>, start: nat, k: nat, a: seq<Bit>, b: seq<Bit>)
    requires BitsAt(data, start, k, a + b)
    ensures BitsAt(data, start, k, a) && BitsAt(data, start, k + |a|, b)
  {
    forall i | 0 <= i < |a|
      ensures StreamBit(data, start, k + i) == a[i]
    {
      assert (a + b)[i] == a[i];
    }
    forall i | 0 <= i < |b|
      ensures StreamBit(data, start, k + |a| + i) == b[i]
    {
      assert (a + b)[|a| + i] == b[i];
    }
  }

  lemma BitsAtJoin(data: seq<Byte>, start: nat, k: nat, a: seq<Bit>, b: seq<Bit>)
    requires BitsAt(data, start, k, a) && BitsAt(data, start, k + |a|, b)
    ensures BitsAt(data, start, k, a + b)
  {
    forall i | 0 <= i < |a + b|
      ensures StreamBit(data, start, k + i) == (a + b)[i]
    {
      if i >= |a| {
        assert StreamBit(data, start, k + |a| + (i - |a|)) == b[i - |a|];
      }
    }
  }

  /** `BitsAtJoin` with the offset of the second part given by value. */
  lemma BitsAtJoinAt(data: seq<Byte>, start: nat, k: nat, m: nat, a: seq<Bit>, b: seq<Bit>)
    requires BitsAt(data, start, k, a) && BitsAt(data, start, m, b) && m == k + |a|
    ensures BitsAt(data, start, k, a + b)
  {
    BitsAtJoin(data, start, k, a, b);
  }

  lemma {:induction false} StreamBitsAt(data: seq<Byte>, start: nat, k: nat, n: nat)
    requires k + n <= Avail(data, start)
    ensures BitsAt(data, start, k, StreamBits(data, start, k, n))
  {
    if n > 0 {
      StreamBitsAt(data, start, k, n - 1);
      assert k + (n - 1) + 0 == k + n - 1;
      BitsAtJoin(data, start, k, StreamBits(data, start, k, n - 1), [StreamBit(data, start, k + n - 1)]);
    }
  }

  /** The bits of the stream from `k` on are the `n`-bit representation of
      their value. */
  lemma StreamBitsOfValue(data: seq<Byte>, start: nat, k: nat, n: nat)
    requires k + n <= Avail(data, start)
    ensures BitsAt(data, start, k, ToBits(StreamValue(data, start, k, n), n))
  {
    var bs := StreamBits(data, start, k, n);
    StreamBitsAt(data, start, k, n);
    StreamValueOfBits(data, start, k, bs);
    ToBitsOfValue(bs);
  }

  /** The number of bits of the current byte a mask has still to deliver:
      the bit length of the mask, so 0 for the empty mask and `8 - j` for
      `0x80 >> j`. */
  function Left(m: nat): nat
  {
    if m == 0 then 0 else 1 + Left(m / 2)
  }

  /** The reader has delivered exactly the first `k` bits of the stream
      starting at byte `start`: the bytes fetched so far are the `k` bits
      delivered and the bits its mask has still to deliver; a non-empty mask
      is that of bit `8 - Left(mask)` of the last byte fetched. */
  ghost predicate Tracks(data: seq<Byte>, start: nat, r: Reader, k: nat) {
    && k <= Avail(data, start)
    && 8 * r.pos == 8 * start + k + Left(r.mask)
    && (r.mask != 0 ==>
      && 1 <= Left(r.mask) <= 7
      && r.mask == MaskAfter(8 - Left(r.mask))
      && r.pos <= |data|
      && r.buf == data[r.pos - 1])
  }

  lemma FreshTracks(data: seq<Byte>, start: nat)
    ensures Tracks(data, start, Fresh(start), 0)
  {
  }

  /** One read from a reader that has delivered `k` bits fails exactly when
      the stream has no bit `k`, and otherwise returns that bit. */
  lemma ReadBitTracks(data: seq<Byte>, start: nat, r: Reader, k: nat)
    requires Tracks(data, start, r, k)
    ensures ReadBit(data, r).Err? <==> k >= Avail(data, start)
    ensures ReadBit(data, r).Ok? ==>
      && ReadBit(data, r).value.bit == StreamBit(data, start, k)
      && Tracks(data, start, ReadBit(data, r).value.next, k + 1)
  {
    if k < Avail(data, start) {
      StreamBitByte(data, start, k);
    }
    if r.mask == 0 {
      DivUnique(k, 8, r.pos - start, 0);
      assert Left(64) == 7;
    } else {
      var j := 8 - Left(r.mask);
      DivUnique(k, 8, r.pos - start - 1, j);
      assert k % 8 == j;
    }
  }

  /** A bit read from a reader that has delivered `k` bits is bit `k` of
      the stream, and the reader then has delivered `k + 1`. */
  lemma ReadBitStep(data: seq<Byte>, start: nat, r: Reader, k: nat, step: Step)
    requires Tracks(data, start, r, k) && ReadBit(data, r) == Ok(step)
    ensures k < Avail(data, start) && step.bit == StreamBit(data, start, k)
    ensures Tracks(data, start, step.next, k + 1)
  {
    ReadBitTracks(data, start, r, k);
  }

  /** Reading `n` bits from a reader that has delivered `k` bits succeeds
      exactly when the stream holds bits `k .. k+n-1`. */
  lemma {:induction false} ReadBitsTracks(data: seq<Byte>, start: nat, r: Reader, k: nat, n: nat)
    requires Tracks(data, start, r, k)
    ensures ReadBits(data, r, n).Ok? <==> k + n <= Avail(data, start)
    decreases n
  {
    if n > 0 {
      ReadBitTracks(data, start, r, k);
      if ReadBit(data, r).Ok? {
        ReadBitsTracks(data, start, ReadBit(data, r).value.next, k + 1, n - 1);
      }
    }
  }

  /** The bits read from a reader that has delivered `k` bits are the
      stream's bits `k .. k+n-1`. */
  lemma {:induction false} ReadBitsAt(data: seq<Byte>, start: nat, r: Reader, k: nat, n: nat,
                                      bs: seq<Bit>, next: Reader)
    requires Tracks(data, start, r, k) && ReadBits(data, r, n) == Ok((bs, next))
    ensures BitsAt(data, start, k, bs)
    decreases n
  {
    if n > 0 {
      var step := ReadBit(data, r).value;
      ReadBitStep(data, start, r, k, step);
      var got := ReadBits(data, step.next, n - 1).value;
      ReadBitsAt(data, start, step.next, k + 1, n - 1, got.0, got.1);
      assert bs == [step.bit] + got.0;
      assert BitsAt(data, start, k, [step.bit]);
      BitsAtJoin(data, start, k, [step.bit], got.0);
    }
  }

  /** After reading `n` bits from a reader that has delivered `k` bits, the
      reader has delivered `k + n`. */
  lemma {:induction false} ReadBitsNext(data: seq<Byte>, start: nat, r: Reader, k: nat, n: nat,
                                        bs: seq<Bit>, next: Reader)
    requires Tracks(data, start, r, k) && ReadBits(data, r, n) == Ok((bs, next))
    ensures Tracks(data, start, next, k + n)
    decreases n
  {
    if n == 0 {
      assert next == r;
    } else {
      var step := ReadBit(data, r).value;
      ReadBitStep(data, start, r, k, step);
      var got := ReadBits(data, step.next, n - 1).value;
      ReadBitsNext(data, start, step.next, k + 1, n - 1, got.0, got.1);
      assert Tracks(data, start, next, k + n);
    }
  }

  /** From a freshly initialised reader seeked to `start`, the `i`-th bit
      returned is bit `7 - i % 8` of byte `start + i / 8`. */
  lemma FreshReaderBits(data: seq<Byte>, start: nat, n: nat)
    ensures ReadBits(data, Fresh(start), n).Ok? <==> n == 0 || start + (n + 7) / 8 <= |data|
    ensures ReadBits(data, Fresh(start), n).Ok? ==>
      forall i :: 0 <= i < n ==>
        ReadBits(data, Fresh(start), n).value.0[i] == ByteBit(data[start + i / 8], i % 8)
  {
    FreshTracks(data, start);
    ReadBitsTracks(data, start, Fresh(start), 0, n);
    if ReadBits(data, Fresh(start), n).Ok? {
      var got := ReadBits(data, Fresh(start), n).value;
      ReadBitsAt(data, start, Fresh(start), 0, n, got.0, got.1);
      forall i | 0 <= i < n
        ensures got.0[i] == ByteBit(data[start + i / 8], i % 8)
      {
        StreamBitByte(data, start, 0 + i);
      }
    }
    if n > 0 && start <= |data| {
      var m := |data| - start;
      var q := (n + 7) / 8;
      assert 8 * q <= n + 7 < 8 * q + 8;
      assert n <= 8 * m <==> q <= m;
    }
  }

  // ---------------------------------------------------------------------
  // Packing bits into bytes (the writer's side of the stream)
  // ---------------------------------------------------------------------

  function Zeros(n: nat): (r: seq<Bit>)
    ensures |r| == n
  {
    seq(n, i => 0)
  }

  /** Bits packed most significant first into bytes, the last byte padded
      with zero bits. */
  function Pack(bs: seq<Bit>): (r: seq<Byte>)
    ensures |r| == (|bs| + 7) / 8
    decreases |bs|
  {
    assert Pow2(8) == 256;
    if |bs| == 0 then []
    else if |bs| < 8 then [BitsValue(bs + Zeros(8 - |bs|))]
    else [BitsValue(bs[..8])] + Pack(bs[8..])
  }

  lemma LastBit(x: int, a: int, b: int)
    requires x == 2 * a + b && 0 <= b < 2
    ensures x / 2 == a && x % 2 == b
  {
    DivUnique(x, 2, a, b);
  }

  /** The bit of the value of the first `n` bits under the mask of weight
      2^(n-1-j) is the `j`-th bit. */
  lemma {:induction false} MaskBitOfValue(c: seq<Bit>, n: nat, j: nat)
    requires j < n <= |c|
    ensures MaskBit(PrefixValue(c, n), Pow2(n - 1 - j)) == c[j]
    decreases n
  {
    LastBit(PrefixValue(c, n), PrefixValue(c, n - 1), c[n - 1]);
    if j < n - 1 {
      assert Pow2(n - 1 - j) == 2 * Pow2(n - 2 - j);
      MaskBitOfValue(c, n - 1, j);
      assert n - 1 - 1 - j == n - 2 - j;
    }
  }

  /** Each of the eight bits packed into a byte is read back by its mask. */
  lemma ByteBitOfValue(c: seq<Bit>, j: nat)
    requires |c| == 8 && j < 8
    ensures BitsValue(c) < 256 && ByteBit(BitsValue(c), j) == c[j]
  {
    assert Pow2(8) == 256;
    MaskAfterPow2(j);
    MaskBitOfValue(c, 8, j);
  }

  lemma {:induction false} PackBit(bs: seq<Bit>, k: nat)
    requires k < |bs|
    ensures k / 8 < |Pack(bs)| && ByteBit(Pack(bs)[k / 8], k % 8) == bs[k]
    decreases |bs|
  {
    if k < 8 {
      var chunk := if |bs| < 8 then bs + Zeros(8 - |bs|) else bs[..8];
      assert Pack(bs)[0] == BitsValue(chunk);
      ByteBitOfValue(chunk, k);
      assert chunk[k] == bs[k];
    } else {
      PackBit(bs[8..], k - 8);
      assert (k - 8) / 8 == k / 8 - 1 && (k - 8) % 8 == k % 8;
      assert Pack(bs)[k / 8] == Pack(bs[8..])[k / 8 - 1];
    }
  }

  /** A packed bit string placed at byte `start` is read back bit for bit. */
  lemma PackedBitsAt(data: seq<Byte>, start: nat, bs: seq<Bit>)
    requires start + |Pack(bs)| <= |data| && data[start..start + |Pack(bs)|] == Pack(bs)
    ensures BitsAt(data, start, 0, bs)
  {
    forall i | 0 <= i < |bs|
      ensures i < Avail(data, start) && StreamBit(data, start, i) == bs[i]
    {
      PackBit(bs, i);
      assert data[start + i / 8] == Pack(bs)[i / 8];
      StreamBitByte(data, start, i);
    }
  }
}

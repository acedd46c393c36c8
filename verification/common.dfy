/** Shared vocabulary of the LS11 model: bytes, bits, powers of two and the
    error-carrying result type that replaces the source's -1 / NULL returns. */
module Common {

  /** An octet, as read by `fread` into a `uint8_t`. */
  type Byte = b: int | 0 <= b < 256

  /** One bit of the compressed stream. */
  type Bit = b: int | 0 <= b < 2

  const Int32Max: int := 0x7FFF_FFFF

  /** Everything that can stop the pipeline, in place of the source's
      sentinels and undefined behaviour. */
  datatype Error =
    | BadMagic      // header is not "LS11"
    | Truncated     // a read ran past the end of the archive
    | CodeTooLong   // a variable-length code would overflow a 32-bit int
    | BadDistance   // a back-reference points at no byte produced so far
    | Overflow      // a decode unit would write past the track's buffer
    | NoMemory      // the track's size cannot be allocated
    | BadOffset     // the track's offset cannot be seeked to

  datatype Result<+T> = Ok(value: T) | Err(error: Error) {
    predicate IsFailure() { Err? }
    function PropagateFailure<U>(): Result<U>
      requires Err?
    {
      Err(error)
    }
    function Extract(): T
      requires Ok?
    {
      value
    }
  }

  function Pow2(n: nat): (r: nat)
    ensures r >= 1
  {
    if n == 0 then 1 else 2 * Pow2(n - 1)
  }

  lemma {:induction false} Pow2Add(a: nat, b: nat)
    ensures Pow2(a + b) == Pow2(a) * Pow2(b)
  {
    if a > 0 {
      Pow2Add(a - 1, b);
    }
  }

  lemma {:induction false} Pow2Monotonic(a: nat, b: nat)
    requires a <= b
    ensures Pow2(a) <= Pow2(b)
  {
    if a < b {
      Pow2Monotonic(a, b - 1);
    }
  }

  /** `n` one-bits. */
  function Ones(n: nat): (r: seq<Bit>)
    ensures |r| == n
  {
    seq(n, i => 1)
  }

  /** The unsigned value of the first `n` bits of `bs`, most significant
      bit first. */
  function PrefixValue(bs: seq<Bit>, n: nat): (r: nat)
    requires n <= |bs|
    ensures r < Pow2(n)
  {
    if n == 0 then 0 else 2 * PrefixValue(bs, n - 1) + bs[n - 1]
  }

  /** The unsigned value of a bit string read most significant bit first. */
  function BitsValue(bs: seq<Bit>): (r: nat)
    ensures r < Pow2(|bs|)
  {
    PrefixValue(bs, |bs|)
  }

  /** Strings that agree on their first `n` bits agree on the value of them. */
  lemma {:induction false} PrefixValueAgree(a: seq<Bit>, b: seq<Bit>, n: nat)
    requires n <= |a| && n <= |b|
    requires forall i :: 0 <= i < n ==> a[i] == b[i]
    ensures PrefixValue(a, n) == PrefixValue(b, n)
  {
    if n > 0 {
      PrefixValueAgree(a, b, n - 1);
    }
  }

  /** The `n`-bit, most significant bit first, representation of `v`. */
  function ToBits(v: nat, n: nat): (r: seq<Bit>)
    requires v < Pow2(n)
    ensures |r| == n
    ensures BitsValue(r) == v
  {
    if n == 0 then []
    else
      var high := ToBits(v / 2, n - 1);
      var r := high + [v % 2];
      PrefixValueAgree(r, high, n - 1);
      r
  }

  lemma {:induction false} ToBitsOfValue(bs: seq<Bit>)
    ensures ToBits(BitsValue(bs), |bs|) == bs
  {
    if |bs| > 0 {
      var n := |bs|;
      var front := bs[..n - 1];
      PrefixValueAgree(front, bs, n - 1);
      ToBitsOfValue(front);
      assert bs == front + [bs[n - 1]];
    }
  }

  lemma MulAtLeast(d: int, k: int)
    requires d > 0 && k >= 1
    ensures d * k >= d
  {
  }

  lemma DivUnique(x: int, d: int, q: int, m: int)
    requires d > 0 && x == d * q + m && 0 <= m < d
    ensures x / d == q
  {
    var q' := x / d;
    var m' := x % d;
    assert x == d * q' + m';
    assert d * q - d * q' == m' - m;
    assert d * (q - q') == d * q - d * q';
    if q > q' {
      MulAtLeast(d, q - q');
    } else if q < q' {
      assert d * (q' - q) == d * q' - d * q;
      MulAtLeast(d, q' - q);
    }
  }
}

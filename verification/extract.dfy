/** Track extraction: one decode unit (`LS11_extract_byte`) and the loop that
    runs units until the track's announced size is reached
    (`LS11_extract_track`). A unit is either a dictionary literal or a copy
    of earlier output; the output is an immutable byte sequence that only
    ever grows at its end. */
module Extract {
  import opened Common
  import opened BitReader
  import opened Codes
  import opened Archive

  /** What one decode unit asks for: the dictionary entry `index`, or
      `count` bytes copied from `dist` bytes back. */
  datatype Unit = Literal(index: Byte) | Copy(dist: nat, count: nat)

  /** A unit read from the stream, and the reader after it. */
  datatype UnitRead = UnitRead(unit: Unit, next: Reader)

  /** Units the decoder can return: a copy's first code must fit the
      decoder and its count, the second code plus three, an `int32_t`. */
  predicate Readable(u: Unit) {
    match u
    case Literal(_) => true
    case Copy(d, n) => Encodable(DictionarySize + d) && 3 <= n <= Int32Max
  }

  // ---------------------------------------------------------------------
  // Reading a unit
  // ---------------------------------------------------------------------

  /** The decoding half of `LS11_extract_byte`: a code below 256 is a
      literal; otherwise it is 256 plus the distance, and a second code plus
      three is the count. */
  function ReadUnit(data: seq<Byte>, r: Reader): (res: Result<UnitRead>)
    ensures res.Ok? ==> Readable(res.value.unit)
  {
    match DecodeCode(data, r)
    case Err(e) => Err(e)
    case Ok(c) =>
      DecodeCodeEncodable(data, r, c);
      if c.n < DictionarySize then Ok(UnitRead(Literal(c.n), c.next))
      else
        match DecodeCode(data, c.next)
        case Err(e) => Err(e)
        case Ok(c2) =>
          if c2.n + 3 > Int32Max then Err(CodeTooLong)
          else Ok(UnitRead(Copy(c.n - DictionarySize, c2.n + 3), c2.next))
  }

  /** The values a unit is coded as: its index; or 256 plus the distance,
      then the count less three. */
  function UnitCodes(u: Unit): (vs: seq<nat>)
    requires Readable(u)
    ensures 1 <= |vs| <= 2 && AllEncodable(vs)
  {
    match u
    case Literal(i) => [i]
    case Copy(d, n) => [DictionarySize + d, n - 3]
  }

  /** A unit is read exactly when its codes are decoded one after the other:
      the decoder's two-step reading and the unit's coding agree. */
  lemma ReadUnitCodes(data: seq<Byte>, r: Reader, u: Unit, next: Reader)
    ensures ReadUnit(data, r) == Ok(UnitRead(u, next)) <==>
      Readable(u) && DecodesTo(data, r, UnitCodes(u), next)
  {
    if ReadUnit(data, r) == Ok(UnitRead(u, next)) {
      ReadUnitDecodes(data, r, u, next);
    }
    if Readable(u) && DecodesTo(data, r, UnitCodes(u), next) {
      DecodesReadUnit(data, r, u, next);
    }
  }

  lemma ReadUnitDecodes(data: seq<Byte>, r: Reader, u: Unit, next: Reader)
    requires ReadUnit(data, r) == Ok(UnitRead(u, next))
    ensures Readable(u) && DecodesTo(data, r, UnitCodes(u), next)
  {
    var c := DecodeCode(data, r).value;
    if c.n < DictionarySize {
      assert UnitCodes(u) == [c.n];
      assert DecodesTo(data, c.next, [c.n][1..], next);
    } else {
      var c2 := DecodeCode(data, c.next).value;
      assert UnitCodes(u) == [c.n, c2.n];
      assert DecodesTo(data, c2.next, [c.n, c2.n][1..][1..], next);
    }
  }

  lemma DecodesReadUnit(data: seq<Byte>, r: Reader, u: Unit, next: Reader)
    requires Readable(u) && DecodesTo(data, r, UnitCodes(u), next)
    ensures ReadUnit(data, r) == Ok(UnitRead(u, next))
  {
    var vs := UnitCodes(u);
    var c := DecodeCode(data, r).value;
    if u.Literal? {
      assert vs[1..] == [];
    } else {
      var tail := vs[1..];
      assert DecodesTo(data, c.next, tail, next);
      var c2 := DecodeCode(data, c.next).value;
      assert tail[1..] == [];
      assert DecodesTo(data, c2.next, tail[1..], next);
      assert u == Copy(c.n - DictionarySize, c2.n + 3);
    }
  }

  // ---------------------------------------------------------------------
  // Applying a unit
  // ---------------------------------------------------------------------

  /** Appends `n` bytes, each copied from `d` places before it, one byte at
      a time: a copy may read the bytes it has just written. */
  function CopyBack(out: seq<Byte>, d: nat, n: nat): (r: seq<Byte>)
    requires 1 <= d <= |out|
    ensures |r| == |out| + n
    decreases n
  {
    if n == 0 then out else CopyBack(out + [out[|out| - d]], d, n - 1)
  }

  /** A copy keeps what was there, and every new byte equals the byte `d`
      places before it. */
  lemma {:induction false} CopyBackContents(out: seq<Byte>, d: nat, n: nat)
    requires 1 <= d <= |out|
    ensures forall i :: 0 <= i < |out| ==> CopyBack(out, d, n)[i] == out[i]
    ensures forall p :: |out| <= p < |out| + n ==> CopyBack(out, d, n)[p] == CopyBack(out, d, n)[p - d]
    decreases n
  {
    if n > 0 {
      var grown := out + [out[|out| - d]];
      CopyBackContents(grown, d, n - 1);
      var r := CopyBack(out, d, n);
      assert r == CopyBack(grown, d, n - 1);
      assert r[|out|] == grown[|out|];
    }
  }

  /** A copy from one byte back repeats the last byte `n` times. */
  lemma {:induction false} CopyBackRun(out: seq<Byte>, n: nat)
    requires |out| >= 1
    ensures forall p :: |out| <= p < |out| + n ==> CopyBack(out, 1, n)[p] == out[|out| - 1]
  {
    CopyBackContents(out, 1, n);
    var r := CopyBack(out, 1, n);
    forall p | |out| <= p < |out| + n
      ensures r[p] == out[|out| - 1]
    {
      var q := p;
      while q > |out|
        invariant |out| <= q <= p
        invariant r[q] == r[p]
        decreases q
      {
        q := q - 1;
      }
      assert r[q - 1] == out[|out| - 1];
    }
  }

  /** The writing half of `LS11_extract_byte`: a literal appends its
      dictionary byte; a copy needs a distance that reaches back into the
      output produced so far. */
  function ApplyUnit(dict: Dictionary, out: seq<Byte>, u: Unit): (res: Result<seq<Byte>>)
    requires Readable(u)
    ensures res.Err? <==> u.Copy? && (u.dist == 0 || u.dist > |out|)
    ensures res.Err? ==> res.error == BadDistance
    ensures res.Ok? ==> |res.value| > |out|
  {
    match u
    case Literal(i) => Ok(out + [dict[i]])
    case Copy(d, n) =>
      if d == 0 || d > |out| then Err(BadDistance) else Ok(CopyBack(out, d, n))
  }

  /** What a unit writes: one dictionary byte, or `count` bytes each equal to
      the byte `dist` places before it; nothing already produced changes. */
  lemma ApplyUnitContents(dict: Dictionary, out: seq<Byte>, u: Unit, grown: seq<Byte>)
    requires Readable(u) && ApplyUnit(dict, out, u) == Ok(grown)
    ensures forall i :: 0 <= i < |out| ==> grown[i] == out[i]
    ensures u.Literal? ==> grown == out + [dict[u.index]]
    ensures u.Copy? ==>
      && |grown| == |out| + u.count
      && forall p :: |out| <= p < |grown| ==> grown[p] == grown[p - u.dist]
  {
    if u.Copy? {
      CopyBackContents(out, u.dist, u.count);
    }
  }

  // ---------------------------------------------------------------------
  // The track loop
  // ---------------------------------------------------------------------

  /** `LS11_extract_track`'s loop as written: units run while fewer than
      `extsiz` bytes exist, and the last unit may write past `extsiz`. */
  function ExtractLoopAsWritten(data: seq<Byte>, dict: Dictionary, extsiz: int, r: Reader, out: seq<Byte>)
    : (res: Result<seq<Byte>>)
    ensures res.Ok? ==> |res.value| >= extsiz && |res.value| >= |out|
    decreases extsiz - |out|
  {
    if |out| >= extsiz then Ok(out)
    else
      match ReadUnit(data, r)
      case Err(e) => Err(e)
      case Ok(ur) =>
        match ApplyUnit(dict, out, ur.unit)
        case Err(e) => Err(e)
        case Ok(grown) => ExtractLoopAsWritten(data, dict, extsiz, ur.next, grown)
  }

  /** The loop with the missing bound check: a unit that would write past
      `extsiz` is an error. */
  function ExtractLoop(data: seq<Byte>, dict: Dictionary, extsiz: int, r: Reader, out: seq<Byte>)
    : (res: Result<seq<Byte>>)
    requires |out| <= extsiz
    ensures res.Ok? ==> |res.value| == extsiz
    decreases extsiz - |out|
  {
    if |out| == extsiz then Ok(out)
    else
      match ReadUnit(data, r)
      case Err(e) => Err(e)
      case Ok(ur) =>
        match ApplyUnit(dict, out, ur.unit)
        case Err(e) => Err(e)
        case Ok(grown) =>
          if |grown| > extsiz then Err(Overflow)
          else ExtractLoop(data, dict, extsiz, ur.next, grown)
  }

  /** `LS11_extract_track` as written: a negative size cannot be allocated,
      a negative offset cannot be seeked to; otherwise a fresh reader starts
      at the track's offset. */
  function ExtractTrackAsWritten(data: seq<Byte>, dict: Dictionary, t: TrackInfo): (res: Result<seq<Byte>>)
    ensures res.Ok? ==> |res.value| >= t.extsiz
  {
    if t.extsiz < 0 then Err(NoMemory)
    else if t.offset < 0 then Err(BadOffset)
    else ExtractLoopAsWritten(data, dict, t.extsiz, Fresh(t.offset), [])
  }

  /** `LS11_extract_track` with the bound check: the track is exactly
      `extsiz` bytes long. */
  function ExtractTrack(data: seq<Byte>, dict: Dictionary, t: TrackInfo): (res: Result<seq<Byte>>)
    ensures res.Ok? ==> |res.value| == t.extsiz
  {
    if t.extsiz < 0 then Err(NoMemory)
    else if t.offset < 0 then Err(BadOffset)
    else ExtractLoop(data, dict, t.extsiz, Fresh(t.offset), [])
  }

  /** The bound check changes one thing only: where the last unit would
      write past `extsiz`, the corrected loop fails instead of returning the
      longer output. */
  lemma {:induction false} ExtractLoopCorrects(data: seq<Byte>, dict: Dictionary, extsiz: int, r: Reader, out: seq<Byte>)
    requires |out| <= extsiz
    ensures ExtractLoop(data, dict, extsiz, r, out) ==
      match ExtractLoopAsWritten(data, dict, extsiz, r, out)
      case Err(e) => Err(e)
      case Ok(o) => if |o| > extsiz then Err(Overflow) else Ok(o)
    decreases extsiz - |out|
  {
    if |out| < extsiz && ReadUnit(data, r).Ok? {
      var ur := ReadUnit(data, r).value;
      if ApplyUnit(dict, out, ur.unit).Ok? {
        var grown := ApplyUnit(dict, out, ur.unit).value;
        if |grown| <= extsiz {
          ExtractLoopCorrects(data, dict, extsiz, ur.next, grown);
        } else {
          assert ExtractLoopAsWritten(data, dict, extsiz, ur.next, grown) == Ok(grown);
        }
      }
    }
  }

  // ---------------------------------------------------------------------
  // The loop against a sequence of units
  // ---------------------------------------------------------------------

  /** Every unit of `us` is readable. */
  ghost predicate AllReadable(us: seq<Unit>) {
    forall i :: 0 <= i < |us| ==> Readable(us[i])
  }

  /** The units applied in order to `out`. */
  function RunUnits(dict: Dictionary, out: seq<Byte>, us: seq<Unit>): (res: Result<seq<Byte>>)
    requires AllReadable(us)
    decreases |us|
  {
    if |us| == 0 then Ok(out)
    else
      match ApplyUnit(dict, out, us[0])
      case Err(e) => Err(e)
      case Ok(grown) => RunUnits(dict, grown, us[1..])
  }

  /** Starting from `out`, the loop performs exactly the units `us`: each
      applies, each starts below `extsiz`, and after the last one `extsiz`
      bytes exist. */
  ghost predicate Consumes(dict: Dictionary, extsiz: int, out: seq<Byte>, us: seq<Unit>)
    decreases |us|
  {
    if |us| == 0 then |out| >= extsiz
    else
      && |out| < extsiz
      && Readable(us[0])
      && ApplyUnit(dict, out, us[0]).Ok?
      && Consumes(dict, extsiz, ApplyUnit(dict, out, us[0]).value, us[1..])
  }

  lemma {:induction false} ConsumesReadable(dict: Dictionary, extsiz: int, out: seq<Byte>, us: seq<Unit>)
    requires Consumes(dict, extsiz, out, us)
    ensures AllReadable(us)
    ensures RunUnits(dict, out, us).Ok?
    decreases |us|
  {
    if |us| > 0 {
      ConsumesReadable(dict, extsiz, ApplyUnit(dict, out, us[0]).value, us[1..]);
      forall i | 0 <= i < |us|
        ensures Readable(us[i])
      {
        if i > 0 {
          assert us[i] == us[1..][i - 1];
        }
      }
    }
  }

  /** Each unit adds at least one byte, so a loop that starts below `extsiz`
      runs at most `extsiz - |out|` units. */
  lemma {:induction false} ConsumesBound(dict: Dictionary, extsiz: int, out: seq<Byte>, us: seq<Unit>)
    requires Consumes(dict, extsiz, out, us)
    ensures |out| < extsiz ==> |us| <= extsiz - |out|
    decreases |us|
  {
    if |us| > 0 {
      ConsumesBound(dict, extsiz, ApplyUnit(dict, out, us[0]).value, us[1..]);
    }
  }

  /** The reader returns the units `us` one after another and ends at
      `next`. */
  ghost predicate ReadsUnits(data: seq<Byte>, r: Reader, us: seq<Unit>, next: Reader)
    decreases |us|
  {
    if |us| == 0 then r == next
    else
      && ReadUnit(data, r).Ok? && ReadUnit(data, r).value.unit == us[0]
      && ReadsUnits(data, ReadUnit(data, r).value.next, us[1..], next)
  }

  /** Where the reader returns the units the loop is to perform, the loop as
      written returns their output. */
  lemma {:induction false} ExtractLoopOfUnits(data: seq<Byte>, dict: Dictionary, extsiz: int,
                                              r: Reader, out: seq<Byte>, us: seq<Unit>, next: Reader)
    requires Consumes(dict, extsiz, out, us) && AllReadable(us) && ReadsUnits(data, r, us, next)
    ensures ExtractLoopAsWritten(data, dict, extsiz, r, out) == RunUnits(dict, out, us)
    decreases |us|
  {
    if |us| > 0 {
      var ur := ReadUnit(data, r).value;
      ConsumesReadable(dict, extsiz, ApplyUnit(dict, out, us[0]).value, us[1..]);
      ExtractLoopOfUnits(data, dict, extsiz, ur.next, ApplyUnit(dict, out, us[0]).value, us[1..], next);
    }
  }

  /** Whatever the loop as written returns, the reader returned a sequence
      of units that the loop performed, and the result is their output. */
  lemma {:induction false} ExtractLoopUnits(data: seq<Byte>, dict: Dictionary, extsiz: int,
                                            r: Reader, out: seq<Byte>, res: seq<Byte>)
    returns (us: seq<Unit>, next: Reader)
    requires ExtractLoopAsWritten(data, dict, extsiz, r, out) == Ok(res)
    ensures Consumes(dict, extsiz, out, us) && ReadsUnits(data, r, us, next)
    ensures AllReadable(us) && RunUnits(dict, out, us) == Ok(res)
    decreases extsiz - |out|
  {
    if |out| >= extsiz {
      us, next := [], r;
    } else {
      var ur := ReadUnit(data, r).value;
      var grown := ApplyUnit(dict, out, ur.unit).value;
      var rest;
      rest, next := ExtractLoopUnits(data, dict, extsiz, ur.next, grown, res);
      us := [ur.unit] + rest;
      assert us[0] == ur.unit && us[1..] == rest;
      ConsumesReadable(dict, extsiz, out, us);
    }
  }

  // ---------------------------------------------------------------------
  // Units against codes and bits
  // ---------------------------------------------------------------------

  /** The codes of a sequence of units, one after another. */
  function UnitsCodes(us: seq<Unit>): (vs: seq<nat>)
    requires AllReadable(us)
    ensures AllEncodable(vs)
    decreases |us|
  {
    if |us| == 0 then [] else UnitCodes(us[0]) + UnitsCodes(us[1..])
  }

  lemma AllReadableTail(us: seq<Unit>)
    requires |us| > 0 && AllReadable(us)
    ensures AllReadable(us[1..])
  {
    forall i | 0 <= i < |us[1..]|
      ensures Readable(us[1..][i])
    {
      assert us[1..][i] == us[i + 1];
    }
  }

  /** Reading units one after another is decoding their codes one after
      another. */
  lemma {:induction false} ReadsUnitsDecodes(data: seq<Byte>, r: Reader, us: seq<Unit>, next: Reader)
    requires ReadsUnits(data, r, us, next)
    ensures AllReadable(us) && DecodesTo(data, r, UnitsCodes(us), next)
    decreases |us|
  {
    if |us| > 0 {
      var ur := ReadUnit(data, r).value;
      ReadUnitDecodes(data, r, ur.unit, ur.next);
      ReadsUnitsDecodes(data, ur.next, us[1..], next);
      assert AllReadable(us) by {
        forall i | 0 <= i < |us|
          ensures Readable(us[i])
        {
          if i > 0 {
            assert us[i] == us[1..][i - 1];
          }
        }
      }
      DecodesToJoin(data, r, UnitCodes(us[0]), ur.next, UnitsCodes(us[1..]), next);
    }
  }

  /** Decoding the codes of readable units one after another is reading
      those units. */
  lemma {:induction false} DecodesReadsUnits(data: seq<Byte>, r: Reader, us: seq<Unit>, next: Reader)
    requires AllReadable(us) && DecodesTo(data, r, UnitsCodes(us), next)
    ensures ReadsUnits(data, r, us, next)
    decreases |us|
  {
    if |us| > 0 {
      AllReadableTail(us);
      var mid := DecodesToSplit(data, r, UnitCodes(us[0]), UnitsCodes(us[1..]), next);
      DecodesReadUnit(data, r, us[0], mid);
      DecodesReadsUnits(data, mid, us[1..], next);
    }
  }

  /** Where the track's bits are the codes of units that the loop performs,
      the track as written is those units' output. */
  lemma ExtractTrackOfUnits(data: seq<Byte>, dict: Dictionary, t: TrackInfo, us: seq<Unit>)
    requires t.extsiz >= 0 && t.offset >= 0
    requires Consumes(dict, t.extsiz, [], us) && AllReadable(us)
    requires BitsAt(data, t.offset, 0, CodesBits(UnitsCodes(us)))
    ensures ExtractTrackAsWritten(data, dict, t) == RunUnits(dict, [], us)
  {
    var vs := UnitsCodes(us);
    FreshTracks(data, t.offset);
    var next := HeldDecodesTo(data, t.offset, Fresh(t.offset), 0, vs);
    DecodesReadsUnits(data, Fresh(t.offset), us, next);
    ExtractLoopOfUnits(data, dict, t.extsiz, Fresh(t.offset), [], us, next);
  }

  /** Round trip: a track whose bytes are the packed codes of units the
      loop performs extracts to those units' output. */
  lemma ExtractPackedTrack(data: seq<Byte>, dict: Dictionary, t: TrackInfo, us: seq<Unit>)
    requires t.extsiz >= 0 && t.offset >= 0
    requires Consumes(dict, t.extsiz, [], us) && AllReadable(us)
    requires var packed := Pack(CodesBits(UnitsCodes(us)));
      t.offset + |packed| <= |data| && data[t.offset..t.offset + |packed|] == packed
    ensures RunUnits(dict, [], us).Ok?
    ensures ExtractTrackAsWritten(data, dict, t) == RunUnits(dict, [], us)
  {
    PackedBitsAt(data, t.offset, CodesBits(UnitsCodes(us)));
    ExtractTrackOfUnits(data, dict, t, us);
    ConsumesReadable(dict, t.extsiz, [], us);
  }

  /** Whatever the track as written returns, the track's bits begin with the
      codes of units that the loop performed, and the result is their
      output. */
  lemma ExtractTrackUnits(data: seq<Byte>, dict: Dictionary, t: TrackInfo, res: seq<Byte>)
    returns (us: seq<Unit>)
    requires ExtractTrackAsWritten(data, dict, t) == Ok(res)
    ensures t.extsiz >= 0 && t.offset >= 0
    ensures Consumes(dict, t.extsiz, [], us) && AllReadable(us)
    ensures BitsAt(data, t.offset, 0, CodesBits(UnitsCodes(us)))
    ensures RunUnits(dict, [], us) == Ok(res)
  {
    var next;
    us, next := ExtractLoopUnits(data, dict, t.extsiz, Fresh(t.offset), [], res);
    ReadsUnitsDecodes(data, Fresh(t.offset), us, next);
    FreshTracks(data, t.offset);
    DecodesToHeld(data, t.offset, Fresh(t.offset), 0, UnitsCodes(us), next);
  }

  // ---------------------------------------------------------------------
  // The overrun, on a concrete track
  // ---------------------------------------------------------------------

  /** The bits of the example's three bytes 3F, 80 and C0, most significant
      first. */
  lemma OverrunByteBits(j: nat)
    requires j < 8
    ensures ByteBit(0x3F, j) == if j < 2 then 0 else 1
    ensures ByteBit(0x80, j) == if j < 1 then 1 else 0
    ensures ByteBit(0xC0, j) == if j < 2 then 1 else 0
  {
    if j == 0 {
      assert ByteBit(0x3F, 0) == 0 && ByteBit(0x80, 0) == 1 && ByteBit(0xC0, 0) == 1;
    } else if j == 1 {
      assert ByteBit(0x3F, 1) == 0 && ByteBit(0x80, 1) == 0 && ByteBit(0xC0, 1) == 1;
    } else if j == 2 {
      assert ByteBit(0x3F, 2) == 1 && ByteBit(0x80, 2) == 0 && ByteBit(0xC0, 2) == 0;
    } else if j == 3 {
      assert ByteBit(0x3F, 3) == 1 && ByteBit(0x80, 3) == 0 && ByteBit(0xC0, 3) == 0;
    } else if j == 4 {
      assert ByteBit(0x3F, 4) == 1 && ByteBit(0x80, 4) == 0 && ByteBit(0xC0, 4) == 0;
    } else if j == 5 {
      assert ByteBit(0x3F, 5) == 1 && ByteBit(0x80, 5) == 0 && ByteBit(0xC0, 5) == 0;
    } else if j == 6 {
      assert ByteBit(0x3F, 6) == 1 && ByteBit(0x80, 6) == 0 && ByteBit(0xC0, 6) == 0;
    } else {
      assert ByteBit(0x3F, 7) == 1 && ByteBit(0x80, 7) == 0 && ByteBit(0xC0, 7) == 0;
    }
  }

  /** The stream of the example, bit by bit: bit `k` lies in byte `k / 8`. */
  lemma OverrunStreamBit(data: seq<Byte>, start: nat, k: nat)
    requires start + 3 <= |data| && k < 24
    requires data[start] == 0x3F && data[start + 1] == 0x80 && data[start + 2] == 0xC0
    ensures k < Avail(data, start)
    ensures StreamBit(data, start, k) == if 2 <= k < 9 || 16 <= k < 18 then 1 else 0
  {
    StreamBitByte(data, start, k);
    OverrunByteBits(k % 8);
  }

  /** The example holds the code of 0, "00", at bits 0 and 18. */
  lemma OverrunLiteralHeld(data: seq<Byte>, start: nat, k: nat)
    requires start + 3 <= |data|
    requires data[start] == 0x3F && data[start + 1] == 0x80 && data[start + 2] == 0xC0
    requires k == 0 || k == 18
    ensures HoldsCode(data, start, k, 0)
  {
    OverrunStreamBit(data, start, k);
    OverrunStreamBit(data, start, k + 1);
    assert StreamValue(data, start, k + 1, 1) == 0;
    assert CodeLength(0) == 1;
  }

  /** The last eight bits of the code of 257 in the example: 3. */
  lemma OverrunCopySuffix(data: seq<Byte>, start: nat)
    requires start + 3 <= |data|
    requires data[start] == 0x3F && data[start + 1] == 0x80 && data[start + 2] == 0xC0
    ensures StreamValue(data, start, 10, 8) == 3
  {
    forall i | 10 <= i < 18
      ensures StreamBit(data, start, i) == if 16 <= i then 1 else 0
    {
      OverrunStreamBit(data, start, i);
    }
    assert StreamValue(data, start, 10, 6) == 0 by {
      assert StreamValue(data, start, 10, 1) == 0;
      assert StreamValue(data, start, 10, 2) == 0;
      assert StreamValue(data, start, 10, 3) == 0;
      assert StreamValue(data, start, 10, 4) == 0;
      assert StreamValue(data, start, 10, 5) == 0;
    }
    assert StreamValue(data, start, 10, 7) == 1;
  }

  /** The example holds the code of 257 at bit 2: seven ones and a zero,
      then 3 in eight bits, for 254 + 3. */
  lemma OverrunCopyHeld(data: seq<Byte>, start: nat)
    requires start + 3 <= |data|
    requires data[start] == 0x3F && data[start + 1] == 0x80 && data[start + 2] == 0xC0
    ensures HoldsCode(data, start, 2, 257) && CodeLength(257) == 8
  {
    forall i | 2 <= i < 10
      ensures StreamBit(data, start, i) == if i < 9 then 1 else 0
    {
      OverrunStreamBit(data, start, i);
    }
    assert OnesAt(data, start, 2, 7);
    OverrunCopySuffix(data, start);
    assert Pow2(8) == 256 && Pow2(9) == 512;
    CodeLengthUnique(257, 8);
  }

  /** From bit 2 on, the example holds the codes of 257 and 0. */
  lemma OverrunTailBits(data: seq<Byte>, start: nat, ws: seq<nat>)
    requires start + 3 <= |data|
    requires data[start] == 0x3F && data[start + 1] == 0x80 && data[start + 2] == 0xC0
    requires ws == [257, 0]
    ensures BitsAt(data, start, 2, CodesBits(ws))
  {
    var last := ws[1..];
    assert last == [0] && last[1..] == [];
    assert CodeLength(0) == 1;
    assert BitsAt(data, start, 20, CodesBits(last[1..]));
    assert BitsAt(data, start, 18, CodeBits(0)) by {
      OverrunLiteralHeld(data, start, 18);
      HoldsCodeIff(data, start, 18, 0);
    }
    CodesBitsCons(data, start, 18, 20, last);
    OverrunCopyHeld(data, start);
    assert BitsAt(data, start, 2, CodeBits(257)) by {
      HoldsCodeIff(data, start, 2, 257);
    }
    CodesBitsCons(data, start, 2, 18, ws);
  }

  /** The bytes 3F 80 C0 hold the codes of 0, 257 and 0: a literal of
      dictionary entry 0, then a copy of 3 bytes from 1 byte back. */
  lemma OverrunBits(data: seq<Byte>, start: nat)
    requires start + 3 <= |data|
    requires data[start] == 0x3F && data[start + 1] == 0x80 && data[start + 2] == 0xC0
    ensures BitsAt(data, start, 0, CodesBits([0, 257, 0]))
  {
    var vs: seq<nat> := [0, 257, 0];
    assert vs[1..] == [257, 0];
    OverrunTailBits(data, start, vs[1..]);
    assert CodeLength(0) == 1;
    assert BitsAt(data, start, 0, CodeBits(0)) by {
      OverrunLiteralHeld(data, start, 0);
      HoldsCodeIff(data, start, 0, 0);
    }
    CodesBitsCons(data, start, 0, 2, vs);
  }

  /** The units of the example: dictionary entry 0, then three bytes
      copied from one byte back; from nothing they make four bytes while
      the loop test sees only one below two. */
  lemma OverrunUnits(dict: Dictionary, us: seq<Unit>)
    requires us == [Literal(0), Copy(1, 3)]
    ensures AllReadable(us) && UnitsCodes(us) == [0, 257, 0]
    ensures Consumes(dict, 2, [], us)
    ensures RunUnits(dict, [], us) == Ok([dict[0], dict[0], dict[0], dict[0]])
  {
    assert us[1] == Copy(1, 3);
    assert Encodable(DictionarySize + 1);
    assert 3 <= Int32Max;
    assert Readable(Copy(1, 3));
    var none: seq<Byte>, one := [], [dict[0]];
    assert none + one == one;
    assert ApplyUnit(dict, none, us[0]) == Ok(one);
    CopyBackRun(one, 3);
    var four := CopyBack(one, 1, 3);
    assert four == [dict[0], dict[0], dict[0], dict[0]];
    assert ApplyUnit(dict, one, us[1]) == Ok(four);
    assert us[1..] == [Copy(1, 3)] && us[1..][1..] == [];
    assert Consumes(dict, 2, four, []);
    assert Consumes(dict, 2, one, us[1..]);
    assert RunUnits(dict, one, us[1..]) == Ok(four);
    assert UnitCodes(us[0]) == [0] && UnitCodes(us[1]) == [257, 0];
    assert UnitsCodes(us[1..][1..]) == [];
    assert UnitsCodes(us[1..]) == [257, 0];
  }

  /** The overrun on a concrete track: with `extsiz` 2 and the bytes
      3F 80 C0 at its offset, the loop as written returns four bytes, and
      the corrected loop reports the overflow. */
  lemma ExtractOverrun(data: seq<Byte>, dict: Dictionary, t: TrackInfo)
    requires t.extsiz == 2 && t.offset >= 0 && t.offset + 3 <= |data|
    requires data[t.offset] == 0x3F && data[t.offset + 1] == 0x80 && data[t.offset + 2] == 0xC0
    ensures ExtractTrackAsWritten(data, dict, t) == Ok([dict[0], dict[0], dict[0], dict[0]])
    ensures ExtractTrack(data, dict, t) == Err(Overflow)
  {
    var us := [Literal(0), Copy(1, 3)];
    OverrunUnits(dict, us);
    OverrunBits(data, t.offset);
    ExtractTrackOfUnits(data, dict, t, us);
    ExtractLoopCorrects(data, dict, 2, Fresh(t.offset), []);
  }
}

/** The LS11 container: a 16-byte magic region, a 256-byte substitution
    dictionary and a directory of big-endian track descriptors. The archive
    is an in-memory byte sequence; a read position stands for the file
    position of the source's `FILE *`. */
module Archive {
  import opened Common

  const MagicSize: nat := 16
  const DictionarySize: nat := 256
  /** Where the track directory starts: right after magic and dictionary. */
  const DirectoryStart: nat := MagicSize + DictionarySize

  /** The 256-entry literal table of one archive. */
  type Dictionary = d: seq<Byte> | |d| == DictionarySize witness seq(DictionarySize, i => 0)

  /** One directory entry: compressed length, size after extraction and the
      file offset of the track's bit stream, each a signed 32-bit value. */
  datatype TrackInfo = TrackInfo(length: int, extsiz: int, offset: int)

  datatype Header = Header(dictionary: Dictionary, tracks: seq<TrackInfo>)

  // ---------------------------------------------------------------------
  // Magic check
  // ---------------------------------------------------------------------

  /** The template the header is compared against: "LS11" and twelve NULs. */
  const MagicTemplate: seq<Byte> := [76, 83, 49, 49, 0, 0, 0, 0, 0, 0, 0, 0, 0, 0, 0, 0]

  /** `strcmp(a + i, b + i) == 0` for a template `b` that holds a NUL at or
      after `i`: compare byte by byte, stop at the first difference or at the
      first NUL common to both. */
  function CStringsEqualFrom(a: seq<Byte>, b: seq<Byte>, i: nat): bool
    requires |a| == |b| && i < |b| && b[|b| - 1] == 0
    decreases |b| - i
  {
    if a[i] != b[i] then false
    else if a[i] == 0 then true
    else CStringsEqualFrom(a, b, i + 1)
  }

  /** Reads the first 16 bytes and compares them to the template as C strings. */
  function CheckMagic(data: seq<Byte>): (r: Result<nat>)
    ensures r.Ok? <==> |data| >= MagicSize && data[..4] == [76, 83, 49, 49] && data[4] == 0
    ensures r.Ok? ==> r.value == MagicSize
  {
    if |data| < MagicSize then Err(BadMagic)
    else
      MagicComparesFiveBytes(data[..MagicSize]);
      if CStringsEqualFrom(data[..MagicSize], MagicTemplate, 0) then Ok(MagicSize) else Err(BadMagic)
  }

  /** The C-string comparison with the template looks at bytes 0..4 only. */
  lemma MagicComparesFiveBytes(h: seq<Byte>)
    requires |h| == MagicSize
    ensures CStringsEqualFrom(h, MagicTemplate, 0) <==> h[..4] == [76, 83, 49, 49] && h[4] == 0
  {
    var e4 := CStringsEqualFrom(h, MagicTemplate, 4);
    assert e4 <==> h[4] == 0;
    var e3 := CStringsEqualFrom(h, MagicTemplate, 3);
    assert e3 <==> h[3] == 49 && e4;
    var e2 := CStringsEqualFrom(h, MagicTemplate, 2);
    assert e2 <==> h[2] == 49 && e3;
    var e1 := CStringsEqualFrom(h, MagicTemplate, 1);
    assert e1 <==> h[1] == 83 && e2;
    assert CStringsEqualFrom(h, MagicTemplate, 0) <==> h[0] == 76 && e1;
  }

  /** Bytes 5 to 15 of the header never influence the magic check. */
  lemma MagicIgnoresTail(a: seq<Byte>, b: seq<Byte>)
    requires |a| >= MagicSize && |b| >= MagicSize && a[..5] == b[..5]
    ensures CheckMagic(a) == CheckMagic(b)
  {
    assert a[..4] == a[..5][..4] && b[..4] == b[..5][..4];
    assert a[4] == a[..5][4] && b[4] == b[..5][4];
  }

  // ---------------------------------------------------------------------
  // Dictionary
  // ---------------------------------------------------------------------

  /** Reads the 256 dictionary bytes that follow the magic region. */
  function ReadDictionary(data: seq<Byte>, pos: nat): (r: Result<Dictionary>)
    ensures r.Ok? <==> pos + DictionarySize <= |data|
    ensures r.Ok? ==> forall i :: 0 <= i < DictionarySize ==> r.value[i] == data[pos + i]
  {
    if pos + DictionarySize > |data| then Err(Truncated)
    else Ok(data[pos..pos + DictionarySize])
  }

  /** A dictionary stored at `pos` is read back as itself. */
  lemma DictionaryRoundTrip(data: seq<Byte>, pos: nat, d: Dictionary)
    requires pos + DictionarySize <= |data| && data[pos..pos + DictionarySize] == d
    ensures ReadDictionary(data, pos) == Ok(d)
  {
  }

  // ---------------------------------------------------------------------
  // Big-endian int32
  // ---------------------------------------------------------------------

  predicate IsInt32(v: int) { -0x8000_0000 <= v <= Int32Max }

  /** Two's-complement value of four bytes, most significant first. */
  function Int32FromBigEndian(bs: seq<Byte>): (v: int)
    requires |bs| == 4
    ensures -0x8000_0000 <= v <= Int32Max
  {
    var b0: int, b1: int, b2: int, b3: int := bs[0], bs[1], bs[2], bs[3];
    var u := ((b0 * 256 + b1) * 256 + b2) * 256 + b3;
    if u >= 0x8000_0000 then u - 0x1_0000_0000 else u
  }

  /** The four big-endian two's-complement bytes of a 32-bit value: the
      inverse of `Int32FromBigEndian`. */
  function Int32ToBigEndian(v: int): (bs: seq<Byte>)
    requires -0x8000_0000 <= v <= Int32Max
    ensures |bs| == 4
  {
    var u := if v < 0 then v + 0x1_0000_0000 else v;
    [u / 0x100_0000, (u / 0x1_0000) % 256, (u / 256) % 256, u % 256]
  }

  lemma Int32RoundTrip(v: int)
    requires -0x8000_0000 <= v <= Int32Max
    ensures Int32FromBigEndian(Int32ToBigEndian(v)) == v
  {
    var u := if v < 0 then v + 0x1_0000_0000 else v;
    var a := u / 256;
    var b := a / 256;
    var c := b / 256;
    DivUnique(u, 0x1_0000, b, (a % 256) * 256 + u % 256);
    DivUnique(u, 0x100_0000, c, ((b % 256) * 256 + a % 256) * 256 + u % 256);
    assert Int32ToBigEndian(v) == [c, b % 256, a % 256, u % 256];
  }

  lemma Int32BytesRoundTrip(bs: seq<Byte>)
    requires |bs| == 4
    ensures Int32ToBigEndian(Int32FromBigEndian(bs)) == bs
  {
    var b0: int, b1: int, b2: int, b3: int := bs[0], bs[1], bs[2], bs[3];
    var u := ((b0 * 256 + b1) * 256 + b2) * 256 + b3;
    DivUnique(u, 0x100_0000, b0, (b1 * 256 + b2) * 256 + b3);
    DivUnique(u, 0x1_0000, b0 * 256 + b1, b2 * 256 + b3);
    DivUnique(u, 256, (b0 * 256 + b1) * 256 + b2, b3);
    DivUnique(b0 * 256 + b1, 256, b0, b1);
    DivUnique((b0 * 256 + b1) * 256 + b2, 256, b0 * 256 + b1, b2);
    var r := Int32ToBigEndian(Int32FromBigEndian(bs));
    assert r == [bs[0], bs[1], bs[2], bs[3]];
  }

  /** Reads one int32 at `pos`. A short read yields -1, consumes what was
      left and raises the end-of-file indicator; the indicator is sticky. */
  function ReadInt32(data: seq<Byte>, pos: nat, eof: bool): (r: (int, nat, bool))
    requires pos <= |data|
    ensures r.1 <= |data|
    ensures pos + 4 <= |data| ==> IsInt32(r.0) && r.1 == pos + 4 && r.2 == eof
    ensures pos + 4 > |data| ==> r == (-1, |data|, true)
  {
    if pos + 4 <= |data| then (Int32FromBigEndian(data[pos..pos + 4]), pos + 4, eof)
    else (-1, |data|, true)
  }

  /** With four bytes left, the value read is the `int32_t` those bytes
      encode. */
  lemma ReadInt32Value(data: seq<Byte>, pos: nat, eof: bool)
    requires pos + 4 <= |data|
    ensures Int32ToBigEndian(ReadInt32(data, pos, eof).0) == data[pos..pos + 4]
  {
    Int32BytesRoundTrip(data[pos..pos + 4]);
  }

  // ---------------------------------------------------------------------
  // Track directory
  // ---------------------------------------------------------------------

  /** Reads descriptors until a length field reads as 0 or the end-of-file
      indicator is found raised at the top of the loop. */
  function ReadTrackInfo(data: seq<Byte>, pos: nat, eof: bool): (r: seq<TrackInfo>)
    requires pos <= |data|
    ensures forall i :: 0 <= i < |r| ==> r[i].length != 0
    ensures eof ==> r == []
    decreases if eof then 0 else |data| - pos + 1
  {
    if eof then []
    else
      var (length, p1, e1) := ReadInt32(data, pos, eof);
      if length == 0 then []
      else
        var (extsiz, p2, e2) := ReadInt32(data, p1, e1);
        var (offset, p3, e3) := ReadInt32(data, p2, e2);
        [TrackInfo(length, extsiz, offset)] + ReadTrackInfo(data, p3, e3)
  }

  predicate StorableEntry(t: TrackInfo) {
    t.length != 0 && IsInt32(t.length) && IsInt32(t.extsiz) && IsInt32(t.offset)
  }

  /** The 12 bytes that describe one track. */
  function EncodeTrackInfo(t: TrackInfo): (bs: seq<Byte>)
    requires StorableEntry(t)
    ensures |bs| == 12
  {
    Int32ToBigEndian(t.length) + Int32ToBigEndian(t.extsiz) + Int32ToBigEndian(t.offset)
  }

  /** The entries of a directory, 12 bytes each, in order. */
  function EncodeEntries(ts: seq<TrackInfo>): (bs: seq<Byte>)
    requires forall i :: 0 <= i < |ts| ==> StorableEntry(ts[i])
    ensures |bs| == 12 * |ts|
  {
    if |ts| == 0 then []
    else EncodeTrackInfo(ts[0]) + EncodeEntries(ts[1..])
  }

  /** A directory as written into an archive: the entries, then a zero
      length field. */
  function EncodeDirectory(ts: seq<TrackInfo>): (bs: seq<Byte>)
    requires forall i :: 0 <= i < |ts| ==> StorableEntry(ts[i])
    ensures |bs| == 12 * |ts| + 4
  {
    EncodeEntries(ts) + [0, 0, 0, 0]
  }

  /** The three fields of an encoded entry read back as the entry. */
  lemma ReadEncodedEntry(data: seq<Byte>, pos: nat, t: TrackInfo)
    requires StorableEntry(t)
    requires pos + 12 <= |data| && data[pos..pos + 12] == EncodeTrackInfo(t)
    ensures ReadInt32(data, pos, false) == (t.length, pos + 4, false)
    ensures ReadInt32(data, pos + 4, false) == (t.extsiz, pos + 8, false)
    ensures ReadInt32(data, pos + 8, false) == (t.offset, pos + 12, false)
  {
    var e := data[pos..pos + 12];
    var a, b, c := Int32ToBigEndian(t.length), Int32ToBigEndian(t.extsiz), Int32ToBigEndian(t.offset);
    assert e == (a + b) + c;
    assert (a + b)[4..8] == b;
    assert e[4..8] == (a + b)[4..8];
    assert data[pos + 4..pos + 8] == e[4..8] by {
      forall i | 0 <= i < 4
        ensures data[pos + 4..pos + 8][i] == e[4..8][i]
      {
        assert e[4..8][i] == e[4 + i] == data[pos + 4 + i];
      }
    }
    assert data[pos + 8..pos + 12] == e[8..12] by {
      forall i | 0 <= i < 4
        ensures data[pos + 8..pos + 12][i] == e[8..12][i]
      {
        assert e[8..12][i] == e[8 + i] == data[pos + 8 + i];
      }
    }
    assert data[pos..pos + 4] == e[0..4] == a;
    assert data[pos + 4..pos + 8] == e[4..8] == b;
    assert data[pos + 8..pos + 12] == e[8..12] == c;
    Int32RoundTrip(t.length);
    Int32RoundTrip(t.extsiz);
    Int32RoundTrip(t.offset);
  }

  /** An encoded entry at the top of the loop is read as itself, and the loop
      goes on 12 bytes further. */
  lemma ReadEntryStep(data: seq<Byte>, pos: nat, t: TrackInfo)
    requires StorableEntry(t)
    requires pos + 12 <= |data| && data[pos..pos + 12] == EncodeTrackInfo(t)
    ensures ReadTrackInfo(data, pos, false) == [t] + ReadTrackInfo(data, pos + 12, false)
  {
    ReadEncodedEntry(data, pos, t);
  }

  /** The same step, for an entry followed by any bytes `more`. */
  lemma EntryThenRest(data: seq<Byte>, pos: nat, t: TrackInfo, more: seq<Byte>)
    requires StorableEntry(t)
    requires pos <= |data| && data[pos..] == EncodeTrackInfo(t) + more
    ensures pos + 12 <= |data| && data[pos + 12..] == more
    ensures ReadTrackInfo(data, pos, false) == [t] + ReadTrackInfo(data, pos + 12, false)
  {
    var enc := data[pos..];
    assert data[pos..pos + 12] == enc[..12];
    assert data[pos + 12..] == enc[12..];
    ReadEntryStep(data, pos, t);
  }

  /** Reading a written directory gives back its entries, in file order,
      without the terminator. */
  lemma {:induction false} DirectoryRoundTrip(data: seq<Byte>, pos: nat, ts: seq<TrackInfo>)
    requires forall i :: 0 <= i < |ts| ==> StorableEntry(ts[i])
    requires pos + 12 * |ts| + 4 <= |data|
    requires data[pos..pos + 12 * |ts| + 4] == EncodeDirectory(ts)
    ensures ReadTrackInfo(data, pos, false) == ts
    decreases |ts|
  {
    var enc := data[pos..pos + 12 * |ts| + 4];
    if |ts| == 0 {
      assert data[pos..pos + 4] == enc;
    } else {
      var rest := ts[1..];
      assert enc == EncodeTrackInfo(ts[0]) + EncodeDirectory(rest);
      assert data[pos..pos + 12] == enc[..12];
      ReadEncodedEntry(data, pos, ts[0]);
      assert data[pos + 12..pos + 12 + 12 * |rest| + 4] == enc[12..];
      DirectoryRoundTrip(data, pos + 12, rest);
      assert ReadTrackInfo(data, pos, false) == [ts[0]] + ReadTrackInfo(data, pos + 12, false);
    }
  }

  /** A directory read that starts at the end of the archive gives one
      bogus all-(-1) entry: the read that meets the end returns -1, which is
      not 0, and only then is the end noticed. A cut inside the directory is
      `DirectoryRunsOut`. */
  lemma DirectoryAtEndOfFile(data: seq<Byte>)
    ensures ReadTrackInfo(data, |data|, false) == [TrackInfo(-1, -1, -1)]
  {
  }

  /** What a field read at `p` of `bs` yields: the big-endian value when
      four bytes remain, and -1 when the bytes end first. */
  function FieldAt(bs: seq<Byte>, p: nat): int {
    if p + 4 <= |bs| then Int32FromBigEndian(bs[p..p + 4]) else -1
  }

  /** A tail too short for a whole entry, whose length field does not read
      as 0, gives one entry made of the fields it holds, -1 for the rest. */
  lemma DirectoryCutShort(data: seq<Byte>, pos: nat, tail: seq<Byte>)
    requires pos <= |data| && data[pos..] == tail
    requires |tail| < 12 && FieldAt(tail, 0) != 0
    ensures ReadTrackInfo(data, pos, false) == [TrackInfo(FieldAt(tail, 0), FieldAt(tail, 4), -1)]
  {
    if |tail| >= 4 {
      assert data[pos..pos + 4] == tail[0..4];
    }
    if |tail| >= 8 {
      assert data[pos + 4..pos + 8] == tail[4..8];
    }
    var (length, p1, e1) := ReadInt32(data, pos, false);
    var (extsiz, p2, e2) := ReadInt32(data, p1, e1);
    var (offset, p3, e3) := ReadInt32(data, p2, e2);
    assert length == FieldAt(tail, 0) && extsiz == FieldAt(tail, 4) && offset == -1 && e3;
  }

  /** A directory whose entries run into the end of the archive, followed
      by a tail too short for another entry (possibly empty), is read as
      those entries and one more, built from the fields the tail holds with
      -1 for the rest. A tail whose length field reads as 0 would be a
      terminator instead. */
  lemma {:induction false} DirectoryRunsOut(data: seq<Byte>, pos: nat, ts: seq<TrackInfo>, tail: seq<Byte>)
    requires forall i :: 0 <= i < |ts| ==> StorableEntry(ts[i])
    requires pos <= |data| && data[pos..] == EncodeEntries(ts) + tail
    requires |tail| < 12 && FieldAt(tail, 0) != 0
    ensures ReadTrackInfo(data, pos, false) == ts + [TrackInfo(FieldAt(tail, 0), FieldAt(tail, 4), -1)]
    decreases |ts|
  {
    var last := TrackInfo(FieldAt(tail, 0), FieldAt(tail, 4), -1);
    if |ts| == 0 {
      assert data[pos..] == tail;
      DirectoryCutShort(data, pos, tail);
    } else {
      var rest := ts[1..];
      assert data[pos..] == EncodeTrackInfo(ts[0]) + (EncodeEntries(rest) + tail);
      EntryThenRest(data, pos, ts[0], EncodeEntries(rest) + tail);
      DirectoryRunsOut(data, pos + 12, rest, tail);
      assert ts + [last] == [ts[0]] + (rest + [last]);
    }
  }

  /** Magic check, dictionary and directory, in file order. */
  function ReadHeader(data: seq<Byte>): (r: Result<Header>)
    ensures r.Ok? <==> |data| >= DirectoryStart && data[..4] == [76, 83, 49, 49] && data[4] == 0
    ensures r.Ok? ==> r.value.dictionary == data[MagicSize..DirectoryStart]
    ensures r.Ok? ==> r.value.tracks == ReadTrackInfo(data, DirectoryStart, false)
  {
    var pos :- CheckMagic(data);
    var dictionary :- ReadDictionary(data, pos);
    Ok(Header(dictionary, ReadTrackInfo(data, pos + DictionarySize, false)))
  }

  /** The header region of an archive as written: the template, the
      dictionary and the directory with its terminator. */
  function EncodeHeader(h: Header): (bs: seq<Byte>)
    requires forall i :: 0 <= i < |h.tracks| ==> StorableEntry(h.tracks[i])
    ensures |bs| == DirectoryStart + 12 * |h.tracks| + 4
  {
    MagicTemplate + h.dictionary + EncodeDirectory(h.tracks)
  }

  /** Whatever follows it, a written header region is read back as the
      header it was written from. */
  lemma HeaderRoundTrip(h: Header, rest: seq<Byte>)
    requires forall i :: 0 <= i < |h.tracks| ==> StorableEntry(h.tracks[i])
    ensures ReadHeader(EncodeHeader(h) + rest) == Ok(h)
  {
    var data := EncodeHeader(h) + rest;
    var n := 12 * |h.tracks| + 4;
    assert data[..MagicSize] == MagicTemplate;
    assert data[..4] == MagicTemplate[..4] == [76, 83, 49, 49];
    assert data[4] == MagicTemplate[4] == 0;
    assert data[MagicSize..DirectoryStart] == h.dictionary;
    DictionaryRoundTrip(data, MagicSize, h.dictionary);
    assert data[DirectoryStart..DirectoryStart + n] == EncodeDirectory(h.tracks);
    DirectoryRoundTrip(data, DirectoryStart, h.tracks);
  }
}

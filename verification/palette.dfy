/** The colour table of the NB3 figures (`nb3palette_t`,
    `nb3cut_read_palette`): track index 1 of `palette.nb3` (the second
    track, counting from 0) holds 256 colours of three bytes each, which are
    kept in a table of four-byte entries. */
module Palette {
  import opened Common

  /** One colour table entry, its fields in the order the structure lays
      them out in memory: blue, green, red, and an unused byte. */
  datatype Color = Color(b: Byte, g: Byte, r: Byte, a: Byte)

  /** The track that holds the palette. */
  const PaletteTrack: int := 1
  const ColorCount: nat := 256
  /** Bytes of the palette track that are read: three per colour. */
  const PaletteBytes: nat := 3 * ColorCount

  type ColorTable = p: seq<Color> | |p| == ColorCount witness seq(ColorCount, i => Color(0, 0, 0, 0))

  /** Entry `i` as the source fills it: `b`, `r` and `g`, in that order,
      from the three bytes at `3 * i`, and `a` cleared. */
  function ColorAt(buf: seq<Byte>, i: nat): Color
    requires 3 * i + 3 <= |buf|
  {
    Color(b := buf[3 * i], r := buf[3 * i + 1], g := buf[3 * i + 2], a := 0)
  }

  /** `nb3cut_read_palette`: any track but the palette track leaves the
      table as it is; the palette track needs 768 bytes and replaces every
      entry. */
  function ReadPalette(table: ColorTable, buf: seq<Byte>, count: int): (res: Result<ColorTable>)
    ensures res.Err? <==> count == PaletteTrack && |buf| < PaletteBytes
    ensures res.Err? ==> res.error == Truncated
    ensures count != PaletteTrack ==> res == Ok(table)
  {
    if count != PaletteTrack then Ok(table)
    else if |buf| < PaletteBytes then Err(Truncated)
    else Ok(seq(ColorCount, i requires 0 <= i < ColorCount => ColorAt(buf, i)))
  }

  // ---------------------------------------------------------------------
  // The table as it is written out
  // ---------------------------------------------------------------------

  /** The four bytes of one entry as `fwrite` copies the structure. */
  function ColorBytes(c: Color): (bs: seq<Byte>)
    ensures |bs| == 4
  {
    [c.b, c.g, c.r, c.a]
  }

  /** The entries' bytes one after another. */
  function TableBytes(p: seq<Color>): (bs: seq<Byte>)
    ensures |bs| == 4 * |p|
    decreases |p|
  {
    if |p| == 0 then [] else ColorBytes(p[0]) + TableBytes(p[1..])
  }

  /** Entry `i` occupies bytes `4 * i .. 4 * i + 3` of the written table. */
  lemma {:induction false} TableBytesAt(p: seq<Color>, i: nat, j: nat)
    requires i < |p| && j < 4
    ensures TableBytes(p)[4 * i + j] == ColorBytes(p[i])[j]
    decreases |p|
  {
    if i > 0 {
      TableBytesAt(p[1..], i - 1, j);
      assert 4 * i + j == 4 + (4 * (i - 1) + j);
    }
  }

  /** What the palette track turns into on output: for entry `i` the bytes
      at `3 * i`, `3 * i + 2`, `3 * i + 1` and a zero. The second and third
      source bytes trade places, because they are stored into `r` and `g`
      while the structure keeps `g` before `r`. */
  lemma PaletteSwapsBytes(table: ColorTable, buf: seq<Byte>, p: ColorTable, i: nat)
    requires ReadPalette(table, buf, PaletteTrack) == Ok(p) && i < ColorCount
    ensures |TableBytes(p)| == 4 * ColorCount
    ensures TableBytes(p)[4 * i .. 4 * i + 4] == [buf[3 * i], buf[3 * i + 2], buf[3 * i + 1], 0]
  {
    TableBytesAt(p, i, 0);
    TableBytesAt(p, i, 1);
    TableBytesAt(p, i, 2);
    TableBytesAt(p, i, 3);
  }

  // ---------------------------------------------------------------------
  // The bytes a table is read from
  // ---------------------------------------------------------------------

  /** The three source bytes of each entry, in the order they are read. */
  function SourceBytes(p: seq<Color>): (bs: seq<Byte>)
    ensures |bs| == 3 * |p|
    decreases |p|
  {
    if |p| == 0 then [] else [p[0].b, p[0].r, p[0].g] + SourceBytes(p[1..])
  }

  lemma {:induction false} SourceBytesAt(p: seq<Color>, i: nat)
    requires i < |p|
    ensures SourceBytes(p)[3 * i] == p[i].b
    ensures SourceBytes(p)[3 * i + 1] == p[i].r
    ensures SourceBytes(p)[3 * i + 2] == p[i].g
    decreases |p|
  {
    if i > 0 {
      SourceBytesAt(p[1..], i - 1);
      assert 3 * i == 3 + 3 * (i - 1);
    }
  }

  /** A table whose unused bytes are clear is read back from its own source
      bytes. */
  lemma ReadSourceBytes(table: ColorTable, p: ColorTable)
    requires forall i :: 0 <= i < ColorCount ==> p[i].a == 0
    ensures ReadPalette(table, SourceBytes(p), PaletteTrack) == Ok(p)
  {
    var q := ReadPalette(table, SourceBytes(p), PaletteTrack).value;
    forall i | 0 <= i < ColorCount
      ensures q[i] == p[i]
    {
      SourceBytesAt(p, i);
    }
    assert q == p;
  }

  /** Conversely, the table read from the palette track gives back the
      track's first 768 bytes: nothing is lost, and the rest of the track
      plays no part. */
  lemma PaletteSourceBytes(table: ColorTable, buf: seq<Byte>, p: ColorTable)
    requires ReadPalette(table, buf, PaletteTrack) == Ok(p)
    ensures SourceBytes(p) == buf[..PaletteBytes]
  {
    forall k | 0 <= k < PaletteBytes
      ensures SourceBytes(p)[k] == buf[k]
    {
      SourceBytesAt(p, k / 3);
    }
  }

  /** Only the first 768 bytes of the palette track and nothing of the
      previous table matter. */
  lemma ReadPaletteOnlyPrefix(t1: ColorTable, t2: ColorTable, buf1: seq<Byte>, buf2: seq<Byte>)
    requires |buf1| >= PaletteBytes && |buf2| >= PaletteBytes
    requires buf1[..PaletteBytes] == buf2[..PaletteBytes]
    ensures ReadPalette(t1, buf1, PaletteTrack) == ReadPalette(t2, buf2, PaletteTrack)
  {
    var p1 := ReadPalette(t1, buf1, PaletteTrack).value;
    var p2 := ReadPalette(t2, buf2, PaletteTrack).value;
    forall i | 0 <= i < ColorCount
      ensures p1[i] == p2[i]
    {
      assert buf1[3 * i] == buf1[..PaletteBytes][3 * i];
      assert buf1[3 * i + 1] == buf1[..PaletteBytes][3 * i + 1];
      assert buf1[3 * i + 2] == buf1[..PaletteBytes][3 * i + 2];
    }
    assert p1 == p2;
  }
}

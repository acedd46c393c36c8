/** The BMP writer of the NB3 figures (`nb3_write_val`,
    `nb3cut_output_figure_bmp`): a 64 x 80 picture of one byte per pixel,
    written as a Windows bitmap with a 54-byte header, the 256-entry colour
    table and the pixel bytes of a track in reverse order. */
module Bitmap {
  import opened Common
  import opened Palette

  const Width: nat := 64
  const Height: nat := 80
  /** Bytes per pixel. */
  const PixelBytes: nat := 1
  const HeaderSize: nat := 54
  const InfoHeaderSize: nat := 40
  const BitCount: nat := 8 * PixelBytes
  /** Pixels per meter, both ways. */
  const Resolution: nat := 2834
  /** Leading bytes of a figure track that are not pixels. */
  const SkippedBytes: nat := 6

  // ---------------------------------------------------------------------
  // Little-endian values
  // ---------------------------------------------------------------------

  /** `nb3_write_val`: the low `size` bytes of `val`, least significant
      first. */
  function WriteVal(size: nat, val: nat): (bs: seq<Byte>)
    ensures |bs| == size
    decreases size
  {
    if size == 0 then [] else [val % 256] + WriteVal(size - 1, val / 256)
  }

  /** The value of bytes read least significant first. */
  function ReadLittleEndian(bs: seq<Byte>): nat
    decreases |bs|
  {
    if |bs| == 0 then 0 else bs[0] + 256 * ReadLittleEndian(bs[1..])
  }

  /** A value that fits in `size` bytes is read back from them. */
  lemma {:induction false} WriteValRoundTrip(size: nat, val: nat)
    requires val < Pow2(8 * size)
    ensures ReadLittleEndian(WriteVal(size, val)) == val
    decreases size
  {
    if size > 0 {
      Pow2Add(8, 8 * (size - 1));
      assert Pow2(8) == 256;
      WriteValRoundTrip(size - 1, val / 256);
      assert WriteVal(size, val)[1..] == WriteVal(size - 1, val / 256);
    }
  }

  // ---------------------------------------------------------------------
  // Layout
  // ---------------------------------------------------------------------

  /** Bytes per row: a row is padded to a multiple of four. */
  function RowBytes(): nat {
    var bpl := Width * PixelBytes;
    if bpl % 4 != 0 then bpl + 4 - bpl % 4 else bpl
  }

  function ImageSize(): nat {
    RowBytes() * Height
  }

  /** Where the pixels start: after the headers and the colour table. */
  function DataOffset(): nat {
    HeaderSize + ColorCount * 4
  }

  /** The 64-pixel rows need no padding, the picture is 5120 bytes and the
      pixels start at byte 1078, which makes a declared file size of 6198. */
  lemma Geometry()
    ensures RowBytes() == Width && ImageSize() == 5120
    ensures DataOffset() == 1078 && DataOffset() + ImageSize() == 6198
  {
  }

  /** The widths in bytes of the fields of the file header and the
      information header that follow the letters "BM". */
  const FieldWidths: seq<nat> := [4, 4, 4, 4, 4, 4, 2, 2, 4, 4, 4, 4, 4, 4]

  /** The values of those fields: file size, reserved, offset of the
      pixels, information header size, width, height, planes, bits per
      pixel, compression (none), image size, resolution twice, colours
      used, important colours. */
  function FieldValues(): (vs: seq<nat>)
    ensures |vs| == |FieldWidths|
  {
    [ DataOffset() + ImageSize(), 0, DataOffset(), InfoHeaderSize, Width, Height,
      1, BitCount, 0, ImageSize(), Resolution, Resolution, ColorCount, 0 ]
  }

  /** Fields `i` onwards, written one after another by `nb3_write_val`. */
  function WriteFields(ws: seq<nat>, vs: seq<nat>, i: nat): (bs: seq<Byte>)
    requires |ws| == |vs| && i <= |ws|
    decreases |ws| - i
  {
    if i == |ws| then [] else WriteVal(ws[i], vs[i]) + WriteFields(ws, vs, i + 1)
  }

  /** Reads fields of the given widths back, least significant byte first;
      stops at the first field the bytes run out for. */
  function ReadFields(bs: seq<Byte>, widths: seq<nat>): seq<nat>
    decreases |widths|
  {
    if |widths| == 0 || |bs| < widths[0] then []
    else [ReadLittleEndian(bs[..widths[0]])] + ReadFields(bs[widths[0]..], widths[1..])
  }

  function BmpHeader(): seq<Byte> {
    [66, 77] + WriteFields(FieldWidths, FieldValues(), 0)
  }

  /** The pixel bytes, from `buf[size - 1]` down to `buf[6]`. */
  function Pixels(buf: seq<Byte>, size: int): (bs: seq<Byte>)
    requires size <= |buf|
    decreases size
  {
    if size <= SkippedBytes then [] else [buf[size - 1]] + Pixels(buf, size - 1)
  }

  /** `nb3cut_output_figure_bmp`: header, colour table, pixels. */
  function OutputBmp(table: ColorTable, buf: seq<Byte>, size: int): (bs: seq<Byte>)
    requires size <= |buf|
  {
    BmpHeader() + TableBytes(table) + Pixels(buf, size)
  }

  // ---------------------------------------------------------------------
  // Properties of the output
  // ---------------------------------------------------------------------

  /** Fields whose values fit their widths are read back from what
      `WriteFields` wrote. */
  lemma {:induction false} WriteFieldsRoundTrip(ws: seq<nat>, vs: seq<nat>, i: nat)
    requires |ws| == |vs| && i <= |ws|
    requires forall k :: i <= k < |ws| ==> vs[k] < Pow2(8 * ws[k])
    ensures ReadFields(WriteFields(ws, vs, i), ws[i..]) == vs[i..]
    decreases |ws| - i
  {
    if i < |ws| {
      var w, rest := WriteVal(ws[i], vs[i]), WriteFields(ws, vs, i + 1);
      WriteValRoundTrip(ws[i], vs[i]);
      WriteFieldsRoundTrip(ws, vs, i + 1);
      assert (w + rest)[..|w|] == w;
      assert (w + rest)[|w|..] == rest;
      assert ws[i..][1..] == ws[i + 1..];
      assert vs[i..] == [vs[i]] + vs[i + 1..];
    }
  }

  /** The header's fields take 52 bytes. */
  lemma HeaderLength()
    ensures |WriteFields(FieldWidths, FieldValues(), 0)| == HeaderSize - 2
  {
    var ws, vs := FieldWidths, FieldValues();
    assert |WriteFields(ws, vs, 14)| == 0;
    assert |WriteFields(ws, vs, 13)| == 4;
    assert |WriteFields(ws, vs, 12)| == 8;
    assert |WriteFields(ws, vs, 11)| == 12;
    assert |WriteFields(ws, vs, 10)| == 16;
    assert |WriteFields(ws, vs, 9)| == 20;
    assert |WriteFields(ws, vs, 8)| == 24;
    assert |WriteFields(ws, vs, 7)| == 26;
    assert |WriteFields(ws, vs, 6)| == 28;
    assert |WriteFields(ws, vs, 5)| == 32;
    assert |WriteFields(ws, vs, 4)| == 36;
    assert |WriteFields(ws, vs, 3)| == 40;
    assert |WriteFields(ws, vs, 2)| == 44;
    assert |WriteFields(ws, vs, 1)| == 48;
  }

  /** The header is "BM" and then 52 bytes of fields 4, 4, 4, 4, 4, 4, 2,
      2, 4, 4, 4, 4, 4 and 4 bytes wide, which read back as the file size
      6198, 0, the pixel offset 1078, the information header size 40, the
      width 64, the height 80, 1 plane, 8 bits per pixel, no compression,
      the image size 5120, 2834 pixels per meter twice, 256 colours and 0. */
  lemma HeaderContents()
    ensures |BmpHeader()| == HeaderSize
    ensures BmpHeader()[..2] == [66, 77]
    ensures ReadFields(BmpHeader()[2..], [4, 4, 4, 4, 4, 4, 2, 2, 4, 4, 4, 4, 4, 4])
      == [6198, 0, 1078, 40, 64, 80, 1, 8, 0, 5120, 2834, 2834, 256, 0]
  {
    HeaderLength();
    FieldsFit();
    var ws, vs := FieldWidths, FieldValues();
    WriteFieldsRoundTrip(ws, vs, 0);
    assert ws[0..] == ws && vs[0..] == vs;
    assert BmpHeader()[2..] == WriteFields(ws, vs, 0);
    Geometry();
  }

  /** Every header value fits its field. */
  lemma FieldsFit()
    ensures forall k :: 0 <= k < |FieldWidths| ==> FieldValues()[k] < Pow2(8 * FieldWidths[k])
  {
    var ws, vs := FieldWidths, FieldValues();
    Geometry();
    assert forall k :: 0 <= k < |vs| ==> vs[k] <= 6198 && ws[k] >= 2;
    Pow2Add(8, 8);
    assert Pow2(8) == 256;
    forall k | 0 <= k < |ws|
      ensures vs[k] < Pow2(8 * ws[k])
    {
      Pow2Monotonic(16, 8 * ws[k]);
    }
  }

  /** One pixel byte for each track byte from the seventh on, none for a
      track of six bytes or fewer. */
  lemma {:induction false} PixelsLength(buf: seq<Byte>, size: int)
    requires size <= |buf|
    ensures |Pixels(buf, size)| == if size <= SkippedBytes then 0 else size - SkippedBytes
    decreases size
  {
    if size > SkippedBytes {
      PixelsLength(buf, size - 1);
    }
  }

  /** Pixel byte `j` is track byte `size - 1 - j`. */
  lemma {:induction false} PixelsAt(buf: seq<Byte>, size: int, j: nat)
    requires size <= |buf| && SkippedBytes + j < size
    ensures |Pixels(buf, size)| == size - SkippedBytes
    ensures Pixels(buf, size)[j] == buf[size - 1 - j]
    decreases size
  {
    PixelsLength(buf, size);
    if j > 0 {
      PixelsAt(buf, size - 1, j - 1);
    }
  }

  /** A sequence back to front. */
  function Reverse(s: seq<Byte>): (r: seq<Byte>)
    ensures |r| == |s|
    decreases |s|
  {
    if |s| == 0 then [] else Reverse(s[1..]) + [s[0]]
  }

  /** Read backwards, the pixel bytes are the track from its seventh byte
      on. */
  lemma {:induction false} PixelsReversed(buf: seq<Byte>, size: int)
    requires SkippedBytes <= size <= |buf|
    ensures Reverse(Pixels(buf, size)) == buf[SkippedBytes..size]
    decreases size
  {
    if size > SkippedBytes {
      PixelsReversed(buf, size - 1);
      assert buf[SkippedBytes..size] == buf[SkippedBytes..size - 1] + [buf[size - 1]];
    }
  }

  /** The first six bytes of the track never reach the file. */
  lemma {:induction false} PixelsSkipLeading(buf1: seq<Byte>, buf2: seq<Byte>, size: int)
    requires size <= |buf1| && size <= |buf2|
    requires forall i :: SkippedBytes <= i < size ==> buf1[i] == buf2[i]
    ensures Pixels(buf1, size) == Pixels(buf2, size)
    decreases size
  {
    if size > SkippedBytes {
      PixelsSkipLeading(buf1, buf2, size - 1);
    }
  }

  /** The whole file: the header, the colour table as `TableBytes` lays it
      out, then the pixels, for 1078 bytes plus one per pixel. */
  lemma OutputLayout(table: ColorTable, buf: seq<Byte>, size: int)
    requires size <= |buf|
    ensures |OutputBmp(table, buf, size)| == DataOffset() + (if size <= SkippedBytes then 0 else size - SkippedBytes)
    ensures OutputBmp(table, buf, size)[..HeaderSize] == BmpHeader()
    ensures OutputBmp(table, buf, size)[HeaderSize..DataOffset()] == TableBytes(table)
    ensures OutputBmp(table, buf, size)[DataOffset()..] == Pixels(buf, size)
  {
    HeaderLength();
    PixelsLength(buf, size);
    var h, t, p := BmpHeader(), TableBytes(table), Pixels(buf, size);
    assert OutputBmp(table, buf, size) == h + t + p;
    assert (h + t + p)[..HeaderSize] == h;
    assert (h + t + p)[HeaderSize..DataOffset()] == t;
    assert (h + t + p)[DataOffset()..] == p;
  }

  /** Bytes 2 to 5 of the header hold the declared file size, 6198. */
  lemma DeclaredFileSize()
    ensures |BmpHeader()| == HeaderSize
    ensures ReadLittleEndian(BmpHeader()[2..6]) == DataOffset() + ImageSize() == 6198
  {
    HeaderLength();
    var ws, vs := FieldWidths, FieldValues();
    var first, rest := WriteVal(ws[0], vs[0]), WriteFields(ws, vs, 1);
    assert BmpHeader() == [66, 77] + (first + rest);
    assert BmpHeader()[2..6] == first;
    Geometry();
    Pow2Add(8, 8);
    assert Pow2(8) == 256;
    Pow2Monotonic(16, 32);
    WriteValRoundTrip(4, vs[0]);
  }

  /** The file size the header declares is the size of the file exactly
      when the track is 5126 bytes long: six leading bytes and 5120 pixels. */
  lemma DeclaredSize(table: ColorTable, buf: seq<Byte>, size: int)
    requires size <= |buf|
    ensures ReadLittleEndian(OutputBmp(table, buf, size)[2..6]) == |OutputBmp(table, buf, size)|
      <==> size == SkippedBytes + 5120
  {
    OutputLayout(table, buf, size);
    DeclaredFileSize();
    var out := OutputBmp(table, buf, size);
    assert out[2..6] == out[..HeaderSize][2..6];
    Geometry();
  }
}

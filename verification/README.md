# LS11 archive decoder and NB3 figure writer, modelled in Dafny

`nb3cut.c` reads KOEI's LS11 archives and writes the figures they contain
as Windows bitmaps. An archive is a 16-byte magic region ("LS11" and
zeros), a 256-byte substitution dictionary and a directory of big-endian
`{length, extsiz, offset}` track descriptors ended by a zero length field.
Each track is a bit stream, read most significant bit first, of
variable-length integer codes. A code is L-1 one-bits, a zero-bit and L
suffix bits; the value is (2^L - 2) plus the suffix. A code below 256 is a
dictionary literal. A larger one is 256 plus a back-reference distance,
and a second code plus three is the number of bytes to copy, one at a
time, so a copy may overlap its own output. Units run until `extsiz`
bytes exist. Track index 1 of `palette.nb3` (the second track; tracks
are counted from 0) is the 256-colour palette and its other tracks are
ignored. Every track of the three portrait archives
(`Kao.nb3`, `Kao2.nb3`, `Kao3.nb3`) becomes a 64 x 80 bitmap: a 54-byte
header, the colour table, then the track's bytes in reverse order without
the first six.

The model works on in-memory byte sequences. A read position stands for
the file position, a `Reader(buf, mask, pos)` value for the bit reader, and
a `Result` for the source's `-1`/`NULL` returns. The modules follow the
program:

- `Common` holds bytes, bits, powers of two and the `Result`/`Error` types.
- `Archive` covers the magic check (`Archive.CheckMagic`), the dictionary
  (`Archive.ReadDictionary`), the big-endian int32 reader
  (`Archive.ReadInt32`), the track directory (`Archive.ReadTrackInfo`), with
  the `feof` behaviour as written, and `LS11_read_header`
  (`Archive.ReadHeader`).
- `BitReader` covers `LS11_reader_init` with the `fseek` to the track
  (`BitReader.Fresh`) and `LS11_read_bit` (`BitReader.ReadBit`). It also views
  a byte sequence as a bit stream (`StreamBit`, `BitsAt`, `Tracks`).
- `Codes` covers `LS11_decode_bit` (`Codes.DecodeCode`), plus an
  independent definition of each value's code (`CodeLength`, `CodeBits`)
  that the decoder is proved to agree with.
- `Extract` covers `LS11_extract_byte` (`Extract.ReadUnit`, which reads a
  literal or copy unit, and `Extract.ApplyUnit`, whose copy loop is
  `Extract.CopyBack`) and `LS11_extract_track`, both as written
  (`Extract.ExtractTrackAsWritten`) and with the missing bound check added
  (`Extract.ExtractTrack`).
- `Palette` covers `nb3cut_read_palette` (`Palette.ReadPalette`) and the
  bytes the colour table is written as (`Palette.TableBytes`).
- `Bitmap` covers `nb3_write_val` (`Bitmap.WriteVal`) and
  `nb3cut_output_figure_bmp` (`Bitmap.OutputBmp`).

The magic check compares the 16-byte header with `strcmp` against "LS11"
followed by NULs, so byte 4 must also be 0: a header starting
`L,S,1,1,0xFF` is rejected. `Archive.CheckMagic` states this.

## Model

| member | source | states |
|---|---|---|
| Archive.CheckMagic | nb3cut.c:28-37 | The check succeeds exactly when 16 bytes are available, bytes 0-3 are "LS11" and byte 4 is NUL; on success it has consumed 16 bytes |
| Archive.MagicComparesFiveBytes | nb3cut.c:31-33 | `strcmp` against the NUL-padded template is decided by bytes 0-4 alone, because it stops at the template's first NUL |
| Archive.MagicIgnoresTail | nb3cut.c:30-33 | Two headers that agree on their first five bytes get the same verdict, whatever bytes 5-15 hold |
| Archive.ReadDictionary | nb3cut.c:40-51 | Reading the dictionary fails exactly when fewer than 256 bytes remain; otherwise entry i is the i-th byte read |
| Archive.DictionaryRoundTrip | nb3cut.c:40-51 | A dictionary stored at the read position is read back as exactly that dictionary |
| Archive.Int32FromBigEndian | nb3cut.c:53-64 | Four bytes stored into the union from the last byte down give a signed 32-bit value |
| Archive.Int32RoundTrip | nb3cut.c:61-63 | Every 32-bit value is read back from its four big-endian two's-complement bytes |
| Archive.Int32BytesRoundTrip | nb3cut.c:61-63 | Every four bytes are the big-endian encoding of the value read from them, so the reading is one-to-one |
| Archive.ReadInt32 | nb3cut.c:53-64 | With four bytes left the result is an `int32_t`, the position moves 4 and the indicator is unchanged; on a short read the result is -1, what is left is consumed and the end-of-file indicator is raised |
| Archive.ReadInt32Value | nb3cut.c:53-64 | With four bytes left, the value read is the `int32_t` whose big-endian encoding is exactly those four bytes |
| Archive.ReadTrackInfo | nb3cut.c:66-88 | No stored descriptor has a zero length field, since the terminator is never stored; once the end-of-file indicator is up, nothing more is read |
| Archive.ReadEncodedEntry | nb3cut.c:72-79 | The three int32 fields of a 12-byte descriptor are read back in the order length, extsiz, offset, each moving the position by 4 |
| Archive.DirectoryRoundTrip | nb3cut.c:66-88 | A directory written as 12-byte descriptors and then a zero length field is read back as exactly those descriptors, in file order |
| Archive.DirectoryAtEndOfFile | nb3cut.c:71-72 | Reading the directory from the very end of the archive yields one bogus descriptor {-1, -1, -1}: the short read returns -1, which is not 0, and only then is the end noticed |
| Archive.DirectoryCutShort | nb3cut.c:53-88 | A directory tail of fewer than 12 bytes whose length field is not 0 gives one descriptor of the fields present, -1 for each missing one; e.g. `00 00 00 05 00 00 00 0A` gives {5, 10, -1} |
| Archive.DirectoryRunsOut | nb3cut.c:53-88 | Descriptors running into the end of the archive with no terminator, followed by a tail shorter than one descriptor, are read as themselves plus the one bogus descriptor the tail makes |
| Archive.ReadHeader | nb3cut.c:90-97 | The header reads exactly when the magic check passes and 272 bytes exist; the dictionary is bytes 16-271 and the directory is read from byte 272 |
| Archive.HeaderRoundTrip | nb3cut.c:28-97 | A header region written as the "LS11" template, a dictionary and a terminated directory is read back as that dictionary and those descriptors, whatever bytes follow it |
| BitReader.ReadBitProgress | nb3cut.c:122-133 | A read fails exactly when the mask is 0 and no byte is left; a byte is fetched exactly when the mask is 0, after which the mask is 0x40; otherwise the byte is kept and the mask halves |
| BitReader.MaskAfterPow2 | nb3cut.c:128-131 | After j bits of a byte are delivered, the mask is 2^(7-j) |
| BitReader.StreamBitByte | nb3cut.c:130 | Bit k of the stream is bit 7 - (k mod 8) of byte start + k/8, most significant first |
| BitReader.FreshTracks | nb3cut.c:118-120 | A freshly initialised reader seeked to `start` stands at bit 0 of the stream from `start` |
| BitReader.ReadBitTracks | nb3cut.c:122-133 | A reader at stream bit k fails exactly when no bit k exists; otherwise it delivers bit k and then stands at bit k+1 |
| BitReader.ReadBitStep | nb3cut.c:122-133 | A successful read from a reader at bit k returns stream bit k and leaves the reader at bit k+1 |
| BitReader.ReadBitsTracks | nb3cut.c:122-133 | n reads in a row from bit k succeed exactly when bits k .. k+n-1 exist |
| BitReader.ReadBitsAt | nb3cut.c:122-133 | The bits that n reads in a row return are the stream's bits from k on |
| BitReader.ReadBitsNext | nb3cut.c:122-133 | After n successful reads from bit k the reader stands at bit k+n |
| BitReader.FreshReaderBits | nb3cut.c:118-133 | From a fresh reader, n reads succeed exactly when (n+7)/8 bytes exist, and the i-th bit is bit 7 - (i mod 8) of byte i/8 |
| BitReader.ByteBitOfValue | nb3cut.c:130 | The byte whose value is eight bits, most significant first, yields those bits back through the masks 0x80 .. 0x01 |
| BitReader.PackBit | nb3cut.c:122-133 | Bits packed most significant first into bytes are found again at byte k/8, bit k mod 8 |
| BitReader.PackedBitsAt | nb3cut.c:122-133 | Bytes that are the packing of a bit sequence hold that sequence as their bit stream |
| Codes.ReadPrefix | nb3cut.c:140-143 | The first half ends with a prefix length L of at most 31 bits and the accumulator 2^L - 2; a 31st one-bit is `CodeTooLong`, since the next shift would overflow |
| Codes.ReadNumber | nb3cut.c:144-146 | The second half's accumulator is below 2^n |
| Codes.CodeLength | nb3cut.c:135-148 | Every value v has a prefix length L >= 1 with 2^L - 2 <= v < 2^(L+1) - 2 |
| Codes.CodeLengthUnique | nb3cut.c:135-148 | The value ranges of successive prefix lengths are disjoint, so each value has exactly one code |
| Codes.EncodableLength | nb3cut.c:137-143 | Every `int32_t` value has a prefix of at most 31 bits; every value with a prefix of at most 30 bits is an `int32_t`; with 31 prefix bits exactly the suffixes 0 and 1 are |
| Codes.SmallCodes | nb3cut.c:135-148 | The codes of 0, 1, 2 and 3 are 00, 01, 1000 and 1001 |
| Codes.ReadPrefixAt | nb3cut.c:140-143 | With m one-bits and then a zero at the reader, the first half reads m+1 bits more |
| Codes.PrefixTracks | nb3cut.c:140-143 | Whatever the first half returns, the stream held L-1 ones and a zero there, and the reader moved L bits |
| Codes.ReadNumberRead | nb3cut.c:144-146 | The second half returns the n stream bits as a number, most significant first, and moves the reader n bits |
| Codes.ReadNumberOk | nb3cut.c:144-146 | The second half succeeds exactly when n bits are left |
| Codes.DecodeCodeEncodable | nb3cut.c:135-148 | Every value the decoder returns is at most 2^31 - 1 |
| Codes.DecodeCodeTracks | nb3cut.c:135-148 | Whatever the decoder returns, the stream held that value's code, and the reader moved twice its prefix length |
| Codes.DecodeCodeAt | nb3cut.c:135-148 | Where the stream holds the code of a representable value, the decoder returns that value and moves past the code |
| Codes.DecodeCodeIff | nb3cut.c:135-148 | The decoder returns v exactly when the stream holds v's code, in both directions |
| Codes.HoldsCodeIff | nb3cut.c:135-148 | The stream holds v's code exactly when its bits are CodeBits(v): L-1 ones, a zero, and v - (2^L - 2) in L bits |
| Codes.DecodeCodeBitsAt | nb3cut.c:135-148 | A stream holding CodeBits(v) decodes to v and the reader moves past those bits |
| Codes.DecodeCodeBitsTracks | nb3cut.c:135-148 | Whatever the decoder returns, the stream held that value's CodeBits and the reader moved past them |
| Codes.DecodesToHeld | nb3cut.c:154-159 | Values decoded one after another had their codes laid end to end in the stream |
| Codes.HeldDecodesTo | nb3cut.c:154-159 | Codes of representable values laid end to end decode to those values in order |
| Codes.DecodesToJoin | nb3cut.c:154-159 | Two runs of decodes, one after the other, decode the concatenated values |
| Codes.DecodesToSplit | nb3cut.c:154-159 | A run of decodes of concatenated values splits where the first part ends |
| Codes.DecodeExampleOne | nb3cut.c:135-148 | A byte 0x40 decodes to 1 and leaves the reader at its third bit |
| Codes.DecodeExampleThree | nb3cut.c:135-148 | A byte 0x90 decodes to 3 and leaves the reader at its fifth bit |
| Codes.ReadBitAsWrittenTracks | nb3cut.c:122-133 | From a reader that has delivered k bits, the read as written returns bit k of the stream while the archive has one, and -1 after that with the reader left as it was |
| Codes.PrefixAsWrittenHangs | nb3cut.c:140-143 | As written, a first half that meets the end of the archive ORs -1 into the accumulator, whose low bit stays 1, so the loop never exits |
| Codes.ReadPrefixRunsOut | nb3cut.c:140-143 | With the end check, a first half whose one-bits run up to the end of the archive fails with Truncated instead of reading on |
| Codes.DecodeCodeAtEnd | nb3cut.c:135-148 | With the end check, a code whose prefix is cut off by the end of the archive, including one that starts there, fails with Truncated |
| Extract.ReadUnit | nb3cut.c:154-159 | A unit the decoder returns is a literal, or a copy whose distance code and count fit 32-bit ints |
| Extract.ReadUnitCodes | nb3cut.c:154-159 | The decoder reads unit u exactly when it decodes u's codes in order: the index, or 256 + distance and count - 3 |
| Extract.ReadUnitDecodes | nb3cut.c:154-159 | A unit read consists of its codes decoded in order |
| Extract.DecodesReadUnit | nb3cut.c:154-159 | A readable unit's codes, decoded in order, are read as that unit |
| Extract.CopyBackContents | nb3cut.c:160-163 | A copy keeps every byte already produced, and each new byte equals the byte `dist` places before it, even one written by the same copy |
| Extract.CopyBackRun | nb3cut.c:160-163 | A copy from distance 1 after a byte x appends n copies of x |
| Extract.ApplyUnit | nb3cut.c:150-165 | A unit fails exactly when it is a copy whose distance is 0 or exceeds the output so far, with BadDistance; otherwise the output grows |
| Extract.ApplyUnitContents | nb3cut.c:150-165 | A literal v appends exactly `dictionary[v]`; a copy appends exactly `count` bytes, each equal to the byte `dist` before it; produced bytes never change |
| Extract.ExtractLoopAsWritten | nb3cut.c:178-180 | The loop as written returns at least `extsiz` bytes, never fewer than it started with |
| Extract.ExtractLoop | nb3cut.c:178-180 | The corrected loop returns exactly `extsiz` bytes |
| Extract.ExtractTrackAsWritten | nb3cut.c:167-182 | A track as written extracts to at least `extsiz` bytes |
| Extract.ExtractTrack | nb3cut.c:167-182 | A corrected track extracts to exactly `extsiz` bytes |
| Extract.ExtractLoopCorrects | nb3cut.c:178-180 | The corrected loop returns what the loop as written returns, except that an output longer than `extsiz` becomes Overflow |
| Extract.ConsumesBound | nb3cut.c:178-180 | Every unit adds at least one byte, so a loop starting below `extsiz` performs at most `extsiz - |out|` units |
| Extract.ExtractLoopOfUnits | nb3cut.c:178-180 | When the reader returns the units the loop is to perform, the loop's result is those units applied in order |
| Extract.ExtractLoopUnits | nb3cut.c:178-180 | Whatever the loop returns, it is the output of units that the reader returned in order, each starting below `extsiz` |
| Extract.ReadsUnitsDecodes | nb3cut.c:154-159 | Units read one after another are their codes decoded one after another |
| Extract.DecodesReadsUnits | nb3cut.c:154-159 | Codes of readable units decoded one after another are read as those units |
| Extract.ExtractTrackOfUnits | nb3cut.c:167-182 | When a track's bit stream at `offset` holds the codes of units the loop performs, the track extracts to their output |
| Extract.ExtractTrackUnits | nb3cut.c:167-182 | Whatever a track extracts to, its bit stream at `offset` begins with the codes of units that produce exactly that output |
| Extract.ExtractPackedTrack | nb3cut.c:167-182 | Round trip: a track whose bytes are the packed codes of units extracts to those units' output |
| Extract.ExtractOverrun | nb3cut.c:178-180 | With extsiz 2 and the bytes 3F 80 C0 at the offset, the loop as written returns 4 bytes and the corrected loop returns Overflow |
| Palette.ReadPalette | nb3cut.c:230-242 | Any track but track index 1 leaves the table unchanged; track index 1 needs 768 bytes, otherwise the result is Truncated |
| Palette.TableBytesAt | nb3cut.c:287-289 | Entry i of the table is written as bytes 4i .. 4i+3 in the structure's order b, g, r, a |
| Palette.PaletteSwapsBytes | nb3cut.c:218-242 | Entry i is written as track bytes 3i, 3i+2, 3i+1 and a zero, because the second and third bytes are stored into r and g while the structure keeps g before r |
| Palette.ReadSourceBytes | nb3cut.c:235-240 | A table whose unused bytes are 0 is read back from its own three bytes per entry |
| Palette.PaletteSourceBytes | nb3cut.c:235-240 | The table read from track index 1 gives back exactly the track's first 768 bytes |
| Palette.ReadPaletteOnlyPrefix | nb3cut.c:230-242 | Only the first 768 bytes of track index 1 matter; the previous table and the rest of the track do not |
| Bitmap.WriteVal | nb3cut.c:252-256 | Writing a value emits exactly `size` bytes |
| Bitmap.WriteValRoundTrip | nb3cut.c:252-256 | A value below 2^(8 size) is read back from its bytes, least significant first |
| Bitmap.Geometry | nb3cut.c:268-270 | The 64-byte rows need no padding, the image is 5120 bytes, the pixels start at 1078, and the declared size is 6198 |
| Bitmap.WriteFieldsRoundTrip | nb3cut.c:272-286 | Header fields written one after another are read back field by field when each value fits its width |
| Bitmap.HeaderLength | nb3cut.c:272-286 | The header fields after "BM" take 52 bytes |
| Bitmap.FieldsFit | nb3cut.c:272-286 | Every header value fits its 2- or 4-byte field, so nothing is truncated |
| Bitmap.HeaderContents | nb3cut.c:264-286 | The 54-byte header is "BM" followed by 6198, 0, 1078, 40, 64, 80 (4 bytes each), 1 and 8 (2 bytes each), then 0, 5120, 2834, 2834, 256, 0 (4 bytes each), least significant byte first |
| Bitmap.PixelsLength | nb3cut.c:291-292 | The pixel loop writes size - 6 bytes, or none when size <= 6 |
| Bitmap.PixelsAt | nb3cut.c:291-292 | Pixel byte j is track byte size - 1 - j |
| Bitmap.PixelsReversed | nb3cut.c:291-292 | Read backwards, the pixel bytes are exactly track bytes 6 .. size-1 |
| Bitmap.PixelsSkipLeading | nb3cut.c:291-292 | Track bytes 0-5 never reach the file |
| Bitmap.OutputLayout | nb3cut.c:258-293 | The file is the header (bytes 0-53), the colour table (54-1077) and the pixels (from 1078), for 1078 + max(0, size - 6) bytes |
| Bitmap.DeclaredFileSize | nb3cut.c:271-272 | Header bytes 2-5 declare a file size of 1078 + 5120 = 6198 |
| Bitmap.DeclaredSize | nb3cut.c:258-293 | The declared file size is the real one exactly when the track is 5126 bytes long |

## Left out

- File I/O: `fopen`, `fread`, `fseek`, `fputc`, `fwrite` and `fclose` become byte sequences and read positions. A failed open or write is not modelled.
- The host-endian union in `LS11_read_int32` is modelled only by its big-endian meaning.
- `LS11_extract`, `main`, the name table and the file-name composition are driver code and data. They are not part of this model, and neither is the ignored return value of the output callback.
- `LS11_header_write` is a debug printer; its only call is disabled by `#if 0`.
- Allocation: a failing `malloc` in the directory reader is not modelled. In `LS11_extract_track`, a negative `extsiz` is the `NoMemory` error, and an `extsiz` of 0 gives an empty track, although `malloc(0)` may return `NULL` on some platforms.
- `fseek` to a negative offset is the `BadOffset` error. The source ignores that failure and reads on from the old position.
- A copy with distance 0 reads an uninitialised byte, and a distance past the output reads before the buffer. Both are the `BadDistance` error instead.
- The global `palette` array is passed in and returned as a value.
- `nb3cut_read_palette` reading past a track shorter than 768 bytes is the `Truncated` error.
- The unused `size` and `filename` parameters of `nb3cut_read_palette` are not modelled.
- Bitmap.WriteVal: the value is an unbounded natural rather than a `uint32_t`, because every value the writer passes is a constant below 2^16.
- Codes.DecodeCode: where the source's `int32_t` arithmetic would overflow (undefined behaviour in C) the model reports `CodeTooLong`: a 31st one-bit in the first half, after which the next shift overflows, and halves whose sum exceeds 2^31 - 1. So is a copy count that overflows when 3 is added.
- Codes.PrefixAsWrittenHangs shows the first half of the decoder, as written, running on at the end of the archive. The garbage the second half computes from -1 bits is not modelled.

## Findings

| source | as written | input that shows it | evidently intended | confidence | as-written member | corrected member |
|---|---|---|---|---|---|---|
| nb3cut.c:178-180 | The loop runs while fewer than `extsiz` bytes exist, and the last unit writes all its bytes, past the `extsiz` bytes that `malloc` provided | `extsiz` 2, track bytes 3F 80 C0: the codes 0, 257, 0, i.e. the literal `dictionary[0]` and then a copy of 3 bytes from 1 back; the output is 4 bytes | A unit that would write past `extsiz` is rejected | not executed | Extract.ExtractOverrun | Extract.ExtractTrack |
| nb3cut.c:127 | `LS11_read_bit` returns -1 at the end of the file, and `LS11_decode_bit` ORs it into its accumulator; the low bit stays 1, so the first half never ends | any track whose bit stream ends inside a code's first half, e.g. a reader with no bits left | Reading past the end of the archive is an error | not executed | Codes.PrefixAsWrittenHangs | Codes.DecodeCodeAtEnd |

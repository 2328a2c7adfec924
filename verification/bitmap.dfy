/**
 The BMP writer of the ray tracer (main.cpp): a packed 54-byte header
 (the 14-byte BITMAPFILEHEADER followed by the 40-byte BITMAPINFOHEADER,
 little-endian) and then the image rows, bottom row first, each written
 as `bytes_per_row` bytes without padding. The output file is an
 append-only byte sink whose writes may fail.
 */
module Bitmap {
  import opened Wrappers
  import LegacyMatrix

  type byte = b: int | 0 <= b < 0x100
  type u16 = v: int | 0 <= v < 0x1_0000
  type u32 = v: int | 0 <= v < 0x1_0000_0000
  type i32 = v: int | -0x8000_0000 <= v < 0x8000_0000

  /** Conversion to `word`: reduction modulo 2^16. */
  function WrapU16(v: int): (r: u16)
    ensures 0 <= v < 0x1_0000 ==> r == v
    ensures (r - v) % 0x1_0000 == 0
  {
    v % 0x1_0000
  }

  /** Conversion to `dword`: reduction modulo 2^32. */
  function WrapU32(v: int): (r: u32)
    ensures 0 <= v < 0x1_0000_0000 ==> r == v
    ensures (r - v) % 0x1_0000_0000 == 0
  {
    v % 0x1_0000_0000
  }

  /** `bitmap_signature`, the bytes "BM" read as a little-endian word. */
  const Signature: u16 := 0x4D42

  datatype FileHeader = FileHeader(signature: u16, size: u32, reserved1: u16, reserved2: u16, offset: u32)

  datatype InfoHeader = InfoHeader(
    size: u32, width: i32, height: i32, planes: u16, bitCount: u16, compression: u32,
    imageSize: u32, xPxPerMeter: i32, yPxPerMeter: i32, colorUsed: u32, colorImportant: u32)

  datatype BitmapHeader = BitmapHeader(file: FileHeader, info: InfoHeader)

  /** sizeof(bitmap_file_header) and sizeof(bitmap_info_header) under `#pragma pack(1)`. */
  const FileHeaderSize: int := 14
  const InfoHeaderSize: int := 40
  const HeaderSize: int := FileHeaderSize + InfoHeaderSize

  /** The fields of the image matrix are 32-bit signed integers in the source. */
  predicate Int32Fields(image: LegacyMatrix.BasicMatrix) {
    && -0x8000_0000 <= image.columns < 0x8000_0000
    && -0x8000_0000 <= image.rows < 0x8000_0000
    && -0x8000_0000 <= image.bytesPerRow < 0x8000_0000
    && -0x8000_0000 <= image.bytesPerCell < 0x8000_0000
  }

  /**
   The header bitmap_save_to_file fills in: the members keep their
   in-class initialisers (signature "BM", planes 1, info size 40, all else
   0) except offset, size, width, height, bitCount and imageSize.
   */
  function MakeHeader(image: LegacyMatrix.BasicMatrix): (h: BitmapHeader)
    requires Int32Fields(image)
    ensures h.file.offset == HeaderSize && h.info.size == InfoHeaderSize
    ensures h.info.imageSize == WrapU32(image.bytesPerRow * image.rows)
    ensures h.file.size == WrapU32(h.file.offset + h.info.imageSize)
    ensures h.info.width == image.columns && h.info.height == image.rows
    ensures h.info.bitCount == WrapU16(image.bytesPerCell * 8)
    ensures h.file.signature == Signature && h.info.planes == 1
    ensures h.file.reserved1 == 0 && h.file.reserved2 == 0 && h.info.compression == 0
    ensures h.info.xPxPerMeter == 0 && h.info.yPxPerMeter == 0 && h.info.colorUsed == 0 && h.info.colorImportant == 0
  {
    var offset := HeaderSize;
    var size := WrapU32(offset + image.bytesPerRow * image.rows);
    var file := FileHeader(Signature, size, 0, 0, offset);
    var info := InfoHeader(InfoHeaderSize, image.columns, image.rows, 1, WrapU16(image.bytesPerCell * 8), 0,
                           WrapU32(image.bytesPerRow * image.rows), 0, 0, 0, 0);
    WrapSum(offset, image.bytesPerRow * image.rows);
    BitmapHeader(file, info)
  }

  /** Wrapping the second summand first does not change the wrapped sum. */
  lemma WrapSum(a: int, b: int)
    ensures WrapU32(a + WrapU32(b)) == WrapU32(a + b)
  {
    var m := 0x1_0000_0000;
    var q := b / m;
    assert b == m * q + WrapU32(b);
    assert a + b == (a + WrapU32(b)) + m * q;
  }

  // ---- little-endian encoding -------------------------------------------------

  function EncodeU16(v: u16): (r: seq<byte>)
    ensures |r| == 2
  {
    [v % 0x100, v / 0x100]
  }

  function EncodeU32(v: u32): (r: seq<byte>)
    ensures |r| == 4
  {
    var q1 := v / 0x100;
    var q2 := q1 / 0x100;
    [v % 0x100, q1 % 0x100, q2 % 0x100, q2 / 0x100]
  }

  /** An `int` is stored as its two's-complement bit pattern. */
  function EncodeI32(v: i32): (r: seq<byte>)
    ensures |r| == 4
  {
    EncodeU32(WrapU32(v))
  }

  function DecodeU16(b: seq<byte>): u16
    requires |b| == 2
  {
    (b[0] as int) + 0x100 * (b[1] as int)
  }

  function DecodeU32(b: seq<byte>): u32
    requires |b| == 4
  {
    (b[0] as int) + 0x100 * (b[1] as int) + 0x1_0000 * (b[2] as int) + 0x100_0000 * (b[3] as int)
  }

  function DecodeI32(b: seq<byte>): i32
    requires |b| == 4
  {
    var u := DecodeU32(b);
    if u < 0x8000_0000 then u else u - 0x1_0000_0000
  }

  lemma U16RoundTrip(v: u16)
    ensures DecodeU16(EncodeU16(v)) == v
  {
  }

  lemma U32RoundTrip(v: u32)
    ensures DecodeU32(EncodeU32(v)) == v
  {
    var q1 := v / 0x100;
    var q2 := q1 / 0x100;
    assert v == v % 0x100 + 0x100 * q1;
    assert q1 == q1 % 0x100 + 0x100 * q2;
    assert q2 == q2 % 0x100 + 0x100 * (q2 / 0x100);
  }

  lemma I32RoundTrip(v: i32)
    ensures DecodeI32(EncodeI32(v)) == v
  {
    U32RoundTrip(WrapU32(v));
  }

  function EncodeFileHeader(f: FileHeader): (r: seq<byte>)
    ensures |r| == FileHeaderSize
  {
    EncodeU16(f.signature) + EncodeU32(f.size) + EncodeU16(f.reserved1) + EncodeU16(f.reserved2) + EncodeU32(f.offset)
  }

  function EncodeInfoHeader(i: InfoHeader): (r: seq<byte>)
    ensures |r| == InfoHeaderSize
  {
    EncodeU32(i.size) + EncodeI32(i.width) + EncodeI32(i.height) + EncodeU16(i.planes) + EncodeU16(i.bitCount)
      + EncodeU32(i.compression) + EncodeU32(i.imageSize) + EncodeI32(i.xPxPerMeter) + EncodeI32(i.yPxPerMeter)
      + EncodeU32(i.colorUsed) + EncodeU32(i.colorImportant)
  }

  /** The bytes of the packed `bitmap_header` struct, members in declaration order. */
  function EncodeHeader(h: BitmapHeader): (r: seq<byte>)
    ensures |r| == HeaderSize
  {
    EncodeFileHeader(h.file) + EncodeInfoHeader(h.info)
  }

  function DecodeFileHeader(b: seq<byte>): FileHeader
    requires |b| == FileHeaderSize
  {
    FileHeader(DecodeU16(b[0..2]), DecodeU32(b[2..6]), DecodeU16(b[6..8]), DecodeU16(b[8..10]), DecodeU32(b[10..14]))
  }

  function DecodeInfoHeader(b: seq<byte>): InfoHeader
    requires |b| == InfoHeaderSize
  {
    InfoHeader(DecodeU32(b[0..4]), DecodeI32(b[4..8]), DecodeI32(b[8..12]), DecodeU16(b[12..14]),
               DecodeU16(b[14..16]), DecodeU32(b[16..20]), DecodeU32(b[20..24]), DecodeI32(b[24..28]),
               DecodeI32(b[28..32]), DecodeU32(b[32..36]), DecodeU32(b[36..40]))
  }

  /** Reading a header back: the first 54 bytes of a file, or nothing if it is shorter. */
  function DecodeHeader(b: seq<byte>): Option<BitmapHeader> {
    if |b| < HeaderSize then None
    else Some(BitmapHeader(DecodeFileHeader(b[..FileHeaderSize]), DecodeInfoHeader(b[FileHeaderSize..HeaderSize])))
  }

  lemma {:induction false} FileHeaderRoundTrip(f: FileHeader)
    ensures DecodeFileHeader(EncodeFileHeader(f)) == f
  {
    var b := EncodeFileHeader(f);
    assert b[0..2] == EncodeU16(f.signature);
    assert b[2..6] == EncodeU32(f.size);
    assert b[6..8] == EncodeU16(f.reserved1);
    assert b[8..10] == EncodeU16(f.reserved2);
    assert b[10..14] == EncodeU32(f.offset);
    U16RoundTrip(f.signature);
    U32RoundTrip(f.size);
    U16RoundTrip(f.reserved1);
    U16RoundTrip(f.reserved2);
    U32RoundTrip(f.offset);
  }

  lemma {:induction false} InfoHeaderRoundTrip(i: InfoHeader)
    ensures DecodeInfoHeader(EncodeInfoHeader(i)) == i
  {
    var b := EncodeInfoHeader(i);
    assert b[0..4] == EncodeU32(i.size);
    assert b[4..8] == EncodeI32(i.width);
    assert b[8..12] == EncodeI32(i.height);
    assert b[12..14] == EncodeU16(i.planes);
    assert b[14..16] == EncodeU16(i.bitCount);
    assert b[16..20] == EncodeU32(i.compression);
    assert b[20..24] == EncodeU32(i.imageSize);
    assert b[24..28] == EncodeI32(i.xPxPerMeter);
    assert b[28..32] == EncodeI32(i.yPxPerMeter);
    assert b[32..36] == EncodeU32(i.colorUsed);
    assert b[36..40] == EncodeU32(i.colorImportant);
    U32RoundTrip(i.size);
    I32RoundTrip(i.width);
    I32RoundTrip(i.height);
    U16RoundTrip(i.planes);
    U16RoundTrip(i.bitCount);
    U32RoundTrip(i.compression);
    U32RoundTrip(i.imageSize);
    I32RoundTrip(i.xPxPerMeter);
    I32RoundTrip(i.yPxPerMeter);
    U32RoundTrip(i.colorUsed);
    U32RoundTrip(i.colorImportant);
  }

  /** The header read back from any file that starts with an encoded header is that header. */
  lemma {:induction false} HeaderRoundTrip(h: BitmapHeader, rest: seq<byte>)
    ensures DecodeHeader(EncodeHeader(h) + rest) == Some(h)
  {
    var b := EncodeHeader(h) + rest;
    assert b[..FileHeaderSize] == EncodeFileHeader(h.file);
    assert b[FileHeaderSize..HeaderSize] == EncodeInfoHeader(h.info);
    FileHeaderRoundTrip(h.file);
    InfoHeaderRoundTrip(h.info);
  }

  /** Every header the writer produces starts with the two characters 'B', 'M'. */
  lemma StartsWithMagic(image: LegacyMatrix.BasicMatrix)
    requires Int32Fields(image)
    ensures EncodeHeader(MakeHeader(image))[0] == 0x42 && EncodeHeader(MakeHeader(image))[1] == 0x4D
  {
  }

  // ---- the output sink ----------------------------------------------------------

  /**
   The output file: the bytes written so far, and how many more writes
   will succeed before the stream fails. A failed write appends nothing.
   */
  datatype Sink = Sink(data: seq<byte>, writesLeft: nat)

  /** `file.write(bytes)`: whether it succeeded, and the sink afterwards. */
  function Write(s: Sink, bytes: seq<byte>): (r: (bool, Sink))
    ensures r.0 <==> s.writesLeft > 0
    ensures r.0 ==> r.1.data == s.data + bytes && r.1.writesLeft == s.writesLeft - 1
    ensures !r.0 ==> r.1 == s
  {
    if s.writesLeft > 0 then (true, Sink(s.data + bytes, s.writesLeft - 1)) else (false, s)
  }

  // ---- the image rows -------------------------------------------------------------

  /** The pixel memory holds every row the writer reads. */
  predicate RowsReadable(image: LegacyMatrix.BasicMatrix, pixels: seq<byte>) {
    image.bytesPerRow >= 0 && (image.rows <= 0 || image.bytesPerRow * image.rows <= |pixels|)
  }

  /** The `bytes_per_row` bytes starting at get_row_ptr(row). */
  function RowBytes(image: LegacyMatrix.BasicMatrix, pixels: seq<byte>, row: int): (r: seq<byte>)
    requires RowsReadable(image, pixels) && 0 <= row < image.rows
    ensures |r| == image.bytesPerRow
  {
    RowInBounds(image.bytesPerRow, row, image.rows);
    var start := LegacyMatrix.RowOffset(image, row);
    pixels[start..start + image.bytesPerRow]
  }

  lemma RowInBounds(bpr: int, row: int, rows: int)
    requires bpr >= 0 && 0 <= row < rows
    ensures 0 <= bpr * row && bpr * row + bpr <= bpr * rows
  {
    LegacyMatrix.MulMonotone(bpr, 0, row);
    LegacyMatrix.MulMonotone(bpr, row + 1, rows);
  }

  /** The first k rows the writer emits: image rows rows-1, rows-2, ..., rows-k. */
  function BottomUpRows(image: LegacyMatrix.BasicMatrix, pixels: seq<byte>, k: nat): (r: seq<byte>)
    requires RowsReadable(image, pixels) && k <= RowCount(image)
  {
    if k == 0 then [] else BottomUpRows(image, pixels, k - 1) + RowBytes(image, pixels, image.rows - k)
  }

  /** The number of row writes the loop makes, max(rows, 0). */
  function RowCount(image: LegacyMatrix.BasicMatrix): nat {
    if image.rows < 0 then 0 else image.rows
  }

  /**
   bitmap_save_to_file: writes the header, then row rows-i-1 for
   i = 0, 1, ..., and stops at the first failed write. It succeeds exactly
   when the header and every row were written; the file then holds the
   header followed by all rows, bottom row first. After a failed row write
   it holds the header and the rows written before the failure.
   */
  method SaveToFile(image: LegacyMatrix.BasicMatrix, pixels: seq<byte>, sink: Sink) returns (ok: bool, out: Sink)
    requires Int32Fields(image) && RowsReadable(image, pixels)
    ensures ok <==> sink.writesLeft > RowCount(image)
    ensures sink.writesLeft == 0 ==> out.data == sink.data
    ensures sink.writesLeft > 0 ==>
      var written := if sink.writesLeft - 1 < RowCount(image) then sink.writesLeft - 1 else RowCount(image);
      out.data == sink.data + EncodeHeader(MakeHeader(image)) + BottomUpRows(image, pixels, written)
  {
    var step := Write(sink, EncodeHeader(MakeHeader(image)));
    out := step.1;
    if !step.0 {
      return false, out;
    }
    ok, out := WriteRows(image, pixels, out);
  }

  /**
   The row loop of bitmap_save_to_file: row rows-i-1 for i = 0, 1, ...,
   stopping at the first failed write. It succeeds exactly when every row
   was written, and the file gains the rows written before any failure.
   */
  method WriteRows(image: LegacyMatrix.BasicMatrix, pixels: seq<byte>, start: Sink) returns (ok: bool, out: Sink)
    requires RowsReadable(image, pixels)
    ensures ok <==> start.writesLeft >= RowCount(image)
    ensures var written := if start.writesLeft < RowCount(image) then start.writesLeft else RowCount(image);
      out.data == start.data + BottomUpRows(image, pixels, written)
  {
    out := start;
    var i := 0;
    while i < image.rows
      invariant 0 <= i <= RowCount(image)
      invariant i <= start.writesLeft
      invariant out.writesLeft == start.writesLeft - i
      invariant out.data == start.data + BottomUpRows(image, pixels, i)
    {
      assert BottomUpRows(image, pixels, i + 1) == BottomUpRows(image, pixels, i) + RowBytes(image, pixels, image.rows - i - 1);
      var step := Write(out, RowBytes(image, pixels, image.rows - i - 1));
      out := step.1;
      if !step.0 {
        return false, out;
      }
      i := i + 1;
    }
    return true, out;
  }

  // ---- properties of the written file -----------------------------------------

  /** The rows take `bytes_per_row` bytes each: no padding is inserted. */
  lemma {:induction false} BottomUpRowsLength(image: LegacyMatrix.BasicMatrix, pixels: seq<byte>, k: nat)
    requires RowsReadable(image, pixels) && k <= RowCount(image)
    ensures |BottomUpRows(image, pixels, k)| == k * image.bytesPerRow
  {
    if k > 0 {
      BottomUpRowsLength(image, pixels, k - 1);
    }
  }

  /** The i-th row in the file, counting from 0 after the header, is image row rows-1-i. */
  lemma {:induction false} RowPlacement(image: LegacyMatrix.BasicMatrix, pixels: seq<byte>, k: nat, i: nat)
    requires RowsReadable(image, pixels) && k <= RowCount(image) && i < k
    ensures var bpr := image.bytesPerRow;
      var rows := BottomUpRows(image, pixels, k);
      0 <= i * bpr <= (i + 1) * bpr <= |rows| && rows[i * bpr..(i + 1) * bpr] == RowBytes(image, pixels, image.rows - 1 - i)
  {
    var bpr := image.bytesPerRow;
    BottomUpRowsLength(image, pixels, k);
    BottomUpRowsLength(image, pixels, k - 1);
    var prefix := BottomUpRows(image, pixels, k - 1);
    LegacyMatrix.MulMonotone(bpr, 0, i);
    LegacyMatrix.MulMonotone(bpr, i + 1, k);
    assert (i + 1) * bpr == i * bpr + bpr;
    if i == k - 1 {
      assert |prefix| == i * bpr;
      assert (i + 1) * bpr == i * bpr + bpr;
    } else {
      RowPlacement(image, pixels, k - 1, i);
      LegacyMatrix.MulMonotone(bpr, i + 1, k - 1);
      assert BottomUpRows(image, pixels, k)[i * bpr..(i + 1) * bpr] == prefix[i * bpr..(i + 1) * bpr];
    }
  }

  /**
   A complete file is 54 + bytes_per_row * rows bytes long, the size the
   header records whenever that number fits in 32 bits.
   */
  lemma {:induction false} CompleteFileSize(image: LegacyMatrix.BasicMatrix, pixels: seq<byte>)
    requires Int32Fields(image) && RowsReadable(image, pixels) && image.rows >= 0
    requires image.bytesPerRow * image.rows + HeaderSize < 0x1_0000_0000
    ensures var file := EncodeHeader(MakeHeader(image)) + BottomUpRows(image, pixels, image.rows);
      |file| == MakeHeader(image).file.size
      && |file| - HeaderSize == MakeHeader(image).info.imageSize
  {
    BottomUpRowsLength(image, pixels, image.rows);
    LegacyMatrix.MulMonotone(image.bytesPerRow, 0, image.rows);
  }

  /** The row length the BMP format expects: bytes_per_row rounded up to a multiple of 4. */
  function PaddedRowSize(bytesPerRow: nat): (r: nat)
    ensures r % 4 == 0 && bytesPerRow <= r < bytesPerRow + 4
  {
    (bytesPerRow + 3) / 4 * 4
  }

  /**
   The file has the length the format expects for its header fields
   exactly when the rows need no padding: when bytes_per_row is a multiple
   of 4 (or there are no rows).
   */
  lemma {:induction false} MatchesFormatIffAligned(image: LegacyMatrix.BasicMatrix, pixels: seq<byte>)
    requires Int32Fields(image) && RowsReadable(image, pixels) && image.rows >= 1
    ensures var file := EncodeHeader(MakeHeader(image)) + BottomUpRows(image, pixels, image.rows);
      |file| == HeaderSize + PaddedRowSize(image.bytesPerRow) * image.rows <==> image.bytesPerRow % 4 == 0
  {
    var bpr := image.bytesPerRow;
    var p := PaddedRowSize(bpr);
    BottomUpRowsLength(image, pixels, image.rows);
    PaddedIffAligned(bpr);
    if p != bpr {
      MulStrict(image.rows, bpr, p);
    }
  }

  /** Rounding up to a multiple of 4 changes nothing exactly for multiples of 4. */
  lemma PaddedIffAligned(bpr: nat)
    ensures PaddedRowSize(bpr) == bpr <==> bpr % 4 == 0
  {
  }

  lemma MulStrict(a: int, b: int, c: int)
    requires a >= 1 && b < c
    ensures b * a < c * a
  {
    assert c * a - b * a == (c - b) * a;
    LegacyMatrix.MulMonotone(c - b, 1, a);
  }
}

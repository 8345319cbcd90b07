/** Two-bit glyph bitmaps: rows padded to whole bytes, and the same pixels packed without padding. */
module Repacking {
  import opened Bytes

  type Pixel = p: int | 0 <= p < 4

  /** Pixel `k` of a byte, the leftmost first. */
  function PixelOf(b: Byte, k: nat): Pixel
    requires k < 4
  {
    match k case 0 => b / 64 case 1 => b / 16 % 4 case 2 => b / 4 % 4 case _ => b % 4
  }

  function RowStride(width: nat): nat {
    (width + 3) / 4
  }

  /** The bytes of `height` padded rows. */
  function AlignedSize(width: nat, height: nat): nat {
    if height == 0 then 0 else AlignedSize(width, height - 1) + RowStride(width)
  }

  lemma {:induction false} AlignedSizeIs(width: nat, height: nat)
    ensures AlignedSize(width, height) == height * RowStride(width)
  {
    if height > 0 {
      AlignedSizeIs(width, height - 1);
    }
  }

  lemma {:induction false} RowWithin(width: nat, height: nat, y: nat)
    requires y < height
    ensures AlignedSize(width, y) + RowStride(width) <= AlignedSize(width, height)
    decreases height
  {
    if y < height - 1 {
      RowWithin(width, height - 1, y);
    }
  }

  /** The bytes of row `y` of a bitmap whose rows are padded to whole bytes. */
  function RowBytes(aligned: Data, width: nat, height: nat, y: nat): (row: Data)
    requires y < height && |aligned| >= AlignedSize(width, height)
    ensures |row| == RowStride(width)
  {
    RowWithin(width, height, y);
    aligned[AlignedSize(width, y)..AlignedSize(width, y) + RowStride(width)]
  }

  /** Pixel (x, y) of the padded bitmap. */
  function PixelAt(aligned: Data, width: nat, height: nat, x: nat, y: nat): Pixel
    requires x < width && y < height && |aligned| >= AlignedSize(width, height)
  {
    PixelOf(RowBytes(aligned, width, height, y)[x / 4], x % 4)
  }

  function Row(bytes: Data, width: nat): (row: seq<Pixel>)
    requires |bytes| == RowStride(width)
    ensures |row| == width
  {
    seq(width, x requires 0 <= x < width => PixelOf(bytes[x / 4], x % 4))
  }

  /** The pixels of the first `rows` rows in reading order. */
  function Pixels(aligned: Data, width: nat, height: nat, rows: nat): (pixels: seq<Pixel>)
    requires rows <= height && |aligned| >= AlignedSize(width, height)
  {
    if rows == 0 then []
    else Pixels(aligned, width, height, rows - 1) + Row(RowBytes(aligned, width, height, rows - 1), width)
  }

  function InOrder(pixels: seq<Pixel>, k: nat): Pixel {
    if k < |pixels| then pixels[k] else 0
  }

  /** Byte `i` of the packed pixels: four of them, zeros past the last one. */
  function PackedByte(pixels: seq<Pixel>, i: nat): Byte {
    64 * InOrder(pixels, 4 * i) + 16 * InOrder(pixels, 4 * i + 1) + 4 * InOrder(pixels, 4 * i + 2)
    + InOrder(pixels, 4 * i + 3)
  }

  function Pack4(pixels: seq<Pixel>): (packed: Data)
    ensures |packed| == (|pixels| + 3) / 4
    ensures forall i :: 0 <= i < |packed| ==> packed[i] == PackedByte(pixels, i)
  {
    seq((|pixels| + 3) / 4, i requires 0 <= i => PackedByte(pixels, i))
  }

  /** The packed bitmap. */
  function Packed(aligned: Data, width: nat, height: nat): Data
    requires |aligned| >= AlignedSize(width, height)
  {
    Pack4(Pixels(aligned, width, height, height))
  }

  // --- Where the pixels go ---

  lemma {:induction false} PixelsCount(aligned: Data, width: nat, height: nat, rows: nat)
    requires rows <= height && |aligned| >= AlignedSize(width, height)
    ensures |Pixels(aligned, width, height, rows)| == rows * width
  {
    if rows > 0 {
      PixelsCount(aligned, width, height, rows - 1);
      assert rows * width == (rows - 1) * width + width;
    }
  }

  lemma {:induction false} RowPixel(aligned: Data, width: nat, height: nat, x: nat, y: nat)
    requires x < width && y < height && |aligned| >= AlignedSize(width, height)
    ensures Row(RowBytes(aligned, width, height, y), width)[x] == PixelAt(aligned, width, height, x, y)
  {
  }

  lemma {:induction false} FirstPart(a: seq<Pixel>, b: seq<Pixel>, x: nat)
    requires x < |a|
    ensures x < |a + b| && (a + b)[x] == a[x]
  {
  }

  lemma {:induction false} SecondPart(a: seq<Pixel>, b: seq<Pixel>, x: nat)
    requires x < |b|
    ensures (a + b)[|a| + x] == b[x]
  {
  }

  lemma {:induction false} RowPlaced(aligned: Data, width: nat, height: nat, rows: nat, x: nat, y: nat)
    requires x < width && y < rows <= height && |aligned| >= AlignedSize(width, height)
    ensures |Pixels(aligned, width, height, y)| + x < |Pixels(aligned, width, height, rows)|
    ensures Pixels(aligned, width, height, rows)[|Pixels(aligned, width, height, y)| + x]
         == PixelAt(aligned, width, height, x, y)
  {
    RowPixel(aligned, width, height, x, y);
    SecondPart(Pixels(aligned, width, height, y), Row(RowBytes(aligned, width, height, y), width), x);
    PixelsPrefix(aligned, width, height, y + 1, rows);
  }

  /** Pixel (x, y) comes at y * width + x. */
  lemma {:induction false} PixelsInOrder(aligned: Data, width: nat, height: nat, x: nat, y: nat, k: nat)
    requires x < width && y < height && |aligned| >= AlignedSize(width, height) && k == y * width + x
    ensures k < |Pixels(aligned, width, height, height)|
    ensures Pixels(aligned, width, height, height)[k] == PixelAt(aligned, width, height, x, y)
  {
    RowPlaced(aligned, width, height, height, x, y);
    PixelsCount(aligned, width, height, y);
  }

  lemma {:induction false} PackedByteHolds(pixels: seq<Pixel>, i: nat, j: nat)
    requires j < 4
    ensures PixelOf(PackedByte(pixels, i), j) == InOrder(pixels, 4 * i + j)
  {
    Digits(InOrder(pixels, 4 * i), InOrder(pixels, 4 * i + 1), InOrder(pixels, 4 * i + 2), InOrder(pixels, 4 * i + 3),
           PackedByte(pixels, i));
  }

  /** Four pixels a byte, the leftmost in the highest two bits. */
  lemma {:induction false} Digits(p: Pixel, q: Pixel, r: Pixel, s: Pixel, b: Byte)
    requires b == 64 * p + 16 * q + 4 * r + s
    ensures PixelOf(b, 0) == p && PixelOf(b, 1) == q && PixelOf(b, 2) == r && PixelOf(b, 3) == s
  {
    assert b / 4 == 16 * p + 4 * q + r;
    assert b / 16 == 4 * p + q;
    assert b / 64 == p;
  }

  lemma {:induction false} Pack4Holds(pixels: seq<Pixel>, k: nat)
    requires k / 4 < |Pack4(pixels)|
    ensures PixelOf(Pack4(pixels)[k / 4], k % 4) == InOrder(pixels, k)
  {
    PackedByteHolds(pixels, k / 4, k % 4);
  }

  /** Every pixel (x, y) of the padded bitmap is packed at y * width + x. */
  lemma {:induction false} PackedPixel(aligned: Data, width: nat, height: nat, x: nat, y: nat, k: nat)
    requires |aligned| >= AlignedSize(width, height) && x < width && y < height && k == y * width + x
    ensures k / 4 < |Packed(aligned, width, height)|
    ensures PixelOf(Packed(aligned, width, height)[k / 4], k % 4) == PixelAt(aligned, width, height, x, y)
  {
    PixelsInOrder(aligned, width, height, x, y, k);
    Pack4Holds(Pixels(aligned, width, height, height), k);
  }

  /** Rows are padded to whole bytes of four pixels. */
  lemma {:induction false} PixelPlace(aligned: Data, width: nat, height: nat, x: nat, y: nat, at: nat)
    requires |aligned| >= AlignedSize(width, height) && x < width && y < height
    requires at == y * ((width + 3) / 4) + x / 4
    ensures at < |aligned| && PixelAt(aligned, width, height, x, y) == PixelOf(aligned[at], x % 4)
  {
    AlignedSizeIs(width, y);
    RowWithin(width, height, y);
    assert at == AlignedSize(width, y) + x / 4 && x / 4 < RowStride(width);
  }

  /** A pixel's place in the padded rows and in the packed bitmap. */
  lemma {:induction false} PixelMoves(aligned: Data, width: nat, height: nat, x: nat, y: nat, k: nat, at: nat)
    requires |aligned| >= AlignedSize(width, height) && x < width && y < height
    requires k == y * width + x && at == y * ((width + 3) / 4) + x / 4
    ensures at < |aligned| && k / 4 < |Packed(aligned, width, height)| == (height * width + 3) / 4
    ensures PixelOf(Packed(aligned, width, height)[k / 4], k % 4) == PixelOf(aligned[at], x % 4)
  {
    PackedPadding(aligned, width, height, 0);
    PackedPixel(aligned, width, height, x, y, k);
    PixelPlace(aligned, width, height, x, y, at);
  }

  /** The packed bitmap is as long as its pixels need, and past the last pixel there are only zeros. */
  lemma {:induction false} PackedPadding(aligned: Data, width: nat, height: nat, k: nat)
    requires |aligned| >= AlignedSize(width, height)
    ensures |Packed(aligned, width, height)| == (height * width + 3) / 4
    ensures height * width <= k < 4 * |Packed(aligned, width, height)| ==>
      PixelOf(Packed(aligned, width, height)[k / 4], k % 4) == 0
  {
    var pixels := Pixels(aligned, width, height, height);
    PixelsCount(aligned, width, height, height);
    if k / 4 < |Pack4(pixels)| {
      Pack4Holds(pixels, k);
    }
  }

  // --- Rows that end on byte boundaries ---

  lemma {:induction false} Pack4Append(a: seq<Pixel>, b: seq<Pixel>)
    requires |a| % 4 == 0
    ensures Pack4(a + b) == Pack4(a) + Pack4(b)
  {
    forall i | 0 <= i < |Pack4(a + b)| ensures Pack4(a + b)[i] == (Pack4(a) + Pack4(b))[i] {
      if i >= |a| / 4 {
        assert PackedByte(a + b, i) == PackedByte(b, i - |a| / 4);
      }
    }
  }

  lemma {:induction false} RowPixelOf(bytes: Data, width: nat, i: nat, n: nat)
    requires width % 4 == 0 && |bytes| == RowStride(width) && i < |bytes| && n < 4
    ensures InOrder(Row(bytes, width), 4 * i + n) == PixelOf(bytes[i], n)
  {
    assert (4 * i + n) / 4 == i && (4 * i + n) % 4 == n;
    assert 4 * i + n < width;
  }

  lemma {:induction false} FourPixels(pixels: seq<Pixel>, i: nat, b: Byte)
    requires forall n :: 0 <= n < 4 ==> InOrder(pixels, 4 * i + n) == PixelOf(b, n)
    ensures PackedByte(pixels, i) == b
  {
    RejoinByte(b);
    assert InOrder(pixels, 4 * i + 0) == PixelOf(b, 0) && InOrder(pixels, 4 * i + 1) == PixelOf(b, 1);
    assert InOrder(pixels, 4 * i + 2) == PixelOf(b, 2) && InOrder(pixels, 4 * i + 3) == PixelOf(b, 3);
  }

  lemma {:induction false} RowByte(bytes: Data, width: nat, i: nat)
    requires width % 4 == 0 && |bytes| == RowStride(width) && i < |bytes|
    ensures PackedByte(Row(bytes, width), i) == bytes[i]
  {
    RowPixelOf(bytes, width, i, 0);
    RowPixelOf(bytes, width, i, 1);
    RowPixelOf(bytes, width, i, 2);
    RowPixelOf(bytes, width, i, 3);
    FourPixels(Row(bytes, width), i, bytes[i]);
  }

  lemma {:induction false} Pack4Row(bytes: Data, width: nat)
    requires width % 4 == 0 && |bytes| == RowStride(width)
    ensures Pack4(Row(bytes, width)) == bytes
  {
    forall i | 0 <= i < |bytes| ensures Pack4(Row(bytes, width))[i] == bytes[i] {
      RowByte(bytes, width, i);
    }
  }

  lemma {:induction false} RejoinByte(b: Byte)
    ensures 64 * PixelOf(b, 0) + 16 * PixelOf(b, 1) + 4 * PixelOf(b, 2) + PixelOf(b, 3) == b
  {
    assert b == 4 * (b / 4) + b % 4;
    assert b / 4 == 4 * (b / 16) + b / 4 % 4;
    assert b / 16 == 4 * (b / 64) + b / 16 % 4;
  }

  lemma {:induction false} NextRow(aligned: Data, at: nat, stride: nat)
    requires at + stride <= |aligned|
    ensures aligned[..at] + aligned[at..at + stride] == aligned[..at + stride]
  {
  }

  /** The bytes of the first `rows` rows. */
  function RowsBytes(aligned: Data, width: nat, height: nat, rows: nat): Data
    requires rows <= height && |aligned| >= AlignedSize(width, height)
  {
    if rows == 0 then []
    else RowsBytes(aligned, width, height, rows - 1) + RowBytes(aligned, width, height, rows - 1)
  }

  lemma {:induction false} RowsBytesArePrefix(aligned: Data, width: nat, height: nat, rows: nat)
    requires rows <= height && |aligned| >= AlignedSize(width, height)
    ensures AlignedSize(width, rows) <= |aligned|
    ensures RowsBytes(aligned, width, height, rows) == aligned[..AlignedSize(width, rows)]
  {
    if rows > 0 {
      RowWithin(width, height, rows - 1);
      RowsBytesArePrefix(aligned, width, height, rows - 1);
      NextRow(aligned, AlignedSize(width, rows - 1), RowStride(width));
    }
  }

  lemma {:induction false} WholeRowPixels(aligned: Data, width: nat, height: nat, rows: nat)
    requires rows <= height && |aligned| >= AlignedSize(width, height) && width % 4 == 0
    ensures |Pixels(aligned, width, height, rows)| % 4 == 0
  {
    if rows > 0 {
      WholeRowPixels(aligned, width, height, rows - 1);
      FoursAdd(|Pixels(aligned, width, height, rows - 1)|, width);
    }
  }

  lemma {:induction false} FoursAdd(a: nat, b: nat)
    requires a % 4 == 0 && b % 4 == 0
    ensures (a + b) % 4 == 0
  {
  }

  lemma {:induction false} PackNext(before: seq<Pixel>, packed: Data, bytes: Data, width: nat)
    requires width % 4 == 0 && |bytes| == RowStride(width) && |before| % 4 == 0 && Pack4(before) == packed
    ensures Pack4(before + Row(bytes, width)) == packed + bytes
  {
    Pack4Append(before, Row(bytes, width));
    Pack4Row(bytes, width);
  }

  /** Then packing copies the bytes. */
  lemma {:induction false} PackedWholeRows(aligned: Data, width: nat, height: nat, rows: nat)
    requires rows <= height && |aligned| >= AlignedSize(width, height) && width % 4 == 0
    ensures Pack4(Pixels(aligned, width, height, rows)) == RowsBytes(aligned, width, height, rows)
  {
    if rows > 0 {
      PackedWholeRows(aligned, width, height, rows - 1);
      WholeRowPixels(aligned, width, height, rows - 1);
      PackNext(Pixels(aligned, width, height, rows - 1), RowsBytes(aligned, width, height, rows - 1),
               RowBytes(aligned, width, height, rows - 1), width);
    }
  }

  lemma {:induction false} PackedCopies(aligned: Data, width: nat, height: nat)
    requires |aligned| >= AlignedSize(width, height) && width % 4 == 0
    ensures Packed(aligned, width, height) == aligned[..AlignedSize(width, height)]
  {
    PackedWholeRows(aligned, width, height, height);
    RowsBytesArePrefix(aligned, width, height, height);
  }

  // --- The source's loop ---

  /** What the accumulator holds after `count` of a byte's pixels. */
  function Partial(pixels: seq<Pixel>, start: nat, count: nat): (v: nat)
    requires count <= 4
    ensures count == 0 ==> v == 0
    ensures count == 1 ==> v < 4
    ensures count == 2 ==> v < 16
    ensures count == 3 ==> v < 64
    ensures count == 4 ==> v < 256
  {
    if count == 0 then 0 else 4 * Partial(pixels, start, count - 1) + InOrder(pixels, start + count - 1)
  }

  lemma {:induction false} PartialIsByte(pixels: seq<Pixel>, i: nat)
    ensures Partial(pixels, 4 * i, 4) == PackedByte(pixels, i)
  {
    assert Partial(pixels, 4 * i, 1) == InOrder(pixels, 4 * i);
    assert Partial(pixels, 4 * i, 2) == 4 * Partial(pixels, 4 * i, 1) + InOrder(pixels, 4 * i + 1);
    assert Partial(pixels, 4 * i, 3) == 4 * Partial(pixels, 4 * i, 2) + InOrder(pixels, 4 * i + 2);
  }

  /** The left shift of the last, unfinished byte. */
  lemma {:induction false} LastByte(pixels: seq<Pixel>, i: nat)
    requires |pixels| / 4 == i && |pixels| % 4 != 0
    ensures var count := |pixels| % 4;
            PackedByte(pixels, i)
            == (if count == 1 then 64 else if count == 2 then 16 else 4) * Partial(pixels, 4 * i, count)
  {
    assert Partial(pixels, 4 * i, 1) == InOrder(pixels, 4 * i);
    assert Partial(pixels, 4 * i, 2) == 4 * Partial(pixels, 4 * i, 1) + InOrder(pixels, 4 * i + 1);
    assert Partial(pixels, 4 * i, 3) == 4 * Partial(pixels, 4 * i, 2) + InOrder(pixels, 4 * i + 2);
  }

  lemma {:induction false} PixelRead(aligned: Data, width: nat, height: nat, x: nat, y: nat)
    requires x < width && y < height && |aligned| >= AlignedSize(width, height)
    ensures 0 <= y * RowStride(width) + x / 4 < |aligned|
    ensures aligned[y * RowStride(width) + x / 4] == RowBytes(aligned, width, height, y)[x / 4]
    ensures Row(RowBytes(aligned, width, height, y), width)[x]
         == PixelOf(aligned[y * RowStride(width) + x / 4], x % 4)
  {
    RowWithin(width, height, y);
    AlignedSizeIs(width, y);
  }

  lemma {:induction false} NextPixel(aligned: Data, width: nat, height: nat, x: nat, y: nat, pixels: seq<Pixel>, k: nat)
    requires x < width && y < height && |aligned| >= AlignedSize(width, height)
    requires k + width <= |pixels| && pixels[k..k + width] == Row(RowBytes(aligned, width, height, y), width)
    ensures 0 <= y * RowStride(width) + x / 4 < |aligned|
    ensures pixels[k + x] == PixelOf(aligned[y * RowStride(width) + x / 4], x % 4)
  {
    PixelRead(aligned, width, height, x, y);
    assert pixels[k..k + width][x] == pixels[k + x];
  }

  /** `dst` is as it was but for the first `done` packed bytes, from `at` on. */
  ghost predicate Written(dst: Data, was: Data, at: nat, pixels: seq<Pixel>, done: nat) {
    && at + done <= |dst| == |was|
    && (forall i :: 0 <= i < done ==> dst[at + i] == PackedByte(pixels, i))
    && (forall i :: 0 <= i < at || at + done <= i < |dst| ==> dst[i] == was[i])
  }

  /** The accumulator between pixels: `k` pixels taken, whole bytes written, the rest held back. */
  ghost predicate Held(dst: Data, was: Data, at: nat, pixels: seq<Pixel>, k: nat, writeIdx: nat, outByte: nat,
                       outBits: nat) {
    && 4 * writeIdx <= k < 4 * writeIdx + 4 && k <= |pixels| && outBits == 2 * (k - 4 * writeIdx)
    && outByte == Partial(pixels, 4 * writeIdx, k - 4 * writeIdx)
    && Written(dst, was, at, pixels, writeIdx)
  }

  lemma {:induction false} WrittenNext(dst: Data, was: Data, at: nat, pixels: seq<Pixel>, done: nat, b: Byte)
    requires Written(dst, was, at, pixels, done) && at + done < |dst| && b == PackedByte(pixels, done)
    ensures Written(dst[at + done := b], was, at, pixels, done + 1)
  {
  }

  /** One pixel into the accumulator, which is written out when it is full. */
  method PutPixel(dst: array<Byte>, at: nat, p: Pixel, writeIdx: nat, outByte: Byte, outBits: nat,
                  ghost was: Data, ghost pixels: seq<Pixel>, ghost k: nat)
    returns (w: nat, b: Byte, bits: nat)
    requires k < |pixels| && pixels[k] == p && at + (|pixels| + 3) / 4 <= dst.Length
    requires Held(dst[..], was, at, pixels, k, writeIdx, outByte, outBits)
    modifies dst
    ensures Held(dst[..], was, at, pixels, k + 1, w, b, bits)
  {
    w, b, bits := writeIdx, (outByte * 4) % 256 + p, outBits + 2;
    if bits == 8 {
      PartialIsByte(pixels, writeIdx);
      WrittenNext(dst[..], was, at, pixels, writeIdx, b);
      ghost var after := dst[..][at + writeIdx := b];
      dst[at + writeIdx] := b;
      assert dst[..] == after;
      w, b, bits := writeIdx + 1, 0, 0;
    }
  }

  function ShiftedLast(outByte: Byte, outBits: nat): Byte {
    if outBits == 2 then outByte * 64 % 256 else if outBits == 4 then outByte * 16 % 256 else outByte * 4 % 256
  }

  lemma {:induction false} LastShift(pixels: seq<Pixel>, i: nat, outByte: Byte, outBits: nat)
    requires 4 * i < |pixels| < 4 * i + 4 && outBits == 2 * (|pixels| - 4 * i)
    requires outByte == Partial(pixels, 4 * i, |pixels| - 4 * i)
    ensures ShiftedLast(outByte, outBits) == PackedByte(pixels, i)
  {
    LastByte(pixels, i);
  }

  /** The last byte, shifted left as far as pixels are missing. */
  method PutLast(dst: array<Byte>, at: nat, writeIdx: nat, outByte: Byte, outBits: nat,
                 ghost was: Data, ghost pixels: seq<Pixel>)
    requires at + (|pixels| + 3) / 4 <= dst.Length
    requires Held(dst[..], was, at, pixels, |pixels|, writeIdx, outByte, outBits)
    modifies dst
    ensures Written(dst[..], was, at, pixels, (|pixels| + 3) / 4)
  {
    if outBits > 0 {
      var b: Byte := ShiftedLast(outByte, outBits);
      LastShift(pixels, writeIdx, outByte, outBits);
      WrittenNext(dst[..], was, at, pixels, writeIdx, b);
      ghost var after := dst[..][at + writeIdx := b];
      dst[at + writeIdx] := b;
      assert dst[..] == after;
    }
  }

  /** Row `y` of the bitmap into the accumulator. */
  method PutRow(aligned: Data, dst: array<Byte>, at: nat, width: nat, height: nat, y: nat,
                writeIdx: nat, outByte: Byte, outBits: nat, ghost was: Data, ghost pixels: seq<Pixel>, ghost k: nat)
    returns (w: nat, b: Byte, bits: nat)
    requires y < height && |aligned| >= AlignedSize(width, height)
    requires k + width <= |pixels| && pixels[k..k + width] == Row(RowBytes(aligned, width, height, y), width)
    requires at + (|pixels| + 3) / 4 <= dst.Length
    requires Held(dst[..], was, at, pixels, k, writeIdx, outByte, outBits)
    modifies dst
    ensures Held(dst[..], was, at, pixels, k + width, w, b, bits)
  {
    w, b, bits := writeIdx, outByte, outBits;
    var x: nat := 0;
    while x < width
      invariant x <= width && Held(dst[..], was, at, pixels, k + x, w, b, bits)
    {
      NextPixel(aligned, width, height, x, y, pixels, k);
      var p := PixelOf(aligned[y * RowStride(width) + x / 4], x % 4);
      w, b, bits := PutPixel(dst, at, p, w, b, bits, was, pixels, k + x);
      x := x + 1;
    }
  }

  /** All rows into the accumulator. */
  method PutRows(aligned: Data, dst: array<Byte>, at: nat, width: nat, height: nat, ghost was: Data,
                 ghost pixels: seq<Pixel>)
    returns (w: nat, b: Byte, bits: nat)
    requires |aligned| >= AlignedSize(width, height) && pixels == Pixels(aligned, width, height, height)
    requires at + (|pixels| + 3) / 4 <= dst.Length && Held(dst[..], was, at, pixels, 0, 0, 0, 0)
    modifies dst
    ensures Held(dst[..], was, at, pixels, |pixels|, w, b, bits)
  {
    w, b, bits := 0, 0, 0;
    ghost var k: nat := 0;
    var y: nat := 0;
    while y < height
      invariant y <= height && k == y * width && Held(dst[..], was, at, pixels, k, w, b, bits)
    {
      RowInPixels(aligned, width, height, y, pixels, k);
      w, b, bits := PutRow(aligned, dst, at, width, height, y, w, b, bits, was, pixels, k);
      k := k + width;
      y := y + 1;
    }
    PixelsCount(aligned, width, height, height);
  }

  /** Where every row ends on a byte boundary: the source's memcpy. */
  method CopyRows(aligned: Data, dst: array<Byte>, at: nat, size: nat)
    requires size <= |aligned| && at + size <= dst.Length
    modifies dst
    ensures dst[..] == old(dst[..at]) + aligned[..size] + old(dst[at + size..])
  {
    ghost var was := dst[..];
    var i := 0;
    while i < size
      invariant 0 <= i <= size
      invariant dst[..at] == was[..at] && dst[at..at + i] == aligned[..i] && dst[at + i..] == was[at + i..]
    {
      dst[at + i] := aligned[i];
      i := i + 1;
    }
  }

  lemma {:induction false} WrittenMeans(dst: Data, was: Data, at: nat, pixels: seq<Pixel>)
    requires Written(dst, was, at, pixels, (|pixels| + 3) / 4)
    ensures dst == was[..at] + Pack4(pixels) + was[at + |Pack4(pixels)|..]
  {
  }

  lemma {:induction false} HeldNone(was: Data, at: nat, pixels: seq<Pixel>)
    requires at <= |was|
    ensures Held(was, was, at, pixels, 0, 0, 0, 0)
  {
  }

  /** Where rows straddle bytes: the source's bit loop. */
  method PackRows(aligned: Data, dst: array<Byte>, at: nat, width: nat, height: nat)
    requires |aligned| >= AlignedSize(width, height)
    requires at + |Packed(aligned, width, height)| <= dst.Length
    modifies dst
    ensures Written(dst[..], old(dst[..]), at, Pixels(aligned, width, height, height), |Packed(aligned, width, height)|)
  {
    ghost var was, pixels := dst[..], Pixels(aligned, width, height, height);
    HeldNone(was, at, pixels);
    var w, b, bits := PutRows(aligned, dst, at, width, height, was, pixels);
    PutLast(dst, at, w, b, bits, was, pixels);
  }

  /** Packs a glyph from row-aligned bytes into `dst`, from `at` on. */
  method CompactSingleGlyph(aligned: Data, dst: array<Byte>, at: nat, width: nat, height: nat)
    requires |aligned| >= AlignedSize(width, height)
    requires at + |Packed(aligned, width, height)| <= dst.Length
    modifies dst
    ensures dst[..] == old(dst[..at]) + Packed(aligned, width, height)
                       + old(dst[at + |Packed(aligned, width, height)|..])
  {
    if width == 0 || height == 0 {
      PixelsCount(aligned, width, height, height);
    } else if width % 4 == 0 {
      PackedCopies(aligned, width, height);
      CopyRows(aligned, dst, at, AlignedSize(width, height));
    } else {
      PackRows(aligned, dst, at, width, height);
      WrittenMeans(dst[..], old(dst[..]), at, Pixels(aligned, width, height, height));
    }
  }

  lemma {:induction false} RowInPixels(aligned: Data, width: nat, height: nat, y: nat, pixels: seq<Pixel>, k: nat)
    requires y < height && |aligned| >= AlignedSize(width, height)
    requires pixels == Pixels(aligned, width, height, height) && k == y * width
    ensures (y + 1) * width == k + width <= |pixels|
    ensures pixels[k..k + width] == Row(RowBytes(aligned, width, height, y), width)
  {
    PixelsCount(aligned, width, height, y);
    PixelsCount(aligned, width, height, y + 1);
    PixelsPrefix(aligned, width, height, y + 1, height);
    assert pixels[..k + width] == Pixels(aligned, width, height, y + 1);
    assert pixels[k..k + width] == pixels[..k + width][k..];
  }

  lemma {:induction false} PixelsPrefix(aligned: Data, width: nat, height: nat, rows: nat, all: nat)
    requires rows <= all <= height && |aligned| >= AlignedSize(width, height)
    ensures Pixels(aligned, width, height, rows) <= Pixels(aligned, width, height, all)
    decreases all
  {
    if rows < all {
      PixelsPrefix(aligned, width, height, rows, all - 1);
    }
  }
}

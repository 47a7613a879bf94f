/**
 * The tile encoder of ROM.updateBitmap (script/gbnp.js:140-168) and TickerText.generate
 * (script/gbnp.js:436-486): pixels are quantised to 2-bit codes, packed four to a byte,
 * and the bytes are visited in column strides, each byte pair being turned into the
 * device's 2bpp planar layout by a fixed bit permutation. The canvas that produces the
 * red values is outside the model; it starts from the red channel as integers.
 */
module Tiles {
  import opened Bytes

  /** A 2-bit pixel code: 00 white, 11 black, 01 and 10 the two greys. */
  type PixelCode = c: byte | c < 4

  const MenuPixels: nat := 128 * 8
  /** Bytes per packed row of the 128-pixel menu strip. */
  const MenuRowBytes: nat := 32
  const MenuBitmapBytes: nat := 256
  const TickerHeight: nat := 16

  /** The red channel of the 128 x 8 menu canvas, row by row. */
  type MenuGrid = s: seq<int> | |s| == MenuPixels witness seq(1024, _ => 255)

  // ---------------------------------------------------------------- quantising

  /** Menu text is drawn black on white: red below 127 is ink (11), anything else paper (00). */
  function MenuCode(red: int): (c: PixelCode)
    ensures c == 3 <==> red < 127
    ensures c == 0 <==> red >= 127
  {
    if red < 127 then 3 else 0
  }

  /** Ticker text: below 128 black (11), 128..161 code 01, 162..191 code 10, from 192 up 00. */
  function TickerCode(red: int): (c: PixelCode)
    ensures c == 3 <==> red < 128
    ensures c == 1 <==> 128 <= red < 162
    ensures c == 2 <==> 162 <= red < 192
    ensures c == 0 <==> 192 <= red
  {
    if red < 128 then 3 else if red < 162 then 1 else if red < 192 then 2 else 0
  }

  // ---------------------------------------------------------------- packing

  /** Four pixel codes in one byte, the leftmost pixel in the top two bits. */
  function PackGroup(c0: PixelCode, c1: PixelCode, c2: PixelCode, c3: PixelCode): byte {
    (c0 << 6) | (c1 << 4) | (c2 << 2) | c3
  }

  /** The four 2-bit fields of a packed byte, leftmost pixel first (as updateBitmapPreview splits it). */
  function UnpackByte(b: byte): (cs: seq<PixelCode>)
    ensures |cs| == 4
  {
    [(b & 0xC0) >> 6, (b & 0x30) >> 4, (b & 0x0C) >> 2, b & 0x03]
  }

  /** The packed buffer: one byte per four consecutive pixels. */
  function Packed(codes: seq<PixelCode>): (r: seq<byte>)
    requires |codes| % 4 == 0
    ensures |r| == |codes| / 4
    decreases |codes|
  {
    if codes == [] then []
    else
      var n := |codes| - 4;
      Packed(codes[..n]) + [PackGroup(codes[n], codes[n + 1], codes[n + 2], codes[n + 3])]
  }

  function Unpacked(buffer: seq<byte>): (r: seq<PixelCode>)
    ensures |r| == 4 * |buffer|
  {
    if buffer == [] then [] else Unpacked(buffer[..|buffer| - 1]) + UnpackByte(buffer[|buffer| - 1])
  }

  /** Packing loses nothing: splitting a packed byte gives back its four codes. */
  lemma UnpackGroup(c0: PixelCode, c1: PixelCode, c2: PixelCode, c3: PixelCode)
    ensures UnpackByte(PackGroup(c0, c1, c2, c3)) == [c0, c1, c2, c3]
  {
  }

  lemma UnpackedSnoc(front: seq<byte>, g: byte)
    ensures Unpacked(front + [g]) == Unpacked(front) + UnpackByte(g)
  {
    var p := front + [g];
    assert p[..|p| - 1] == front;
  }

  lemma {:induction false} UnpackPacked(codes: seq<PixelCode>)
    requires |codes| % 4 == 0
    ensures Unpacked(Packed(codes)) == codes
    decreases |codes|
  {
    if codes != [] {
      var n := |codes| - 4;
      var c0, c1, c2, c3 := codes[n], codes[n + 1], codes[n + 2], codes[n + 3];
      var g := PackGroup(c0, c1, c2, c3);
      calc {
        Unpacked(Packed(codes));
        Unpacked(Packed(codes[..n]) + [g]);
        { UnpackedSnoc(Packed(codes[..n]), g); }
        Unpacked(Packed(codes[..n])) + UnpackByte(g);
        { UnpackPacked(codes[..n]); UnpackGroup(c0, c1, c2, c3); }
        codes[..n] + [c0, c1, c2, c3];
        codes;
      }
    }
  }

  /** Packing is injective: different pixel codes never give the same buffer. */
  lemma PackedInjective(x: seq<PixelCode>, y: seq<PixelCode>)
    requires |x| % 4 == 0 && |y| % 4 == 0
    requires Packed(x) == Packed(y)
    ensures x == y
  {
    UnpackPacked(x);
    UnpackPacked(y);
  }

  lemma {:induction false} PackedWhite(codes: seq<PixelCode>)
    requires |codes| % 4 == 0
    requires forall k :: 0 <= k < |codes| ==> codes[k] == 0
    ensures forall k :: 0 <= k < |codes| / 4 ==> Packed(codes)[k] == 0
    decreases |codes|
  {
    if codes != [] {
      PackedWhite(codes[..|codes| - 4]);
    }
  }

  /** The packing loop: four pixels per byte, each code shifted into place with `|`. */
  method PackPixels(codes: seq<PixelCode>) returns (buffer: seq<byte>)
    requires |codes| % 4 == 0
    ensures buffer == Packed(codes)
  {
    buffer := [];
    var i := 0;
    while i < |codes|
      invariant 0 <= i <= |codes| && i % 4 == 0
      invariant buffer == Packed(codes[..i])
    {
      var b: byte := 0;
      for j := 0 to 4
        invariant b == PackGroup(if 0 < j then codes[i] else 0, if 1 < j then codes[i + 1] else 0,
                                 if 2 < j then codes[i + 2] else 0, if 3 < j then codes[i + 3] else 0)
      {
        var shifted: byte := (codes[i + j] as byte) << (6 - 2 * j);
        b := b | shifted;
      }
      assert codes[..i + 4][..i] == codes[..i];
      buffer := buffer + [b];
      i := i + 4;
    }
    assert codes[..i] == codes;
  }

  // ---------------------------------------------------------------- the bit permutation

  /** Bit i of x. */
  predicate Bit(x: byte, i: nat)
    requires i < 8
  {
    (x >> i) & 1 == 1
  }

  /** The first output byte: bits 7/5/3/1 of a, then bits 7/5/3/1 of b. */
  function SwizzleHigh(a: byte, b: byte): byte {
    (a & 0x80) | ((a & 0x20) << 1) | ((a & 0x08) << 2) | ((a & 0x02) << 3) |
    ((b & 0x80) >> 4) | ((b & 0x20) >> 3) | ((b & 0x08) >> 2) | ((b & 0x02) >> 1)
  }

  /** The second output byte: bits 6/4/2/0 of a, then bits 6/4/2/0 of b. */
  function SwizzleLow(a: byte, b: byte): byte {
    ((a & 0x40) << 1) | ((a & 0x10) << 2) | ((a & 0x04) << 3) | ((a & 0x01) << 4) |
    ((b & 0x40) >> 3) | ((b & 0x10) >> 2) | ((b & 0x04) >> 1) | (b & 0x01)
  }

  function Swizzle(a: byte, b: byte): seq<byte> {
    [SwizzleHigh(a, b), SwizzleLow(a, b)]
  }

  /** Where every input bit goes: the odd bits form the first byte, the even bits the second. */
  lemma SwizzleBits(a: byte, b: byte)
    ensures forall i :: 0 <= i < 4 ==>
      && Bit(SwizzleHigh(a, b), 4 + i) == Bit(a, 2 * i + 1)
      && Bit(SwizzleHigh(a, b), i) == Bit(b, 2 * i + 1)
      && Bit(SwizzleLow(a, b), 4 + i) == Bit(a, 2 * i)
      && Bit(SwizzleLow(a, b), i) == Bit(b, 2 * i)
  {
    forall i | 0 <= i < 4
      ensures && Bit(SwizzleHigh(a, b), 4 + i) == Bit(a, 2 * i + 1)
              && Bit(SwizzleHigh(a, b), i) == Bit(b, 2 * i + 1)
              && Bit(SwizzleLow(a, b), 4 + i) == Bit(a, 2 * i)
              && Bit(SwizzleLow(a, b), i) == Bit(b, 2 * i)
    {
      if i == 0 {
      } else if i == 1 {
      } else if i == 2 {
      } else {
      }
    }
  }

  /** The inverse permutation: puts the bits of a planar pair back into two packed bytes. */
  function UnswizzleFirst(hi: byte, lo: byte): byte {
    (hi & 0x80) | ((hi & 0x40) >> 1) | ((hi & 0x20) >> 2) | ((hi & 0x10) >> 3) |
    ((lo & 0x80) >> 1) | ((lo & 0x40) >> 2) | ((lo & 0x20) >> 3) | ((lo & 0x10) >> 4)
  }

  function UnswizzleSecond(hi: byte, lo: byte): byte {
    ((hi & 0x08) << 4) | ((hi & 0x04) << 3) | ((hi & 0x02) << 2) | ((hi & 0x01) << 1) |
    ((lo & 0x08) << 3) | ((lo & 0x04) << 2) | ((lo & 0x02) << 1) | (lo & 0x01)
  }

  /** The permutation is a bijection on byte pairs: each direction undoes the other. */
  lemma SwizzleBijective(a: byte, b: byte, hi: byte, lo: byte)
    ensures UnswizzleFirst(SwizzleHigh(a, b), SwizzleLow(a, b)) == a
    ensures UnswizzleSecond(SwizzleHigh(a, b), SwizzleLow(a, b)) == b
    ensures SwizzleHigh(UnswizzleFirst(hi, lo), UnswizzleSecond(hi, lo)) == hi
    ensures SwizzleLow(UnswizzleFirst(hi, lo), UnswizzleSecond(hi, lo)) == lo
  {
  }

  // ---------------------------------------------------------------- the stride order

  /** Requirements on a packed buffer read in column strides of `stride` bytes. */
  predicate Strided(buffer: seq<byte>, stride: nat) {
    0 < stride && stride % 2 == 0 && |buffer| % 2 == 0
  }

  /** Swizzled pairs at i, i + stride, i + 2 * stride, ... up to the end of the buffer. */
  function ColumnFrom(buffer: seq<byte>, stride: nat, i: nat): (r: seq<byte>)
    requires Strided(buffer, stride) && i % 2 == 0
    decreases |buffer| - i
  {
    if i >= |buffer| then []
    else Swizzle(buffer[i], buffer[i + 1]) + ColumnFrom(buffer, stride, i + stride)
  }

  /** The columns starting at h, h + 2, ... below `stride`, each visited top to bottom. */
  function TilesFrom(buffer: seq<byte>, stride: nat, h: nat): (r: seq<byte>)
    requires Strided(buffer, stride) && h % 2 == 0
    decreases stride - h
  {
    if h >= stride then [] else ColumnFrom(buffer, stride, h) + TilesFrom(buffer, stride, h + 2)
  }

  /** The device's tile layout of a packed buffer whose rows are `stride` bytes long. */
  function TileLayout(buffer: seq<byte>, stride: nat): seq<byte>
    requires Strided(buffer, stride)
  {
    TilesFrom(buffer, stride, 0)
  }

  /** The reordering loops: column pairs h = 0, 2, ...; in each, every row from top to bottom. */
  method ReorderTiles(buffer: seq<byte>, stride: nat) returns (output: seq<byte>)
    requires Strided(buffer, stride)
    ensures output == TileLayout(buffer, stride)
  {
    ghost var layout := TileLayout(buffer, stride);
    output := [];
    var h := 0;
    while h < stride
      invariant h % 2 == 0 && h <= stride
      invariant output + TilesFrom(buffer, stride, h) == layout
    {
      ghost var done := output;
      output := ReorderColumn(buffer, stride, h, output);
      assert done + TilesFrom(buffer, stride, h) == output + TilesFrom(buffer, stride, h + 2);
      h := h + 2;
    }
  }

  /** The inner loop: the pairs of column h, row by row, appended to the output. */
  method ReorderColumn(buffer: seq<byte>, stride: nat, h: nat, output: seq<byte>) returns (extended: seq<byte>)
    requires Strided(buffer, stride) && h % 2 == 0
    ensures extended == output + ColumnFrom(buffer, stride, h)
  {
    extended := output;
    var i := h;
    while i < |buffer|
      invariant i % 2 == 0
      invariant extended + ColumnFrom(buffer, stride, i) == output + ColumnFrom(buffer, stride, h)
      decreases |buffer| - i
    {
      EvenBelow(i, |buffer|);
      var a := buffer[i];
      var b := buffer[i + 1];
      var outputA := SwizzleHigh(a, b);
      var outputB := SwizzleLow(a, b);
      ColumnStep(buffer, stride, i, extended, output + ColumnFrom(buffer, stride, h));
      extended := extended + [outputA, outputB];
      i := i + stride;
    }
  }

  lemma MulStep(rows: nat, stride: nat)
    requires rows > 0
    ensures rows * stride == (rows - 1) * stride + stride
    ensures (rows - 1) * stride >= 0
  {
  }

  lemma EvenBelow(i: int, n: int)
    requires i % 2 == 0 && n % 2 == 0 && i < n
    ensures i + 1 < n
  {
  }

  lemma EvenSum(i: int, j: int)
    requires i % 2 == 0 && j % 2 == 0
    ensures (i + j) % 2 == 0
  {
  }

  /** One pair of the column moves from the pending part to the output. */
  lemma ColumnStep(buffer: seq<byte>, stride: nat, i: nat, before: seq<byte>, total: seq<byte>)
    requires Strided(buffer, stride) && i % 2 == 0 && i + 1 < |buffer|
    requires before + ColumnFrom(buffer, stride, i) == total
    ensures (before + [SwizzleHigh(buffer[i], buffer[i + 1]), SwizzleLow(buffer[i], buffer[i + 1])])
            + ColumnFrom(buffer, stride, i + stride) == total
    ensures (i + stride) % 2 == 0
  {
    var pair, rest := Swizzle(buffer[i], buffer[i + 1]), ColumnFrom(buffer, stride, i + stride);
    assert ColumnFrom(buffer, stride, i) == pair + rest;
    assert before + (pair + rest) == (before + pair) + rest;
  }

  lemma {:induction false} ColumnLength(buffer: seq<byte>, stride: nat, i: nat, rows: nat)
    requires Strided(buffer, stride) && i % 2 == 0 && i < stride
    requires |buffer| == rows * stride
    ensures |ColumnFrom(buffer, stride, i)| == 2 * rows
    decreases rows
  {
    if rows > 0 {
      EvenSum(i, stride);
      MulStep(rows, stride);
      var short := buffer[stride..];
      assert |short| == (rows - 1) * stride;
      assert ColumnFrom(buffer, stride, i)
          == Swizzle(buffer[i], buffer[i + 1]) + ColumnFrom(buffer, stride, i + stride);
      ColumnShift(buffer, stride, i);
      ColumnLength(short, stride, i, rows - 1);
    } else {
      assert |buffer| == 0;
    }
  }

  /** Dropping the top row of the buffer drops the first pair of each column. */
  lemma {:induction false} ColumnShift(buffer: seq<byte>, stride: nat, i: nat)
    requires Strided(buffer, stride) && i % 2 == 0 && stride <= |buffer|
    ensures Strided(buffer[stride..], stride)
    ensures ColumnFrom(buffer, stride, i + stride) == ColumnFrom(buffer[stride..], stride, i)
    decreases |buffer| - i
  {
    if i + stride < |buffer| {
      ColumnShift(buffer, stride, i + stride);
    }
  }

  lemma {:induction false} TilesLength(buffer: seq<byte>, stride: nat, h: nat, rows: nat)
    requires Strided(buffer, stride) && h % 2 == 0 && h <= stride
    requires |buffer| == rows * stride
    ensures |TilesFrom(buffer, stride, h)| == rows * (stride - h)
    decreases stride - h
  {
    if h < stride {
      EvenBelow(h, stride);
      ColumnLength(buffer, stride, h, rows);
      TilesLength(buffer, stride, h + 2, rows);
      ColumnLess(rows, stride - h);
    }
  }

  /** A column of `rows` pairs fewer: `rows` rows of width w are 2·rows bytes more than of width w - 2. */
  lemma ColumnLess(rows: nat, w: nat)
    requires 2 <= w
    ensures rows * w == 2 * rows + rows * (w - 2)
  {
  }

  /** Reordering keeps the size: the tile layout has as many bytes as the packed buffer. */
  lemma TileLayoutLength(buffer: seq<byte>, stride: nat, rows: nat)
    requires Strided(buffer, stride) && |buffer| == rows * stride
    ensures |TileLayout(buffer, stride)| == |buffer|
  {
    TilesLength(buffer, stride, 0, rows);
  }

  /** The byte r rows below byte i. */
  function RowsBelow(i: nat, r: nat, stride: nat): (j: nat)
    ensures i <= j
    decreases r
  {
    if r == 0 then i else RowsBelow(i + stride, r - 1, stride)
  }

  lemma {:induction false} RowsBelowIs(i: nat, r: nat, stride: nat)
    ensures RowsBelow(i, r, stride) == i + r * stride
    decreases r
  {
    if r > 0 {
      RowsBelowIs(i + stride, r - 1, stride);
      MulStep(r, stride);
    }
  }

  /** Row r of the column starting at byte i: the pair r rows below i, permuted, is at 2r. */
  lemma ColumnPair(buffer: seq<byte>, stride: nat, i: nat, r: nat)
    requires Strided(buffer, stride) && i % 2 == 0 && RowsBelow(i, r, stride) < |buffer|
    ensures RowsBelow(i, r, stride) + 1 < |buffer| && 2 * r + 2 <= |ColumnFrom(buffer, stride, i)|
    ensures ColumnFrom(buffer, stride, i)[2 * r..2 * r + 2]
         == Swizzle(buffer[RowsBelow(i, r, stride)], buffer[RowsBelow(i, r, stride) + 1])
  {
    ColumnFromRow(buffer, stride, i, r);
    ColumnHead(buffer, stride, RowsBelow(i, r, stride));
    var column := ColumnFrom(buffer, stride, i);
    assert column[2 * r..2 * r + 2] == column[2 * r..][0..2];
  }

  /** The column from i, past its first r pairs, is the column r rows below i. */
  lemma {:induction false} ColumnFromRow(buffer: seq<byte>, stride: nat, i: nat, r: nat)
    requires Strided(buffer, stride) && i % 2 == 0 && RowsBelow(i, r, stride) < |buffer|
    ensures RowsBelow(i, r, stride) % 2 == 0 && 2 * r <= |ColumnFrom(buffer, stride, i)|
    ensures ColumnFrom(buffer, stride, i)[2 * r..] == ColumnFrom(buffer, stride, RowsBelow(i, r, stride))
    decreases r
  {
    if r > 0 {
      EvenSum(i, stride);
      ColumnFromRow(buffer, stride, i + stride, r - 1);
      ColumnTail(buffer, stride, i);
      var column := ColumnFrom(buffer, stride, i);
      assert column[2 * r..] == column[2..][2 * (r - 1)..];
    }
  }

  /** The first pair of a column is the permuted pair it starts at. */
  lemma ColumnHead(buffer: seq<byte>, stride: nat, i: nat)
    requires Strided(buffer, stride) && i % 2 == 0 && i < |buffer|
    ensures i + 1 < |buffer| && 2 <= |ColumnFrom(buffer, stride, i)|
    ensures ColumnFrom(buffer, stride, i)[0..2] == Swizzle(buffer[i], buffer[i + 1])
  {
    EvenBelow(i, |buffer|);
  }

  /** Past its first pair, a column is the column one row further down. */
  lemma ColumnTail(buffer: seq<byte>, stride: nat, i: nat)
    requires Strided(buffer, stride) && i % 2 == 0 && i < |buffer|
    ensures (i + stride) % 2 == 0 && 2 <= |ColumnFrom(buffer, stride, i)|
    ensures ColumnFrom(buffer, stride, i)[2..] == ColumnFrom(buffer, stride, i + stride)
  {
    EvenBelow(i, |buffer|);
    EvenSum(i, stride);
  }

  /** Two bytes inside the first part of a concatenation. */
  lemma PairOfFirst(x: seq<byte>, y: seq<byte>, k: nat)
    requires k + 2 <= |x|
    ensures (x + y)[k..k + 2] == x[k..k + 2]
  {
  }

  /** Two bytes inside the second part of a concatenation. */
  lemma PairOfSecond(x: seq<byte>, y: seq<byte>, k: nat)
    requires k + 2 <= |y|
    ensures (x + y)[|x| + k..|x| + k + 2] == y[k..k + 2]
  {
  }

  lemma RowInside(r: nat, rows: nat, stride: nat)
    requires r < rows
    ensures r * stride + stride <= rows * stride
  {
    MulStep(rows - r, stride);
    assert rows * stride == r * stride + (rows - r) * stride;
  }

  /** Every column of the buffer is `len` bytes long once reordered. */
  predicate ColumnsOf(buffer: seq<byte>, stride: nat, len: nat)
    requires Strided(buffer, stride)
  {
    forall h :: 0 <= h < stride && h % 2 == 0 ==> |ColumnFrom(buffer, stride, h)| == len
  }

  /** The bytes of the columns from h up to (not including) column pair c, each `len` long. */
  function BytesBefore(h: nat, c: nat, len: nat): nat
    decreases 2 * c - h
  {
    if h >= 2 * c then 0 else len + BytesBefore(h + 2, c, len)
  }

  lemma {:induction false} BytesBeforeColumns(h: nat, c: nat, len: nat)
    requires h % 2 == 0 && h <= 2 * c
    ensures BytesBefore(h, c, len) == (c - h / 2) * len
    decreases 2 * c - h
  {
    if h < 2 * c {
      BytesBeforeColumns(h + 2, c, len);
      MulStep(c - h / 2, len);
      assert c - (h + 2) / 2 == c - h / 2 - 1;
    }
  }

  /** In the columns from h on, byte j of column pair c comes after the columns before it. */
  lemma {:induction false} TilesPair(buffer: seq<byte>, stride: nat, len: nat, h: nat, c: nat, j: nat)
    requires Strided(buffer, stride) && ColumnsOf(buffer, stride, len)
    requires h % 2 == 0 && h <= 2 * c < stride && j + 2 <= len
    ensures BytesBefore(h, c, len) + j + 2 <= |TilesFrom(buffer, stride, h)|
    ensures TilesFrom(buffer, stride, h)[BytesBefore(h, c, len) + j..BytesBefore(h, c, len) + j + 2]
         == ColumnFrom(buffer, stride, 2 * c)[j..j + 2]
    decreases 2 * c - h
  {
    var column, rest := ColumnFrom(buffer, stride, h), TilesFrom(buffer, stride, h + 2);
    assert TilesFrom(buffer, stride, h) == column + rest;
    assert |column| == len;
    if h == 2 * c {
      PairOfFirst(column, rest, j);
    } else {
      TilesPair(buffer, stride, len, h + 2, c, j);
      PairOfSecond(column, rest, BytesBefore(h + 2, c, len) + j);
    }
  }

  /**
   * Where every pair goes: the two bytes at row r, column pair c of the packed buffer are
   * permuted into the output at pair c·rows + r, so the reordering keeps every byte pair.
   */
  lemma TileLayoutPair(buffer: seq<byte>, stride: nat, rows: nat, c: nat, r: nat)
    requires Strided(buffer, stride) && |buffer| == rows * stride
    requires 2 * c < stride && r < rows
    ensures r * stride + 2 * c + 1 < |buffer|
    ensures 2 * (c * rows + r) + 2 <= |TileLayout(buffer, stride)|
    ensures TileLayout(buffer, stride)[2 * (c * rows + r)..2 * (c * rows + r) + 2]
         == Swizzle(buffer[r * stride + 2 * c], buffer[r * stride + 2 * c + 1])
  {
    ColumnsOfRows(buffer, stride, rows);
    TilesPair(buffer, stride, 2 * rows, 0, c, 2 * r);
    BytesBeforeColumns(0, c, 2 * rows);
    TwiceProduct(c, rows);
    ColumnRow(buffer, stride, rows, c, r);
  }

  /** Row r of column pair c is the permuted pair at r·stride + 2c. */
  lemma ColumnRow(buffer: seq<byte>, stride: nat, rows: nat, c: nat, r: nat)
    requires Strided(buffer, stride) && |buffer| == rows * stride
    requires 2 * c < stride && r < rows
    ensures r * stride + 2 * c + 1 < |buffer| && 2 * r + 2 <= |ColumnFrom(buffer, stride, 2 * c)|
    ensures ColumnFrom(buffer, stride, 2 * c)[2 * r..2 * r + 2]
         == Swizzle(buffer[r * stride + 2 * c], buffer[r * stride + 2 * c + 1])
  {
    RowInside(r, rows, stride);
    RowsBelowIs(2 * c, r, stride);
    ColumnPair(buffer, stride, 2 * c, r);
  }

  /** A buffer of whole rows has every column `rows` pairs long. */
  lemma ColumnsOfRows(buffer: seq<byte>, stride: nat, rows: nat)
    requires Strided(buffer, stride) && |buffer| == rows * stride
    ensures ColumnsOf(buffer, stride, 2 * rows)
  {
    forall h | 0 <= h < stride && h % 2 == 0
      ensures |ColumnFrom(buffer, stride, h)| == 2 * rows
    {
      ColumnLength(buffer, stride, h, rows);
    }
  }

  lemma TwiceProduct(c: nat, rows: nat)
    ensures c * (2 * rows) == 2 * (c * rows)
  {
  }

  /** An all-zero (all white) buffer is laid out as all zeros. */
  lemma {:induction false} TilesOfZeros(buffer: seq<byte>, stride: nat, h: nat)
    requires Strided(buffer, stride) && h % 2 == 0
    requires forall k :: 0 <= k < |buffer| ==> buffer[k] == 0
    ensures forall k :: 0 <= k < |TilesFrom(buffer, stride, h)| ==> TilesFrom(buffer, stride, h)[k] == 0
    decreases stride - h
  {
    if h < stride {
      ColumnOfZeros(buffer, stride, h);
      TilesOfZeros(buffer, stride, h + 2);
    }
  }

  lemma {:induction false} ColumnOfZeros(buffer: seq<byte>, stride: nat, i: nat)
    requires Strided(buffer, stride) && i % 2 == 0
    requires forall k :: 0 <= k < |buffer| ==> buffer[k] == 0
    ensures forall k :: 0 <= k < |ColumnFrom(buffer, stride, i)| ==> ColumnFrom(buffer, stride, i)[k] == 0
    decreases |buffer| - i
  {
    if i < |buffer| {
      ColumnOfZeros(buffer, stride, i + stride);
    }
  }

  // ---------------------------------------------------------------- whole bitmaps

  /** The 256-byte menu bitmap of a ROM slot for the given canvas red values. */
  function MenuBitmap(reds: MenuGrid): seq<byte> {
    var codes := seq(MenuPixels, k requires 0 <= k < MenuPixels => MenuCode(reds[k]));
    TileLayout(Packed(codes), MenuRowBytes)
  }

  lemma MenuBitmapLength(reds: MenuGrid)
    ensures |MenuBitmap(reds)| == MenuBitmapBytes
  {
    var codes := seq(MenuPixels, k requires 0 <= k < MenuPixels => MenuCode(reds[k]));
    TileLayoutLength(Packed(codes), MenuRowBytes, 8);
  }

  /** A blank (all-white) menu canvas encodes to 256 zero bytes. */
  lemma WhiteMenuBitmap(reds: MenuGrid)
    requires forall k :: 0 <= k < MenuPixels ==> reds[k] >= 127
    ensures MenuBitmap(reds) == Zeros(MenuBitmapBytes)
  {
    var codes := seq(MenuPixels, k requires 0 <= k < MenuPixels => MenuCode(reds[k]));
    PackedWhite(codes);
    TilesOfZeros(Packed(codes), MenuRowBytes, 0);
    MenuBitmapLength(reds);
  }

  method EncodeMenuBitmap(reds: MenuGrid) returns (bitmap: seq<byte>)
    ensures bitmap == MenuBitmap(reds)
    ensures |bitmap| == MenuBitmapBytes
  {
    var codes := seq(MenuPixels, k requires 0 <= k < MenuPixels => MenuCode(reds[k]));
    var buffer := PackPixels(codes);
    bitmap := ReorderTiles(buffer, MenuRowBytes);
    MenuBitmapLength(reds);
  }

  /** The ticker strip of a canvas `width` pixels wide and 16 high. */
  function TickerBitmap(width: nat, reds: seq<int>): seq<byte>
    requires width % 16 == 0 && width >= 64 && |reds| == TickerHeight * width
  {
    var codes := seq(|reds|, k requires 0 <= k < |reds| => TickerCode(reds[k]));
    TickerShape(width, |codes|);
    TileLayout(Packed(codes), width / 4)
  }

  /** A ticker canvas packs to whole strides of an even number of bytes. */
  lemma TickerShape(width: nat, pixels: nat)
    requires width % 16 == 0 && width >= 64 && pixels == TickerHeight * width
    ensures pixels % 4 == 0 && (pixels / 4) % 2 == 0
    ensures width / 4 > 0 && (width / 4) % 2 == 0
  {
    var q := width / 16;
    assert width == 16 * q;
    assert pixels == 256 * q;
    assert pixels / 4 == 2 * (32 * q);
    assert width / 4 == 2 * (2 * q);
  }

  method EncodeTicker(width: nat, reds: seq<int>) returns (bitmap: seq<byte>)
    requires width % 16 == 0 && width >= 64 && |reds| == TickerHeight * width
    ensures bitmap == TickerBitmap(width, reds)
    ensures |bitmap| == 4 * width
  {
    var codes := seq(|reds|, k requires 0 <= k < |reds| => TickerCode(reds[k]));
    var stride := width / 4;
    TickerShape(width, |codes|);
    assert 4 * width == TickerHeight * stride;
    var buffer := PackPixels(codes);
    bitmap := ReorderTiles(buffer, stride);
    TileLayoutLength(buffer, stride, TickerHeight);
  }

  /**
   * The ticker canvas width for a text whose measured width rounds up to `textWidth`:
   * two pixels of margin, then at most 15 increments to a multiple of 16, and at least 64.
   */
  method TickerWidth(textWidth: nat) returns (width: nat)
    ensures width % 16 == 0 && width >= 64 && width >= textWidth + 2
    ensures width == 64 || width < textWidth + 2 + 16
  {
    width := textWidth + 2;
    var i := 0;
    while i < 16
      invariant 0 <= i <= 16 && width == textWidth + 2 + i
      invariant i <= (16 - (textWidth + 2) % 16) % 16
    {
      if width % 16 == 0 {
        break;
      }
      width := width + 1;
      i := i + 1;
    }
    if width < 64 {
      width := 64;
    }
  }
}

/** The frame encoder: one decoded RGBA frame is thresholded into a raster of
    bits, row by row, and the raster is packed into the display's page
    layout: for every band of 8 rows, top band first, and every column, left
    to right, one byte whose bit k is the pixel in row k of the band. */
module FrameEncoder {
  import opened Bytes

  /** The RGBA bitmap jimp decodes from one frame image: 4 bytes per pixel
      (red, green, blue, alpha), rows top to bottom, pixels left to right. */
  datatype Bitmap = Bitmap(width: nat, height: nat, data: seq<Byte>)

  /** What the decoder guarantees: a non-empty image (a PNG has positive
      dimensions) and exactly 4 bytes per pixel. */
  predicate Decoded(bm: Bitmap)
  {
    bm.width > 0 && bm.height > 0 && |bm.data| == 4 * bm.width * bm.height
  }

  /** A pixel is lit when the sum of its four channel bytes reaches this. */
  const LitThreshold: nat := 380

  /** A raster of at least h rows whose first h rows hold w pixels each. */
  predicate IsRaster(image: seq<seq<Bit>>, w: nat, h: nat)
  {
    h <= |image| && forall y :: 0 <= y < h ==> |image[y]| == w
  }

  lemma RowMajorBound(w: nat, h: nat, y: nat, x: nat)
    requires y < h && x < w
    ensures y * w + x < w * h
  {
    assert y * w + x < (y + 1) * w;
    assert (y + 1) * w <= h * w;
  }

  lemma MulNonNegative(a: nat, b: nat)
    ensures a * b >= 0
  {
  }

  lemma MulCancel(q: nat, n: nat, w: nat)
    requires q * w < n * w
    ensures q < n
  {
  }

  /** Once the row-major index y * w + x with x < w reaches w * h, y has reached h. */
  lemma RowMajorEnd(w: nat, h: nat, y: nat, x: nat)
    requires x < w && y <= h && y * w + x >= w * h
    ensures y == h
  {
    assert h * w < (y + 1) * w;
    MulCancel(h, y + 1, w);
  }

  /** R + G + B + A of the pixel whose four bytes start at data[i]. */
  function ChannelSum(data: seq<Byte>, i: nat): (sum: nat)
    requires i + 4 <= |data|
    ensures sum <= 4 * 255
  {
    data[i] as int + data[i + 1] + data[i + 2] + data[i + 3]
  }

  /** The bit for the pixel whose four bytes start at data[i]. */
  function PixelBit(data: seq<Byte>, i: nat): (b: Bit)
    requires i + 4 <= |data|
    ensures b == 1 <==> ChannelSum(data, i) >= LitThreshold
  {
    if ChannelSum(data, i) < LitThreshold then 0 else 1
  }

  /** The bit for the pixel in row y, column x. */
  function PixelAt(bm: Bitmap, y: nat, x: nat): Bit
    requires Decoded(bm) && y < bm.height && x < bm.width
  {
    RowMajorBound(bm.width, bm.height, y, x);
    PixelBit(bm.data, 4 * (y * bm.width + x))
  }

  /** Row y of the thresholded frame. */
  function BinarizedRow(bm: Bitmap, y: nat): (row: seq<Bit>)
    requires Decoded(bm) && y < bm.height
    ensures |row| == bm.width
  {
    seq(bm.width, x requires 0 <= x < bm.width => PixelAt(bm, y, x))
  }

  /** The thresholded frame: height rows of width bits. */
  function Binarized(bm: Bitmap): (image: seq<seq<Bit>>)
    requires Decoded(bm)
    ensures |image| == bm.height && IsRaster(image, bm.width, bm.height)
  {
    seq(bm.height, y requires 0 <= y < bm.height => BinarizedRow(bm, y))
  }

  /** Pixel number p of the row-major pixel stream lands in row p / width,
      column p % width, and is lit exactly when its four bytes sum to 380 or more. */
  lemma BinarizedPixel(bm: Bitmap, p: nat)
    requires Decoded(bm) && p < bm.width * bm.height
    ensures p / bm.width < bm.height && 4 * p + 4 <= |bm.data|
    ensures Binarized(bm)[p / bm.width][p % bm.width] == 1 <==> ChannelSum(bm.data, 4 * p) >= 380
    ensures Binarized(bm)[p / bm.width][p % bm.width] == 0 <==> ChannelSum(bm.data, 4 * p) < 380
  {
    var w := bm.width;
    var y, x := p / w, p % w;
    assert p == y * w + x;
    MulCancel(y, bm.height, w);
    assert Binarized(bm)[y][x] == PixelAt(bm, y, x);
  }

  /** While the row-major index y * w + x with x < w is below w * h, y is a row of the frame. */
  lemma RowMajorInside(w: nat, h: nat, y: nat, x: nat)
    requires x < w && y * w + x < w * h
    ensures y < h
  {
    MulCancel(y, h, w);
  }

  /** The threshold loop's rows after x pixels of row y: the rows above,
      complete, and the first x bits of row y. */
  ghost function Progress(bm: Bitmap, y: nat, x: nat): (image: seq<seq<Bit>>)
    requires Decoded(bm) && y < bm.height && x <= bm.width
    ensures |image| == y + 1
  {
    Binarized(bm)[..y] + [BinarizedRow(bm, y)[..x]]
  }

  /** While the threshold loop's index 4 (y w + x) is below the data length,
      (y, x) is a pixel of the frame and its four bytes are in the data. */
  lemma PixelInside(bm: Bitmap, y: nat, x: nat)
    requires Decoded(bm) && x < bm.width && 4 * (y * bm.width + x) < |bm.data|
    ensures y < bm.height && 4 * (y * bm.width + x) + 4 <= |bm.data|
  {
    assert |bm.data| == 4 * (bm.width * bm.height);
    RowMajorInside(bm.width, bm.height, y, x);
    RowMajorBound(bm.width, bm.height, y, x);
  }

  /** Once the index reaches the data length, every row has been written. */
  lemma PixelsEnd(bm: Bitmap, y: nat, x: nat)
    requires Decoded(bm) && x < bm.width && y <= bm.height
    requires 4 * (y * bm.width + x) >= |bm.data|
    ensures y == bm.height
  {
    assert |bm.data| == 4 * (bm.width * bm.height);
    RowMajorEnd(bm.width, bm.height, y, x);
  }

  /** Writing the bit of pixel (y, x) at the end of row y advances the progress by one pixel. */
  lemma ProgressPixel(bm: Bitmap, y: nat, x: nat, bit: Bit)
    requires Decoded(bm) && y < bm.height && x < bm.width
    requires 4 * (y * bm.width + x) + 4 <= |bm.data| && bit == PixelBit(bm.data, 4 * (y * bm.width + x))
    ensures Progress(bm, y, x)[y := Progress(bm, y, x)[y] + [bit]] == Progress(bm, y, x + 1)
  {
    var before := Progress(bm, y, x);
    var after := before[y := before[y] + [bit]];
    assert bit == PixelAt(bm, y, x);
    assert after[y] == BinarizedRow(bm, y)[..x + 1];
    assert after[..y] == Progress(bm, y, x + 1)[..y];
  }

  /** Starting a new row after a complete row y gives the progress at the
      start of row y + 1, or the whole frame and an empty row after the last row. */
  lemma ProgressRow(bm: Bitmap, y: nat)
    requires Decoded(bm) && y < bm.height
    ensures y + 1 < bm.height ==> Progress(bm, y, bm.width) + [[]] == Progress(bm, y + 1, 0)
    ensures y + 1 == bm.height ==> Progress(bm, y, bm.width) + [[]] == Binarized(bm) + [[]]
  {
    var rows := Binarized(bm);
    assert BinarizedRow(bm, y)[..bm.width] == rows[y];
    assert rows[..y] + [rows[y]] == rows[..y + 1];
    if y + 1 == bm.height {
      assert rows[..y + 1] == rows;
    }
  }

  /** The threshold loop: walks the RGBA bytes 4 at a time, writing each bit
      at column x of the current row and starting a new row (an empty one
      after the last) whenever x reaches the width. */
  method BinarizeFrame(bm: Bitmap) returns (image: seq<seq<Bit>>)
    requires Decoded(bm)
    ensures image == Binarized(bm) + [[]]
  {
    var w, h := bm.width, bm.height;
    image := [[]];
    var x, y := 0, 0;
    var i := 0;
    assert Binarized(bm)[..0] + [BinarizedRow(bm, 0)[..0]] == [[]];
    var end := w * h * 4;
    assert end == |bm.data|;
    while i < end
      invariant 0 <= x < w && 0 <= y <= h
      invariant i == 4 * (y * w + x)
      invariant y < h ==> image == Progress(bm, y, x)
      invariant y == h ==> x == 0 && image == Binarized(bm) + [[]]
    {
      PixelInside(bm, y, x);
      var v := ChannelSum(bm.data, i);
      // image_data[y][x] = ...: x is the current length of row y
      var bit: Bit := if v < LitThreshold then 0 else 1;
      ProgressPixel(bm, y, x, bit);
      image := image[y := image[y] + [bit]];
      x := x + 1;
      if x >= w {
        ProgressRow(bm, y);
        assert (y + 1) * w == y * w + w;
        y := y + 1;
        x := 0;
        image := image + [[]];
      }
      i := i + 4;
    }
    PixelsEnd(bm, y, x);
  }

  /** Rows y .. y + 7 of column x, top first. */
  function Column(image: seq<seq<Bit>>, y: nat, x: nat): (col: seq<Bit>)
    requires y + 8 <= |image| && forall k :: y <= k < y + 8 ==> x < |image[k]|
    ensures |col| == 8
  {
    seq(8, k requires 0 <= k < 8 => image[y + k][x])
  }

  /** The packed byte of column x in the band starting at row y: bit k holds row y + k. */
  function ColumnByte(image: seq<seq<Bit>>, y: nat, x: nat): (b: Byte)
    requires y + 8 <= |image| && forall k :: y <= k < y + 8 ==> x < |image[k]|
    ensures forall k :: 0 <= k < 8 ==> BitOf(b, k) == image[y + k][x]
  {
    assert Pow2(8) == 256;
    var col := Column(image, y, x);
    AllBitsOfBitsToNat(col);
    BitsToNat(col)
  }

  /** The bytes of the band starting at row y, one per column, left to right. */
  function BandBytes(image: seq<seq<Bit>>, w: nat, y: nat): (band: seq<Byte>)
    requires y + 8 <= |image| && forall k :: y <= k < y + 8 ==> |image[k]| == w
    ensures |band| == w
  {
    seq(w, x requires 0 <= x < w => ColumnByte(image, y, x))
  }

  /** The bytes of the first n bands, top band first. */
  function PackedBands(image: seq<seq<Bit>>, w: nat, n: nat): (r: seq<Byte>)
    requires IsRaster(image, w, 8 * n)
    ensures |r| == w * n
  {
    if n == 0 then [] else PackedBands(image, w, n - 1) + BandBytes(image, w, 8 * (n - 1))
  }

  /** The packed form of an h-row raster whose height is a multiple of 8. */
  function Packed(image: seq<seq<Bit>>, w: nat, h: nat): (r: seq<Byte>)
    requires h % 8 == 0 && IsRaster(image, w, h)
    ensures |r| == w * (h / 8)
  {
    PackedBands(image, w, h / 8)
  }

  /** Byte b * w + x of the packed bands is column x of band b. */
  lemma {:induction false} PackedBandsAt(image: seq<seq<Bit>>, w: nat, n: nat, b: nat, x: nat)
    requires IsRaster(image, w, 8 * n) && b < n && x < w
    ensures b * w + x < w * n
    ensures PackedBands(image, w, n)[b * w + x] == ColumnByte(image, 8 * b, x)
  {
    RowMajorBound(w, n, b, x);
    var init := PackedBands(image, w, n - 1);
    var last := BandBytes(image, w, 8 * (n - 1));
    assert PackedBands(image, w, n) == init + last;
    if b < n - 1 {
      PackedBandsAt(image, w, n - 1, b, x);
    } else {
      assert |init| == b * w;
      assert (init + last)[b * w + x] == last[x];
    }
  }

  /** The packed frame has w bytes per band, and bit k of byte b * w + x is
      the pixel in row 8 b + k, column x. */
  lemma PackedBit(image: seq<seq<Bit>>, w: nat, h: nat, b: nat, x: nat, k: nat)
    requires h % 8 == 0 && IsRaster(image, w, h)
    requires b < h / 8 && x < w && k < 8
    ensures b * w + x < |Packed(image, w, h)|
    ensures BitOf(Packed(image, w, h)[b * w + x], k) == image[8 * b + k][x]
  {
    PackedBandsAt(image, w, h / 8, b, x);
    BitOfBitsToNat(Column(image, 8 * b, x), k);
  }

  lemma BandIndexBound(w: nat, h: nat, y: nat, x: nat)
    requires h % 8 == 0 && y < h && x < w
    ensures y / 8 < h / 8 && (y / 8) * w + x < w * (h / 8)
  {
    RowMajorBound(w, h / 8, y / 8, x);
  }

  /** The player's reading of a packed frame: pixel (y, x) is bit y % 8 of
      byte (y / 8) * w + x. */
  function Unpacked(packed: seq<Byte>, w: nat, h: nat): (image: seq<seq<Bit>>)
    requires h % 8 == 0 && |packed| == w * (h / 8)
    ensures |image| == h && IsRaster(image, w, h)
  {
    seq(h, y requires 0 <= y < h => seq(w, x requires 0 <= x < w => UnpackedPixel(packed, w, h, y, x)))
  }

  function UnpackedPixel(packed: seq<Byte>, w: nat, h: nat, y: nat, x: nat): Bit
    requires h % 8 == 0 && |packed| == w * (h / 8) && y < h && x < w
  {
    BandIndexBound(w, h, y, x);
    BitOf(packed[(y / 8) * w + x], y % 8)
  }

  /** Unpacking a packed frame gives back the raster it was packed from. */
  lemma UnpackPacked(image: seq<seq<Bit>>, w: nat, h: nat)
    requires h % 8 == 0 && IsRaster(image, w, h)
    ensures Unpacked(Packed(image, w, h), w, h) == image[..h]
  {
    var u := Unpacked(Packed(image, w, h), w, h);
    forall y | 0 <= y < h
      ensures u[y] == image[y]
    {
      forall x | 0 <= x < w
        ensures u[y][x] == image[y][x]
      {
        BandIndexBound(w, h, y, x);
        PackedBit(image, w, h, y / 8, x, y % 8);
        assert 8 * (y / 8) + y % 8 == y;
      }
    }
  }

  /** Column x of band b of an unpacked frame holds the bits of byte b * w + x. */
  lemma UnpackedColumn(packed: seq<Byte>, w: nat, h: nat, b: nat, x: nat)
    requires h % 8 == 0 && |packed| == w * (h / 8) && b < h / 8 && x < w
    ensures b * w + x < |packed|
    ensures Column(Unpacked(packed, w, h), 8 * b, x) == NatToBits(packed[b * w + x], 8)
  {
    RowMajorBound(w, h / 8, b, x);
    var col := Column(Unpacked(packed, w, h), 8 * b, x);
    forall k | 0 <= k < 8
      ensures col[k] == NatToBits(packed[b * w + x], 8)[k]
    {
      BandIndexBound(w, h, 8 * b + k, x);
      assert (8 * b + k) / 8 == b && (8 * b + k) % 8 == k;
    }
  }

  /** Packing an unpacked frame gives back the bytes: every byte sequence of
      the right length is the packed form of exactly one raster. */
  lemma PackUnpacked(packed: seq<Byte>, w: nat, h: nat)
    requires h % 8 == 0 && |packed| == w * (h / 8)
    ensures Packed(Unpacked(packed, w, h), w, h) == packed
  {
    var image := Unpacked(packed, w, h);
    var p := Packed(image, w, h);
    forall i | 0 <= i < |packed|
      ensures p[i] == packed[i]
    {
      var b, x := i / w, i % w;
      assert i == b * w + x;
      MulCancel(b, h / 8, w);
      PackedBandsAt(image, w, h / 8, b, x);
      UnpackedColumn(packed, w, h, b, x);
      ByteFromBits(packed[i]);
    }
  }

  lemma BandPrefixStep(image: seq<seq<Bit>>, w: nat, y: nat, x: nat)
    requires y + 8 <= |image| && forall k :: y <= k < y + 8 ==> |image[k]| == w
    requires x < w
    ensures BandBytes(image, w, y)[..x + 1] == BandBytes(image, w, y)[..x] + [ColumnByte(image, y, x)]
  {
  }

  /** The band-packing loop: for every band (y steps by 8) and every column,
      shift in the bits of rows y + 7 down to y + 0 and append the byte. */
  method PackFrame(image: seq<seq<Bit>>, w: nat, h: nat) returns (compact: seq<Byte>)
    requires h % 8 == 0 && IsRaster(image, w, h)
    ensures compact == Packed(image, w, h)
  {
    compact := [];
    var y := 0;
    ghost var band := 0;
    while y < h
      invariant y == 8 * band && y <= h
      invariant compact == PackedBands(image, w, band)
    {
      var x := 0;
      while x < w
        invariant x <= w
        invariant compact == PackedBands(image, w, band) + BandBytes(image, w, y)[..x]
      {
        ghost var col := Column(image, y, x);
        var a: nat := 0;
        var k := 8;
        while k > 0
          invariant 0 <= k <= 8
          invariant a == BitsToNat(col[k..])
        {
          k := k - 1;
          // a = a << 1; a |= image_data[y + k][x]: the shift leaves bit 0
          // clear, so or-ing in a 0/1 pixel adds it
          a := a * 2;
          a := a + image[y + k][x];
          assert col[k..][1..] == col[k + 1..];
        }
        assert col[0..] == col;
        BandPrefixStep(image, w, y, x);
        compact := compact + [a];
        x := x + 1;
      }
      assert BandBytes(image, w, y)[..w] == BandBytes(image, w, y);
      y := y + 8;
      band := band + 1;
    }
    assert band == h / 8;
  }
}

/**
 The converter's RGBA to planar YUV 4:2:0 conversion: fixed-point BT.601-style
 weights, one luma sample per pixel and one U and one V sample per 2x2 block
 of pixels, the block's channels averaged first.

 Samples are bytes. The C++ code computes luma in `int` (the `uint8_t`
 channels are promoted) and chroma in `uint32_t` (the averages are
 `uint32_t`, so the negative weights wrap); both are stored through a
 conversion to `uint8_t`. Those three steps are written out below.
 */
module Yuv420 {

  type Byte = x: int | 0 <= x < 256

  const U32: int := 0x1_0000_0000

  /** Conversion of an integer to `uint8_t`: reduction modulo 256. */
  function ToU8(v: int): Byte
  {
    v % 256
  }

  /** `uint32_t` arithmetic: reduction modulo 2^32. */
  function WrapU32(v: int): (r: int)
    ensures 0 <= r < U32
    ensures (v - r) % U32 == 0
  {
    v % U32
  }

  function Min(a: int, b: int): int { if a <= b then a else b }
  function Max(a: int, b: int): int { if a <= b then b else a }

  // ---------------------------------------------------------------------------
  // Per-sample arithmetic

  /** `(77 * r + 150 * g + 29 * b) >> 8`. The weights sum to 256, so the
      result fits in a byte. */
  function Luma(r: Byte, g: Byte, b: Byte): (l: int)
    ensures 0 <= l < 256
  {
    (77 * r + 150 * g + 29 * b) / 256
  }

  /** Luma is a weighted mean: it lies between the smallest and the largest
      channel, and storing it as `uint8_t` loses nothing. */
  lemma LumaBetweenChannels(r: Byte, g: Byte, b: Byte)
    ensures Min(r, Min(g, b)) <= Luma(r, g, b) <= Max(r, Max(g, b))
    ensures ToU8(Luma(r, g, b)) == Luma(r, g, b)
  {
  }

  /** Grey in, grey out: a pixel with equal channels gets that value as luma. */
  lemma LumaGrey(v: Byte)
    ensures Luma(v, v, v) == v
    ensures ToU8(Luma(v, v, v)) == v
  {
  }

  /** `(c0 + c1 + c2 + c3) / 4` over one channel of a 2x2 block. */
  function Avg4(c0: Byte, c1: Byte, c2: Byte, c3: Byte): (m: int)
    ensures 0 <= m < 256
  {
    (c0 + c1 + c2 + c3) / 4
  }

  /** The block average lies between the block's smallest and largest value. */
  lemma Avg4BetweenSamples(c0: Byte, c1: Byte, c2: Byte, c3: Byte)
    ensures Min(Min(c0, c1), Min(c2, c3)) <= Avg4(c0, c1, c2, c3) <= Max(Max(c0, c1), Max(c2, c3))
  {
  }

  /** `128 + (s >> 8)` where `s` is a `uint32_t` holding the signed sum,
      stored into a `uint8_t`. */
  function ChromaStore(s: int): Byte
  {
    ToU8(WrapU32(128 + WrapU32(s) / 256))
  }

  /** The wrap-around of the signed sum, the logical shift and the
      truncation together give `(128 + floor(s / 256)) mod 256`. */
  lemma ChromaStoreIsFloorShift(s: int)
    requires -U32 <= s < U32
    ensures ChromaStore(s) == (128 + s / 256) % 256
  {
    if s < 0 {
      assert WrapU32(s) == s + U32;
      assert (s + U32) / 256 == s / 256 + U32 / 256;
      assert 128 + (s + U32) / 256 < U32;
      assert (128 + s / 256 + U32 / 256) % 256 == (128 + s / 256) % 256;
    } else {
      assert WrapU32(s) == s;
    }
  }

  /** U from the block's channel averages; for byte averages it lies in
      1..254 (`ChromaIsSignedShift` gives its exact value). */
  function ChromaU(avgR: Byte, avgG: Byte, avgB: Byte): (u: Byte)
    ensures 1 <= u <= 254
  {
    ChromaStoreInRange(-43 * avgR - 84 * avgG + 127 * avgB);
    ChromaStore(-43 * avgR - 84 * avgG + 127 * avgB)
  }

  /** V from the block's channel averages, in the same way as `ChromaU`. */
  function ChromaV(avgR: Byte, avgG: Byte, avgB: Byte): (v: Byte)
    ensures 1 <= v <= 254
  {
    ChromaStoreInRange(127 * avgR - 106 * avgG - 21 * avgB);
    ChromaStore(127 * avgR - 106 * avgG - 21 * avgB)
  }

  /** A signed sum whose shift lands in -127..126 is stored without any
      visible wrap-around. */
  lemma ChromaStoreInRange(s: int)
    requires -127 * 256 <= s < 127 * 256
    ensures ChromaStore(s) == 128 + s / 256 && 1 <= ChromaStore(s) <= 254
  {
    ChromaStoreIsFloorShift(s);
    var q := s / 256;
    assert s == 256 * q + s % 256 && 0 <= s % 256 < 256;
    assert -127 <= q <= 126;
    assert (128 + q) % 256 == 128 + q;
  }

  /** For byte averages no truncation ever bites: U and V are exactly
      `128 + floor(s / 256)` for the signed sums. */
  lemma ChromaIsSignedShift(avgR: Byte, avgG: Byte, avgB: Byte)
    ensures ChromaU(avgR, avgG, avgB) == 128 + (-43 * avgR - 84 * avgG + 127 * avgB) / 256
    ensures ChromaV(avgR, avgG, avgB) == 128 + (127 * avgR - 106 * avgG - 21 * avgB) / 256
  {
    ChromaStoreInRange(-43 * avgR - 84 * avgG + 127 * avgB);
    ChromaStoreInRange(127 * avgR - 106 * avgG - 21 * avgB);
  }

  /** Each weight row sums to zero, so a block with equal channel averages
      has no colour: U = V = 128. */
  lemma ChromaNeutral(a: Byte)
    ensures ChromaU(a, a, a) == 128 && ChromaV(a, a, a) == 128
  {
    ChromaIsSignedShift(a, a, a);
  }

  // ---------------------------------------------------------------------------
  // Planes

  /** The luma sample of pixel `i` of an RGBA buffer. */
  function LumaAt(px: seq<Byte>, i: nat): (y: Byte)
    requires 4 * i + 3 <= |px|
    ensures Min(px[4 * i], Min(px[4 * i + 1], px[4 * i + 2])) <= y <= Max(px[4 * i], Max(px[4 * i + 1], px[4 * i + 2]))
    ensures px[4 * i] == px[4 * i + 1] == px[4 * i + 2] ==> y == px[4 * i]
  {
    LumaBetweenChannels(px[4 * i], px[4 * i + 1], px[4 * i + 2]);
    ToU8(Luma(px[4 * i], px[4 * i + 1], px[4 * i + 2]))
  }

  /** Channel `c` averaged over the 2x2 block whose top-left pixel is `p`. */
  function BlockAverage(px: seq<Byte>, w: nat, p: nat, c: nat): (m: Byte)
    requires c < 3 && 4 * (p + w + 1) + 3 <= |px|
  {
    Avg4(px[4 * p + c], px[4 * (p + 1) + c], px[4 * (p + w) + c], px[4 * (p + w + 1) + c])
  }

  /** U of the 2x2 block whose top-left pixel is `p`. */
  function BlockU(px: seq<Byte>, w: nat, p: nat): Byte
    requires 4 * (p + w + 1) + 3 <= |px|
  {
    ChromaU(BlockAverage(px, w, p, 0), BlockAverage(px, w, p, 1), BlockAverage(px, w, p, 2))
  }

  /** V of the 2x2 block whose top-left pixel is `p`. */
  function BlockV(px: seq<Byte>, w: nat, p: nat): Byte
    requires 4 * (p + w + 1) + 3 <= |px|
  {
    ChromaV(BlockAverage(px, w, p, 0), BlockAverage(px, w, p, 1), BlockAverage(px, w, p, 2))
  }

  /** The top-left pixel of the block that chroma sample `k` describes:
      each chroma row of `w / 2` samples covers two pixel rows of `w`
      pixels, so stepping `k` by one chroma row steps the origin by `2 * w`
      (`BlockOriginIsDivMod` gives the closed form). */
  function BlockOrigin(w: nat, k: nat): nat
    requires w >= 2
    decreases k
  {
    if k < w / 2 then 2 * k else 2 * w + BlockOrigin(w, k - w / 2)
  }

  /** Dimensions the conversion accepts: both even, and the pixel buffer holds
      `4 * (w * h)` bytes. */
  predicate Geometry(w: nat, h: nat, n: nat)
  {
    w % 2 == 0 && h % 2 == 0 && 4 * (w * h) <= n
  }

  /** Number of samples in each chroma plane. */
  function ChromaCount(w: nat, h: nat): nat
  {
    (w / 2) * (h / 2)
  }

  /** The U sample at index `k` of the U plane. */
  function UAt(px: seq<Byte>, w: nat, h: nat, k: nat): Byte
    requires Geometry(w, h, |px|) && k < ChromaCount(w, h)
  {
    BlockOriginInBounds(w, h, k);
    BlockU(px, w, BlockOrigin(w, k))
  }

  /** The V sample at index `k` of the V plane. */
  function VAt(px: seq<Byte>, w: nat, h: nat, k: nat): Byte
    requires Geometry(w, h, |px|) && k < ChromaCount(w, h)
  {
    BlockOriginInBounds(w, h, k);
    BlockV(px, w, BlockOrigin(w, k))
  }

  /** The first `n` samples of the luma plane, in plane order. */
  function LumaPrefix(px: seq<Byte>, n: nat): (r: seq<Byte>)
    requires 4 * n <= |px|
    ensures |r| == n
    decreases n
  {
    if n == 0 then [] else LumaPrefix(px, n - 1) + [LumaAt(px, n - 1)]
  }

  /** Sample `i` of a luma prefix is the luma of pixel `i`. */
  lemma {:induction false} LumaPrefixAt(px: seq<Byte>, n: nat)
    requires 4 * n <= |px|
    ensures forall i {:trigger LumaAt(px, i)} :: 0 <= i < n ==> LumaPrefix(px, n)[i] == LumaAt(px, i)
    decreases n
  {
    if n > 0 {
      LumaPrefixAt(px, n - 1);
    }
  }

  /** The first `n` samples of the U plane, in plane order. */
  function UPrefix(px: seq<Byte>, w: nat, h: nat, n: nat): (r: seq<Byte>)
    requires Geometry(w, h, |px|) && n <= ChromaCount(w, h)
    ensures |r| == n
    decreases n
  {
    if n == 0 then [] else UPrefix(px, w, h, n - 1) + [UAt(px, w, h, n - 1)]
  }

  /** The first `n` samples of the V plane, in plane order. */
  function VPrefix(px: seq<Byte>, w: nat, h: nat, n: nat): (r: seq<Byte>)
    requires Geometry(w, h, |px|) && n <= ChromaCount(w, h)
    ensures |r| == n
    decreases n
  {
    if n == 0 then [] else VPrefix(px, w, h, n - 1) + [VAt(px, w, h, n - 1)]
  }

  /** Sample `k` of a U prefix is the U sample at index `k`. */
  lemma {:induction false} UPrefixAt(px: seq<Byte>, w: nat, h: nat, n: nat)
    requires Geometry(w, h, |px|) && n <= ChromaCount(w, h)
    ensures forall k {:trigger UAt(px, w, h, k)} :: 0 <= k < n ==> UPrefix(px, w, h, n)[k] == UAt(px, w, h, k)
    decreases n
  {
    if n > 0 {
      UPrefixAt(px, w, h, n - 1);
    }
  }

  /** Sample `k` of a V prefix is the V sample at index `k`. */
  lemma {:induction false} VPrefixAt(px: seq<Byte>, w: nat, h: nat, n: nat)
    requires Geometry(w, h, |px|) && n <= ChromaCount(w, h)
    ensures forall k {:trigger VAt(px, w, h, k)} :: 0 <= k < n ==> VPrefix(px, w, h, n)[k] == VAt(px, w, h, k)
    decreases n
  {
    if n > 0 {
      VPrefixAt(px, w, h, n - 1);
    }
  }

  // ---------------------------------------------------------------------------
  // Index arithmetic

  lemma MulMonotone(a: int, b: int, c: int)
    requires a <= b && 0 <= c
    ensures a * c <= b * c
  {
    assert b * c - a * c == (b - a) * c;
  }

  /** Multiplying by one more adds one more factor. */
  lemma MulSucc(a: int, b: int)
    ensures (a + 1) * b == a * b + b
  {
  }

  /** Multiplying by one less takes one factor away. */
  lemma MulPred(a: int, b: int)
    requires a > 0
    ensures a * b == (a - 1) * b + b
  {
  }

  /** Pixel row `2 * row` of a frame `2 * hw` pixels wide starts at
      `4 * (row * hw)`. */
  lemma DoubleRowStart(row: nat, hw: nat, w: nat)
    requires w == 2 * hw
    ensures 2 * (row * w) == 4 * (row * hw)
  {
  }

  /** The pixel row `y = 2 * row` starts at twice the offset of row `row`. */
  lemma EvenRowStart(y: nat, row: nat, w: nat)
    requires y == 2 * row
    ensures y * w == 2 * (row * w)
  {
  }

  /** The block of chroma row `row`, column `col` starts at pixel row
      `2 * row`, pixel column `2 * col`. */
  lemma {:induction false} BlockOriginOfRowCol(w: nat, row: nat, col: nat)
    requires w >= 2 && col < w / 2
    ensures BlockOrigin(w, row * (w / 2) + col) == 2 * (row * w) + 2 * col
  {
    var hw := w / 2;
    var k := row * hw + col;
    if row == 0 {
      assert k == col < hw;
    } else {
      MulPred(row, hw);
      MulPred(row, w);
      BlockOriginOfRowCol(w, row - 1, col);
      assert BlockOrigin(w, k) == 2 * w + BlockOrigin(w, (row - 1) * hw + col);
    }
  }

  /** The closed form: chroma sample `k` lies in chroma row `k / (w/2)` and
      column `k % (w/2)`. */
  lemma BlockOriginIsDivMod(w: nat, k: nat)
    requires w >= 2
    ensures BlockOrigin(w, k) == 2 * ((k / (w / 2)) * w) + 2 * (k % (w / 2))
  {
    var hw := w / 2;
    var row, col := k / hw, k % hw;
    assert k == row * hw + col;
    BlockOriginOfRowCol(w, row, col);
  }

  /** Even dimensions: the frame holds four pixels per chroma sample. */
  lemma PixelCountOfHalves(w: nat, h: nat)
    requires w % 2 == 0 && h % 2 == 0
    ensures w * h == 4 * ChromaCount(w, h)
  {
    var hw, hh := w / 2, h / 2;
    assert w * h == 2 * (hw * h);
    assert hw * h == 2 * (hw * hh);
  }

  /** Sample `k` of a plane `hh` rows of `hw` lies in a row that ends
      inside the plane. */
  lemma ChromaRowInPlane(hw: nat, hh: nat, k: nat)
    requires k < hw * hh
    ensures hw > 0 && k % hw < hw && k == (k / hw) * hw + k % hw
    ensures (k / hw) * hw + hw <= hw * hh
  {
    if hw == 0 {
      assert false;
    }
    var row := k / hw;
    if row >= hh {
      MulMonotone(hh, row, hw);
      assert false;
    }
    MulMonotone(row + 1, hh, hw);
    MulSucc(row, hw);
  }

  /** A chroma index names a block inside the frame: its top-left pixel, the
      pixel right of it, and the two below, are all pixels of the frame. */
  lemma BlockOriginInBounds(w: nat, h: nat, k: nat)
    requires w % 2 == 0 && h % 2 == 0 && k < ChromaCount(w, h)
    ensures w >= 2 && BlockOrigin(w, k) + w + 1 < w * h
  {
    var hw, hh := w / 2, h / 2;
    ChromaRowInPlane(hw, hh, k);
    BlockOriginIsDivMod(w, k);
    DoubleRowStart(k / hw, hw, w);
    PixelCountOfHalves(w, h);
  }

  /** The block at even `(y, x)` is written at chroma index
      `(y/2)*(w/2) + x/2`, which lies in the chroma plane and leads back to
      the block: distinct blocks get distinct indices. */
  lemma ChromaIndexOfBlock(w: nat, h: nat, y: nat, x: nat)
    requires w % 2 == 0 && h % 2 == 0
    requires y % 2 == 0 && x % 2 == 0 && y < h && x < w
    ensures (y / 2) * (w / 2) + x / 2 < ChromaCount(w, h)
    ensures BlockOrigin(w, (y / 2) * (w / 2) + x / 2) == y * w + x
  {
    var hw, hh, row, col := w / 2, h / 2, y / 2, x / 2;
    assert col < hw && row < hh;
    assert hh * hw == ChromaCount(w, h);
    MulMonotone(row + 1, hh, hw);
    MulSucc(row, hw);
    BlockOriginOfRowCol(w, row, col);
    EvenRowStart(y, row, w);
  }

  /** The source's RGBA offsets for the lower pixels of the block at even
      `(y, x)` are one row below the upper ones, and every byte read lies
      below `4 * (w * h)`. */
  lemma BlockReadsInBounds(w: nat, h: nat, y: nat, x: nat)
    requires w % 2 == 0 && h % 2 == 0
    requires y % 2 == 0 && x % 2 == 0 && y < h && x < w
    ensures (y + 1) * w + x == y * w + x + w
    ensures ((y + 1) * w + x + 1) * 4 + 3 < 4 * (w * h)
  {
    MulSucc(y, w);
    MulSucc(y + 1, w);
    MulMonotone(y + 2, h, w);
  }

  // ---------------------------------------------------------------------------
  // convert_rgba_to_yuv420p_fast

  /** The preconditions of the conversion: even dimensions, an RGBA buffer of
      `4 * (w * h)` bytes, planes large enough, index arithmetic that does not
      wrap in `uint32_t`, and four distinct buffers. */
  predicate ConversionInputs(rgba: array<Byte>, width: nat, height: nat,
                             yPlane: array<Byte>, uPlane: array<Byte>, vPlane: array<Byte>)
  {
    Geometry(width, height, rgba.Length) &&
    width < U32 && height < U32 && 4 * (width * height) <= U32 &&
    yPlane.Length >= width * height &&
    uPlane.Length >= ChromaCount(width, height) && vPlane.Length >= ChromaCount(width, height) &&
    rgba != yPlane && rgba != uPlane && rgba != vPlane &&
    yPlane != uPlane && yPlane != vPlane && uPlane != vPlane
  }

  /** The array `rgba` holds the bytes `px`. */
  predicate Holds(rgba: array<Byte>, px: seq<Byte>)
    reads rgba
  {
    rgba.Length == |px| && forall i :: 0 <= i < |px| ==> rgba[i] == px[i]
  }

  /** The red, green and blue bytes of pixel `p`, at offsets `4 * p + 0`,
      `+ 1` and `+ 2`; the alpha byte is never read. */
  method ReadPixel(rgba: array<Byte>, p: nat, ghost px: seq<Byte>) returns (r: Byte, g: Byte, b: Byte)
    requires Holds(rgba, px) && 4 * p + 3 <= |px|
    ensures r == px[4 * p] && g == px[4 * p + 1] && b == px[4 * p + 2]
  {
    var rgbaIdx := 4 * p;
    r, g, b := rgba[rgbaIdx + 0], rgba[rgbaIdx + 1], rgba[rgbaIdx + 2];
  }

  /** The luma sample of pixel `p`: one of the four luma lines of the inner
      loop body. */
  method PixelLuma(rgba: array<Byte>, p: nat, ghost px: seq<Byte>) returns (y: Byte)
    requires Holds(rgba, px) && 4 * p + 3 <= |px|
    ensures y == LumaAt(px, p)
  {
    var r, g, b := ReadPixel(rgba, p, px);
    y := ToU8(Luma(r, g, b));
  }

  /** The U and V samples of the 2x2 block whose top-left pixel is `p0`. */
  method BlockChroma(rgba: array<Byte>, width: nat, p0: nat, ghost px: seq<Byte>) returns (u: Byte, v: Byte)
    requires Holds(rgba, px) && 4 * (p0 + width + 1) + 3 <= |px|
    ensures u == BlockU(px, width, p0) && v == BlockV(px, width, p0)
  {
    var r0, g0, b0 := ReadPixel(rgba, p0, px);
    var r1, g1, b1 := ReadPixel(rgba, p0 + 1, px);
    var r2, g2, b2 := ReadPixel(rgba, p0 + width, px);
    var r3, g3, b3 := ReadPixel(rgba, p0 + width + 1, px);

    var avgR := Avg4(r0, r1, r2, r3);
    var avgG := Avg4(g0, g1, g2, g3);
    var avgB := Avg4(b0, b1, b2, b3);

    u := ChromaU(avgR, avgG, avgB);
    v := ChromaV(avgR, avgG, avgB);
  }

  /** One pass of the inner loop body, up to the stores, for the 2x2 block
      whose top-left pixel is `p0 = y * width + x`: its four luma samples and
      its U and V samples. The source's offsets `rgba_idx0` to `rgba_idx3`
      are `4 * p0`, `4 * (p0 + 1)`, `4 * (p0 + width)` and
      `4 * (p0 + width + 1)`. */
  method BlockSamples(rgba: array<Byte>, width: nat, p0: nat, ghost px: seq<Byte>)
    returns (y0: Byte, y1: Byte, y2: Byte, y3: Byte, u: Byte, v: Byte)
    requires Holds(rgba, px) && 4 * (p0 + width + 1) + 3 <= |px|
    ensures y0 == LumaAt(px, p0) && y1 == LumaAt(px, p0 + 1)
    ensures y2 == LumaAt(px, p0 + width) && y3 == LumaAt(px, p0 + width + 1)
    ensures u == BlockU(px, width, p0) && v == BlockV(px, width, p0)
  {
    y0 := PixelLuma(rgba, p0, px);
    y1 := PixelLuma(rgba, p0 + 1, px);
    y2 := PixelLuma(rgba, p0 + width, px);
    y3 := PixelLuma(rgba, p0 + width + 1, px);
    u, v := BlockChroma(rgba, width, p0, px);
  }

  /** The reference planes of a frame: `yRef`, `uRef` and `vRef` hold the
      samples `LumaAt`, `UAt` and `VAt` call for. The loops below are stated
      against them. */
  predicate References(px: seq<Byte>, width: nat, height: nat, yRef: seq<Byte>, uRef: seq<Byte>, vRef: seq<Byte>)
    requires Geometry(width, height, |px|)
  {
    |yRef| == width * height &&
    |uRef| == ChromaCount(width, height) && |vRef| == ChromaCount(width, height) &&
    (forall i {:trigger LumaAt(px, i)} :: 0 <= i < |yRef| ==> yRef[i] == LumaAt(px, i)) &&
    (forall k {:trigger UAt(px, width, height, k)} :: 0 <= k < |uRef| ==> uRef[k] == UAt(px, width, height, k)) &&
    (forall k {:trigger VAt(px, width, height, k)} :: 0 <= k < |vRef| ==> vRef[k] == VAt(px, width, height, k))
  }

  /** Every frame has its reference planes. */
  lemma ReferencePlanes(px: seq<Byte>, width: nat, height: nat) returns (yRef: seq<Byte>, uRef: seq<Byte>, vRef: seq<Byte>)
    requires Geometry(width, height, |px|)
    ensures References(px, width, height, yRef, uRef, vRef)
  {
    var chroma := ChromaCount(width, height);
    yRef := LumaPrefix(px, width * height);
    uRef, vRef := UPrefix(px, width, height, chroma), VPrefix(px, width, height, chroma);
    LumaPrefixAt(px, width * height);
    UPrefixAt(px, width, height, chroma);
    VPrefixAt(px, width, height, chroma);
  }

  /** One pass of the inner loop body: the block whose top-left pixel is `p0`
      gets its four luma samples, and chroma index `uvIdx` its U and V
      samples; nothing else changes. */
  method ConvertBlock(rgba: array<Byte>, width: nat,
                      yPlane: array<Byte>, uPlane: array<Byte>, vPlane: array<Byte>,
                      p0: nat, uvIdx: nat, ghost px: seq<Byte>)
    requires Holds(rgba, px) && 4 * (p0 + width + 1) + 3 <= |px|
    requires p0 + width + 1 < yPlane.Length && uvIdx < uPlane.Length && uvIdx < vPlane.Length
    requires rgba != yPlane && rgba != uPlane && rgba != vPlane
    requires yPlane != uPlane && yPlane != vPlane && uPlane != vPlane
    modifies yPlane, uPlane, vPlane
    ensures forall i :: 0 <= i < yPlane.Length ==>
      yPlane[i] == if p0 <= i < p0 + 2 || p0 + width <= i < p0 + width + 2 then LumaAt(px, i) else old(yPlane[i])
    ensures forall j :: 0 <= j < uPlane.Length ==> uPlane[j] == if j == uvIdx then BlockU(px, width, p0) else old(uPlane[j])
    ensures forall j :: 0 <= j < vPlane.Length ==> vPlane[j] == if j == uvIdx then BlockV(px, width, p0) else old(vPlane[j])
  {
    var y0, y1, y2, y3, u, v := BlockSamples(rgba, width, p0, px);
    yPlane[p0] := y0;
    yPlane[p0 + 1] := y1;
    yPlane[p0 + width] := y2;
    yPlane[p0 + width + 1] := y3;
    uPlane[uvIdx] := u;
    vPlane[uvIdx] := v;
  }

  /** Row pair `pair` (pixel rows `2 * pair` and `2 * pair + 1`) of a frame
      that has it: its pixels start at `row0` and its chroma row at `uvRow`,
      both inside their planes, the next pair starts two pixel rows and one
      chroma row further on, and along the chroma row the block origins
      advance two pixels per sample. */
  lemma {:induction false} RowPairStep(w: nat, h: nat, pair: nat, row0: nat, uvRow: nat)
    requires w % 2 == 0 && h % 2 == 0 && 2 * pair < h
    requires row0 == (2 * pair) * w && uvRow == pair * (w / 2)
    ensures row0 + 2 * w <= w * h && uvRow + w / 2 <= ChromaCount(w, h)
    ensures row0 + 2 * w == (2 * (pair + 1)) * w && uvRow + w / 2 == (pair + 1) * (w / 2)
    ensures forall k :: uvRow <= k < uvRow + w / 2 ==> BlockOrigin(w, k) == row0 + 2 * (k - uvRow)
  {
    var hw, hh := w / 2, h / 2;
    MulSucc(2 * pair, w);
    MulSucc(2 * pair + 1, w);
    MulMonotone(2 * pair + 2, h, w);
    MulSucc(pair, hw);
    MulMonotone(pair + 1, hh, hw);
    assert hh * hw == ChromaCount(w, h);
    forall k | uvRow <= k < uvRow + hw
      ensures BlockOrigin(w, k) == row0 + 2 * (k - uvRow)
    {
      BlockOriginOfRowCol(w, pair, k - uvRow);
      EvenRowStart(2 * pair, pair, w);
    }
  }

  /** Once every row pair of a frame is done, the offsets have reached the
      ends of the luma and chroma planes. */
  lemma AllRowPairs(w: nat, h: nat, pair: nat, row0: nat, uvRow: nat)
    requires w % 2 == 0 && h % 2 == 0 && 2 * pair == h
    requires row0 == (2 * pair) * w && uvRow == pair * (w / 2)
    ensures row0 == w * h && uvRow == ChromaCount(w, h)
  {
  }

  /** Along row pair `pair` the reference planes hold the luma of each
      pixel, and at chroma index `uvRow + c` the chroma of the block whose
      top-left pixel is `row0 + 2 * c`. */
  lemma RowPairReferences(px: seq<Byte>, width: nat, height: nat,
                          yRef: seq<Byte>, uRef: seq<Byte>, vRef: seq<Byte>, row0: nat, uvRow: nat)
    requires Geometry(width, height, |px|) && References(px, width, height, yRef, uRef, vRef)
    requires row0 + 2 * width <= |yRef| && uvRow + width / 2 <= |uRef|
    requires forall k :: uvRow <= k < uvRow + width / 2 ==> BlockOrigin(width, k) == row0 + 2 * (k - uvRow)
    ensures 4 * (row0 + 2 * width) <= |px|
    ensures forall i :: row0 <= i < row0 + 2 * width ==> yRef[i] == LumaAt(px, i)
    ensures forall k :: uvRow <= k < uvRow + width / 2 ==>
      uRef[k] == BlockU(px, width, row0 + 2 * (k - uvRow)) && vRef[k] == BlockV(px, width, row0 + 2 * (k - uvRow))
  {
    forall k | uvRow <= k < uvRow + width / 2
      ensures uRef[k] == BlockU(px, width, row0 + 2 * (k - uvRow)) && vRef[k] == BlockV(px, width, row0 + 2 * (k - uvRow))
    {
      BlockOriginInBounds(width, height, k);
      assert uRef[k] == UAt(px, width, height, k) && vRef[k] == VAt(px, width, height, k);
    }
  }

  /** The inner loop, for the pixel rows starting at `row0` and
      `row0 + width` and the chroma row of `uvWidth` samples starting at
      `uvRow`: both pixel rows get their luma samples and the chroma row its
      U and V samples, block by block; nothing else changes. `yRef`, `uRef`
      and `vRef` hold the samples the pixels call for. */
  method ConvertRowPair(rgba: array<Byte>, width: nat, uvWidth: nat,
                        yPlane: array<Byte>, uPlane: array<Byte>, vPlane: array<Byte>, row0: nat, uvRow: nat,
                        ghost px: seq<Byte>, ghost yRef: seq<Byte>, ghost uRef: seq<Byte>, ghost vRef: seq<Byte>)
    requires Holds(rgba, px) && width == 2 * uvWidth && 4 * (row0 + 2 * width) <= |px|
    requires row0 + 2 * width <= |yRef| <= yPlane.Length
    requires uvRow + uvWidth <= |uRef| <= uPlane.Length && uvRow + uvWidth <= |vRef| <= vPlane.Length
    requires rgba != yPlane && rgba != uPlane && rgba != vPlane
    requires yPlane != uPlane && yPlane != vPlane && uPlane != vPlane
    requires forall i :: row0 <= i < row0 + 2 * width ==> yRef[i] == LumaAt(px, i)
    requires forall k :: uvRow <= k < uvRow + uvWidth ==>
      uRef[k] == BlockU(px, width, row0 + 2 * (k - uvRow)) && vRef[k] == BlockV(px, width, row0 + 2 * (k - uvRow))
    modifies yPlane, uPlane, vPlane
    ensures forall i :: 0 <= i < yPlane.Length ==>
      yPlane[i] == if row0 <= i < row0 + 2 * width then yRef[i] else old(yPlane[i])
    ensures forall k :: 0 <= k < uPlane.Length ==>
      uPlane[k] == if uvRow <= k < uvRow + uvWidth then uRef[k] else old(uPlane[k])
    ensures forall k :: 0 <= k < vPlane.Length ==>
      vPlane[k] == if uvRow <= k < uvRow + uvWidth then vRef[k] else old(vPlane[k])
  {
    ghost var row1 := row0 + width;
    var x := 0;
    ghost var col := 0;
    while x < width
      invariant x == 2 * col && x <= width
      invariant forall i :: 0 <= i < yPlane.Length ==>
        yPlane[i] == if row0 <= i < row0 + x || row1 <= i < row1 + x then yRef[i] else old(yPlane[i])
      invariant forall k :: 0 <= k < uPlane.Length ==>
        uPlane[k] == if uvRow <= k < uvRow + col then uRef[k] else old(uPlane[k])
      invariant forall k :: 0 <= k < vPlane.Length ==>
        vPlane[k] == if uvRow <= k < uvRow + col then vRef[k] else old(vPlane[k])
    {
      var p0, uvIdx := row0 + x, uvRow + x / 2;
      assert uvIdx == uvRow + col && p0 == row0 + 2 * (uvIdx - uvRow);
      ConvertBlock(rgba, width, yPlane, uPlane, vPlane, p0, uvIdx, px);
      x := x + 2;
      col := col + 1;
    }
  }

  /** Fills the first `w * h` luma samples and the first `(w/2) * (h/2)` U and
      V samples from the RGBA pixels, visiting 2x2 blocks row by row, and
      leaves the rest of each plane as it was. */
  method ConvertRgbaToYuv420p(rgba: array<Byte>, width: nat, height: nat,
                              yPlane: array<Byte>, uPlane: array<Byte>, vPlane: array<Byte>)
    requires ConversionInputs(rgba, width, height, yPlane, uPlane, vPlane)
    modifies yPlane, uPlane, vPlane
    ensures forall i :: 0 <= i < yPlane.Length ==>
      yPlane[i] == if i < width * height then LumaAt(rgba[..], i) else old(yPlane[i])
    ensures forall k :: 0 <= k < uPlane.Length ==>
      uPlane[k] == if k < ChromaCount(width, height) then UAt(rgba[..], width, height, k) else old(uPlane[k])
    ensures forall k :: 0 <= k < vPlane.Length ==>
      vPlane[k] == if k < ChromaCount(width, height) then VAt(rgba[..], width, height, k) else old(vPlane[k])
  {
    ghost var px := rgba[..];
    ghost var yRef, uRef, vRef := ReferencePlanes(px, width, height);
    var uvWidth := width / 2;
    var y: nat, row0: nat, uvRow: nat := 0, 0, 0;
    ghost var pair: nat := 0;
    while y < height
      invariant y == 2 * pair && y <= height
      invariant row0 == y * width && uvRow == pair * uvWidth
      invariant row0 <= |yRef| && uvRow <= |uRef|
      invariant forall i :: 0 <= i < yPlane.Length ==>
        yPlane[i] == if i < row0 then yRef[i] else old(yPlane[i])
      invariant forall k :: 0 <= k < uPlane.Length ==>
        uPlane[k] == if k < uvRow then uRef[k] else old(uPlane[k])
      invariant forall k :: 0 <= k < vPlane.Length ==>
        vPlane[k] == if k < uvRow then vRef[k] else old(vPlane[k])
    {
      RowPairStep(width, height, pair, row0, uvRow);
      RowPairReferences(px, width, height, yRef, uRef, vRef, row0, uvRow);
      ConvertRowPair(rgba, width, uvWidth, yPlane, uPlane, vPlane, row0, uvRow, px, yRef, uRef, vRef);
      y, row0, uvRow := y + 2, row0 + 2 * width, uvRow + uvWidth;
      pair := pair + 1;
    }
    AllRowPairs(width, height, pair, row0, uvRow);
  }
}

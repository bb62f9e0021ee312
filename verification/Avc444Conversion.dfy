/**
 From BGRA to the six planes of an AVC444v2 frame (src/egfx/avc444.rs).

 `Packed` says what every cell of every plane holds for a given picture.  The encoder does not
 repack whole pictures: `PlaneBuffers.ConvertRegions` writes, in place, the cells of the damaged
 blocks only, and is proved to do to those cells what packing the whole picture would.
 */
module Avc444Conversion {
  import opened Arithmetic
  import opened Avc444Layout
  import opened Avc444Regions
  import opened Damage
  import opened Regions

  // ----- colour

  datatype Yuv = Yuv(y: u8, u: u8, v: u8)

  /** BT.709 full range, as the lookup tables compute it: sums of products, shifted right by 8. */
  function BgraComponentsToYuv(r: u8, g: u8, b: u8): Yuv {
    Yuv(Clamp((54 * r + 183 * g + 18 * b) / 256, 0, 255),
        Clamp((-29 * r - 99 * g + 128 * b) / 256 + 128, 0, 255),
        Clamp((128 * r - 116 * g - 12 * b) / 256 + 128, 0, 255))
  }

  function PixelToYuv(data: seq<u8>, s: Shape, px: int, py: int): Yuv
    requires Fits(data, s) && s.HasPixel(px, py)
  {
    OffsetInBounds(s, px, py);
    var o := Offset(s, px, py);
    BgraComponentsToYuv(data[o + 2], data[o + 1], data[o])
  }

  /** `n / unit` to the nearest integer, as a byte. */
  function Rounded(n: int, unit: nat): u8
    requires unit > 0
  {
    Clamp((n + unit / 2) / unit, 0, 255)
  }

  /** BT.709 full range in millionths, rounded: what the encoder's tables approximate. */
  function Bt709(r: u8, g: u8, b: u8): Yuv {
    Yuv(Rounded(212_600 * r + 715_200 * g + 72_200 * b, 1_000_000),
        Rounded(-114_572 * r - 385_428 * g + 500_000 * b + 128_000_000, 1_000_000),
        Rounded(500_000 * r - 454_153 * g - 45_847 * b + 128_000_000, 1_000_000))
  }

  /** No channel differs by more than two. */
  predicate Close(a: Yuv, b: Yuv) {
    -2 <= a.y - b.y <= 2 && -2 <= a.u - b.u <= 2 && -2 <= a.v - b.v <= 2
  }

  lemma ComponentsAreBt709(r: u8, g: u8, b: u8)
    ensures Close(BgraComponentsToYuv(r, g, b), Bt709(r, g, b))
  {
  }

  /** The first byte of a pixel is blue, the second green and the third red. */
  lemma PixelColour(data: seq<u8>, s: Shape, px: int, py: int)
    requires Fits(data, s) && s.HasPixel(px, py)
    ensures var p := Pixel(data, s, px, py); PixelToYuv(data, s, px, py) == BgraComponentsToYuv(p[2], p[1], p[0])
  {
    hide BgraComponentsToYuv;
    OffsetInBounds(s, px, py);
  }

  /**
   Every pixel is converted to within two steps of BT.709, its first byte being blue, its second
   green and its third red; the fourth is not looked at.
   */
  lemma PixelIsBt709(data: seq<u8>, s: Shape, px: int, py: int)
    requires Fits(data, s) && s.HasPixel(px, py)
    ensures var p := Pixel(data, s, px, py); Close(PixelToYuv(data, s, px, py), Bt709(p[2], p[1], p[0]))
  {
    hide BgraComponentsToYuv, Bt709, PixelToYuv;
    PixelColour(data, s, px, py);
    var p := Pixel(data, s, px, py);
    ComponentsAreBt709(p[2], p[1], p[0]);
  }

  /** A grey pixel has neutral chroma, black is black, and any other grey loses one step of light. */
  lemma GreyIsNeutral(data: seq<u8>, s: Shape, px: int, py: int, v: u8)
    requires Fits(data, s) && s.HasPixel(px, py) && Pixel(data, s, px, py)[..3] == [v, v, v]
    ensures PixelToYuv(data, s, px, py) == Yuv(Max(v - 1, 0), 128, 128)
  {
    OffsetInBounds(s, px, py);
    var p := Pixel(data, s, px, py);
    assert p[0] == p[..3][0] && p[1] == p[..3][1] && p[2] == p[..3][2];
  }

  /** More blue never darkens, turns U up and V down; two steps of blue do show in U. */
  lemma MoreBlue(r: u8, g: u8, b: u8, b': u8)
    requires b <= b'
    ensures var was, now := BgraComponentsToYuv(r, g, b), BgraComponentsToYuv(r, g, b');
            was.y <= now.y && was.u <= now.u && now.v <= was.v && (b + 2 <= b' ==> was.u < now.u)
  {
  }

  /** More red never darkens, turns V up and U down; two steps of red do show in V. */
  lemma MoreRed(r: u8, g: u8, b: u8, r': u8)
    requires r <= r'
    ensures var was, now := BgraComponentsToYuv(r, g, b), BgraComponentsToYuv(r', g, b);
            was.y <= now.y && now.u <= was.u && was.v <= now.v && (r + 2 <= r' ==> was.v < now.v)
  {
  }

  function Avg4Floor(a: u8, b: u8, c: u8, d: u8): (average: u8)
    ensures 4 * average <= a + b + c + d < 4 * average + 4
  {
    (a + b + c + d) / 4
  }

  // ----- the full resolution picture

  /** Full resolution planes. */
  datatype Yuv444 = Yuv444(y: seq<u8>, u: seq<u8>, v: seq<u8>)

  ghost predicate Picture(width: nat, height: nat, image: Yuv444) {
    |image.y| == |image.u| == |image.v| == width * height
  }

  function Sample(width: nat, height: nat, plane: seq<u8>, px: int, py: int): u8
    requires |plane| == width * height && 0 <= px < width && 0 <= py < height
  {
    Cell(Y444, width, height, plane, px, py)
  }

  ghost function YuvAt(data: seq<u8>, s: Shape, i: nat): Yuv
    requires Fits(data, s) && i < s.width * s.height
  {
    IndexSplits(s.width, s.height, i);
    PixelToYuv(data, s, i % s.width, i / s.width)
  }

  /** The picture a BGRA frame shows; row padding is not part of it. */
  ghost function FullRes(data: seq<u8>, s: Shape): (image: Yuv444)
    requires Fits(data, s)
    ensures Picture(s.width, s.height, image)
  {
    var n := s.width * s.height;
    Yuv444(seq(n, i requires 0 <= i < n => YuvAt(data, s, i).y),
           seq(n, i requires 0 <= i < n => YuvAt(data, s, i).u),
           seq(n, i requires 0 <= i < n => YuvAt(data, s, i).v))
  }

  lemma FullResSample(data: seq<u8>, s: Shape, px: int, py: int)
    requires Fits(data, s) && s.HasPixel(px, py)
    ensures PixelToYuv(data, s, px, py) ==
            Yuv(Sample(s.width, s.height, FullRes(data, s).y, px, py),
                Sample(s.width, s.height, FullRes(data, s).u, px, py),
                Sample(s.width, s.height, FullRes(data, s).v, px, py))
  {
    var i := IndexOf(s.width, px, py);
    IndexInBounds(s.width, s.height, px, py);
    IndexSplits(s.width, s.height, i);
    IndexIsInjective(s.width, px, py, i % s.width, i / s.width);
  }

  // ----- packing

  lemma HomeInFrame(p: Plane, width: nat, height: nat, x: int, y: int)
    requires FrameSize(width, height) && HasCell(p, width, height, x, y)
    ensures 0 <= HomeX(p, width, x) < width && 0 <= HomeY(p, y) < height
  {
  }

  /** The average of the 2 by 2 block that starts at (2 * cx, 2 * cy). */
  function BlockAverage(width: nat, height: nat, plane: seq<u8>, cx: int, cy: int): u8
    requires |plane| == width * height && 0 <= cx < width / 2 && 0 <= cy < height / 2
  {
    Avg4Floor(Sample(width, height, plane, 2 * cx, 2 * cy), Sample(width, height, plane, 2 * cx + 1, 2 * cy),
              Sample(width, height, plane, 2 * cx, 2 * cy + 1), Sample(width, height, plane, 2 * cx + 1, 2 * cy + 1))
  }

  /**
   What a cell holds: luma as it is; main chroma, the average of its 2 by 2 block; an auxiliary
   cell, the exact U (left half of its plane) or V (right half) of its home pixel.
   */
  function CellValue(p: Plane, width: nat, height: nat, image: Yuv444, x: int, y: int): u8
    requires FrameSize(width, height) && Picture(width, height, image) && HasCell(p, width, height, x, y)
  {
    HomeInFrame(p, width, height, x, y);
    match p
    case Y444 => Sample(width, height, image.y, x, y)
    case MainU => BlockAverage(width, height, image.u, x, y)
    case MainV => BlockAverage(width, height, image.v, x, y)
    case _ => Sample(width, height, if x < Stride(p, width) / 2 then image.u else image.v, HomeX(p, width, x), HomeY(p, y))
  }

  ghost function ValueAt(p: Plane, width: nat, height: nat, image: Yuv444, i: nat): u8
    requires FrameSize(width, height) && Picture(width, height, image) && i < Stride(p, width) * Rows(p, height)
  {
    IndexSplits(Stride(p, width), Rows(p, height), i);
    CellValue(p, width, height, image, i % Stride(p, width), i / Stride(p, width))
  }

  ghost function PackPlane(p: Plane, width: nat, height: nat, image: Yuv444): (data: seq<u8>)
    requires FrameSize(width, height) && Picture(width, height, image)
    ensures Sized(p, width, height, data)
  {
    var n := Stride(p, width) * Rows(p, height);
    seq(n, i requires 0 <= i < n => ValueAt(p, width, height, image, i))
  }

  /** The whole picture, packed. */
  ghost function Packed(width: nat, height: nat, image: Yuv444): Planes
    requires FrameSize(width, height) && Picture(width, height, image)
  {
    Planes(Yuv420(PackPlane(Y444, width, height, image), PackPlane(MainU, width, height, image), PackPlane(MainV, width, height, image)),
           Yuv420(PackPlane(AuxY, width, height, image), PackPlane(AuxU, width, height, image), PackPlane(AuxV, width, height, image)))
  }

  lemma PackedCell(p: Plane, width: nat, height: nat, image: Yuv444, x: int, y: int)
    requires FrameSize(width, height) && Picture(width, height, image) && HasCell(p, width, height, x, y)
    ensures Packed(width, height, image).Get(p) == PackPlane(p, width, height, image)
    ensures Cell(p, width, height, PackPlane(p, width, height, image), x, y) == CellValue(p, width, height, image, x, y)
  {
    var i := IndexOf(Stride(p, width), x, y);
    IndexInBounds(Stride(p, width), Rows(p, height), x, y);
    IndexSplits(Stride(p, width), Rows(p, height), i);
    IndexIsInjective(Stride(p, width), x, y, i % Stride(p, width), i / Stride(p, width));
  }

  // ----- unpacking

  datatype CellRef = CellRef(p: Plane, x: int, y: int)

  /** The cell the client takes the U (or V) of a pixel from. */
  function ChromaSource(width: nat, second: bool, px: int, py: int): CellRef {
    if px % 2 == 1 then CellRef(AuxY, px / 2 + (if second then width / 2 else 0), py)
    else if py % 2 == 1 then
      CellRef(if px % 4 == 0 then AuxU else AuxV, px / 4 + (if second then width / 4 else 0), py / 2)
    else CellRef(if second then MainV else MainU, px / 2, py / 2)
  }

  lemma ChromaSourceExists(width: nat, height: nat, second: bool, px: int, py: int)
    requires FrameSize(width, height) && 0 <= px < width && 0 <= py < height
    ensures var c := ChromaSource(width, second, px, py); HasCell(c.p, width, height, c.x, c.y)
  {
    QuarterInRange(width, px);
    HalfInRange(height, py);
  }

  /** The U (or V) the client shows at a pixel, from the six planes it was sent. */
  function CombinedChroma(width: nat, height: nat, planes: Planes, second: bool, px: int, py: int): u8
    requires FrameSize(width, height) && AllSized(width, height, planes) && 0 <= px < width && 0 <= py < height
  {
    ChromaSourceExists(width, height, second, px, py);
    var c := ChromaSource(width, second, px, py);
    assert Sized(c.p, width, height, planes.Get(c.p));
    Cell(c.p, width, height, planes.Get(c.p), c.x, c.y)
  }

  /** What a frame carries of a pixel's chroma: the sample itself at odd x or y, elsewhere the average of its block. */
  function SentChroma(width: nat, height: nat, plane: seq<u8>, px: int, py: int): u8
    requires FrameSize(width, height) && |plane| == width * height && 0 <= px < width && 0 <= py < height
  {
    QuarterInRange(width, px);
    HalfInRange(height, py);
    if px % 2 == 1 || py % 2 == 1 then Sample(width, height, plane, px, py)
    else BlockAverage(width, height, plane, px / 2, py / 2)
  }

  lemma PackedIsSized(width: nat, height: nat, image: Yuv444)
    requires FrameSize(width, height) && Picture(width, height, image)
    ensures AllSized(width, height, Packed(width, height, image))
  {
  }

  /** The cell a pixel's chroma is taken from has that pixel as its home, and is in the half of U or of V. */
  lemma ChromaSourceIsHome(width: nat, height: nat, second: bool, px: int, py: int)
    requires FrameSize(width, height) && 0 <= px < width && 0 <= py < height
    ensures var c := ChromaSource(width, second, px, py);
            && HasCell(c.p, width, height, c.x, c.y) && HomeX(c.p, width, c.x) == px && HomeY(c.p, c.y) == py
            && (IsAux(c.p) ==> (c.x < Stride(c.p, width) / 2 <==> !second))
  {
    ChromaSourceExists(width, height, second, px, py);
    QuarterInRange(width, px);
    Remainders(px);
    Remainders(py);
    hide FrameSize;
  }

  lemma Remainders(v: nat)
    ensures v == 2 * (v / 2) + v % 2
    ensures v % 2 == 0 ==> v == 4 * (v / 4) + (if v % 4 == 0 then 0 else 2)
  {
    assert v == 4 * (v / 4) + v % 4;
  }

  /**
   Unpacking what was packed gives chroma back exactly wherever x or y is odd, and the floored
   average of the 2 by 2 block at the remaining pixel of each block.
   */
  lemma CombineAfterPack(width: nat, height: nat, image: Yuv444, second: bool, px: int, py: int)
    requires FrameSize(width, height) && Picture(width, height, image) && 0 <= px < width && 0 <= py < height
    ensures AllSized(width, height, Packed(width, height, image))
    ensures CombinedChroma(width, height, Packed(width, height, image), second, px, py) ==
            SentChroma(width, height, if second then image.v else image.u, px, py)
  {
    PackedIsSized(width, height, image);
    ChromaSourceIsHome(width, height, second, px, py);
    var c := ChromaSource(width, second, px, py);
    PackedCell(c.p, width, height, image, c.x, c.y);
    hide Packed, PackPlane, Sample, BlockAverage, HomeX, HomeY, Stride, Rows;
  }
}

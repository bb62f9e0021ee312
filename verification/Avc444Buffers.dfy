/**
 The encoder's six working planes, written in place (src/egfx/avc444.rs, the region conversion).
 */
module Avc444Buffers {
  import opened Avc444Conversion
  import opened Arithmetic
  import opened Avc444Layout
  import opened Avc444Regions
  import opened Damage
  import opened Regions

  // ----- storing single cells

  datatype At = At(x: int, y: int)

  /** `after` is `before` with the listed cells taken from `source`. */
  ghost predicate Stored(p: Plane, width: nat, height: nat, before: seq<u8>, source: seq<u8>, cells: seq<At>, after: seq<u8>) {
    && Sized(p, width, height, before) && Sized(p, width, height, source) && Sized(p, width, height, after)
    && forall x: int, y: int :: HasCell(p, width, height, x, y) ==>
         Cell(p, width, height, after, x, y) ==
         if At(x, y) in cells then Cell(p, width, height, source, x, y) else Cell(p, width, height, before, x, y)
  }

  lemma StoredOneMore(p: Plane, width: nat, height: nat, before: seq<u8>, source: seq<u8>, cells: seq<At>,
                      middle: seq<u8>, x: int, y: int, v: u8)
    requires Stored(p, width, height, before, source, cells, middle)
    requires HasCell(p, width, height, x, y) && v == Cell(p, width, height, source, x, y)
    ensures 0 <= IndexOf(Stride(p, width), x, y) < |middle|
    ensures Stored(p, width, height, before, source, cells + [At(x, y)], middle[IndexOf(Stride(p, width), x, y) := v])
  {
    StoreCell(p, width, height, middle, x, y, v, x, y);
    forall x': int, y': int | HasCell(p, width, height, x', y')
      ensures Cell(p, width, height, middle[IndexOf(Stride(p, width), x, y) := v], x', y') ==
              if At(x', y') in cells + [At(x, y)] then Cell(p, width, height, source, x', y')
              else Cell(p, width, height, before, x', y')
    {
      StoreCell(p, width, height, middle, x, y, v, x', y');
    }
  }

  lemma NothingStored(p: Plane, width: nat, height: nat, data: seq<u8>, source: seq<u8>)
    requires Sized(p, width, height, data) && Sized(p, width, height, source)
    ensures Stored(p, width, height, data, source, [], data)
  {
  }

  /** Storing exactly the cells that have their home in a region repaints the region. */
  lemma StoredIsRepainted(p: Plane, width: nat, height: nat, before: seq<u8>, source: seq<u8>, cells: seq<At>,
                          after: seq<u8>, r: Region)
    requires Stored(p, width, height, before, source, cells, after)
    requires forall x: int, y: int :: HasCell(p, width, height, x, y) ==>
               (At(x, y) in cells <==> r.Has(HomeX(p, width, x), HomeY(p, y)))
    ensures Repainted(p, width, height, before, source, [r], after)
  {
    forall x: int, y: int | HasCell(p, width, height, x, y)
      ensures CellIn(p, width, [r], x, y) <==> At(x, y) in cells
    {
      assert CellIn(p, width, [r], x, y) <==> [r][0].Has(HomeX(p, width, x), HomeY(p, y));
    }
  }

  /** `plane[y * stride + x] = v` */
  method Put(plane: array<u8>, p: Plane, width: nat, ghost height: nat, x: nat, y: nat, v: u8,
             ghost before: seq<u8>, ghost source: seq<u8>, ghost cells: seq<At>)
    requires Stored(p, width, height, before, source, cells, plane[..])
    requires HasCell(p, width, height, x, y) && v == Cell(p, width, height, source, x, y)
    modifies plane
    ensures Stored(p, width, height, before, source, cells + [At(x, y)], plane[..])
  {
    StoredOneMore(p, width, height, before, source, cells, plane[..], x, y, v);
    ghost var now := plane[..][IndexOf(Stride(p, width), x, y) := v];
    hide Stored, Cell, HasCell;
    plane[y * Stride(p, width) + x] := v;
    assert plane[..] == now;
  }

  // ----- one 2 by 2 block

  /** The block whose top left pixel is (2 * cx, 2 * cy). */
  function Block(cx: i32, cy: i32): Region
    requires 2 * cx <= I32_MAX && 2 * cy <= I32_MAX && 0 <= cx && 0 <= cy
  {
    Region(2 * cx, 2 * cy, 2, 2)
  }

  /** The blocks of a rectangle of the block grid. */
  function Blocks(first: nat, end: nat, top: nat, bottom: nat): Region
    requires first <= end && top <= bottom && 2 * end <= I32_MAX && 2 * bottom <= I32_MAX
  {
    Region(2 * first, 2 * top, 2 * (end - first), 2 * (bottom - top))
  }

  ghost predicate BlockInFrame(width: nat, height: nat, cx: int, cy: int) {
    FrameSize(width, height) && 0 <= cx < width / 2 && 0 <= cy < height / 2
  }

  lemma InFour(a: At, b: At, c: At, d: At)
    ensures forall e: At :: e in [] + [a] + [b] + [c] + [d] <==> e == a || e == b || e == c || e == d
  {
  }

  /** The four cells of a plane that have their home in a region. */
  method StoreFour(plane: array<u8>, p: Plane, width: nat, ghost height: nat, x0: nat, x1: nat, y0: nat, y1: nat,
                   a: u8, b: u8, c: u8, d: u8, ghost source: seq<u8>, ghost r: Region)
    requires Sized(p, width, height, plane[..]) && Sized(p, width, height, source)
    requires HasCell(p, width, height, x0, y0) && HasCell(p, width, height, x1, y0)
    requires HasCell(p, width, height, x0, y1) && HasCell(p, width, height, x1, y1)
    requires forall x: int, y: int :: HasCell(p, width, height, x, y) ==>
               (r.Has(HomeX(p, width, x), HomeY(p, y)) <==> (x == x0 || x == x1) && (y == y0 || y == y1))
    requires a == Cell(p, width, height, source, x0, y0) && b == Cell(p, width, height, source, x1, y0)
    requires c == Cell(p, width, height, source, x0, y1) && d == Cell(p, width, height, source, x1, y1)
    modifies plane
    ensures Repainted(p, width, height, old(plane[..]), source, [r], plane[..])
  {
    ghost var before := plane[..];
    ghost var one := [] + [At(x0, y0)];
    ghost var two := one + [At(x1, y0)];
    ghost var three := two + [At(x0, y1)];
    NothingStored(p, width, height, before, source);
    hide Stored, Cell, HasCell, HomeX, HomeY, Repainted;
    Put(plane, p, width, height, x0, y0, a, before, source, []);
    Put(plane, p, width, height, x1, y0, b, before, source, one);
    Put(plane, p, width, height, x0, y1, c, before, source, two);
    Put(plane, p, width, height, x1, y1, d, before, source, three);
    InFour(At(x0, y0), At(x1, y0), At(x0, y1), At(x1, y1));
    StoredIsRepainted(p, width, height, before, source, three + [At(x1, y1)], plane[..], r);
  }

  /** The four luma samples of a block. */
  method StoreLumaBlock(plane: array<u8>, width: nat, ghost height: nat, cx: nat, cy: nat, a: u8, b: u8, c: u8, d: u8,
                        ghost source: seq<u8>)
    requires BlockInFrame(width, height, cx, cy)
    requires Sized(Y444, width, height, plane[..]) && Sized(Y444, width, height, source)
    requires a == Cell(Y444, width, height, source, 2 * cx, 2 * cy) && b == Cell(Y444, width, height, source, 2 * cx + 1, 2 * cy)
    requires c == Cell(Y444, width, height, source, 2 * cx, 2 * cy + 1) && d == Cell(Y444, width, height, source, 2 * cx + 1, 2 * cy + 1)
    modifies plane
    ensures Repainted(Y444, width, height, old(plane[..]), source, [Block(cx, cy)], plane[..])
  {
    StoreFour(plane, Y444, width, height, 2 * cx, 2 * cx + 1, 2 * cy, 2 * cy + 1, a, b, c, d, source, Block(cx, cy));
  }

  /** The averaged chroma of a block. */
  method StoreMainBlock(plane: array<u8>, p: Plane, width: nat, ghost height: nat, cx: nat, cy: nat, v: u8, ghost source: seq<u8>)
    requires BlockInFrame(width, height, cx, cy) && (p.MainU? || p.MainV?)
    requires Sized(p, width, height, plane[..]) && Sized(p, width, height, source)
    requires v == Cell(p, width, height, source, cx, cy)
    modifies plane
    ensures Repainted(p, width, height, old(plane[..]), source, [Block(cx, cy)], plane[..])
  {
    ghost var before := plane[..];
    NothingStored(p, width, height, before, source);
    hide Stored, Cell;
    Put(plane, p, width, height, cx, cy, v, before, source, []);
    StoredIsRepainted(p, width, height, before, source, [] + [At(cx, cy)], plane[..], Block(cx, cy));
  }

  /** A block has four cells in the auxiliary luma plane. */
  lemma AuxLumaOfBlock(width: nat, height: nat, cx: nat, cy: nat)
    requires BlockInFrame(width, height, cx, cy)
    ensures HasCell(AuxY, width, height, cx, 2 * cy) && HasCell(AuxY, width, height, cx + width / 2, 2 * cy)
    ensures HasCell(AuxY, width, height, cx, 2 * cy + 1) && HasCell(AuxY, width, height, cx + width / 2, 2 * cy + 1)
    ensures forall x: int, y: int :: HasCell(AuxY, width, height, x, y) ==>
              (Block(cx, cy).Has(HomeX(AuxY, width, x), HomeY(AuxY, y)) <==>
               (x == cx || x == cx + width / 2) && (y == 2 * cy || y == 2 * cy + 1))
  {
    HalvesAndQuarters(width, height);
    hide FrameSize, DimensionsSupported;
  }

  /** The odd column's U and V, on both rows of a block. */
  method StoreAuxLumaBlock(plane: array<u8>, width: nat, ghost height: nat, cx: nat, cy: nat, ub: u8, vb: u8, ud: u8, vd: u8,
                           ghost source: seq<u8>)
    requires BlockInFrame(width, height, cx, cy)
    requires Sized(AuxY, width, height, plane[..]) && Sized(AuxY, width, height, source)
    requires ub == Cell(AuxY, width, height, source, cx, 2 * cy) && vb == Cell(AuxY, width, height, source, cx + width / 2, 2 * cy)
    requires ud == Cell(AuxY, width, height, source, cx, 2 * cy + 1) && vd == Cell(AuxY, width, height, source, cx + width / 2, 2 * cy + 1)
    modifies plane
    ensures Repainted(AuxY, width, height, old(plane[..]), source, [Block(cx, cy)], plane[..])
  {
    AuxLumaOfBlock(width, height, cx, cy);
    hide HasCell, HomeX, HomeY, Cell, Repainted, FrameSize;
    StoreFour(plane, AuxY, width, height, cx, cx + width / 2, 2 * cy, 2 * cy + 1, ub, vb, ud, vd, source, Block(cx, cy));
  }

  lemma AuxChromaExists(p: Plane, width: nat, height: nat, cx: nat, cy: nat)
    requires BlockInFrame(width, height, cx, cy) && (p.AuxU? || p.AuxV?)
    ensures HasCell(p, width, height, cx / 2, cy) && HasCell(p, width, height, cx / 2 + width / 4, cy)
  {
  }

  /** A block has two cells in the auxiliary chroma plane of its parity and none in the other. */
  lemma AuxChromaOfBlock(p: Plane, width: nat, height: nat, cx: nat, cy: nat)
    requires BlockInFrame(width, height, cx, cy) && (p.AuxU? || p.AuxV?)
    ensures forall x: int, y: int :: HasCell(p, width, height, x, y) ==>
              (Block(cx, cy).Has(HomeX(p, width, x), HomeY(p, y)) <==>
               (cx % 2 == 0) == p.AuxU? && (x == cx / 2 || x == cx / 2 + width / 4) && y == cy)
  {
    forall x: int, y: int | HasCell(p, width, height, x, y)
      ensures Block(cx, cy).Has(HomeX(p, width, x), HomeY(p, y)) <==>
              (cx % 2 == 0) == p.AuxU? && (x == cx / 2 || x == cx / 2 + width / 4) && y == cy
    {
      AuxChromaCell(p.AuxU?, width / 4, cx, x);
    }
  }

  lemma AuxChromaCell(even: bool, quarter: int, cx: int, x: int)
    requires 0 <= cx < 2 * quarter && 0 <= x < 2 * quarter
    ensures var home := 4 * (if x < quarter then x else x - quarter) + (if even then 0 else 2);
            2 * cx <= home < 2 * cx + 2 <==> (cx % 2 == 0) == even && (x == cx / 2 || x == cx / 2 + quarter)
  {
    assert cx == 2 * (cx / 2) + cx % 2;
  }

  /** The even column's U and V on the odd row go to `p` when the block's column has its parity. */
  method StoreAuxChromaBlock(plane: array<u8>, p: Plane, width: nat, ghost height: nat, cx: nat, cy: nat, uc: u8, vc: u8,
                             ghost source: seq<u8>)
    requires BlockInFrame(width, height, cx, cy) && ((p.AuxU? && cx % 2 == 0) || (p.AuxV? && cx % 2 == 1))
    requires Sized(p, width, height, plane[..]) && Sized(p, width, height, source)
    requires uc == Cell(p, width, height, source, cx / 2, cy) && vc == Cell(p, width, height, source, cx / 2 + width / 4, cy)
    modifies plane
    ensures Repainted(p, width, height, old(plane[..]), source, [Block(cx, cy)], plane[..])
  {
    ghost var before := plane[..];
    NothingStored(p, width, height, before, source);
    AuxChromaOfBlock(p, width, height, cx, cy);
    AuxChromaExists(p, width, height, cx, cy);
    hide Stored, Cell, HasCell, HomeX, HomeY;
    Put(plane, p, width, height, cx / 2, cy, uc, before, source, []);
    Put(plane, p, width, height, cx / 2 + width / 4, cy, vc, before, source, [] + [At(cx / 2, cy)]);
    StoredIsRepainted(p, width, height, before, source, [] + [At(cx / 2, cy)] + [At(cx / 2 + width / 4, cy)], plane[..], Block(cx, cy));
  }

  /** A block of the other parity has no cell in this plane. */
  lemma OtherParity(p: Plane, width: nat, height: nat, cx: nat, cy: nat, data: seq<u8>, source: seq<u8>)
    requires BlockInFrame(width, height, cx, cy) && ((p.AuxU? && cx % 2 == 1) || (p.AuxV? && cx % 2 == 0))
    requires Sized(p, width, height, data) && Sized(p, width, height, source)
    ensures Repainted(p, width, height, data, source, [Block(cx, cy)], data)
  {
    NothingStored(p, width, height, data, source);
    AuxChromaOfBlock(p, width, height, cx, cy);
    hide Stored, HasCell, HomeX, HomeY;
    StoredIsRepainted(p, width, height, data, source, [], data, Block(cx, cy));
  }

  // ----- the six planes

  class PlaneBuffers {
    const width: nat
    const height: nat
    const y444: array<u8>
    const mainU: array<u8>
    const mainV: array<u8>
    const auxY: array<u8>
    const auxU: array<u8>
    const auxV: array<u8>

    ghost predicate Valid() {
      && FrameSize(width, height)
      && y444.Length == auxY.Length == width * height
      && mainU.Length == mainV.Length == auxU.Length == auxV.Length == (width / 2) * (height / 2)
      && y444 != mainU && y444 != mainV && y444 != auxY && y444 != auxU && y444 != auxV
      && mainU != mainV && mainU != auxY && mainU != auxU && mainU != auxV
      && mainV != auxY && mainV != auxU && mainV != auxV
      && auxY != auxU && auxY != auxV && auxU != auxV
    }

    ghost function Planes(): Avc444Layout.Planes
      reads y444, mainU, mainV, auxY, auxU, auxV
    {
      Avc444Layout.Planes(Yuv420(y444[..], mainU[..], mainV[..]), Yuv420(auxY[..], auxU[..], auxV[..]))
    }

    constructor (width: nat, height: nat)
      requires FrameSize(width, height)
      ensures Valid() && this.width == width && this.height == height
      ensures fresh(y444) && fresh(mainU) && fresh(mainV) && fresh(auxY) && fresh(auxU) && fresh(auxV)
    {
      MulNonNegative(width, height);
      MulNonNegative(width / 2, height / 2);
      this.width, this.height := width, height;
      y444 := new u8[width * height](_ => 0);
      mainU := new u8[(width / 2) * (height / 2)](_ => 128);
      mainV := new u8[(width / 2) * (height / 2)](_ => 128);
      auxY := new u8[width * height](_ => 128);
      auxU := new u8[(width / 2) * (height / 2)](_ => 128);
      auxV := new u8[(width / 2) * (height / 2)](_ => 128);
    }

    /** The luma half of the block loop's body. */
    method ConvertLumaBlock(data: seq<u8>, s: Shape, cx: nat, cy: nat, ghost image: Yuv444)
      requires Valid() && Fits(data, s) && s.width == width && s.height == height
      requires BlockInFrame(width, height, cx, cy) && Picture(width, height, image) && image == FullRes(data, s)
      modifies y444, mainU, mainV
      ensures Repainted(Y444, width, height, old(y444[..]), PackPlane(Y444, width, height, image), [Block(cx, cy)], y444[..])
      ensures Repainted(MainU, width, height, old(mainU[..]), PackPlane(MainU, width, height, image), [Block(cx, cy)], mainU[..])
      ensures Repainted(MainV, width, height, old(mainV[..]), PackPlane(MainV, width, height, image), [Block(cx, cy)], mainV[..])
    {
      var a := PixelToYuv(data, s, 2 * cx, 2 * cy);
      var b := PixelToYuv(data, s, 2 * cx + 1, 2 * cy);
      var c := PixelToYuv(data, s, 2 * cx, 2 * cy + 1);
      var d := PixelToYuv(data, s, 2 * cx + 1, 2 * cy + 1);
      FullResSample(data, s, 2 * cx, 2 * cy);
      FullResSample(data, s, 2 * cx + 1, 2 * cy);
      FullResSample(data, s, 2 * cx, 2 * cy + 1);
      FullResSample(data, s, 2 * cx + 1, 2 * cy + 1);
      hide PixelToYuv, FullRes, PackPlane, Cell, Sample, Repainted;
      LumaCells(width, height, image, cx, cy);
      StoreLumaBlock(y444, width, height, cx, cy, a.y, b.y, c.y, d.y, PackPlane(Y444, width, height, image));
      StoreMainBlock(mainU, MainU, width, height, cx, cy, Avg4Floor(a.u, b.u, c.u, d.u), PackPlane(MainU, width, height, image));
      StoreMainBlock(mainV, MainV, width, height, cx, cy, Avg4Floor(a.v, b.v, c.v, d.v), PackPlane(MainV, width, height, image));
    }

    /** The chroma half. */
    method ConvertChromaBlock(data: seq<u8>, s: Shape, cx: nat, cy: nat, ghost image: Yuv444)
      requires Valid() && Fits(data, s) && s.width == width && s.height == height
      requires BlockInFrame(width, height, cx, cy) && Picture(width, height, image) && image == FullRes(data, s)
      modifies auxY, auxU, auxV
      ensures Repainted(AuxY, width, height, old(auxY[..]), PackPlane(AuxY, width, height, image), [Block(cx, cy)], auxY[..])
      ensures Repainted(AuxU, width, height, old(auxU[..]), PackPlane(AuxU, width, height, image), [Block(cx, cy)], auxU[..])
      ensures Repainted(AuxV, width, height, old(auxV[..]), PackPlane(AuxV, width, height, image), [Block(cx, cy)], auxV[..])
    {
      var b := PixelToYuv(data, s, 2 * cx + 1, 2 * cy);
      var c := PixelToYuv(data, s, 2 * cx, 2 * cy + 1);
      var d := PixelToYuv(data, s, 2 * cx + 1, 2 * cy + 1);
      FullResSample(data, s, 2 * cx + 1, 2 * cy);
      FullResSample(data, s, 2 * cx, 2 * cy + 1);
      FullResSample(data, s, 2 * cx + 1, 2 * cy + 1);
      hide PixelToYuv, FullRes, PackPlane, Cell, Sample, Repainted;
      AuxLumaCells(width, height, image, cx, cy);
      AuxChromaCells(width, height, image, cx, cy);
      StoreAuxLumaBlock(auxY, width, height, cx, cy, b.u, b.v, d.u, d.v, PackPlane(AuxY, width, height, image));
      if cx % 2 == 0 {
        StoreAuxChromaBlock(auxU, AuxU, width, height, cx, cy, c.u, c.v, PackPlane(AuxU, width, height, image));
        OtherParity(AuxV, width, height, cx, cy, auxV[..], PackPlane(AuxV, width, height, image));
      } else {
        StoreAuxChromaBlock(auxV, AuxV, width, height, cx, cy, c.u, c.v, PackPlane(AuxV, width, height, image));
        OtherParity(AuxU, width, height, cx, cy, auxU[..], PackPlane(AuxU, width, height, image));
      }
    }

    method ConvertBlock(data: seq<u8>, s: Shape, cx: nat, cy: nat, ghost image: Yuv444)
      requires Valid() && Fits(data, s) && s.width == width && s.height == height
      requires BlockInFrame(width, height, cx, cy) && Picture(width, height, image) && image == FullRes(data, s)
      modifies y444, mainU, mainV, auxY, auxU, auxV
      ensures AllRepainted(width, height, old(Planes()), Packed(width, height, image), [Block(cx, cy)], Planes())
    {
      hide FullRes, PackPlane, Repainted;
      ConvertLumaBlock(data, s, cx, cy, image);
      ConvertChromaBlock(data, s, cx, cy, image);
    }

    /** One row of blocks, from column `first` to column `end` of the block grid. */
    method ConvertBlockRow(data: seq<u8>, s: Shape, first: nat, end: nat, cy: nat, ghost image: Yuv444)
      requires Valid() && Fits(data, s) && s.width == width && s.height == height
      requires first <= end <= width / 2 && 0 <= cy < height / 2
      requires Picture(width, height, image) && image == FullRes(data, s)
      modifies y444, mainU, mainV, auxY, auxU, auxV
      ensures AllRepainted(width, height, old(Planes()), Packed(width, height, image), [Blocks(first, end, cy, cy + 1)], Planes())
    {
      ghost var before, source := Planes(), Packed(width, height, image);
      PackedIsSized(width, height, image);
      BuffersAreSized();
      BlocksInRange(width, height, end, cy + 1);
      assert FrameSize(width, height);
      hide FullRes, Packed, AllRepainted, AllSized, FrameSize, Fits, Picture, Valid;
      RepaintNothing(width, height, before, source);
      EmptyRegion(width, height, before, source, Blocks(first, first, cy, cy + 1));
      hide Blocks, Block;
      var cx := first;
      while cx < end
        invariant first <= cx <= end
        invariant AllRepainted(width, height, before, source, [Blocks(first, cx, cy, cy + 1)], Planes())
      {
        ghost var middle := Planes();
        ConvertBlock(data, s, cx, cy, image);
        JoinColumns(first, cx, cy);
        JoinRegions(width, height, before, source, Blocks(first, cx, cy, cy + 1), middle,
                    Block(cx, cy), Blocks(first, cx + 1, cy, cy + 1), Planes());
        cx := cx + 1;
      }
    }

    ghost predicate Sound()
      reads y444, mainU, mainV, auxY, auxU, auxV
    {
      AllSized(width, height, Planes())
    }

    lemma BuffersAreSized()
      requires Valid()
      ensures Sound()
    {
    }

    /** The block loops of one region, in block coordinates. */
    method ConvertBlocks(data: seq<u8>, s: Shape, first: nat, end: nat, top: nat, bottom: nat, ghost image: Yuv444)
      requires Valid() && Fits(data, s) && s.width == width && s.height == height
      requires first <= end <= width / 2 && top <= bottom <= height / 2
      requires Picture(width, height, image) && image == FullRes(data, s)
      modifies y444, mainU, mainV, auxY, auxU, auxV
      ensures AllRepainted(width, height, old(Planes()), Packed(width, height, image), [Blocks(first, end, top, bottom)], Planes())
    {
      ghost var before, source := Planes(), Packed(width, height, image);
      PackedIsSized(width, height, image);
      BuffersAreSized();
      BlocksInRange(width, height, end, bottom);
      assert FrameSize(width, height);
      hide FullRes, Packed, AllRepainted, AllSized, FrameSize, Fits, Picture, Valid;
      RepaintNothing(width, height, before, source);
      EmptyRegion(width, height, before, source, Blocks(first, end, top, top));
      hide Blocks;
      var cy := top;
      while cy < bottom
        invariant top <= cy <= bottom
        invariant AllRepainted(width, height, before, source, [Blocks(first, end, top, cy)], Planes())
      {
        ghost var middle := Planes();
        ConvertBlockRow(data, s, first, end, cy, image);
        JoinRows(first, end, top, cy);
        JoinRegions(width, height, before, source, Blocks(first, end, top, cy), middle,
                    Blocks(first, end, cy, cy + 1), Blocks(first, end, top, cy + 1), Planes());
        cy := cy + 1;
      }
    }

    /** One aligned region. */
    method ConvertRegion(data: seq<u8>, s: Shape, r: Region, ghost image: Yuv444)
      requires Valid() && Fits(data, s) && s.width == width && s.height == height
      requires r.InFrame(width, height) && Aligned(r)
      requires Picture(width, height, image) && image == FullRes(data, s)
      modifies y444, mainU, mainV, auxY, auxU, auxV
      ensures AllRepainted(width, height, old(Planes()), Packed(width, height, image), [r], Planes())
    {
      BlocksOf(r, width, height);
      hide FullRes, Packed, AllRepainted, AllSized, Aligned, DimensionsSupported;
      var first, end, top, bottom := r.x / 2, (r.x + r.w) / 2, r.y / 2, (r.y + r.h) / 2;
      ConvertBlocks(data, s, first, end, top, bottom, image);
    }

    /** One region of the list: clamped, aligned, converted. */
    method ConvertClamped(data: seq<u8>, s: Shape, r: Region, ghost image: Yuv444)
      requires Valid() && Fits(data, s) && s.width == width && s.height == height
      requires Picture(width, height, image) && image == FullRes(data, s)
      modifies y444, mainU, mainV, auxY, auxU, auxV
      ensures AllRepainted(width, height, old(Planes()), Packed(width, height, image), AlignedForm(r, width, height), Planes())
    {
      PackedIsSized(width, height, image);
      BuffersAreSized();
      hide FullRes, Packed, AllRepainted, AllSized, Aligned, AlignRegion, ClampDamageRegion;
      var clamped := ClampDamageRegion(r, width, height);
      AlignedIsInFrame(r, width, height);
      if clamped.Some? {
        var a := AlignClamped(r, clamped.value, width, height);
        ConvertRegion(data, s, a, image);
      } else {
        RepaintNothing(width, height, Planes(), Packed(width, height, image));
      }
    }

    /**
     The conversion of any list of regions: the cells of their aligned forms become what packing
     the whole picture gives, and no other cell changes.
     */
    method ConvertRegions(data: seq<u8>, s: Shape, regions: seq<Region>)
      requires Valid() && Fits(data, s) && s.width == width && s.height == height
      modifies y444, mainU, mainV, auxY, auxU, auxV
      ensures AllRepainted(width, height, old(Planes()), Packed(width, height, FullRes(data, s)),
                           AlignedForms(regions, width, height), Planes())
    {
      ghost var image := FullRes(data, s);
      ghost var before, source := Planes(), Packed(width, height, image);
      PackedIsSized(width, height, image);
      BuffersAreSized();
      assert AlignedForms(regions[..0], width, height) == [];
      hide FullRes, Packed, AllRepainted, AllSized, AlignedForm, AlignedForms;
      RepaintNothing(width, height, before, source);
      var k := 0;
      while k < |regions|
        invariant 0 <= k <= |regions|
        invariant AllRepainted(width, height, before, source, AlignedForms(regions[..k], width, height), Planes())
      {
        ghost var middle := Planes();
        ConvertClamped(data, s, regions[k], image);
        RepaintAllTwice(width, height, before, source, AlignedForms(regions[..k], width, height), middle,
                        AlignedForm(regions[k], width, height), Planes());
        AlignedFormsStep(regions, k, width, height);
        k := k + 1;
      }
      assert regions[..k] == regions;
    }
  }

  // ----- the cells of a block hold what is computed from its pixels

  lemma LumaCells(width: nat, height: nat, image: Yuv444, cx: nat, cy: nat)
    requires BlockInFrame(width, height, cx, cy) && Picture(width, height, image)
    ensures var luma := PackPlane(Y444, width, height, image);
            && Cell(Y444, width, height, luma, 2 * cx, 2 * cy) == Sample(width, height, image.y, 2 * cx, 2 * cy)
            && Cell(Y444, width, height, luma, 2 * cx + 1, 2 * cy) == Sample(width, height, image.y, 2 * cx + 1, 2 * cy)
            && Cell(Y444, width, height, luma, 2 * cx, 2 * cy + 1) == Sample(width, height, image.y, 2 * cx, 2 * cy + 1)
            && Cell(Y444, width, height, luma, 2 * cx + 1, 2 * cy + 1) == Sample(width, height, image.y, 2 * cx + 1, 2 * cy + 1)
    ensures Cell(MainU, width, height, PackPlane(MainU, width, height, image), cx, cy) == BlockAverage(width, height, image.u, cx, cy)
    ensures Cell(MainV, width, height, PackPlane(MainV, width, height, image), cx, cy) == BlockAverage(width, height, image.v, cx, cy)
  {
    hide PackPlane, Sample, Cell, BlockAverage;
    PackedCell(Y444, width, height, image, 2 * cx, 2 * cy);
    PackedCell(Y444, width, height, image, 2 * cx + 1, 2 * cy);
    PackedCell(Y444, width, height, image, 2 * cx, 2 * cy + 1);
    PackedCell(Y444, width, height, image, 2 * cx + 1, 2 * cy + 1);
    PackedCell(MainU, width, height, image, cx, cy);
    PackedCell(MainV, width, height, image, cx, cy);
  }

  lemma AuxLumaCells(width: nat, height: nat, image: Yuv444, cx: nat, cy: nat)
    requires BlockInFrame(width, height, cx, cy) && Picture(width, height, image)
    ensures var aux := PackPlane(AuxY, width, height, image);
            && Cell(AuxY, width, height, aux, cx, 2 * cy) == Sample(width, height, image.u, 2 * cx + 1, 2 * cy)
            && Cell(AuxY, width, height, aux, cx + width / 2, 2 * cy) == Sample(width, height, image.v, 2 * cx + 1, 2 * cy)
            && Cell(AuxY, width, height, aux, cx, 2 * cy + 1) == Sample(width, height, image.u, 2 * cx + 1, 2 * cy + 1)
            && Cell(AuxY, width, height, aux, cx + width / 2, 2 * cy + 1) == Sample(width, height, image.v, 2 * cx + 1, 2 * cy + 1)
  {
    hide PackPlane, Sample, Cell;
    PackedCell(AuxY, width, height, image, cx, 2 * cy);
    PackedCell(AuxY, width, height, image, cx + width / 2, 2 * cy);
    PackedCell(AuxY, width, height, image, cx, 2 * cy + 1);
    PackedCell(AuxY, width, height, image, cx + width / 2, 2 * cy + 1);
  }

  lemma AuxChromaCells(width: nat, height: nat, image: Yuv444, cx: nat, cy: nat)
    requires BlockInFrame(width, height, cx, cy) && Picture(width, height, image)
    ensures var p := if cx % 2 == 0 then AuxU else AuxV;
            && Cell(p, width, height, PackPlane(p, width, height, image), cx / 2, cy) ==
               Sample(width, height, image.u, 2 * cx, 2 * cy + 1)
            && Cell(p, width, height, PackPlane(p, width, height, image), cx / 2 + width / 4, cy) ==
               Sample(width, height, image.v, 2 * cx, 2 * cy + 1)
  {
    hide PackPlane, Sample, Cell;
    var p := if cx % 2 == 0 then AuxU else AuxV;
    PackedCell(p, width, height, image, cx / 2, cy);
    PackedCell(p, width, height, image, cx / 2 + width / 4, cy);
  }

  // ----- putting repainted regions together

  lemma JoinRows(first: nat, end: nat, top: nat, cy: nat)
    requires first <= end && top <= cy && 2 * end <= I32_MAX && 2 * (cy + 1) <= I32_MAX
    ensures forall px: int, py: int :: Blocks(first, end, top, cy + 1).Has(px, py) <==>
              Blocks(first, end, top, cy).Has(px, py) || Blocks(first, end, cy, cy + 1).Has(px, py)
  {
  }

  lemma JoinColumns(first: nat, cx: nat, cy: nat)
    requires first <= cx && 2 * (cx + 1) <= I32_MAX && 2 * (cy + 1) <= I32_MAX
    ensures forall px: int, py: int :: Blocks(first, cx + 1, cy, cy + 1).Has(px, py) <==>
              Blocks(first, cx, cy, cy + 1).Has(px, py) || Block(cx, cy).Has(px, py)
  {
  }

  /** The edges of blocks in the frame fit 32 bits. */
  lemma BlocksInRange(width: nat, height: nat, end: nat, bottom: nat)
    requires FrameSize(width, height) && end <= width / 2 && bottom <= height / 2
    ensures 2 * end <= I32_MAX && 2 * bottom <= I32_MAX
  {
    HalvesAndQuarters(width, height);
  }

  lemma CoversOne(r: Region, px: int, py: int)
    ensures Covers([r], px, py) <==> r.Has(px, py)
  {
    assert [r][0] == r;
  }

  lemma EmptyRegion(width: nat, height: nat, planes: Planes, source: Planes, r: Region)
    requires AllRepainted(width, height, planes, source, [], planes) && (r.w == 0 || r.h == 0)
    ensures AllRepainted(width, height, planes, source, [r], planes)
  {
    forall px: int, py: int
      ensures Covers([], px, py) <==> Covers([r], px, py)
    {
      CoversOne(r, px, py);
    }
    SameCoverSameRepaint(width, height, planes, source, [], [r], planes);
  }

  lemma JoinRegions(width: nat, height: nat, a: Planes, source: Planes, first: Region, b: Planes, second: Region,
                    whole: Region, c: Planes)
    requires AllRepainted(width, height, a, source, [first], b) && AllRepainted(width, height, b, source, [second], c)
    requires forall px: int, py: int :: whole.Has(px, py) <==> first.Has(px, py) || second.Has(px, py)
    ensures AllRepainted(width, height, a, source, [whole], c)
  {
    RepaintAllTwice(width, height, a, source, [first], b, [second], c);
    forall px: int, py: int
      ensures Covers([first] + [second], px, py) <==> Covers([whole], px, py)
    {
      CoversConcat([first], [second], px, py);
      CoversOne(first, px, py);
      CoversOne(second, px, py);
      CoversOne(whole, px, py);
    }
    SameCoverSameRepaint(width, height, a, source, [first] + [second], [whole], c);
  }

  /** The aligned form of a region, if it is in the frame at all. */
  function AlignedForm(r: Region, width: nat, height: nat): seq<Region>
    requires FrameSize(width, height)
  {
    var a := AlignRegion(r, width, height);
    if a.Some? then [a.value] else []
  }

  /** The aligned forms of the regions that are in the frame. */
  ghost function AlignedForms(regions: seq<Region>, width: nat, height: nat): seq<Region>
    requires FrameSize(width, height)
  {
    if regions == [] then []
    else
      AlignedForms(regions[..|regions| - 1], width, height) + AlignedForm(regions[|regions| - 1], width, height)
  }

  /** An aligned region is made of whole blocks. */
  lemma BlocksOf(r: Region, width: nat, height: nat)
    requires FrameSize(width, height) && r.InFrame(width, height) && Aligned(r)
    ensures var first, end, top, bottom := r.x / 2, (r.x + r.w) / 2, r.y / 2, (r.y + r.h) / 2;
            && 0 <= first < end <= width / 2 && 0 <= top < bottom <= height / 2
            && r.x == 2 * first && r.w == 2 * (end - first) && r.y == 2 * top && r.h == 2 * (bottom - top)
  {
    EvenEdges(r);
    HalvesAndQuarters(width, height);
    EvenSpan(r.x, r.w, width);
    EvenSpan(r.y, r.h, height);
  }

  lemma EvenEdges(r: Region)
    requires Aligned(r) && 0 <= r.x && 0 <= r.w
    ensures r.x % 2 == 0 && (r.x + r.w) % 2 == 0 && r.y % 2 == 0 && (r.y + r.h) % 2 == 0
  {
    QuartersExactly(r.x);
    QuartersExactly(r.x + r.w);
  }

  lemma AlignedFormsStep(regions: seq<Region>, k: nat, width: nat, height: nat)
    requires FrameSize(width, height) && k < |regions|
    ensures AlignedForms(regions[..k + 1], width, height) ==
            AlignedForms(regions[..k], width, height) + AlignedForm(regions[k], width, height)
  {
    hide AlignedForm;
    assert regions[..k + 1][..k] == regions[..k];
  }

  /** The conversion aligns what is left of a region after clamping; that is its aligned form. */
  method AlignClamped(ghost r: Region, c: Region, width: nat, height: nat) returns (a: Region)
    requires FrameSize(width, height) && ClampDamageRegion(r, width, height) == Some(c)
    ensures AlignRegion(r, width, height) == Some(a)
    ensures a.InFrame(width, height) && Aligned(a)
  {
    hide AlignDown, AlignUp, Aligned;
    AlignedIsInFrame(r, width, height);
    AlignedIsAligned(r, width, height);
    var left := AlignDown(c.x, 4);
    var top := AlignDown(c.y, 2);
    var right := Clamp(AlignUp(c.x + c.w, 4), 0, width);
    var bottom := Clamp(AlignUp(c.y + c.h, 2), 0, height);
    a := Region(left, top, right - left, bottom - top);
  }

  /** Aligned regions in the frame are their own aligned forms. */
  lemma {:induction false} AlignedFormsKeepAligned(regions: seq<Region>, width: nat, height: nat)
    requires FrameSize(width, height) && AllInFrame(regions, width, height) && AllAligned(regions)
    ensures AlignedForms(regions, width, height) == regions
  {
    hide AlignRegion, Aligned;
    if regions == [] {
    } else {
      var last := regions[|regions| - 1];
      AlignedFormsKeepAligned(regions[..|regions| - 1], width, height);
      AlignedIsKept(last, width, height);
      assert regions == regions[..|regions| - 1] + [last];
    }
  }

  /** Converting the whole frame is packing it. */
  lemma WholeFrameIsPacked(width: nat, height: nat, before: Planes, source: Planes, after: Planes)
    requires FrameSize(width, height)
    requires AllRepainted(width, height, before, source, [Region(0, 0, width, height)], after)
    ensures after == source
  {
    forall p: Plane
      ensures after.Get(p) == source.Get(p)
    {
      assert Repainted(p, width, height, before.Get(p), source.Get(p), [Region(0, 0, width, height)], after.Get(p));
      forall x: int, y: int | HasCell(p, width, height, x, y)
        ensures Cell(p, width, height, after.Get(p), x, y) == Cell(p, width, height, source.Get(p), x, y)
      {
        HomeInFrame(p, width, height, x, y);
        CoversOne(Region(0, 0, width, height), HomeX(p, width, x), HomeY(p, y));
      }
      CellsDeterminePlane(p, width, height, after.Get(p), source.Get(p));
    }
    assert after.Get(Y444) == source.Get(Y444) && after.Get(MainU) == source.Get(MainU) && after.Get(MainV) == source.Get(MainV);
    assert after.Get(AuxY) == source.Get(AuxY) && after.Get(AuxU) == source.Get(AuxU) && after.Get(AuxV) == source.Get(AuxV);
  }
}

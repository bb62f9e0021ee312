/**
 The six planes of an AVC444v2 frame (src/egfx/avc444.rs).

 A YUV 4:4:4 picture is sent as two YUV 4:2:0 pictures: the main one holds luma and averaged
 chroma, the auxiliary one the chroma samples that averaging lost (section 3.3.8.3.3 of
 MS-RDPEGFX).  Every cell of every plane stores something about one pixel of the picture, its
 home pixel; most statements about the planes are made through that pixel.
 */
module Avc444Layout {
  import opened Arithmetic
  import opened Regions

  predicate DimensionsSupported(width: nat, height: nat) {
    width != 0 && height != 0 && width % 4 == 0 && height % 2 == 0
  }

  datatype Plane = Y444 | MainU | MainV | AuxY | AuxU | AuxV

  /** Luma size for a plane in the place of luma, half of it for the others. */
  function Stride(p: Plane, width: nat): nat {
    if p.Y444? || p.AuxY? then width else width / 2
  }

  function Rows(p: Plane, height: nat): nat {
    if p.Y444? || p.AuxY? then height else height / 2
  }

  predicate HasCell(p: Plane, width: nat, height: nat, x: int, y: int) {
    0 <= x < Stride(p, width) && 0 <= y < Rows(p, height)
  }

  /** The pixel a cell belongs to: for an auxiliary cell, the pixel whose U or V it holds. */
  function HomeX(p: Plane, width: nat, x: int): int {
    match p
    case Y444 => x
    case MainU => 2 * x
    case MainV => 2 * x
    case AuxY => 2 * (if x < width / 2 then x else x - width / 2) + 1
    case AuxU => 4 * (if x < width / 4 then x else x - width / 4)
    case AuxV => 4 * (if x < width / 4 then x else x - width / 4) + 2
  }

  function HomeY(p: Plane, y: int): int {
    match p
    case Y444 => y
    case MainU => 2 * y
    case MainV => 2 * y
    case AuxY => y
    case AuxU => 2 * y + 1
    case AuxV => 2 * y + 1
  }

  // ----- cells of one plane

  function IndexOf(stride: nat, x: int, y: int): int { y * stride + x }

  lemma IndexInBounds(stride: nat, rows: nat, x: int, y: int)
    requires 0 <= x < stride && 0 <= y < rows
    ensures 0 <= IndexOf(stride, x, y) < stride * rows
    ensures 0 <= y * stride
  {
    RowFits(y, rows, stride);
  }

  lemma RowsFollow(stride: nat, x0: int, y0: int, x1: int, y1: int)
    requires 0 <= x0 < stride && 0 <= x1 < stride && y0 < y1
    ensures IndexOf(stride, x0, y0) < IndexOf(stride, x1, y1)
  {
    MulMonotone(y0 + 1, y1, stride);
    assert (y0 + 1) * stride == y0 * stride + stride;
  }

  lemma IndexIsInjective(stride: nat, x0: int, y0: int, x1: int, y1: int)
    requires 0 <= x0 < stride && 0 <= x1 < stride
    ensures IndexOf(stride, x0, y0) == IndexOf(stride, x1, y1) <==> x0 == x1 && y0 == y1
  {
    if y0 < y1 {
      RowsFollow(stride, x0, y0, x1, y1);
    } else if y1 < y0 {
      RowsFollow(stride, x1, y1, x0, y0);
    }
  }

  /** Every index is the index of a cell. */
  lemma IndexSplits(stride: nat, rows: nat, i: nat)
    requires 0 < stride && i < stride * rows
    ensures 0 <= i % stride < stride && 0 <= i / stride < rows
    ensures IndexOf(stride, i % stride, i / stride) == i
  {
    if rows <= i / stride {
      MulMonotone(rows, i / stride, stride);
    }
  }

  ghost predicate Sized(p: Plane, width: nat, height: nat, data: seq<u8>) {
    |data| == Stride(p, width) * Rows(p, height)
  }

  function Cell(p: Plane, width: nat, height: nat, data: seq<u8>, x: int, y: int): u8
    requires Sized(p, width, height, data) && HasCell(p, width, height, x, y)
  {
    IndexInBounds(Stride(p, width), Rows(p, height), x, y);
    data[IndexOf(Stride(p, width), x, y)]
  }

  ghost predicate SameCells(p: Plane, width: nat, height: nat, a: seq<u8>, b: seq<u8>)
    requires Sized(p, width, height, a) && Sized(p, width, height, b)
  {
    forall x: int, y: int :: HasCell(p, width, height, x, y) ==>
      Cell(p, width, height, a, x, y) == Cell(p, width, height, b, x, y)
  }

  /** A plane is determined by its cells. */
  lemma CellsDeterminePlane(p: Plane, width: nat, height: nat, a: seq<u8>, b: seq<u8>)
    requires Sized(p, width, height, a) && Sized(p, width, height, b)
    requires SameCells(p, width, height, a, b)
    ensures a == b
  {
    var stride := Stride(p, width);
    forall i | 0 <= i < |a|
      ensures a[i] == b[i]
    {
      IndexSplits(stride, Rows(p, height), i);
      assert HasCell(p, width, height, i % stride, i / stride);
      assert Cell(p, width, height, a, i % stride, i / stride) == Cell(p, width, height, b, i % stride, i / stride);
    }
  }

  lemma StoreCell(p: Plane, width: nat, height: nat, data: seq<u8>, x: int, y: int, v: u8, x': int, y': int)
    requires Sized(p, width, height, data)
    requires HasCell(p, width, height, x, y) && HasCell(p, width, height, x', y')
    ensures 0 <= IndexOf(Stride(p, width), x, y) < |data|
    ensures Sized(p, width, height, data[IndexOf(Stride(p, width), x, y) := v])
    ensures Cell(p, width, height, data[IndexOf(Stride(p, width), x, y) := v], x', y') ==
            if x == x' && y == y' then v else Cell(p, width, height, data, x', y')
  {
    IndexInBounds(Stride(p, width), Rows(p, height), x, y);
    IndexInBounds(Stride(p, width), Rows(p, height), x', y');
    IndexIsInjective(Stride(p, width), x, y, x', y');
  }

  // ----- repainting a part of a plane

  /** The home pixel of the cell is inside one of the regions. */
  ghost predicate CellIn(p: Plane, width: nat, regions: seq<Region>, x: int, y: int) {
    Covers(regions, HomeX(p, width, x), HomeY(p, y))
  }

  /** `after` is `before` with exactly the cells of `regions` taken from `source`. */
  ghost predicate Repainted(p: Plane, width: nat, height: nat, before: seq<u8>, source: seq<u8>,
                            regions: seq<Region>, after: seq<u8>)
  {
    && Sized(p, width, height, before) && Sized(p, width, height, source) && Sized(p, width, height, after)
    && forall x: int, y: int :: HasCell(p, width, height, x, y) ==>
         Cell(p, width, height, after, x, y) ==
         if CellIn(p, width, regions, x, y) then Cell(p, width, height, source, x, y)
         else Cell(p, width, height, before, x, y)
  }

  lemma CoversConcat(a: seq<Region>, b: seq<Region>, px: int, py: int)
    ensures Covers(a + b, px, py) <==> Covers(a, px, py) || Covers(b, px, py)
  {
    if Covers(a, px, py) {
      var i :| 0 <= i < |a| && a[i].Has(px, py);
      assert (a + b)[i].Has(px, py);
    }
    if Covers(b, px, py) {
      var i :| 0 <= i < |b| && b[i].Has(px, py);
      assert (a + b)[|a| + i].Has(px, py);
    }
  }

  lemma RepaintTwice(p: Plane, width: nat, height: nat, a: seq<u8>, source: seq<u8>,
                     first: seq<Region>, b: seq<u8>, second: seq<Region>, c: seq<u8>)
    requires Repainted(p, width, height, a, source, first, b)
    requires Repainted(p, width, height, b, source, second, c)
    ensures Repainted(p, width, height, a, source, first + second, c)
  {
    forall x: int, y: int | HasCell(p, width, height, x, y)
      ensures CellIn(p, width, first + second, x, y) <==>
              CellIn(p, width, first, x, y) || CellIn(p, width, second, x, y)
    {
      CoversConcat(first, second, HomeX(p, width, x), HomeY(p, y));
    }
  }

  // ----- both pictures

  datatype Yuv420 = Yuv420(y: seq<u8>, u: seq<u8>, v: seq<u8>)

  /** The main and the auxiliary picture. */
  datatype Planes = Planes(main: Yuv420, aux: Yuv420) {
    function Get(p: Plane): seq<u8> {
      match p
      case Y444 => main.y
      case MainU => main.u
      case MainV => main.v
      case AuxY => aux.y
      case AuxU => aux.u
      case AuxV => aux.v
    }
  }

  ghost predicate AllRepainted(width: nat, height: nat, before: Planes, source: Planes,
                               regions: seq<Region>, after: Planes)
  {
    forall p: Plane :: Repainted(p, width, height, before.Get(p), source.Get(p), regions, after.Get(p))
  }

  ghost predicate AllSized(width: nat, height: nat, planes: Planes) {
    forall p: Plane :: Sized(p, width, height, planes.Get(p))
  }

  lemma RepaintAllTwice(width: nat, height: nat, a: Planes, source: Planes,
                        first: seq<Region>, b: Planes, second: seq<Region>, c: Planes)
    requires AllRepainted(width, height, a, source, first, b)
    requires AllRepainted(width, height, b, source, second, c)
    ensures AllRepainted(width, height, a, source, first + second, c)
  {
    forall p: Plane
      ensures Repainted(p, width, height, a.Get(p), source.Get(p), first + second, c.Get(p))
    {
      assert Repainted(p, width, height, a.Get(p), source.Get(p), first, b.Get(p));
      assert Repainted(p, width, height, b.Get(p), source.Get(p), second, c.Get(p));
      RepaintTwice(p, width, height, a.Get(p), source.Get(p), first, b.Get(p), second, c.Get(p));
    }
  }

  /** Only the pixels a list covers matter. */
  lemma SameCoverSameRepaint(width: nat, height: nat, before: Planes, source: Planes,
                             first: seq<Region>, second: seq<Region>, after: Planes)
    requires AllRepainted(width, height, before, source, first, after)
    requires forall px: int, py: int :: Covers(first, px, py) <==> Covers(second, px, py)
    ensures AllRepainted(width, height, before, source, second, after)
  {
    forall p: Plane
      ensures Repainted(p, width, height, before.Get(p), source.Get(p), second, after.Get(p))
    {
      assert Repainted(p, width, height, before.Get(p), source.Get(p), first, after.Get(p));
      forall x: int, y: int | HasCell(p, width, height, x, y)
        ensures CellIn(p, width, first, x, y) <==> CellIn(p, width, second, x, y)
      {
      }
    }
  }

  lemma RepaintNothing(width: nat, height: nat, planes: Planes, source: Planes)
    requires AllSized(width, height, planes) && AllSized(width, height, source)
    ensures AllRepainted(width, height, planes, source, [], planes)
  {
    forall p: Plane
      ensures Repainted(p, width, height, planes.Get(p), source.Get(p), [], planes.Get(p))
    {
      assert Sized(p, width, height, planes.Get(p)) && Sized(p, width, height, source.Get(p));
      forall x: int, y: int | HasCell(p, width, height, x, y)
        ensures !CellIn(p, width, [], x, y)
      {
      }
    }
  }
}

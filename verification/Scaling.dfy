/**
 Preparing a captured frame for presentation (src/capture/scale.rs): black bars, and inside the
 visible rectangle an area average of the source.
 */
module Scaling {
  import opened Arithmetic
  import opened Regions
  import opened Damage
  import G = Geometry

  // ----- what the scaler computes

  ghost function RowSum(data: seq<u8>, s: Shape, c: nat, x0: nat, x1: nat, y: nat): nat
    requires Fits(data, s) && c < 4 && x0 <= x1 <= s.width && y < s.height
    decreases x1
  {
    if x0 == x1 then 0 else RowSum(data, s, c, x0, x1 - 1, y) + Pixel(data, s, x1 - 1, y)[c]
  }

  ghost function BoxSum(data: seq<u8>, s: Shape, c: nat, x0: nat, x1: nat, y0: nat, y1: nat): nat
    requires Fits(data, s) && c < 4 && x0 <= x1 <= s.width && y0 <= y1 <= s.height
    decreases y1
  {
    if y0 == y1 then 0 else BoxSum(data, s, c, x0, x1, y0, y1 - 1) + RowSum(data, s, c, x0, x1, y1 - 1)
  }

  /** No whole number is closer to sum / count, and one that is as close is smaller. */
  ghost predicate Nearest(average: nat, sum: nat, count: nat) {
    2 * sum < 2 * (average * count) + count && 2 * (average * count) <= 2 * sum + count
  }

  lemma AverageIsNearest(sum: nat, count: nat)
    requires count > 0
    ensures Nearest((sum + count / 2) / count, sum, count)
  {
    DivBounds(sum + count / 2, count);
    var average := (sum + count / 2) / count;
    assert (average + 1) * count == average * count + count;
  }

  /** Rounded average; ties round up. */
  function Average(sum: nat, count: nat): (average: nat)
    requires count > 0
    ensures Nearest(average, sum, count)
  {
    AverageIsNearest(sum, count);
    (sum + count / 2) / count
  }

  lemma {:induction false} RowSumBound(data: seq<u8>, s: Shape, c: nat, x0: nat, x1: nat, y: nat)
    requires Fits(data, s) && c < 4 && x0 <= x1 <= s.width && y < s.height
    ensures RowSum(data, s, c, x0, x1, y) <= 255 * (x1 - x0)
    decreases x1
  {
    if x0 == x1 {
    } else {
      RowSumBound(data, s, c, x0, x1 - 1, y);
    }
  }

  lemma {:induction false} BoxSumBound(data: seq<u8>, s: Shape, c: nat, x0: nat, x1: nat, y0: nat, y1: nat)
    requires Fits(data, s) && c < 4 && x0 <= x1 <= s.width && y0 <= y1 <= s.height
    ensures BoxSum(data, s, c, x0, x1, y0, y1) <= 255 * ((y1 - y0) * (x1 - x0))
    decreases y1
  {
    if y0 == y1 {
    } else {
      BoxSumBound(data, s, c, x0, x1, y0, y1 - 1);
      RowSumBound(data, s, c, x0, x1, y1 - 1);
      assert (y1 - y0) * (x1 - x0) == (y1 - 1 - y0) * (x1 - x0) + (x1 - x0);
    }
  }

  lemma AverageIsByte(sum: nat, count: nat)
    requires count > 0 && sum <= 255 * count
    ensures Average(sum, count) < 256
  {
    AtMostQuotient(256, sum + count / 2, count);
  }

  /** The averaging box of a visible presentation pixel, in source coordinates. */
  datatype Box = Box(x0: nat, x1: nat, y0: nat, y1: nat) {
    predicate Has(x: int, y: int) { x0 <= x < x1 && y0 <= y < y1 }

    predicate In(s: Shape) { x0 < x1 <= s.width && y0 < y1 <= s.height }
  }

  /** The source layout belongs to the geometry's source size. */
  ghost predicate SourceOf(s: Shape, g: G.PresentationGeometry) {
    s.Valid() && g.Valid() && s.width == g.source.width && s.height == g.source.height
  }

  function BoxOf(g: G.PresentationGeometry, px: int, py: int): Box
    requires g.visible.Has(px, py)
  {
    Box(G.BoxStart(px - g.visible.x, g.visible.width, g.source.width),
        G.BoxEnd(px - g.visible.x, g.visible.width, g.source.width),
        G.BoxStart(py - g.visible.y, g.visible.height, g.source.height),
        G.BoxEnd(py - g.visible.y, g.visible.height, g.source.height))
  }

  lemma BoxInSource(s: Shape, g: G.PresentationGeometry, px: int, py: int)
    requires SourceOf(s, g) && g.visible.Has(px, py)
    ensures BoxOf(g, px, py).In(s)
  {
    G.BoxNonEmpty(px - g.visible.x, g.visible.width, g.source.width);
    G.BoxNonEmpty(py - g.visible.y, g.visible.height, g.source.height);
  }

  /** The average of one channel over a box. */
  ghost function BoxAverage(data: seq<u8>, s: Shape, box: Box, c: nat): u8
    requires Fits(data, s) && box.In(s) && c < 4
  {
    BoxSumBound(data, s, c, box.x0, box.x1, box.y0, box.y1);
    var count := (box.y1 - box.y0) * (box.x1 - box.x0);
    AverageIsByte(BoxSum(data, s, c, box.x0, box.x1, box.y0, box.y1), count);
    Average(BoxSum(data, s, c, box.x0, box.x1, box.y0, box.y1), count)
  }

  /** Black is opaque: alpha, wherever the format has it, is full, and everything else is nothing. */
  function BlackPixel(format: PixelFormat): (p: seq<u8>)
    ensures |p| == 4 && forall k :: 0 <= k < 4 ==> p[k] == if Channels(format)[k] == 'A' then 255 else 0
  {
    match format
    case ARgb32 => [255, 0, 0, 0]
    case ABgr32 => [255, 0, 0, 0]
    case BgrA32 => [0, 0, 0, 255]
    case RgbA32 => [0, 0, 0, 255]
    case _ => [0, 0, 0, 0]
  }

  /** What a presentation pixel must show. */
  ghost function PresentationPixel(data: seq<u8>, s: Shape, g: G.PresentationGeometry, format: PixelFormat, px: int, py: int): (p: seq<u8>)
    requires SourceOf(s, g) && Fits(data, s)
    ensures |p| == 4
  {
    if g.visible.Has(px, py) then
      BoxInSource(s, g, px, py);
      var box := BoxOf(g, px, py);
      [BoxAverage(data, s, box, 0), BoxAverage(data, s, box, 1), BoxAverage(data, s, box, 2), BoxAverage(data, s, box, 3)]
    else BlackPixel(format)
  }

  // ----- a change outside the box does not show

  lemma {:induction false} SameRowSum(a: seq<u8>, b: seq<u8>, s: Shape, c: nat, x0: nat, x1: nat, y: nat)
    requires Fits(a, s) && Fits(b, s) && c < 4 && x0 <= x1 <= s.width && y < s.height
    requires forall x: int :: x0 <= x < x1 ==> SamePixel(a, b, s, x, y)
    ensures RowSum(a, s, c, x0, x1, y) == RowSum(b, s, c, x0, x1, y)
    decreases x1
  {
    if x0 == x1 {
    } else {
      SameRowSum(a, b, s, c, x0, x1 - 1, y);
      assert SamePixel(a, b, s, x1 - 1, y);
    }
  }

  lemma {:induction false} SameBoxSum(a: seq<u8>, b: seq<u8>, s: Shape, c: nat, x0: nat, x1: nat, y0: nat, y1: nat)
    requires Fits(a, s) && Fits(b, s) && c < 4 && x0 <= x1 <= s.width && y0 <= y1 <= s.height
    requires forall x: int, y: int :: x0 <= x < x1 && y0 <= y < y1 ==> SamePixel(a, b, s, x, y)
    ensures BoxSum(a, s, c, x0, x1, y0, y1) == BoxSum(b, s, c, x0, x1, y0, y1)
    decreases y1
  {
    if y0 == y1 {
    } else {
      SameBoxSum(a, b, s, c, x0, x1, y0, y1 - 1);
      SameRowSum(a, b, s, c, x0, x1, y1 - 1);
    }
  }

  /** Two sources that agree on a pixel's box give that pixel the same value. */
  lemma SameBoxSamePixel(a: seq<u8>, b: seq<u8>, s: Shape, g: G.PresentationGeometry, format: PixelFormat, px: int, py: int)
    requires SourceOf(s, g) && Fits(a, s) && Fits(b, s)
    requires g.visible.Has(px, py) ==> BoxOf(g, px, py).In(s)
    requires g.visible.Has(px, py) ==> forall x: int, y: int :: BoxOf(g, px, py).Has(x, y) ==> SamePixel(a, b, s, x, y)
    ensures PresentationPixel(a, s, g, format, px, py) == PresentationPixel(b, s, g, format, px, py)
  {
    if g.visible.Has(px, py) {
      var box := BoxOf(g, px, py);
      forall c: nat | c < 4
        ensures BoxSum(a, s, c, box.x0, box.x1, box.y0, box.y1) == BoxSum(b, s, c, box.x0, box.x1, box.y0, box.y1)
      {
        SameBoxSum(a, b, s, c, box.x0, box.x1, box.y0, box.y1);
      }
    }
  }

  /**
   Scaling respects damage: where two source frames agree outside the source damage, what they
   present agrees outside the mapped damage, whatever the two sizes are.
   */
  lemma ScalingRespectsDamage(a: seq<u8>, b: seq<u8>, s: Shape, g: G.PresentationGeometry, format: PixelFormat,
                              damage: seq<Region>, px: nat, py: nat)
    requires SourceOf(s, g) && Fits(a, s) && Fits(b, s)
    requires g.presentation.width <= I32_MAX && g.presentation.height <= I32_MAX
    requires forall x: int, y: int :: s.HasPixel(x, y) && !Covers(damage, x, y) ==> SamePixel(a, b, s, x, y)
    requires !Covers(g.MapSourceDamage(damage), px, py)
    ensures PresentationPixel(a, s, g, format, px, py) == PresentationPixel(b, s, g, format, px, py)
  {
    if g.visible.Has(px, py) {
      BoxInSource(s, g, px, py);
      var box := BoxOf(g, px, py);
      forall x: int, y: int | box.Has(x, y)
        ensures SamePixel(a, b, s, x, y)
      {
        if Covers(damage, x, y) {
          G.BoxInMappedDamage(g, damage, x, y, px, py);
        }
      }
    }
    SameBoxSamePixel(a, b, s, g, format, px, py);
  }

  // ----- the loops

  /** One channel of one row of an averaging box. */
  method SumRow(data: seq<u8>, s: Shape, x0: nat, x1: nat, sy: nat, c: nat) returns (sum: nat)
    requires Fits(data, s) && x0 <= x1 <= s.width && sy < s.height && c < 4
    ensures sum == RowSum(data, s, c, x0, x1, sy)
  {
    sum := 0;
    var row := sy * s.stride;
    var sx := x0;
    while sx < x1
      invariant x0 <= sx <= x1
      invariant sum == RowSum(data, s, c, x0, sx, sy)
    {
      OffsetInBounds(s, sx, sy);
      sum := sum + data[row + sx * 4 + c];
      sx := sx + 1;
    }
  }

  /** One channel of one averaging box. */
  method SumBox(data: seq<u8>, s: Shape, box: Box, c: nat) returns (sum: nat)
    requires Fits(data, s) && box.In(s) && c < 4
    ensures sum == BoxSum(data, s, c, box.x0, box.x1, box.y0, box.y1)
  {
    sum := 0;
    var sy := box.y0;
    while sy < box.y1
      invariant box.y0 <= sy <= box.y1
      invariant sum == BoxSum(data, s, c, box.x0, box.x1, box.y0, sy)
    {
      var row := SumRow(data, s, box.x0, box.x1, sy, c);
      sum := sum + row;
      sy := sy + 1;
    }
  }

  method AverageBox(data: seq<u8>, s: Shape, box: Box, c: nat) returns (v: u8)
    requires Fits(data, s) && box.In(s) && c < 4
    ensures v == BoxAverage(data, s, box, c)
    ensures Nearest(v, BoxSum(data, s, c, box.x0, box.x1, box.y0, box.y1), (box.y1 - box.y0) * (box.x1 - box.x0))
  {
    var sum := SumBox(data, s, box, c);
    var count := (box.y1 - box.y0) * (box.x1 - box.x0);
    BoxSumBound(data, s, c, box.x0, box.x1, box.y0, box.y1);
    MulMonotone(1, box.y1 - box.y0, box.x1 - box.x0);
    AverageIsByte(sum, count);
    v := (sum + count / 2) / count;
  }

  /** Distinct pixels occupy distinct bytes. */
  lemma PixelsApart(t: Shape, x0: int, y0: int, x1: int, y1: int)
    requires t.Valid() && t.HasPixel(x0, y0) && t.HasPixel(x1, y1) && (x0 != x1 || y0 != y1)
    ensures Offset(t, x0, y0) + 4 <= Offset(t, x1, y1) || Offset(t, x1, y1) + 4 <= Offset(t, x0, y0)
  {
    OffsetInBounds(t, x0, y0);
    OffsetInBounds(t, x1, y1);
    if y0 < y1 {
      RowsApart(t, y0, y1);
    } else if y1 < y0 {
      RowsApart(t, y1, y0);
    }
  }

  /** Store the four bytes of one pixel; no other pixel changes. */
  method WritePixel(output: array<u8>, t: Shape, px: nat, py: nat, p: seq<u8>)
    requires t.Valid() && output.Length == t.stride * t.height && t.HasPixel(px, py) && |p| == 4
    modifies output
    ensures Pixel(output[..], t, px, py) == p
    ensures forall x: int, y: int :: t.HasPixel(x, y) && (x != px || y != py) ==>
              Pixel(output[..], t, x, y) == Pixel(old(output[..]), t, x, y)
  {
    OffsetInBounds(t, px, py);
    var o := py * t.stride + px * 4;
    output[o] := p[0];
    output[o + 1] := p[1];
    output[o + 2] := p[2];
    output[o + 3] := p[3];
    assert output[..][o..o + 4] == p;
    forall x: int, y: int | t.HasPixel(x, y) && (x != px || y != py)
      ensures Pixel(output[..], t, x, y) == Pixel(old(output[..]), t, x, y)
    {
      PixelsApart(t, x, y, px, py);
      OffsetInBounds(t, x, y);
      assert output[..][Offset(t, x, y)..Offset(t, x, y) + 4] == old(output[..])[Offset(t, x, y)..Offset(t, x, y) + 4];
    }
  }

  /** One pixel, given as four bytes, becomes black. */
  method BlackenPixel(output: array<u8>, o: nat, format: PixelFormat)
    requires o + 4 <= output.Length
    modifies output
    ensures forall i :: 0 <= i < output.Length ==>
              output[i] == if o <= i < o + 4 then BlackPixel(format)[i - o] else old(output[i])
  {
    output[o] := 0;
    output[o + 1] := 0;
    output[o + 2] := 0;
    output[o + 3] := 0;
    match format {
      case ARgb32 => output[o] := 255;
      case ABgr32 => output[o] := 255;
      case BgrA32 => output[o + 3] := 255;
      case RgbA32 => output[o + 3] := 255;
      case _ =>
    }
  }

  /** Every whole pixel becomes black. */
  method FillBlackBars(output: array<u8>, format: PixelFormat)
    modifies output
    ensures forall k :: 0 <= k < output.Length / 4 ==> output[..][4 * k..4 * k + 4] == BlackPixel(format)
  {
    var k := 0;
    while k < output.Length / 4
      invariant 0 <= k <= output.Length / 4
      invariant forall j :: 0 <= j < k ==> output[..][4 * j..4 * j + 4] == BlackPixel(format)
    {
      ghost var before := output[..];
      BlackenPixel(output, 4 * k, format);
      BlackenedSoFar(before, output[..], format, k);
      k := k + 1;
    }
  }

  lemma BlackenedSoFar(before: seq<u8>, after: seq<u8>, format: PixelFormat, k: nat)
    requires 4 * k + 4 <= |before| == |after|
    requires forall i :: 0 <= i < |after| ==> after[i] == if 4 * k <= i < 4 * k + 4 then BlackPixel(format)[i - 4 * k] else before[i]
    requires forall j :: 0 <= j < k ==> before[4 * j..4 * j + 4] == BlackPixel(format)
    ensures forall j :: 0 <= j < k + 1 ==> after[4 * j..4 * j + 4] == BlackPixel(format)
  {
    forall j | 0 <= j < k + 1
      ensures after[4 * j..4 * j + 4] == BlackPixel(format)
    {
      if j < k {
        assert after[4 * j..4 * j + 4] == before[4 * j..4 * j + 4];
      }
    }
  }

  /** Inside the visible rectangle, the rows above `py` and the pixels before `px` are done. */
  predicate Done(g: G.PresentationGeometry, px: int, py: int, x: int, y: int) {
    g.visible.Has(x, y) && (y < py || (y == py && x < px))
  }

  /** The done pixels show the scaled source; the others are still what they were. */
  ghost predicate Partly(out: seq<u8>, before: seq<u8>, t: Shape, data: seq<u8>, s: Shape, g: G.PresentationGeometry,
                         format: PixelFormat, px: int, py: int)
    requires Fits(before, t) && SourceOf(s, g) && Fits(data, s)
  {
    && |out| == |before|
    && forall x: int, y: int :: t.HasPixel(x, y) ==>
         Pixel(out, t, x, y) == if Done(g, px, py, x, y) then PresentationPixel(data, s, g, format, x, y)
                                else Pixel(before, t, x, y)
  }

  method ScaleOnePixel(data: seq<u8>, s: Shape, output: array<u8>, t: Shape, g: G.PresentationGeometry,
                       ghost format: PixelFormat, ghost before: seq<u8>, px: nat, py: nat)
    requires SourceOf(s, g) && Fits(data, s) && g.visible.Has(px, py)
    requires t == Shape(g.presentation.width, g.presentation.height, 4 * g.presentation.width) && t.Valid()
    requires output.Length == t.stride * t.height && Fits(before, t)
    requires Partly(output[..], before, t, data, s, g, format, px, py)
    modifies output
    ensures Partly(output[..], before, t, data, s, g, format, px + 1, py)
  {
    G.VisibleFits(g);
    BoxInSource(s, g, px, py);
    var box := BoxOf(g, px, py);
    var p0 := AverageBox(data, s, box, 0);
    var p1 := AverageBox(data, s, box, 1);
    var p2 := AverageBox(data, s, box, 2);
    var p3 := AverageBox(data, s, box, 3);
    WritePixel(output, t, px, py, [p0, p1, p2, p3]);
  }

  method CopyScaledVisibleRect(data: seq<u8>, s: Shape, output: array<u8>, t: Shape, g: G.PresentationGeometry, ghost format: PixelFormat)
    requires SourceOf(s, g) && Fits(data, s)
    requires t == Shape(g.presentation.width, g.presentation.height, 4 * g.presentation.width) && t.Valid()
    requires output.Length == t.stride * t.height
    modifies output
    ensures forall x: int, y: int :: t.HasPixel(x, y) ==>
              Pixel(output[..], t, x, y) ==
              if g.visible.Has(x, y) then PresentationPixel(data, s, g, format, x, y) else Pixel(old(output[..]), t, x, y)
  {
    ghost var before := output[..];
    G.VisibleFits(g);
    var py := g.visible.y;
    while py < g.visible.y + g.visible.height
      invariant g.visible.y <= py <= g.visible.y + g.visible.height
      invariant Partly(output[..], before, t, data, s, g, format, g.visible.x, py)
    {
      var px := g.visible.x;
      while px < g.visible.x + g.visible.width
        invariant g.visible.x <= px <= g.visible.x + g.visible.width
        invariant Partly(output[..], before, t, data, s, g, format, px, py)
      {
        ScaleOnePixel(data, s, output, t, g, format, before, px, py);
        px := px + 1;
      }
      RowDone(output[..], before, t, data, s, g, format, py);
      py := py + 1;
    }
  }

  lemma RowDone(out: seq<u8>, before: seq<u8>, t: Shape, data: seq<u8>, s: Shape, g: G.PresentationGeometry,
                format: PixelFormat, py: nat)
    requires Fits(before, t) && SourceOf(s, g) && Fits(data, s)
    requires Partly(out, before, t, data, s, g, format, g.visible.x + g.visible.width, py)
    ensures Partly(out, before, t, data, s, g, format, g.visible.x, py + 1)
  {
    forall x: int, y: int | t.HasPixel(x, y)
      ensures Done(g, g.visible.x, py + 1, x, y) <==> Done(g, g.visible.x + g.visible.width, py, x, y)
    {
    }
  }

  // ----- the whole frame

  datatype PreparedFrame = PreparedFrame(data: seq<u8>, shape: Shape, damage: seq<Region>, generation: nat)

  datatype Result = Ok(frame: PreparedFrame) | Err

  /** What the input layer recorded about the output: its presentation geometry and generation. */
  datatype LayoutSnapshot = LayoutSnapshot(geometry: G.PresentationGeometry, generation: nat)

  /** The recorded geometry, or a fresh one when the captured size is another. */
  function GeometryFor(source: G.Size, snapshot: LayoutSnapshot): G.PresentationGeometry
    requires source.Valid() && snapshot.geometry.presentation.Valid()
  {
    if snapshot.geometry.source == source then snapshot.geometry else G.New(source, snapshot.geometry.presentation)
  }

  /** Buffer and lengths are large enough, and the scaled frame's length fits 32 bits. */
  predicate Preparable(source: G.Size, stride: nat, length: nat, snapshot: LayoutSnapshot)
    requires source.Valid() && snapshot.geometry.presentation.Valid()
  {
    var g := GeometryFor(source, snapshot);
    && stride * source.height <= length
    && if g.IsIdentity() then stride * source.height <= G.U32_MAX
       else 4 * source.width <= stride && 4 * g.presentation.width * g.presentation.height <= G.U32_MAX
  }

  /** Every pixel of the prepared frame is what presenting `data` must show. */
  ghost predicate Presents(frame: PreparedFrame, data: seq<u8>, s: Shape, g: G.PresentationGeometry, format: PixelFormat)
    requires SourceOf(s, g) && Fits(data, s)
  {
    && frame.shape.width == g.presentation.width && frame.shape.height == g.presentation.height
    && Fits(frame.data, frame.shape)
    && forall x: int, y: int :: frame.shape.HasPixel(x, y) ==>
         Pixel(frame.data, frame.shape, x, y) == PresentationPixel(data, s, g, format, x, y)
  }

  /** Averaging a single pixel changes nothing. */
  lemma UnitBoxAverage(data: seq<u8>, s: Shape, x: nat, y: nat, c: nat)
    requires Fits(data, s) && s.HasPixel(x, y) && c < 4
    ensures BoxAverage(data, s, Box(x, x + 1, y, y + 1), c) == Pixel(data, s, x, y)[c]
  {
    assert RowSum(data, s, c, x, x + 1, y) == RowSum(data, s, c, x, x, y) + Pixel(data, s, x, y)[c];
    assert BoxSum(data, s, c, x, x + 1, y, y + 1) == BoxSum(data, s, c, x, x + 1, y, y) + RowSum(data, s, c, x, x + 1, y);
    assert (y + 1 - y) * (x + 1 - x) == 1;
  }

  /** In identity geometry every box is the pixel itself. */
  lemma IdentityShowsSource(data: seq<u8>, s: Shape, g: G.PresentationGeometry, format: PixelFormat, x: int, y: int)
    requires SourceOf(s, g) && Fits(data, s) && g.IsIdentity() && s.HasPixel(x, y)
    ensures PresentationPixel(data, s, g, format, x, y) == Pixel(data, s, x, y)
  {
    hide BoxAverage, BoxOf, Pixel, Offset, Fits, G.PresentationGeometry.IsIdentity, G.PresentationGeometry.Valid;
    IdentityBoxOf(g, x, y);
    UnitBoxAverage(data, s, x, y, 0);
    UnitBoxAverage(data, s, x, y, 1);
    UnitBoxAverage(data, s, x, y, 2);
    UnitBoxAverage(data, s, x, y, 3);
    BoxInSource(s, g, x, y);
  }

  lemma IdentityBoxOf(g: G.PresentationGeometry, x: nat, y: nat)
    requires g.IsIdentity() && x < g.source.width && y < g.source.height
    ensures g.visible.Has(x, y) && BoxOf(g, x, y) == Box(x, x + 1, y, y + 1)
  {
    IdentityBox(x, g.source.width);
    IdentityBox(y, g.source.height);
  }

  lemma IdentityBox(at: nat, extent: nat)
    requires at < extent
    ensures G.BoxStart(at, extent, extent) == at && G.BoxEnd(at, extent, extent) == at + 1
  {
    AtMostQuotient(at, at * extent, extent);
    AtMostQuotient(at + 1, at * extent, extent);
    AtMostQuotient(at + 1, (at + 1) * extent, extent);
    AtMostQuotient(at + 2, (at + 1) * extent, extent);
    assert (at + 1) * extent == at * extent + extent;
    assert (at + 2) * extent == (at + 1) * extent + extent;
  }

  /**
   `prepare_presentation_frame`.  An error is reported exactly when a size is zero, a length does not fit
   32 bits or the source buffer or its stride is too small; otherwise the frame presents the source and
   carries the mapped damage.
   */
  method PreparePresentationFrame(data: seq<u8>, width: nat, height: nat, stride: nat, format: PixelFormat,
                                  damage: seq<Region>, snapshot: LayoutSnapshot) returns (result: Result)
    requires snapshot.geometry.Valid() && width <= I32_MAX && height <= I32_MAX
    requires snapshot.geometry.presentation.width <= I32_MAX && snapshot.geometry.presentation.height <= I32_MAX
    ensures result.Ok? <==> 0 < width && 0 < height && Preparable(G.Size(width, height), stride, |data|, snapshot)
    ensures result.Ok? && 4 * width <= stride ==>
              var s := Shape(width, height, stride);
              var g := GeometryFor(G.Size(width, height), snapshot);
              && SourceOf(s, g) && Presents(result.frame, data, s, g, format)
              && result.frame.damage == g.MapSourceDamage(damage)
              && result.frame.generation == snapshot.generation
  {
    if width == 0 || height == 0 {
      return Err;
    }
    var source := G.Size(width, height);
    var geometry := GeometryFor(source, snapshot);
    var mapped := geometry.MapSourceDamage(damage);
    if geometry.IsIdentity() {
      if stride * height > G.U32_MAX || |data| < stride * height {
        return Err;
      }
      var shape := Shape(width, height, stride);
      result := Ok(PreparedFrame(data, shape, mapped, snapshot.generation));
      if 4 * width <= stride {
        forall x: int, y: int | shape.HasPixel(x, y)
          ensures PresentationPixel(data, shape, geometry, format, x, y) == Pixel(data, shape, x, y)
        {
          IdentityShowsSource(data, shape, geometry, format, x, y);
        }
      }
      return;
    }
    result := PrepareScaled(data, Shape(width, height, stride), format, mapped, geometry, snapshot.generation);
  }

  /** The branch that scales: a fresh buffer, black, with the visible rectangle filled in. */
  method PrepareScaled(data: seq<u8>, s: Shape, format: PixelFormat, mapped: seq<Region>, g: G.PresentationGeometry, generation: nat)
    returns (result: Result)
    requires g.Valid() && s.width == g.source.width && s.height == g.source.height
    requires s.width <= I32_MAX && s.height <= I32_MAX
    requires g.presentation.width <= I32_MAX && g.presentation.height <= I32_MAX
    ensures result.Ok? <==> s.stride * s.height <= |data| && 4 * s.width <= s.stride &&
                            4 * g.presentation.width * g.presentation.height <= G.U32_MAX
    ensures result.Ok? ==> SourceOf(s, g) && Presents(result.frame, data, s, g, format) &&
                           result.frame.damage == mapped && result.frame.generation == generation
  {
    var stride := g.presentation.width * 4;
    if stride > G.U32_MAX || stride * g.presentation.height > G.U32_MAX {
      MulMonotone(1, g.presentation.height, stride);
      return Err;
    }
    if |data| < s.stride * s.height || s.stride < s.width * 4 {
      return Err;
    }
    var scaled := ScaleIntoBlack(data, s, format, g);
    result := Ok(PreparedFrame(scaled, Shape(g.presentation.width, g.presentation.height, stride), mapped, generation));
  }

  method ScaleIntoBlack(data: seq<u8>, s: Shape, format: PixelFormat, g: G.PresentationGeometry) returns (scaled: seq<u8>)
    requires SourceOf(s, g) && Fits(data, s)
    requires g.presentation.width <= I32_MAX && g.presentation.height <= I32_MAX
    ensures var t := Shape(g.presentation.width, g.presentation.height, 4 * g.presentation.width);
            Fits(scaled, t) && forall x: int, y: int :: t.HasPixel(x, y) ==>
              Pixel(scaled, t, x, y) == PresentationPixel(data, s, g, format, x, y)
  {
    var t := Shape(g.presentation.width, g.presentation.height, 4 * g.presentation.width);
    MulNonNegative(t.stride, t.height);
    var output := new u8[t.stride * t.height];
    FillBlackBars(output, format);
    ghost var black := output[..];
    BlackPicture(black, t, format);
    hide PresentationPixel, BlackPixel, Pixel, SourceOf;
    CopyScaledVisibleRect(data, s, output, t, g, format);
    scaled := output[..];
  }

  lemma BlackPicture(black: seq<u8>, t: Shape, format: PixelFormat)
    requires t.Valid() && t.stride == 4 * t.width && |black| == t.stride * t.height
    requires forall k :: 0 <= k < |black| / 4 ==> black[4 * k..4 * k + 4] == BlackPixel(format)
    ensures Fits(black, t) && forall x: int, y: int :: t.HasPixel(x, y) ==> Pixel(black, t, x, y) == BlackPixel(format)
  {
    forall x: int, y: int | t.HasPixel(x, y)
      ensures Fits(black, t) && Pixel(black, t, x, y) == BlackPixel(format)
    {
      BlackEverywhere(black, t, format, x, y);
    }
  }

  lemma BlackEverywhere(black: seq<u8>, t: Shape, format: PixelFormat, x: int, y: int)
    requires t.Valid() && t.stride == 4 * t.width && |black| == t.stride * t.height && t.HasPixel(x, y)
    requires forall k :: 0 <= k < |black| / 4 ==> black[4 * k..4 * k + 4] == BlackPixel(format)
    ensures Pixel(black, t, x, y) == BlackPixel(format)
  {
    var k := y * t.width + x;
    RowFits(y, t.height, t.width);
    FourTimes(y, t.width, x);
    FourTimes(t.height, t.width, 0);
    assert |black| == 4 * (t.height * t.width) && 0 <= k < |black| / 4;
    assert Offset(t, x, y) == 4 * k;
  }

  lemma FourTimes(y: nat, width: nat, x: nat)
    ensures y * (4 * width) + x * 4 == 4 * (y * width + x)
  {
  }
}

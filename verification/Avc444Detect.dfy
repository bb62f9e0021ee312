/**
 What changed since the client was last served, in YUV (src/egfx/avc444.rs).

 Detection and the update of a reference work on one 4:2:0 picture, main or auxiliary, with
 regions in the coordinates of its luma plane.  A half-size plane's cell belongs to a region when
 any pixel of its 2 by 2 block does.
 */
module Avc444Detect {
  import opened Arithmetic
  import opened Avc444Layout
  import opened Avc444Regions
  import opened Damage
  import opened Regions

  /** The plane of a 4:2:0 picture that plays the part of `p`. */
  function Part(picture: Yuv420, p: Plane): seq<u8> {
    if p.Y444? || p.AuxY? then picture.y else if p.MainU? || p.AuxU? then picture.u else picture.v
  }

  ghost predicate PictureSized(width: nat, height: nat, picture: Yuv420) {
    forall p: Plane :: Sized(p, width, height, Part(picture, p))
  }

  /** The cell exists and holds different values in the two pictures. */
  ghost predicate CellDiffers(width: nat, height: nat, a: Yuv420, b: Yuv420, p: Plane, x: int, y: int)
    requires PictureSized(width, height, a) && PictureSized(width, height, b)
  {
    assert Sized(p, width, height, Part(a, p)) && Sized(p, width, height, Part(b, p));
    HasCell(p, width, height, x, y) &&
    Cell(p, width, height, Part(a, p), x, y) != Cell(p, width, height, Part(b, p), x, y)
  }

  /** Some cell of the region differs. */
  ghost predicate RegionDiffers(width: nat, height: nat, a: Yuv420, b: Yuv420, r: Region)
    requires PictureSized(width, height, a) && PictureSized(width, height, b)
  {
    exists p: Plane, x: int, y: int :: RegionHasCell(p, r, x, y) && CellDiffers(width, height, a, b, p, x, y)
  }

  // ----- comparing one tile

  /** Some cell in a rectangle of one plane differs. */
  ghost predicate SpanDiffers(width: nat, height: nat, a: Yuv420, b: Yuv420, p: Plane, first: int, end: int, top: int, bottom: int)
    requires PictureSized(width, height, a) && PictureSized(width, height, b)
  {
    exists x: int, y: int :: first <= x < end && top <= y < bottom && CellDiffers(width, height, a, b, p, x, y)
  }

  lemma RowSlice(p: Plane, width: nat, height: nat, y: int)
    requires 0 < Stride(p, width) && 0 <= y < Rows(p, height)
    ensures 0 <= y * Stride(p, width) && y * Stride(p, width) + Stride(p, width) <= Stride(p, width) * Rows(p, height)
  {
    hide Stride, Rows;
    RowFits(y, Rows(p, height), Stride(p, width));
  }

  lemma SliceCell(p: Plane, width: nat, height: nat, data: seq<u8>, first: int, end: int, y: int, x: int)
    requires Sized(p, width, height, data)
    requires 0 <= first <= x < end <= Stride(p, width) && 0 <= y < Rows(p, height)
    ensures var start := y * Stride(p, width);
            && 0 <= start + first <= start + end <= |data|
            && data[start + first..start + end][x - first] == Cell(p, width, height, data, x, y)
  {
    RowSlice(p, width, height, y);
  }

  /** Some cell in a stretch of one row differs. */
  ghost predicate RowSpanDiffers(p: Plane, width: nat, height: nat, a: seq<u8>, b: seq<u8>, first: int, end: int, y: int)
    requires Sized(p, width, height, a) && Sized(p, width, height, b)
  {
    exists x: int :: first <= x < end && HasCell(p, width, height, x, y) &&
                     Cell(p, width, height, a, x, y) != Cell(p, width, height, b, x, y)
  }

  /** A stretch of one row: its slices are equal exactly when all its cells are. */
  lemma SlicesDecideRow(p: Plane, width: nat, height: nat, a: seq<u8>, b: seq<u8>, first: int, end: int, y: int)
    requires Sized(p, width, height, a) && Sized(p, width, height, b)
    requires 0 <= first <= end <= Stride(p, width) && 0 < Stride(p, width) && 0 <= y < Rows(p, height)
    ensures var start := y * Stride(p, width);
            && 0 <= start + first <= start + end <= |a| == |b|
            && (a[start + first..start + end] != b[start + first..start + end] <==>
                RowSpanDiffers(p, width, height, a, b, first, end, y))
  {
    RowSlice(p, width, height, y);
    var start := y * Stride(p, width);
    var sa, sb := a[start + first..start + end], b[start + first..start + end];
    forall x: int | first <= x < end
      ensures HasCell(p, width, height, x, y)
      ensures sa[x - first] == Cell(p, width, height, a, x, y) && sb[x - first] == Cell(p, width, height, b, x, y)
    {
      SliceCell(p, width, height, a, first, end, y, x);
      SliceCell(p, width, height, b, first, end, y, x);
    }
    hide Cell, Sized, Stride, Rows;
    if sa != sb {
      var i :| 0 <= i < |sa| && sa[i] != sb[i];
      assert sa[first + i - first] == Cell(p, width, height, a, first + i, y);
    }
  }

  lemma RowSpanIsSpan(width: nat, height: nat, a: Yuv420, b: Yuv420, p: Plane, first: int, end: int, y: int)
    requires PictureSized(width, height, a) && PictureSized(width, height, b)
    ensures Sized(p, width, height, Part(a, p)) && Sized(p, width, height, Part(b, p))
    ensures RowSpanDiffers(p, width, height, Part(a, p), Part(b, p), first, end, y) <==>
            SpanDiffers(width, height, a, b, p, first, end, y, y + 1)
  {
    hide Cell, Part;
    if RowSpanDiffers(p, width, height, Part(a, p), Part(b, p), first, end, y) {
      var x: int :| first <= x < end && HasCell(p, width, height, x, y) &&
                    Cell(p, width, height, Part(a, p), x, y) != Cell(p, width, height, Part(b, p), x, y);
      assert CellDiffers(width, height, a, b, p, x, y);
    }
  }

  /** The row loop over one plane. */
  method RowsChanged(width: nat, ghost height: nat, a: Yuv420, b: Yuv420, p: Plane, first: nat, end: nat, top: nat, bottom: nat)
    returns (changed: bool)
    requires PictureSized(width, height, a) && PictureSized(width, height, b)
    requires first <= end <= Stride(p, width) && 0 < Stride(p, width) && top <= bottom <= Rows(p, height)
    ensures changed <==> SpanDiffers(width, height, a, b, p, first, end, top, bottom)
  {
    hide PictureSized, CellDiffers, Part, Stride, Rows;
    var y := top;
    while y < bottom
      invariant top <= y <= bottom
      invariant !SpanDiffers(width, height, a, b, p, first, end, top, y)
    {
      RowSpanIsSpan(width, height, a, b, p, first, end, y);
      SlicesDecideRow(p, width, height, Part(a, p), Part(b, p), first, end, y);
      var start := y * Stride(p, width);
      if Part(a, p)[start + first..start + end] != Part(b, p)[start + first..start + end] {
        return true;
      }
      y := y + 1;
    }
    return false;
  }

  /** `yuv420_tile_changed`. */
  method TileChanged(width: nat, ghost height: nat, a: Yuv420, b: Yuv420, tile: Region) returns (changed: bool)
    requires FrameSize(width, height) && PictureSized(width, height, a) && PictureSized(width, height, b)
    requires tile.InFrame(width, height)
    ensures changed <==> RegionDiffers(width, height, a, b, tile)
  {
    PlanesDecideTile(width, height, a, b, tile);
    HalfInFrame(width, height, tile);
    hide RegionDiffers, PictureSized, SpanDiffers;
    changed := RowsChanged(width, height, a, b, Y444, tile.x, tile.x + tile.w, tile.y, tile.y + tile.h);
    if changed {
      return true;
    }
    var left, right, top, bottom := tile.x / 2, HalfUp(tile.x + tile.w), tile.y / 2, HalfUp(tile.y + tile.h);
    changed := RowsChanged(width, height, a, b, MainU, left, right, top, bottom);
    if changed {
      return true;
    }
    changed := RowsChanged(width, height, a, b, MainV, left, right, top, bottom);
  }

  lemma HalfInFrame(width: nat, height: nat, r: Region)
    requires FrameSize(width, height) && r.InFrame(width, height)
    ensures 0 <= r.x / 2 < HalfUp(r.x + r.w) <= width / 2 && 0 <= r.y / 2 < HalfUp(r.y + r.h) <= height / 2
  {
    HalvesAndQuarters(width, height);
    HalfOfSpan(r.x, r.x + r.w, width / 2);
    HalfOfSpan(r.y, r.y + r.h, height / 2);
  }

  lemma HalfOfSpan(start: int, end: int, half: int)
    requires 0 <= start < end <= 2 * half
    ensures 0 <= start / 2 < HalfUp(end) <= half
  {
  }

  /** The planes of the auxiliary picture are compared as those of the main one. */
  function MainRole(p: Plane): Plane {
    match p
    case AuxY => Y444
    case AuxU => MainU
    case AuxV => MainV
    case _ => p
  }

  lemma SameRole(width: nat, height: nat, a: Yuv420, b: Yuv420, p: Plane, r: Region, x: int, y: int)
    requires PictureSized(width, height, a) && PictureSized(width, height, b)
    ensures CellDiffers(width, height, a, b, p, x, y) == CellDiffers(width, height, a, b, MainRole(p), x, y)
    ensures RegionHasCell(p, r, x, y) == RegionHasCell(MainRole(p), r, x, y)
  {
  }

  lemma PlanesDecideTile(width: nat, height: nat, a: Yuv420, b: Yuv420, tile: Region)
    requires PictureSized(width, height, a) && PictureSized(width, height, b) && 0 < tile.w && 0 < tile.h
    ensures RegionDiffers(width, height, a, b, tile) <==>
            || SpanDiffers(width, height, a, b, Y444, tile.x, tile.x + tile.w, tile.y, tile.y + tile.h)
            || SpanDiffers(width, height, a, b, MainU, tile.x / 2, HalfUp(tile.x + tile.w), tile.y / 2, HalfUp(tile.y + tile.h))
            || SpanDiffers(width, height, a, b, MainV, tile.x / 2, HalfUp(tile.x + tile.w), tile.y / 2, HalfUp(tile.y + tile.h))
  {
    hide CellDiffers, PictureSized;
    if RegionDiffers(width, height, a, b, tile) {
      var p: Plane, x: int, y: int :| RegionHasCell(p, tile, x, y) && CellDiffers(width, height, a, b, p, x, y);
      SameRole(width, height, a, b, p, tile, x, y);
    }
    if SpanDiffers(width, height, a, b, Y444, tile.x, tile.x + tile.w, tile.y, tile.y + tile.h) {
      var x: int, y: int :| tile.Has(x, y) && CellDiffers(width, height, a, b, Y444, x, y);
      assert RegionHasCell(Y444, tile, x, y);
    }
    forall p: Plane, x: int, y: int | (p.MainU? || p.MainV?) && HalfHas(tile, x, y) && CellDiffers(width, height, a, b, p, x, y)
      ensures RegionDiffers(width, height, a, b, tile)
    {
      assert RegionHasCell(p, tile, x, y);
    }
  }

  // ----- scanning candidates

  /** All four edges are even, so that a half-size cell is either inside or outside. */
  predicate Even(r: Region) {
    r.x % 2 == 0 && (r.x + r.w) % 2 == 0 && r.y % 2 == 0 && (r.y + r.h) % 2 == 0
  }

  /** A reported tile: inside frame and candidate, at most 64 by 64, really changed, even when the candidate is. */
  ghost predicate ChangedTile(width: nat, height: nat, a: Yuv420, b: Yuv420, candidate: Region, tile: Region)
    requires PictureSized(width, height, a) && PictureSized(width, height, b)
  {
    && tile.InFrame(width, height) && Within(tile, candidate)
    && tile.w <= 64 && tile.h <= 64
    && (Even(candidate) ==> Even(tile))
    && RegionDiffers(width, height, a, b, tile)
  }

  ghost predicate AddsChangedTiles(width: nat, height: nat, a: Yuv420, b: Yuv420, candidate: Region,
                                   regions: seq<Region>, out: seq<Region>)
    requires PictureSized(width, height, a) && PictureSized(width, height, b)
  {
    && regions <= out
    && forall i :: |regions| <= i < |out| ==> ChangedTile(width, height, a, b, candidate, out[i])
  }

  /** Every differing cell of `part` is in `out`. */
  ghost predicate CoversChanges(width: nat, height: nat, a: Yuv420, b: Yuv420, part: Region, out: seq<Region>)
    requires PictureSized(width, height, a) && PictureSized(width, height, b)
  {
    forall p: Plane, x: int, y: int ::
      RegionHasCell(p, part, x, y) && CellDiffers(width, height, a, b, p, x, y) ==> RegionsHaveCell(p, out, x, y)
  }

  lemma MoreRegionsMoreCells(p: Plane, before: seq<Region>, out: seq<Region>, x: int, y: int)
    requires before <= out && RegionsHaveCell(p, before, x, y)
    ensures RegionsHaveCell(p, out, x, y)
  {
    var i :| 0 <= i < |before| && RegionHasCell(p, before[i], x, y);
    assert RegionHasCell(p, out[i], x, y);
  }

  /** Scanning one more tile, or row of tiles, extends the covered part. */
  lemma ExtendCoverage(width: nat, height: nat, a: Yuv420, b: Yuv420, part: Region, more: Region, whole: Region,
                       before: seq<Region>, out: seq<Region>)
    requires PictureSized(width, height, a) && PictureSized(width, height, b)
    requires before <= out && CoversChanges(width, height, a, b, part, before) && CoversChanges(width, height, a, b, more, out)
    requires forall p: Plane, x: int, y: int ::
               RegionHasCell(p, whole, x, y) ==> RegionHasCell(p, part, x, y) || RegionHasCell(p, more, x, y)
    ensures CoversChanges(width, height, a, b, whole, out)
  {
    hide CellDiffers, RegionHasCell, RegionsHaveCell;
    forall p: Plane, x: int, y: int | RegionHasCell(p, whole, x, y) && CellDiffers(width, height, a, b, p, x, y)
      ensures RegionsHaveCell(p, out, x, y)
    {
      if RegionHasCell(p, part, x, y) {
        MoreRegionsMoreCells(p, before, out, x, y);
      }
    }
  }

  /** A rectangle cut by a vertical line. */
  lemma SideBySide(part: Region, more: Region, whole: Region)
    requires part.y == more.y == whole.y && part.h == more.h == whole.h && 0 < more.w && 0 < whole.h
    requires part.x == whole.x && 0 <= part.w && part.x + part.w == more.x && whole.w == part.w + more.w
    ensures forall p: Plane, x: int, y: int ::
              RegionHasCell(p, whole, x, y) ==> RegionHasCell(p, part, x, y) || RegionHasCell(p, more, x, y)
  {
  }

  /** A rectangle cut by a horizontal line. */
  lemma Stacked(part: Region, more: Region, whole: Region)
    requires part.x == more.x == whole.x && part.w == more.w == whole.w && 0 < more.h && 0 < whole.w
    requires part.y == whole.y && 0 <= part.h && part.y + part.h == more.y && whole.h == part.h + more.h
    ensures forall p: Plane, x: int, y: int ::
              RegionHasCell(p, whole, x, y) ==> RegionHasCell(p, part, x, y) || RegionHasCell(p, more, x, y)
  {
  }

  lemma NothingToCover(width: nat, height: nat, a: Yuv420, b: Yuv420, part: Region, out: seq<Region>)
    requires PictureSized(width, height, a) && PictureSized(width, height, b)
    requires part.w <= 0 || part.h <= 0
    ensures CoversChanges(width, height, a, b, part, out)
  {
  }

  lemma TileCovered(width: nat, height: nat, a: Yuv420, b: Yuv420, tile: Region, out: seq<Region>)
    requires PictureSized(width, height, a) && PictureSized(width, height, b)
    requires RegionDiffers(width, height, a, b, tile) ==> tile in out
    ensures CoversChanges(width, height, a, b, tile, out)
  {
    hide CellDiffers, RegionHasCell;
    if RegionDiffers(width, height, a, b, tile) {
      var i :| 0 <= i < |out| && out[i] == tile;
    }
  }

  /** Cutting an even candidate every 64 pixels gives even tiles. */
  lemma TilesAreEven(candidate: Region, tileX: int, tileY: int, tile: Region)
    requires Even(candidate) ==> tileX % 2 == 0 && tileY % 2 == 0
    requires tile.x == tileX && tile.y == tileY
    requires tile.x + tile.w == Min(tileX + 64, candidate.x + candidate.w)
    requires tile.y + tile.h == Min(tileY + 64, candidate.y + candidate.h)
    ensures Even(candidate) ==> Even(tile)
    ensures Even(candidate) ==> (tileX + 64) % 2 == 0 && (tileY + 64) % 2 == 0
  {
  }

  /** A row of tiles that is covered up to a tile is covered up to the next one. */
  lemma TileDone(width: nat, height: nat, a: Yuv420, b: Yuv420, left: i32, tile: Region, before: seq<Region>, out: seq<Region>)
    requires PictureSized(width, height, a) && PictureSized(width, height, b)
    requires 0 <= left <= tile.x && tile.x + tile.w <= I32_MAX && 0 < tile.w && 0 < tile.h
    requires CoversChanges(width, height, a, b, Region(left, tile.y, tile.x - left, tile.h), before)
    requires before <= out && (RegionDiffers(width, height, a, b, tile) ==> tile in out)
    ensures CoversChanges(width, height, a, b, Region(left, tile.y, tile.x + tile.w - left, tile.h), out)
  {
    hide PictureSized, CoversChanges, RegionDiffers, RegionHasCell;
    var part, whole := Region(left, tile.y, tile.x - left, tile.h), Region(left, tile.y, tile.x + tile.w - left, tile.h);
    TileCovered(width, height, a, b, tile, out);
    SideBySide(part, tile, whole);
    ExtendCoverage(width, height, a, b, part, tile, whole, before, out);
  }

  lemma NothingAdded(width: nat, height: nat, a: Yuv420, b: Yuv420, candidate: Region, regions: seq<Region>)
    requires PictureSized(width, height, a) && PictureSized(width, height, b)
    ensures AddsChangedTiles(width, height, a, b, candidate, regions, regions)
  {
  }

  lemma AddTile(width: nat, height: nat, a: Yuv420, b: Yuv420, candidate: Region, regions: seq<Region>, out: seq<Region>, tile: Region)
    requires PictureSized(width, height, a) && PictureSized(width, height, b)
    requires AddsChangedTiles(width, height, a, b, candidate, regions, out)
    requires tile.InFrame(width, height) && Within(tile, candidate) && tile.w <= 64 && tile.h <= 64
    requires (Even(candidate) ==> Even(tile)) && RegionDiffers(width, height, a, b, tile)
    ensures AddsChangedTiles(width, height, a, b, candidate, regions, out + [tile])
  {
    hide PictureSized, RegionDiffers, Even;
    assert ChangedTile(width, height, a, b, candidate, tile);
  }

  lemma AddedTwice(width: nat, height: nat, a: Yuv420, b: Yuv420, candidate: Region,
                   regions: seq<Region>, before: seq<Region>, out: seq<Region>)
    requires PictureSized(width, height, a) && PictureSized(width, height, b)
    requires AddsChangedTiles(width, height, a, b, candidate, regions, before)
    requires AddsChangedTiles(width, height, a, b, candidate, before, out)
    ensures AddsChangedTiles(width, height, a, b, candidate, regions, out)
    ensures before <= out
  {
    hide PictureSized, ChangedTile;
  }

  /** One row of tiles. */
  method ScanTileRow(width: nat, ghost height: nat, a: Yuv420, b: Yuv420, candidate: Region, tileY: i32, tileH: i32, regions: seq<Region>)
    returns (out: seq<Region>)
    requires FrameSize(width, height) && PictureSized(width, height, a) && PictureSized(width, height, b)
    requires candidate.InFrame(width, height) && candidate.y <= tileY < candidate.y + candidate.h
    requires tileY + tileH == Min(tileY + 64, candidate.y + candidate.h)
    requires Even(candidate) ==> tileY % 2 == 0
    ensures AddsChangedTiles(width, height, a, b, candidate, regions, out)
    ensures CoversChanges(width, height, a, b, Region(candidate.x, tileY, candidate.w, tileH), out)
  {
    out := regions;
    var right := candidate.x + candidate.w;
    var tileX := candidate.x;
    NothingToCover(width, height, a, b, Region(candidate.x, tileY, 0, tileH), out);
    assert Even(candidate) ==> tileX % 2 == 0;
    NothingAdded(width, height, a, b, candidate, regions);
    hide PictureSized, CoversChanges, RegionDiffers, RegionHasCell, FrameSize, Even, AddsChangedTiles, CellDiffers;
    while tileX < right
      invariant candidate.x <= tileX
      invariant Even(candidate) ==> tileX % 2 == 0
      invariant AddsChangedTiles(width, height, a, b, candidate, regions, out)
      invariant CoversChanges(width, height, a, b, Region(candidate.x, tileY, Min(tileX, right) - candidate.x, tileH), out)
    {
      var tile := Region(tileX, tileY, Min(64, right - tileX), tileH);
      var changed := TileChanged(width, height, a, b, tile);
      TilesAreEven(candidate, tileX, tileY, tile);
      ghost var before := out;
      if changed && tile !in out {
        AddTile(width, height, a, b, candidate, regions, out, tile);
        out := out + [tile];
      }
      TileDone(width, height, a, b, candidate.x, tile, before, out);
      tileX := tileX + 64;
    }
  }

  /** The tile loops over one clamped candidate. */
  method ScanCandidate(width: nat, ghost height: nat, a: Yuv420, b: Yuv420, candidate: Region, regions: seq<Region>)
    returns (out: seq<Region>)
    requires FrameSize(width, height) && PictureSized(width, height, a) && PictureSized(width, height, b)
    requires candidate.InFrame(width, height)
    ensures AddsChangedTiles(width, height, a, b, candidate, regions, out)
    ensures CoversChanges(width, height, a, b, candidate, out)
  {
    out := regions;
    var bottom := candidate.y + candidate.h;
    var tileY := candidate.y;
    NothingToCover(width, height, a, b, Region(candidate.x, candidate.y, candidate.w, 0), out);
    assert Even(candidate) ==> tileY % 2 == 0;
    NothingAdded(width, height, a, b, candidate, regions);
    hide PictureSized, CoversChanges, RegionDiffers, RegionHasCell, FrameSize, Even, AddsChangedTiles;
    while tileY < bottom
      invariant candidate.y <= tileY
      invariant Even(candidate) ==> tileY % 2 == 0
      invariant AddsChangedTiles(width, height, a, b, candidate, regions, out)
      invariant CoversChanges(width, height, a, b, Region(candidate.x, candidate.y, candidate.w, Min(tileY, bottom) - candidate.y), out)
    {
      var tileH := Min(64, bottom - tileY);
      ghost var before := out;
      out := ScanTileRow(width, height, a, b, candidate, tileY, tileH, out);
      AddedTwice(width, height, a, b, candidate, regions, before, out);
      ghost var part := Region(candidate.x, candidate.y, candidate.w, tileY - candidate.y);
      ghost var row := Region(candidate.x, tileY, candidate.w, tileH);
      ghost var whole := Region(candidate.x, candidate.y, candidate.w, tileY + tileH - candidate.y);
      Stacked(part, row, whole);
      ExtendCoverage(width, height, a, b, part, row, whole, before, out);
      tileY := tileY + 64;
    }
  }

  /** What detection against a reference reports: all changes, and nothing but changes. */
  ghost predicate Detected(width: nat, height: nat, a: Yuv420, b: Yuv420, candidates: seq<Region>, regions: seq<Region>)
    requires PictureSized(width, height, a) && PictureSized(width, height, b)
  {
    && (forall i :: 0 <= i < |regions| ==> ReportedTile(width, height, a, b, candidates, regions[i]))
    && (forall p: Plane, x: int, y: int ::
          RegionsHaveCell(p, candidates, x, y) && CellDiffers(width, height, a, b, p, x, y) ==> RegionsHaveCell(p, regions, x, y))
  }

  /** A changed tile of some candidate, which is even if the candidate is in the frame and even. */
  ghost predicate ReportedTile(width: nat, height: nat, a: Yuv420, b: Yuv420, candidates: seq<Region>, tile: Region)
    requires PictureSized(width, height, a) && PictureSized(width, height, b)
  {
    && tile.InFrame(width, height) && tile.w <= 64 && tile.h <= 64
    && RegionDiffers(width, height, a, b, tile)
    && exists j :: 0 <= j < |candidates| && PartOf(width, height, tile, candidates[j])
  }

  ghost predicate PartOf(width: nat, height: nat, tile: Region, candidate: Region) {
    Within(tile, candidate) && (candidate.InFrame(width, height) && Even(candidate) ==> Even(tile))
  }

  /** Clamping a candidate loses none of its cells. */
  lemma ClampKeepsCells(width: nat, height: nat, r: Region, p: Plane, x: int, y: int)
    requires FrameSize(width, height) && HasCell(p, width, height, x, y) && RegionHasCell(p, r, x, y)
    ensures ClampDamageRegion(r, width, height).Some?
    ensures RegionHasCell(p, ClampDamageRegion(r, width, height).value, x, y)
  {
  }

  lemma CellsAppend(p: Plane, regions: seq<Region>, r: Region, x: int, y: int)
    ensures RegionsHaveCell(p, regions + [r], x, y) <==> RegionsHaveCell(p, regions, x, y) || RegionHasCell(p, r, x, y)
  {
    if RegionsHaveCell(p, regions, x, y) {
      MoreRegionsMoreCells(p, regions, regions + [r], x, y);
    }
    assert (regions + [r])[|regions|] == r;
  }

  lemma DetectedStep(width: nat, height: nat, a: Yuv420, b: Yuv420, candidates: seq<Region>, k: nat,
                     before: seq<Region>, after: seq<Region>)
    requires FrameSize(width, height) && PictureSized(width, height, a) && PictureSized(width, height, b)
    requires k < |candidates| && Detected(width, height, a, b, candidates[..k], before)
    requires var c := ClampDamageRegion(candidates[k], width, height);
             if c.None? then after == before
             else AddsChangedTiles(width, height, a, b, c.value, before, after) && CoversChanges(width, height, a, b, c.value, after)
    ensures Detected(width, height, a, b, candidates[..k + 1], after)
  {
    TilesReported(width, height, a, b, candidates, k, before, after);
    var c := ClampDamageRegion(candidates[k], width, height);
    hide PictureSized, RegionDiffers, ClampDamageRegion, RegionHasCell, RegionsHaveCell, ReportedTile,
         ChangedTile, Even, DimensionsSupported;
    forall p: Plane, x: int, y: int | RegionsHaveCell(p, candidates[..k + 1], x, y) && CellDiffers(width, height, a, b, p, x, y)
      ensures RegionsHaveCell(p, after, x, y)
    {
      CellFound(width, height, a, b, candidates, k, before, after, p, x, y);
    }
  }

  lemma CellFound(width: nat, height: nat, a: Yuv420, b: Yuv420, candidates: seq<Region>, k: nat,
                  before: seq<Region>, after: seq<Region>, p: Plane, x: int, y: int)
    requires FrameSize(width, height) && PictureSized(width, height, a) && PictureSized(width, height, b)
    requires k < |candidates|
    requires RegionsHaveCell(p, candidates[..k], x, y) && CellDiffers(width, height, a, b, p, x, y) ==> RegionsHaveCell(p, before, x, y)
    requires var c := ClampDamageRegion(candidates[k], width, height);
             if c.None? then after == before
             else before <= after && CoversChanges(width, height, a, b, c.value, after)
    requires RegionsHaveCell(p, candidates[..k + 1], x, y) && CellDiffers(width, height, a, b, p, x, y)
    ensures RegionsHaveCell(p, after, x, y)
  {
    hide PictureSized, ClampDamageRegion, RegionHasCell, RegionsHaveCell, DimensionsSupported;
    assert candidates[..k + 1] == candidates[..k] + [candidates[k]];
    CellsAppend(p, candidates[..k], candidates[k], x, y);
    if RegionsHaveCell(p, candidates[..k], x, y) {
      MoreRegionsMoreCells(p, before, after, x, y);
    } else {
      ClampKeepsCells(width, height, candidates[k], p, x, y);
    }
  }

  lemma TilesReported(width: nat, height: nat, a: Yuv420, b: Yuv420, candidates: seq<Region>, k: nat,
                      before: seq<Region>, after: seq<Region>)
    requires FrameSize(width, height) && PictureSized(width, height, a) && PictureSized(width, height, b)
    requires k < |candidates|
    requires forall i :: 0 <= i < |before| ==> ReportedTile(width, height, a, b, candidates[..k], before[i])
    requires var c := ClampDamageRegion(candidates[k], width, height);
             if c.None? then after == before else AddsChangedTiles(width, height, a, b, c.value, before, after)
    ensures forall i :: 0 <= i < |after| ==> ReportedTile(width, height, a, b, candidates[..k + 1], after[i])
  {
    var c := ClampDamageRegion(candidates[k], width, height);
    assert candidates[k].InFrame(width, height) && c.Some? ==> c.value == candidates[k];
    assert c.Some? ==> Within(c.value, candidates[k]);
    hide PictureSized, RegionDiffers, ClampDamageRegion, Even, DimensionsSupported;
    forall i | 0 <= i < |after|
      ensures ReportedTile(width, height, a, b, candidates[..k + 1], after[i])
    {
      if i < |before| {
        assert ReportedTile(width, height, a, b, candidates[..k], before[i]);
        var j :| 0 <= j < k && PartOf(width, height, before[i], candidates[..k][j]);
        assert candidates[..k + 1][j] == candidates[..k][j];
      } else {
        assert ChangedTile(width, height, a, b, c.value, after[i]);
        assert PartOf(width, height, after[i], candidates[..k + 1][k]);
      }
    }
  }

  lemma NothingDetected(width: nat, height: nat, a: Yuv420, b: Yuv420)
    requires PictureSized(width, height, a) && PictureSized(width, height, b)
    ensures Detected(width, height, a, b, [], [])
  {
  }

  /** `detect_yuv420_regions`. */
  method DetectRegions(width: nat, height: nat, picture: Yuv420, reference: Option<Yuv420>, candidates: seq<Region>)
    returns (regions: seq<Region>)
    requires FrameSize(width, height) && PictureSized(width, height, picture)
    requires reference.Some? ==> PictureSized(width, height, reference.value)
    ensures reference.None? ==> regions == [Region(0, 0, width, height)]
    ensures reference.Some? ==> Detected(width, height, picture, reference.value, candidates, regions)
  {
    if reference.None? {
      return [Region(0, 0, width, height)];
    }
    hide *;
    regions := [];
    NothingDetected(width, height, picture, reference.value);
    assert candidates[..0] == [];
    if |candidates| == 0 {
      assert candidates == [];
      return;
    }
    var k := 0;
    while k < |candidates|
      invariant 0 <= k <= |candidates|
      invariant Detected(width, height, picture, reference.value, candidates[..k], regions)
    {
      var clamped := ClampDamageRegion(candidates[k], width, height);
      ghost var before := regions;
      if clamped.Some? {
        regions := ScanCandidate(width, height, picture, reference.value, clamped.value, regions);
      }
      DetectedStep(width, height, picture, reference.value, candidates, k, before, regions);
      k := k + 1;
    }
    assert candidates[..k] == candidates;
  }

  // ----- the reference

  /** `after` is `before` with the cells of `regions` taken from `data`. */
  ghost predicate Committed(width: nat, height: nat, before: Yuv420, data: Yuv420, regions: seq<Region>, after: Yuv420)
    requires PictureSized(width, height, before) && PictureSized(width, height, data)
  {
    && PictureSized(width, height, after)
    && forall p: Plane, x: int, y: int :: HasCell(p, width, height, x, y) ==>
         if RegionsHaveCell(p, regions, x, y) then !CellDiffers(width, height, after, data, p, x, y)
         else !CellDiffers(width, height, after, before, p, x, y)
  }

  /** A rectangle of one plane copied from `src`. */
  ghost predicate Copied(p: Plane, width: nat, height: nat, dst: seq<u8>, src: seq<u8>, first: int, end: int, top: int, bottom: int,
                         out: seq<u8>)
  {
    && Sized(p, width, height, dst) && Sized(p, width, height, src) && Sized(p, width, height, out)
    && forall x: int, y: int :: HasCell(p, width, height, x, y) ==>
         Cell(p, width, height, out, x, y) ==
         if first <= x < end && top <= y < bottom then Cell(p, width, height, src, x, y) else Cell(p, width, height, dst, x, y)
  }

  lemma SpliceRowCell(p: Plane, width: nat, height: nat, dst: seq<u8>, src: seq<u8>, first: int, end: int, row: int, x: int, y: int)
    requires Sized(p, width, height, dst) && Sized(p, width, height, src)
    requires 0 <= first < end <= Stride(p, width) && 0 <= row < Rows(p, height) && HasCell(p, width, height, x, y)
    ensures var start := row * Stride(p, width);
            && 0 <= start + first <= start + end <= |dst|
            && Sized(p, width, height, Splice(dst, src, start + first, start + end))
            && Cell(p, width, height, Splice(dst, src, start + first, start + end), x, y) ==
               if first <= x < end && y == row then Cell(p, width, height, src, x, y) else Cell(p, width, height, dst, x, y)
  {
    var stride := Stride(p, width);
    RowSlice(p, width, height, row);
    IndexInBounds(stride, Rows(p, height), x, y);
    if y < row {
      RowsFollow(stride, x, y, 0, row);
    } else if row < y {
      RowsFollow(stride, stride - 1, row, x, y);
    }
  }

  /** `copy_plane_region`. */
  method CopyPlaneRegion(p: Plane, width: nat, ghost height: nat, src: seq<u8>, dst: seq<u8>, first: nat, end: nat, top: nat, bottom: nat)
    returns (out: seq<u8>)
    requires Sized(p, width, height, src) && Sized(p, width, height, dst)
    requires end <= Stride(p, width) && bottom <= Rows(p, height)
    ensures Copied(p, width, height, dst, src, first, end, top, bottom, out)
  {
    out := dst;
    if end <= first {
      return;
    }
    var row := top;
    while row < bottom
      invariant top <= row && (top <= bottom ==> row <= bottom)
      invariant Copied(p, width, height, dst, src, first, end, top, Min(row, bottom), out)
    {
      RowSlice(p, width, height, row);
      var start := row * Stride(p, width) + first;
      ghost var before := out;
      out := Splice(out, src, start, start + (end - first));
      OneMoreRow(p, width, height, dst, src, first, end, top, row, before, out);
      row := row + 1;
    }
  }

  lemma OneMoreRow(p: Plane, width: nat, height: nat, dst: seq<u8>, src: seq<u8>, first: int, end: int, top: int, row: int,
                   before: seq<u8>, out: seq<u8>)
    requires Copied(p, width, height, dst, src, first, end, top, row, before)
    requires 0 <= first < end <= Stride(p, width) && top <= row && 0 <= row < Rows(p, height)
    requires 0 <= row * Stride(p, width) && row * Stride(p, width) + end <= |before|
    requires out == Splice(before, src, row * Stride(p, width) + first, row * Stride(p, width) + end)
    ensures Copied(p, width, height, dst, src, first, end, top, row + 1, out)
  {
    forall x: int, y: int | HasCell(p, width, height, x, y)
      ensures Sized(p, width, height, out)
      ensures Cell(p, width, height, out, x, y) ==
              if first <= x < end && y == row then Cell(p, width, height, src, x, y) else Cell(p, width, height, before, x, y)
    {
      SpliceRowCell(p, width, height, before, src, first, end, row, x, y);
    }
    SpliceRowCell(p, width, height, before, src, first, end, row, first, row);
  }

  /** One clamped region, in all three planes. */
  method CommitRegion(width: nat, ghost height: nat, before: Yuv420, data: Yuv420, r: Region) returns (after: Yuv420)
    requires FrameSize(width, height) && PictureSized(width, height, before) && PictureSized(width, height, data)
    requires r.InFrame(width, height)
    ensures Committed(width, height, before, data, [r], after)
  {
    PartsSized(width, height, before);
    PartsSized(width, height, data);
    HalfInFrame(width, height, r);
    hide PictureSized, Copied, Committed;
    var y := CopyPlaneRegion(Y444, width, height, data.y, before.y, r.x, r.x + r.w, r.y, r.y + r.h);
    var left, right, top, bottom := r.x / 2, HalfUp(r.x + r.w), r.y / 2, HalfUp(r.y + r.h);
    var u := CopyPlaneRegion(MainU, width, height, data.u, before.u, left, right, top, bottom);
    var v := CopyPlaneRegion(MainV, width, height, data.v, before.v, left, right, top, bottom);
    after := Yuv420(y, u, v);
    CopiedIsCommitted(width, height, before, data, r, after);
  }

  lemma PartsSized(width: nat, height: nat, picture: Yuv420)
    requires PictureSized(width, height, picture)
    ensures Sized(Y444, width, height, picture.y) && Sized(MainU, width, height, picture.u) && Sized(MainV, width, height, picture.v)
  {
    assert Sized(Y444, width, height, Part(picture, Y444));
    assert Sized(MainU, width, height, Part(picture, MainU));
    assert Sized(MainV, width, height, Part(picture, MainV));
  }

  lemma CopiedIsCommitted(width: nat, height: nat, before: Yuv420, data: Yuv420, r: Region, after: Yuv420)
    requires PictureSized(width, height, before) && PictureSized(width, height, data) && 0 < r.w && 0 < r.h
    requires Copied(Y444, width, height, before.y, data.y, r.x, r.x + r.w, r.y, r.y + r.h, after.y)
    requires Copied(MainU, width, height, before.u, data.u, r.x / 2, HalfUp(r.x + r.w), r.y / 2, HalfUp(r.y + r.h), after.u)
    requires Copied(MainV, width, height, before.v, data.v, r.x / 2, HalfUp(r.x + r.w), r.y / 2, HalfUp(r.y + r.h), after.v)
    ensures Committed(width, height, before, data, [r], after)
  {
    assert PictureSized(width, height, after);
    forall p: Plane, x: int, y: int | HasCell(p, width, height, x, y)
      ensures if RegionsHaveCell(p, [r], x, y) then !CellDiffers(width, height, after, data, p, x, y)
              else !CellDiffers(width, height, after, before, p, x, y)
    {
      SameRole(width, height, after, data, p, r, x, y);
      SameRole(width, height, after, before, p, r, x, y);
      CellsAppend(p, [], r, x, y);
      assert [] + [r] == [r];
    }
  }

  lemma CommitBoth(width: nat, height: nat, a: Yuv420, data: Yuv420, first: seq<Region>, b: Yuv420, r: Region, c: Yuv420)
    requires PictureSized(width, height, a) && PictureSized(width, height, data)
    requires Committed(width, height, a, data, first, b) && Committed(width, height, b, data, [r], c)
    ensures Committed(width, height, a, data, first + [r], c)
  {
    hide PictureSized, CellDiffers, RegionsHaveCell, RegionHasCell;
    forall p: Plane, x: int, y: int | HasCell(p, width, height, x, y)
      ensures if RegionsHaveCell(p, first + [r], x, y) then !CellDiffers(width, height, c, data, p, x, y)
              else !CellDiffers(width, height, c, a, p, x, y)
    {
      CellsAppend(p, first, r, x, y);
      OneRegionCell(p, r, x, y);
      if RegionsHaveCell(p, [r], x, y) {
        assert !CellDiffers(width, height, c, data, p, x, y);
      } else {
        DifferenceIsTransitive(width, height, a, b, c, data, p, x, y);
      }
    }
  }

  lemma DifferenceIsTransitive(width: nat, height: nat, a: Yuv420, b: Yuv420, c: Yuv420, data: Yuv420, p: Plane, x: int, y: int)
    requires PictureSized(width, height, a) && PictureSized(width, height, b) && PictureSized(width, height, c)
    requires PictureSized(width, height, data)
    requires !CellDiffers(width, height, c, b, p, x, y)
    ensures CellDiffers(width, height, c, a, p, x, y) == CellDiffers(width, height, b, a, p, x, y)
    ensures CellDiffers(width, height, c, data, p, x, y) == CellDiffers(width, height, b, data, p, x, y)
  {
  }

  /** A region commits exactly what its clamped part does. */
  lemma CommitClamped(width: nat, height: nat, before: Yuv420, data: Yuv420, r: Region, after: Yuv420)
    requires FrameSize(width, height) && PictureSized(width, height, before) && PictureSized(width, height, data)
    requires var c := ClampDamageRegion(r, width, height);
             if c.Some? then Committed(width, height, before, data, [c.value], after) else after == before
    ensures Committed(width, height, before, data, [r], after)
  {
    hide PictureSized, ClampDamageRegion, RegionHasCell, DimensionsSupported;
    var c := ClampDamageRegion(r, width, height);
    forall p: Plane, x: int, y: int | HasCell(p, width, height, x, y)
      ensures RegionsHaveCell(p, [r], x, y) <==> c.Some? && RegionsHaveCell(p, [c.value], x, y)
    {
      OneRegionCell(p, r, x, y);
      if c.Some? {
        OneRegionCell(p, c.value, x, y);
      }
      ClampedCells(width, height, r, p, x, y);
    }
    if c.None? {
      SelfSame(width, height, before);
    }
  }

  lemma OneRegionCell(p: Plane, r: Region, x: int, y: int)
    ensures RegionsHaveCell(p, [r], x, y) <==> RegionHasCell(p, r, x, y)
  {
    assert [r][0] == r;
  }

  lemma ClampedCells(width: nat, height: nat, r: Region, p: Plane, x: int, y: int)
    requires FrameSize(width, height) && HasCell(p, width, height, x, y)
    ensures var c := ClampDamageRegion(r, width, height);
            RegionHasCell(p, r, x, y) <==> c.Some? && RegionHasCell(p, c.value, x, y)
  {
    if RegionHasCell(p, r, x, y) {
      ClampKeepsCells(width, height, r, p, x, y);
    }
  }

  lemma SelfSame(width: nat, height: nat, a: Yuv420)
    requires PictureSized(width, height, a)
    ensures forall p: Plane, x: int, y: int :: !CellDiffers(width, height, a, a, p, x, y)
  {
  }

  lemma CommitNothing(width: nat, height: nat, before: Yuv420, data: Yuv420)
    requires PictureSized(width, height, before) && PictureSized(width, height, data)
    ensures Committed(width, height, before, data, [], before)
  {
    SelfSame(width, height, before);
  }

  /** `update_yuv420_reference_regions`: a missing reference is copied whole. */
  method UpdateReference(width: nat, height: nat, reference: Option<Yuv420>, data: Yuv420, regions: seq<Region>)
    returns (after: Yuv420)
    requires FrameSize(width, height) && PictureSized(width, height, data)
    requires reference.Some? ==> PictureSized(width, height, reference.value)
    ensures reference.None? ==> after == data
    ensures reference.Some? ==> Committed(width, height, reference.value, data, regions, after)
  {
    if reference.None? {
      return data;
    }
    after := reference.value;
    var k := 0;
    CommitNothing(width, height, after, data);
    while k < |regions|
      invariant 0 <= k <= |regions|
      invariant PictureSized(width, height, after)
      invariant Committed(width, height, reference.value, data, regions[..k], after)
    {
      hide PictureSized, ClampDamageRegion, CellDiffers;
      var clamped := ClampDamageRegion(regions[k], width, height);
      ghost var before := after;
      if clamped.Some? {
        after := CommitRegion(width, height, after, data, clamped.value);
      }
      hide Committed;
      CommitClamped(width, height, before, data, regions[k], after);
      CommitBoth(width, height, reference.value, data, regions[..k], before, regions[k], after);
      CommittedIsSized(width, height, before, data, [regions[k]], after);
      assert regions[..k + 1] == regions[..k] + [regions[k]];
      k := k + 1;
    }
    assert regions[..k] == regions;
  }

  lemma CommittedIsSized(width: nat, height: nat, before: Yuv420, data: Yuv420, regions: seq<Region>, after: Yuv420)
    requires PictureSized(width, height, before) && PictureSized(width, height, data)
    requires Committed(width, height, before, data, regions, after)
    ensures PictureSized(width, height, after)
  {
  }

  // ----- what a commit achieves

  /** After the detected regions are committed, every cell of the candidates matches. */
  lemma CommitMatchesCandidates(width: nat, height: nat, data: Yuv420, reference: Yuv420, candidates: seq<Region>,
                                regions: seq<Region>, reference': Yuv420, p: Plane, x: int, y: int)
    requires PictureSized(width, height, data) && PictureSized(width, height, reference)
    requires Detected(width, height, data, reference, candidates, regions)
    requires Committed(width, height, reference, data, regions, reference')
    requires RegionsHaveCell(p, candidates, x, y)
    ensures !CellDiffers(width, height, data, reference', p, x, y)
  {
    hide PictureSized, ReportedTile, RegionsHaveCell;
    DifferIsSymmetric(width, height, data, reference', p, x, y);
    if HasCell(p, width, height, x, y) && !RegionsHaveCell(p, regions, x, y) {
      DifferenceIsTransitive(width, height, reference, reference, reference', data, p, x, y);
      DifferIsSymmetric(width, height, data, reference, p, x, y);
    }
  }

  lemma DifferIsSymmetric(width: nat, height: nat, a: Yuv420, b: Yuv420, p: Plane, x: int, y: int)
    requires PictureSized(width, height, a) && PictureSized(width, height, b)
    ensures CellDiffers(width, height, a, b, p, x, y) == CellDiffers(width, height, b, a, p, x, y)
  {
  }

  /** A reported tile holds a changed cell that some candidate has. */
  lemma ReportedCell(width: nat, height: nat, a: Yuv420, b: Yuv420, candidates: seq<Region>, tile: Region)
    requires PictureSized(width, height, a) && PictureSized(width, height, b)
    requires ReportedTile(width, height, a, b, candidates, tile)
    ensures exists p: Plane, x: int, y: int ::
              RegionsHaveCell(p, candidates, x, y) && CellDiffers(width, height, a, b, p, x, y)
  {
    hide PictureSized, CellDiffers;
    var p: Plane, x: int, y: int :| RegionHasCell(p, tile, x, y) && CellDiffers(width, height, a, b, p, x, y);
    var j :| 0 <= j < |candidates| && PartOf(width, height, tile, candidates[j]);
    WithinKeepsCells(p, tile, candidates[j], x, y);
    assert RegionsHaveCell(p, candidates, x, y);
  }

  lemma WithinKeepsCells(p: Plane, r: Region, box: Region, x: int, y: int)
    requires Within(r, box) && 0 < r.w && 0 < r.h && RegionHasCell(p, r, x, y)
    ensures RegionHasCell(p, box, x, y)
  {
  }

  /** When every cell of the candidates matches, nothing is reported. */
  lemma NothingToReport(width: nat, height: nat, data: Yuv420, reference: Yuv420, candidates: seq<Region>, regions: seq<Region>)
    requires PictureSized(width, height, data) && PictureSized(width, height, reference)
    requires Detected(width, height, data, reference, candidates, regions)
    requires forall p: Plane, x: int, y: int ::
               RegionsHaveCell(p, candidates, x, y) ==> !CellDiffers(width, height, data, reference, p, x, y)
    ensures regions == []
  {
    if regions != [] {
      ReportedCell(width, height, data, reference, candidates, regions[0]);
    }
  }

  /** Committing what was detected leaves nothing to detect in the same candidates. */
  lemma CommitSilencesDetect(width: nat, height: nat, data: Yuv420, reference: Yuv420, candidates: seq<Region>,
                             regions: seq<Region>, reference': Yuv420, again: seq<Region>)
    requires PictureSized(width, height, data) && PictureSized(width, height, reference)
    requires Detected(width, height, data, reference, candidates, regions)
    requires Committed(width, height, reference, data, regions, reference')
    requires Detected(width, height, data, reference', candidates, again)
    ensures again == []
  {
    CommittedIsSized(width, height, reference, data, regions, reference');
    hide Detected, Committed;
    forall p: Plane, x: int, y: int | RegionsHaveCell(p, candidates, x, y)
      ensures !CellDiffers(width, height, data, reference', p, x, y)
    {
      CommitMatchesCandidates(width, height, data, reference, candidates, regions, reference', p, x, y);
    }
    NothingToReport(width, height, data, reference', candidates, again);
  }
}

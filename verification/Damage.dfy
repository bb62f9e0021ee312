/**
 Damage clamping, merging and the frame-diff detector (src/capture/damage.rs).

 The detector remembers the bytes the client was last sent.  `Detect` cuts candidate
 damage into 64-pixel tiles and keeps those that differ from that reference.
 */
module Damage {
  import opened Arithmetic
  import opened Regions

  const DAMAGE_TILE_SIZE: int := 64
  const DAMAGE_MERGE_DISTANCE: i32 := 16

  /** A BGRA frame layout: rows of `stride` bytes, four bytes for each visible pixel. */
  datatype Shape = Shape(width: nat, height: nat, stride: nat) {
    ghost predicate Valid() {
      0 < width <= I32_MAX && 0 < height <= I32_MAX && 4 * width <= stride
    }

    predicate HasPixel(px: int, py: int) {
      0 <= px < width && 0 <= py < height
    }

    function Full(): Region
      requires Valid()
    {
      Region(0, 0, width, height)
    }
  }

  ghost predicate Fits(data: seq<u8>, s: Shape) {
    s.Valid() && |data| >= s.stride * s.height
  }

  function Offset(s: Shape, px: int, py: int): int { py * s.stride + px * 4 }

  lemma OffsetInBounds(s: Shape, px: int, py: int)
    requires s.Valid() && s.HasPixel(px, py)
    ensures 0 <= Offset(s, px, py)
    ensures Offset(s, px, py) + 4 <= (py + 1) * s.stride <= s.stride * s.height
  {
    RowFits(py, s.height, s.stride);
    assert (py + 1) * s.stride == py * s.stride + s.stride;
  }

  /** The four bytes of a visible pixel. */
  ghost function Pixel(data: seq<u8>, s: Shape, px: int, py: int): (p: seq<u8>)
    requires Fits(data, s) && s.HasPixel(px, py)
    ensures |p| == 4
  {
    OffsetInBounds(s, px, py);
    data[Offset(s, px, py)..Offset(s, px, py) + 4]
  }

  ghost predicate SamePixel(a: seq<u8>, b: seq<u8>, s: Shape, px: int, py: int)
    requires Fits(a, s) && Fits(b, s) && s.HasPixel(px, py)
  {
    Pixel(a, s, px, py) == Pixel(b, s, px, py)
  }

  /** The two buffers show the same picture: they agree on every visible pixel. */
  ghost predicate SamePicture(a: seq<u8>, b: seq<u8>, s: Shape)
    requires Fits(a, s) && Fits(b, s)
  {
    forall px: int, py: int :: s.HasPixel(px, py) ==> SamePixel(a, b, s, px, py)
  }

  /** Captured damage is honest: wherever two successive frames differ, it was reported. */
  ghost predicate Honest(before: seq<u8>, after: seq<u8>, s: Shape, damage: seq<Region>)
    requires Fits(before, s) && Fits(after, s)
  {
    forall px: int, py: int :: s.HasPixel(px, py) && !SamePixel(before, after, s, px, py) ==> Covers(damage, px, py)
  }

  // ----- clamping

  /**
   The part of a reported rectangle that is inside the frame.  Although the sums saturate, the
   result has exactly the pixels of the rectangle that the frame has.
   */
  function ClampDamageRegion(r: Region, width: nat, height: nat): (c: Option<Region>)
    ensures c.Some? ==> c.value.InFrame(width, height) && width <= I32_MAX && height <= I32_MAX
    ensures width <= I32_MAX && height <= I32_MAX ==>
              forall px: int, py: int ::
                (c.Some? && c.value.Has(px, py)) <==>
                (r.Has(px, py) && 0 <= px < width && 0 <= py < height)
  {
    if r.w <= 0 || r.h <= 0 then None
    else if width > I32_MAX || height > I32_MAX then None
    else
      var left := Clamp(r.x, 0, width);
      var top := Clamp(r.y, 0, height);
      var right := Clamp(SatAdd(r.x, r.w), 0, width);
      var bottom := Clamp(SatAdd(r.y, r.h), 0, height);
      if right <= left || bottom <= top then None
      else Some(Region(left, top, right - left, bottom - top))
  }

  // ----- merging

  predicate RegionsAreNear(a: Region, b: Region, distance: i32)
    requires 0 <= a.x && 0 <= a.y && 0 <= b.x && 0 <= b.y
    requires 0 < a.w && 0 < a.h && 0 < b.w && 0 < b.h
  {
    var aRight := SatAdd(a.x, a.w);
    var aBottom := SatAdd(a.y, a.h);
    var bRight := SatAdd(b.x, b.w);
    var bBottom := SatAdd(b.y, b.h);
    var gapX := if b.x >= aRight then b.x - aRight else SatSub(a.x, bRight);
    var gapY := if b.y >= aBottom then b.y - aBottom else SatSub(a.y, bBottom);
    gapX <= distance && gapY <= distance
  }

  /** Near means that the rectangles meet once one of them grows by `distance` on every side. */
  lemma NearMeansWithinDistance(a: Region, b: Region, distance: i32, width: nat, height: nat)
    requires a.InFrame(width, height) && b.InFrame(width, height)
    requires width <= I32_MAX && height <= I32_MAX && 0 <= distance
    ensures RegionsAreNear(a, b, distance) <==>
            (a.x - distance <= b.x + b.w && b.x <= a.x + a.w + distance &&
             a.y - distance <= b.y + b.h && b.y <= a.y + a.h + distance)
    ensures RegionsAreNear(a, b, distance) == RegionsAreNear(b, a, distance)
  {
  }

  function UnionRegion(a: Region, b: Region): Region
    requires 0 <= a.x && 0 <= a.y && 0 <= b.x && 0 <= b.y
    requires 0 < a.w && 0 < a.h && 0 < b.w && 0 < b.h
  {
    var left := Min(a.x, b.x);
    var top := Min(a.y, b.y);
    var right := Max(SatAdd(a.x, a.w), SatAdd(b.x, b.w));
    var bottom := Max(SatAdd(a.y, a.h), SatAdd(b.y, b.h));
    Region(left, top, right - left, bottom - top)
  }

  /** The union of `seed` with every region in `absorbed`. */
  ghost function Hull(seed: Region, absorbed: seq<Region>, width: nat, height: nat): (u: Region)
    requires width <= I32_MAX && height <= I32_MAX
    requires seed.InFrame(width, height) && AllInFrame(absorbed, width, height)
    ensures u.InFrame(width, height)
    decreases |absorbed|
  {
    if absorbed == [] then seed
    else UnionRegion(absorbed[|absorbed| - 1], Hull(seed, absorbed[..|absorbed| - 1], width, height))
  }

  lemma {:induction false} HullContains(seed: Region, absorbed: seq<Region>, width: nat, height: nat)
    requires width <= I32_MAX && height <= I32_MAX
    requires seed.InFrame(width, height) && AllInFrame(absorbed, width, height)
    ensures Within(seed, Hull(seed, absorbed, width, height))
    ensures AllWithin(absorbed, Hull(seed, absorbed, width, height))
    decreases |absorbed|
  {
    if absorbed == [] {
    } else {
      HullContains(seed, absorbed[..|absorbed| - 1], width, height);
    }
  }

  /** The hull is the smallest rectangle that holds them all. */
  lemma {:induction false} HullIsSmallest(seed: Region, absorbed: seq<Region>, box: Region, width: nat, height: nat)
    requires width <= I32_MAX && height <= I32_MAX
    requires seed.InFrame(width, height) && AllInFrame(absorbed, width, height)
    requires Within(seed, box) && AllWithin(absorbed, box)
    ensures Within(Hull(seed, absorbed, width, height), box)
    decreases |absorbed|
  {
    if absorbed == [] {
    } else {
      HullIsSmallest(seed, absorbed[..|absorbed| - 1], box, width, height);
    }
  }

  /** Part way through a merge: what is left, what was absorbed and the hull so far. */
  ghost predicate MergeState(regions: seq<Region>, region: Region, rest: seq<Region>, absorbed: seq<Region>,
                             merged: Region, width: nat, height: nat)
  {
    && width <= I32_MAX && height <= I32_MAX
    && region.InFrame(width, height)
    && AllInFrame(rest, width, height) && AllInFrame(absorbed, width, height)
    && multiset(regions) == multiset(rest) + multiset(absorbed)
    && merged == Hull(region, absorbed, width, height)
  }

  /** Nothing is absorbed without a reason: each region was near what the new one had grown to by then. */
  ghost predicate NearInTurn(region: Region, absorbed: seq<Region>, distance: i32, width: nat, height: nat)
    requires width <= I32_MAX && height <= I32_MAX
    requires region.InFrame(width, height) && AllInFrame(absorbed, width, height)
  {
    forall k :: 0 <= k < |absorbed| ==> RegionsAreNear(absorbed[k], Hull(region, absorbed[..k], width, height), distance)
  }

  lemma OneMoreNear(regions: seq<Region>, region: Region, rest: seq<Region>, absorbed: seq<Region>, merged: Region, r: Region,
                    distance: i32, width: nat, height: nat)
    requires MergeState(regions, region, rest, absorbed, merged, width, height) && r.InFrame(width, height) && merged.InFrame(width, height)
    requires NearInTurn(region, absorbed, distance, width, height) && RegionsAreNear(r, merged, distance)
    ensures AllInFrame(absorbed + [r], width, height) && NearInTurn(region, absorbed + [r], distance, width, height)
  {
    hide RegionsAreNear, Hull;
    forall k | 0 <= k < |absorbed| + 1
      ensures RegionsAreNear((absorbed + [r])[k], Hull(region, (absorbed + [r])[..k], width, height), distance)
    {
      assert (absorbed + [r])[..k] == absorbed[..k];
    }
  }

  /** `out` is the list after `region` was merged into it. */
  ghost predicate MergedInto(regions: seq<Region>, region: Region, distance: i32, width: nat, height: nat, out: seq<Region>) {
    out != [] && AllInFrame(out, width, height) &&
    exists absorbed ::
      && MergeState(regions, region, out[..|out| - 1], absorbed, out[|out| - 1], width, height)
      && NearInTurn(region, absorbed, distance, width, height)
      && KeptApart(out, |out| - 1, region, distance, width, height)
  }

  lemma AbsorbOne(regions: seq<Region>, region: Region, rest: seq<Region>, absorbed: seq<Region>,
                  merged: Region, index: nat, width: nat, height: nat)
    requires MergeState(regions, region, rest, absorbed, merged, width, height)
    requires index < |rest|
    ensures MergeState(regions, region, SwapRemove(rest, index), absorbed + [rest[index]],
                       UnionRegion(rest[index], merged), width, height)
  {
    var absorbed' := absorbed + [rest[index]];
    assert absorbed'[..|absorbed'| - 1] == absorbed;
    assert multiset(absorbed') == multiset(absorbed) + multiset{rest[index]};
    SwapRemoveTakesOne(rest, index);
    assert rest[index] in multiset(rest);
  }

  ghost predicate FarFromAll(regions: seq<Region>, region: Region, distance: i32)
    requires region.x >= 0 && region.y >= 0 && region.w > 0 && region.h > 0
  {
    forall i :: 0 <= i < |regions| && regions[i].x >= 0 && regions[i].y >= 0 && regions[i].w > 0 && regions[i].h > 0
      ==> !RegionsAreNear(regions[i], region, distance)
  }

  lemma MergeStateBounds(regions: seq<Region>, region: Region, rest: seq<Region>, absorbed: seq<Region>,
                         merged: Region, width: nat, height: nat)
    requires MergeState(regions, region, rest, absorbed, merged, width, height)
    ensures AllInFrame(rest, width, height) && region.InFrame(width, height) && merged.InFrame(width, height)
    ensures AllInFrame(absorbed, width, height) && Within(region, merged)
  {
    HullContains(region, absorbed, width, height);
  }

  lemma InFrameAt(regions: seq<Region>, i: nat, width: nat, height: nat)
    requires i < |regions| && AllInFrame(regions, width, height)
    ensures regions[i].InFrame(width, height)
  {
  }

  /** What is near a rectangle is near every rectangle around it. */
  lemma NearGrows(a: Region, region: Region, merged: Region, distance: i32, width: nat, height: nat)
    requires width <= I32_MAX && height <= I32_MAX && 0 <= distance
    requires a.InFrame(width, height) && region.InFrame(width, height) && merged.InFrame(width, height)
    requires Within(region, merged) && RegionsAreNear(a, region, distance)
    ensures RegionsAreNear(a, merged, distance)
  {
    NearMeansWithinDistance(a, region, distance, width, height);
    NearMeansWithinDistance(a, merged, distance, width, height);
  }

  /** The first `n` regions are not near the new one. */
  ghost predicate KeptApart(rest: seq<Region>, n: nat, region: Region, distance: i32, width: nat, height: nat)
    requires n <= |rest| && AllInFrame(rest, width, height) && region.InFrame(width, height)
  {
    0 <= distance ==> forall i :: 0 <= i < n ==> !RegionsAreNear(rest[i], region, distance)
  }

  lemma OneMoreApart(rest: seq<Region>, n: nat, region: Region, merged: Region, distance: i32, width: nat, height: nat)
    requires width <= I32_MAX && height <= I32_MAX
    requires n < |rest| && AllInFrame(rest, width, height) && region.InFrame(width, height) && merged.InFrame(width, height)
    requires KeptApart(rest, n, region, distance, width, height)
    requires Within(region, merged) && !RegionsAreNear(rest[n], merged, distance)
    ensures KeptApart(rest, n + 1, region, distance, width, height)
  {
    if 0 <= distance && RegionsAreNear(rest[n], region, distance) {
      NearGrows(rest[n], region, merged, distance, width, height);
    }
  }

  lemma ApartAfterRemove(rest: seq<Region>, n: nat, region: Region, distance: i32, width: nat, height: nat)
    requires n < |rest| && AllInFrame(rest, width, height) && region.InFrame(width, height)
    requires KeptApart(rest, n, region, distance, width, height)
    ensures AllInFrame(SwapRemove(rest, n), width, height)
    ensures KeptApart(SwapRemove(rest, n), n, region, distance, width, height)
  {
  }

  /**
   Adds `region` to the list.  Survivors are old regions, untouched; the last region is the exact
   hull of the new region and of the old regions that disappeared, among them every region near the
   new one.  A region that is near nothing is simply appended.
   */
  method MergeNearby(regions: seq<Region>, region: Region, distance: i32, ghost width: nat, ghost height: nat)
    returns (out: seq<Region>, ghost absorbed: seq<Region>)
    requires width <= I32_MAX && height <= I32_MAX
    requires AllInFrame(regions, width, height) && region.InFrame(width, height)
    ensures 0 < |out|
    ensures MergeState(regions, region, out[..|out| - 1], absorbed, out[|out| - 1], width, height)
    ensures AllInFrame(out, width, height)
    ensures FarFromAll(regions, region, distance) ==> out == regions + [region]
    ensures KeptApart(out, |out| - 1, region, distance, width, height)
    ensures MergedInto(regions, region, distance, width, height, out)
    ensures forall px: int, py: int :: Covers(regions, px, py) || region.Has(px, py) ==> Covers(out, px, py)
  {
    var rest := regions;
    var merged := region;
    var index := 0;
    absorbed := [];
    while index < |rest|
      invariant 0 <= index <= |rest|
      invariant MergeState(regions, region, rest, absorbed, merged, width, height)
      invariant AllInFrame(rest, width, height) && merged.InFrame(width, height)
      invariant FarFromAll(regions, region, distance) ==> rest == regions && merged == region
      invariant KeptApart(rest, index, region, distance, width, height)
      invariant NearInTurn(region, absorbed, distance, width, height)
      decreases |rest| - index
    {
      hide MergeState, RegionsAreNear, UnionRegion, SwapRemove, KeptApart, Covers, AllInFrame, NearInTurn;
      MergeStateBounds(regions, region, rest, absorbed, merged, width, height);
      if RegionsAreNear(rest[index], merged, distance) {
        ApartAfterRemove(rest, index, region, distance, width, height);
        AbsorbOne(regions, region, rest, absorbed, merged, index, width, height);
        InFrameAt(rest, index, width, height);
        OneMoreNear(regions, region, rest, absorbed, merged, rest[index], distance, width, height);
        absorbed := absorbed + [rest[index]];
        merged := UnionRegion(rest[index], merged);
        rest := SwapRemove(rest, index);
        MergeStateBounds(regions, region, rest, absorbed, merged, width, height);
      } else {
        OneMoreApart(rest, index, region, merged, distance, width, height);
        index := index + 1;
      }
    }
    hide *;
    MergeDone(regions, region, rest, absorbed, merged, distance, width, height);
    out := rest + [merged];
  }

  lemma MergeDone(regions: seq<Region>, region: Region, rest: seq<Region>, absorbed: seq<Region>, merged: Region,
                  distance: i32, width: nat, height: nat)
    requires AllInFrame(regions, width, height) && MergeState(regions, region, rest, absorbed, merged, width, height)
    requires KeptApart(rest, |rest|, region, distance, width, height)
    requires AllInFrame(absorbed, width, height) && NearInTurn(region, absorbed, distance, width, height)
    ensures MergedInto(regions, region, distance, width, height, rest + [merged])
    ensures var out := rest + [merged];
            && AllInFrame(out, width, height) && out[..|out| - 1] == rest && out[|out| - 1] == merged
            && KeptApart(out, |out| - 1, region, distance, width, height)
            && forall px: int, py: int :: Covers(regions, px, py) || region.Has(px, py) ==> Covers(out, px, py)
  {
    MergeStateBounds(regions, region, rest, absorbed, merged, width, height);
    MergeCovers(regions, region, rest, absorbed, width, height);
  }

  lemma MergeCovers(regions: seq<Region>, region: Region, rest: seq<Region>, absorbed: seq<Region>, width: nat, height: nat)
    requires width <= I32_MAX && height <= I32_MAX
    requires AllInFrame(regions, width, height) && region.InFrame(width, height)
    requires AllInFrame(absorbed, width, height)
    requires multiset(regions) == multiset(rest) + multiset(absorbed)
    ensures forall px: int, py: int :: Covers(regions, px, py) || region.Has(px, py) ==>
                               Covers(rest + [Hull(region, absorbed, width, height)], px, py)
  {
    var hull := Hull(region, absorbed, width, height);
    HullContains(region, absorbed, width, height);
    forall px: int, py: int | Covers(regions, px, py) || region.Has(px, py)
      ensures Covers(rest + [hull], px, py)
    {
      CoversAppend(rest, hull, px, py);
      if Covers(regions, px, py) {
        var i :| 0 <= i < |regions| && regions[i].Has(px, py);
        assert regions[i] in multiset(rest) + multiset(absorbed);
        if regions[i] in rest {
          var k :| 0 <= k < |rest| && rest[k] == regions[i];
        } else {
          assert regions[i] in absorbed;
        }
      }
    }
  }

  // ----- tile comparison

  /** Row `row` of the tile is out of reach of one of the buffers, or its bytes differ. */
  predicate RowDiffers(current: seq<u8>, reference: seq<u8>, stride: nat, tile: Region, row: int)
    requires 0 <= tile.x && 0 <= tile.y && 0 < tile.w && 0 <= row
  {
    var start := (tile.y + row) * stride + tile.x * 4;
    var end := start + tile.w * 4;
    end > |current| || end > |reference| || current[start..end] != reference[start..end]
  }

  method FrameTileChanged(current: seq<u8>, reference: seq<u8>, stride: nat, tile: Region) returns (changed: bool)
    ensures changed <==>
            tile.x >= 0 && tile.y >= 0 && tile.w > 0 && tile.h > 0 &&
            exists row :: 0 <= row < tile.h && RowDiffers(current, reference, stride, tile, row)
  {
    if tile.x < 0 || tile.y < 0 || tile.w <= 0 || tile.h <= 0 {
      return false;
    }
    var row := 0;
    while row < tile.h
      invariant 0 <= row <= tile.h
      invariant forall r :: 0 <= r < row ==> !RowDiffers(current, reference, stride, tile, r)
    {
      if RowDiffers(current, reference, stride, tile, row) {
        return true;
      }
      row := row + 1;
    }
    return false;
  }

  /** For well formed frames a row differs exactly when one of its pixels does. */
  lemma RowDiffersAtPixel(a: seq<u8>, b: seq<u8>, s: Shape, tile: Region, py: int)
    requires Fits(a, s) && Fits(b, s) && tile.InFrame(s.width, s.height) && tile.y <= py < tile.y + tile.h
    ensures RowDiffers(a, b, s.stride, tile, py - tile.y) <==>
            exists px: int :: tile.x <= px < tile.x + tile.w && !SamePixel(a, b, s, px, py)
  {
    SubPixel(a, s, tile, tile.x, py);
    SubPixel(b, s, tile, tile.x, py);
    var start := Offset(s, tile.x, py);
    var end := start + tile.w * 4;
    assert tile.y + (py - tile.y) == py;
    if a[start..end] == b[start..end] {
      forall px: int | tile.x <= px < tile.x + tile.w
        ensures SamePixel(a, b, s, px, py)
      {
        SubPixel(a, s, tile, px, py);
        SubPixel(b, s, tile, px, py);
      }
    } else {
      var j :| 0 <= j < end - start && a[start..end][j] != b[start..end][j];
      PixelHoldsByte(a, s, tile, py, j);
      PixelHoldsByte(b, s, tile, py, j);
      assert !SamePixel(a, b, s, tile.x + j / 4, py);
    }
  }

  /** Byte `j` of a tile row is byte `j % 4` of pixel `j / 4` of that row. */
  lemma PixelHoldsByte(a: seq<u8>, s: Shape, tile: Region, py: int, j: int)
    requires Fits(a, s) && tile.InFrame(s.width, s.height) && tile.y <= py < tile.y + tile.h
    requires 0 <= j < tile.w * 4
    ensures tile.x <= tile.x + j / 4 < tile.x + tile.w
    ensures 0 <= Offset(s, tile.x, py) <= Offset(s, tile.x, py) + tile.w * 4 <= |a|
    ensures Pixel(a, s, tile.x + j / 4, py)[j % 4] == a[Offset(s, tile.x, py)..Offset(s, tile.x, py) + tile.w * 4][j]
  {
    SubPixel(a, s, tile, tile.x + j / 4, py);
  }

  /** A pixel's bytes are a slice of the bytes of the tile row it is in. */
  lemma SubPixel(a: seq<u8>, s: Shape, tile: Region, px: int, py: int)
    requires Fits(a, s) && tile.InFrame(s.width, s.height) && tile.Has(px, py)
    ensures Offset(s, px, py) == Offset(s, tile.x, py) + 4 * (px - tile.x)
    ensures 0 <= Offset(s, tile.x, py) <= Offset(s, tile.x, py) + tile.w * 4 <= |a|
    ensures Pixel(a, s, px, py) ==
            a[Offset(s, tile.x, py)..Offset(s, tile.x, py) + tile.w * 4][4 * (px - tile.x)..4 * (px - tile.x) + 4]
  {
    OffsetInBounds(s, tile.x, py);
    OffsetInBounds(s, px, py);
    OffsetInBounds(s, tile.x + tile.w - 1, py);
    InnerSlice(a, Offset(s, tile.x, py), Offset(s, tile.x, py) + tile.w * 4, 4 * (px - tile.x));
  }

  lemma InnerSlice(a: seq<u8>, start: nat, end: nat, at: nat)
    requires start + at + 4 <= end <= |a|
    ensures a[start..end][at..at + 4] == a[start + at..start + at + 4]
  {
    var inner, outer := a[start..end][at..at + 4], a[start + at..start + at + 4];
    assert forall i :: 0 <= i < 4 ==> inner[i] == outer[i];
  }

  /** Some pixel of the tile differs between the two frames. */
  ghost predicate TileDiffers(a: seq<u8>, b: seq<u8>, s: Shape, tile: Region)
    requires Fits(a, s) && Fits(b, s) && tile.InFrame(s.width, s.height)
  {
    exists px: int, py: int :: tile.Has(px, py) && !SamePixel(a, b, s, px, py)
  }

  lemma RowsDecideTile(a: seq<u8>, b: seq<u8>, s: Shape, tile: Region)
    requires Fits(a, s) && Fits(b, s) && tile.InFrame(s.width, s.height)
    ensures TileDiffers(a, b, s, tile) <==>
            exists row :: 0 <= row < tile.h && RowDiffers(a, b, s.stride, tile, row)
  {
    if exists row :: 0 <= row < tile.h && RowDiffers(a, b, s.stride, tile, row) {
      var row :| 0 <= row < tile.h && RowDiffers(a, b, s.stride, tile, row);
      var py := tile.y + row;
      assert py - tile.y == row;
      RowDiffersAtPixel(a, b, s, tile, py);
      var px :| tile.x <= px < tile.x + tile.w && !SamePixel(a, b, s, px, py);
      assert tile.Has(px, py);
    }
    if TileDiffers(a, b, s, tile) {
      var px, py :| tile.Has(px, py) && !SamePixel(a, b, s, px, py);
      RowDiffersAtPixel(a, b, s, tile, py);
    }
  }

  // ----- scanning candidates

  /** A reported tile: inside the frame and the candidate, at most 64 by 64, and really changed. */
  ghost predicate ChangedTile(a: seq<u8>, b: seq<u8>, s: Shape, candidate: Region, tile: Region)
    requires Fits(a, s) && Fits(b, s)
  {
    && tile.InFrame(s.width, s.height)
    && Within(tile, candidate)
    && tile.w <= DAMAGE_TILE_SIZE && tile.h <= DAMAGE_TILE_SIZE
    && TileDiffers(a, b, s, tile)
  }

  /** `out` keeps `regions` and adds only changed tiles of `candidate`. */
  ghost predicate AddsChangedTiles(a: seq<u8>, b: seq<u8>, s: Shape, candidate: Region,
                                   regions: seq<Region>, out: seq<Region>)
    requires Fits(a, s) && Fits(b, s)
  {
    && regions <= out
    && forall i :: |regions| <= i < |out| ==> ChangedTile(a, b, s, candidate, out[i])
  }

  /** Every changed pixel of `part` is covered by `out`. */
  ghost predicate CoversChanges(a: seq<u8>, b: seq<u8>, s: Shape, part: Region, out: seq<Region>)
    requires Fits(a, s) && Fits(b, s)
  {
    forall px: int, py: int :: s.HasPixel(px, py) && part.Has(px, py) && !SamePixel(a, b, s, px, py) ==> Covers(out, px, py)
  }

  lemma CoversPrefix(a: seq<Region>, b: seq<Region>, px: int, py: int)
    requires a <= b && Covers(a, px, py)
    ensures Covers(b, px, py)
  {
    var i :| 0 <= i < |a| && a[i].Has(px, py);
    assert b[i].Has(px, py);
  }

  /** One row of tiles: `[candidate.x, candidate.x + candidate.w)` by `[tileY, tileY + tileH)`. */
  method ScanTileRow(data: seq<u8>, reference: seq<u8>, s: Shape, candidate: Region, tileY: i32, tileH: i32, regions: seq<Region>)
    returns (out: seq<Region>)
    requires Fits(data, s) && Fits(reference, s) && candidate.InFrame(s.width, s.height)
    requires candidate.y <= tileY && 0 < tileH <= DAMAGE_TILE_SIZE && tileY + tileH <= candidate.y + candidate.h
    ensures AddsChangedTiles(data, reference, s, candidate, regions, out)
    ensures CoversChanges(data, reference, s, Region(candidate.x, tileY, candidate.w, tileH), out)
  {
    out := regions;
    var right := candidate.x + candidate.w;
    var tileX := candidate.x;
    while tileX < right
      invariant candidate.x <= tileX
      invariant AddsChangedTiles(data, reference, s, candidate, regions, out)
      invariant CoversChanges(data, reference, s,
                              Region(candidate.x, tileY, Min(tileX, right) - candidate.x, tileH), out)
    {
      var tileW := Min(DAMAGE_TILE_SIZE, right - tileX);
      var tile := Region(tileX, tileY, tileW, tileH);
      var changed := FrameTileChanged(data, reference, s.stride, tile);
      RowsDecideTile(data, reference, s, tile);
      ghost var before := out;
      if changed && tile !in out {
        out := out + [tile];
      }
      assert changed ==> tile in out;
      ExtendCoverage(data, reference, s, Region(candidate.x, tileY, tileX - candidate.x, tileH), tile, before, out);
      tileX := tileX + DAMAGE_TILE_SIZE;
    }
  }

  /** Scanning `tile` extends the covered part to its right by the tile. */
  lemma ExtendCoverage(a: seq<u8>, b: seq<u8>, s: Shape, part: Region, tile: Region, before: seq<Region>, out: seq<Region>)
    requires Fits(a, s) && Fits(b, s) && tile.InFrame(s.width, s.height)
    requires part.y == tile.y && part.h == tile.h && part.x + part.w == tile.x && 0 <= part.w && 0 <= part.x
    requires before <= out
    requires CoversChanges(a, b, s, part, before)
    requires TileDiffers(a, b, s, tile) ==> tile in out
    ensures CoversChanges(a, b, s, Region(part.x, part.y, part.w + tile.w, part.h), out)
  {
    var whole := Region(part.x, part.y, part.w + tile.w, part.h);
    forall px: int, py: int | s.HasPixel(px, py) && whole.Has(px, py) && !SamePixel(a, b, s, px, py)
      ensures Covers(out, px, py)
    {
      if part.Has(px, py) {
        CoversPrefix(before, out, px, py);
      } else {
        assert tile.Has(px, py);
        var i :| 0 <= i < |out| && out[i] == tile;
      }
    }
  }

  method ScanCandidate(data: seq<u8>, reference: seq<u8>, s: Shape, candidate: Region, regions: seq<Region>)
    returns (out: seq<Region>)
    requires Fits(data, s) && Fits(reference, s) && candidate.InFrame(s.width, s.height)
    ensures AddsChangedTiles(data, reference, s, candidate, regions, out)
    ensures CoversChanges(data, reference, s, candidate, out)
  {
    out := regions;
    var bottom := candidate.y + candidate.h;
    var tileY := candidate.y;
    while tileY < bottom
      invariant candidate.y <= tileY
      invariant AddsChangedTiles(data, reference, s, candidate, regions, out)
      invariant CoversChanges(data, reference, s,
                              Region(candidate.x, candidate.y, candidate.w, Min(tileY, bottom) - candidate.y), out)
    {
      var tileH := Min(DAMAGE_TILE_SIZE, bottom - tileY);
      ghost var before := out;
      out := ScanTileRow(data, reference, s, candidate, tileY, tileH, out);
      forall px: int, py: int | s.HasPixel(px, py) && !SamePixel(data, reference, s, px, py) && Covers(before, px, py)
        ensures Covers(out, px, py)
      {
        CoversPrefix(before, out, px, py);
      }
      tileY := tileY + DAMAGE_TILE_SIZE;
    }
  }

  // ----- the reference

  /** `after` is `before` with exactly the visible pixels of `regions` taken from `data`. */
  ghost predicate Committed(before: seq<u8>, data: seq<u8>, s: Shape, regions: seq<Region>, after: seq<u8>)
    requires Fits(before, s) && Fits(data, s)
  {
    && |after| == |before|
    && forall px: int, py: int :: s.HasPixel(px, py) ==>
         Pixel(after, s, px, py) == if Covers(regions, px, py) then Pixel(data, s, px, py) else Pixel(before, s, px, py)
  }

  lemma CommitBoth(a: seq<u8>, data: seq<u8>, s: Shape, first: seq<Region>, b: seq<u8>, r: Region, c: seq<u8>)
    requires Fits(a, s) && Fits(data, s)
    requires Committed(a, data, s, first, b) && Committed(b, data, s, [r], c)
    ensures Committed(a, data, s, first + [r], c)
  {
    forall px: int, py: int | s.HasPixel(px, py)
      ensures Pixel(c, s, px, py) ==
              if Covers(first + [r], px, py) then Pixel(data, s, px, py) else Pixel(a, s, px, py)
    {
      CoversAppend(first, r, px, py);
      CoversAppend([], r, px, py);
      assert [] + [r] == [r];
      assert Pixel(b, s, px, py) == if Covers(first, px, py) then Pixel(data, s, px, py) else Pixel(a, s, px, py);
    }
  }

  function Splice(dst: seq<u8>, src: seq<u8>, start: nat, end: nat): seq<u8>
    requires start <= end <= |dst| && end <= |src|
  {
    dst[..start] + src[start..end] + dst[end..]
  }

  /** Copying one row of a region changes the pixels of that row of the region and no other. */
  lemma SpliceRow(dst: seq<u8>, src: seq<u8>, s: Shape, r: Region, row: int, px: int, py: int)
    requires Fits(dst, s) && Fits(src, s) && r.InFrame(s.width, s.height)
    requires r.y <= row < r.y + r.h && s.HasPixel(px, py)
    ensures 0 <= Offset(s, r.x, row) <= Offset(s, r.x, row) + r.w * 4 <= s.stride * s.height
    ensures var out := Splice(dst, src, Offset(s, r.x, row), Offset(s, r.x, row) + r.w * 4);
            Fits(out, s) && |out| == |dst| &&
            Pixel(out, s, px, py) ==
              if py == row && r.x <= px < r.x + r.w then Pixel(src, s, px, py) else Pixel(dst, s, px, py)
  {
    OffsetInBounds(s, r.x, row);
    OffsetInBounds(s, r.x + r.w - 1, row);
    OffsetInBounds(s, px, py);
    var start, at := Offset(s, r.x, row), Offset(s, px, py);
    if py < row {
      RowsApart(s, py, row);
      assert at + 4 <= start;
    } else if row < py {
      RowsApart(s, row, py);
      assert start + r.w * 4 <= at;
    } else {
      assert at == start + 4 * (px - r.x);
    }
    hide Offset;
    SpliceSlice(dst, src, start, start + r.w * 4, at);
  }

  lemma SpliceSlice(dst: seq<u8>, src: seq<u8>, start: nat, end: nat, at: nat)
    requires start <= end <= |dst| && end <= |src| && at + 4 <= |dst|
    requires at + 4 <= start || end <= at || (start <= at && at + 4 <= end)
    ensures start <= at && at + 4 <= end ==> Splice(dst, src, start, end)[at..at + 4] == src[at..at + 4]
    ensures at + 4 <= start || end <= at ==> Splice(dst, src, start, end)[at..at + 4] == dst[at..at + 4]
  {
    var out := Splice(dst, src, start, end);
    assert forall i :: start <= i < end ==> out[i] == src[i];
    assert forall i :: 0 <= i < start ==> out[i] == dst[i];
    assert forall i :: end <= i < |dst| ==> out[i] == dst[i];
  }

  lemma RowsApart(s: Shape, low: int, high: int)
    requires low < high
    ensures low * s.stride + s.stride <= high * s.stride
  {
    MulMonotone(low + 1, high, s.stride);
    assert (low + 1) * s.stride == low * s.stride + s.stride;
  }

  /** The row loop: copies a clamped region row by row. */
  method CopyRegion(dst: seq<u8>, src: seq<u8>, s: Shape, r: Region) returns (out: seq<u8>)
    requires Fits(dst, s) && Fits(src, s) && r.InFrame(s.width, s.height)
    ensures Committed(dst, src, s, [r], out)
  {
    out := dst;
    var row := 0;
    while row < r.h
      invariant 0 <= row <= r.h
      invariant |out| == |dst|
      invariant forall px: int, py: int :: s.HasPixel(px, py) ==>
                  Pixel(out, s, px, py) ==
                  if Region(r.x, r.y, r.w, row).Has(px, py) then Pixel(src, s, px, py) else Pixel(dst, s, px, py)
    {
      var start := (r.y + row) * s.stride + r.x * 4;
      var end := start + r.w * 4;
      forall px: int, py: int | s.HasPixel(px, py)
        ensures 0 <= start <= end <= s.stride * s.height
        ensures Fits(Splice(out, src, start, end), s)
        ensures Pixel(Splice(out, src, start, end), s, px, py) ==
                if py == r.y + row && r.x <= px < r.x + r.w then Pixel(src, s, px, py) else Pixel(out, s, px, py)
      {
        SpliceRow(out, src, s, r, r.y + row, px, py);
      }
      assert s.HasPixel(r.x, r.y + row);
      out := Splice(out, src, start, end);
      row := row + 1;
    }
    forall px: int, py: int | s.HasPixel(px, py)
      ensures Covers([r], px, py) <==> r.Has(px, py)
    {
      assert r.Has(px, py) ==> [r][0].Has(px, py);
    }
  }

  /** What `Detect` reports about a usable reference: all changes, and nothing but changes. */
  ghost predicate Detected(data: seq<u8>, reference: seq<u8>, s: Shape, candidates: seq<Region>, regions: seq<Region>)
    requires Fits(data, s) && Fits(reference, s)
  {
    && (forall i :: 0 <= i < |regions| ==> ReportedTile(data, reference, s, candidates, regions[i]))
    && (forall px: int, py: int :: s.HasPixel(px, py) && Covers(candidates, px, py) && !SamePixel(data, reference, s, px, py)
          ==> Covers(regions, px, py))
  }

  ghost predicate ReportedTile(data: seq<u8>, reference: seq<u8>, s: Shape, candidates: seq<Region>, tile: Region)
    requires Fits(data, s) && Fits(reference, s)
  {
    && tile.InFrame(s.width, s.height)
    && tile.w <= DAMAGE_TILE_SIZE && tile.h <= DAMAGE_TILE_SIZE
    && TileDiffers(data, reference, s, tile)
    && exists j :: 0 <= j < |candidates| && Within(tile, candidates[j])
  }

  /** The region loop of `update_reference_regions`. */
  method CommitRegions(before: seq<u8>, data: seq<u8>, s: Shape, regions: seq<Region>) returns (out: seq<u8>)
    requires Fits(before, s) && Fits(data, s)
    ensures Fits(out, s) && Committed(before, data, s, regions, out)
  {
    out := before;
    var k := 0;
    while k < |regions|
      invariant 0 <= k <= |regions|
      invariant Fits(out, s) && Committed(before, data, s, regions[..k], out)
    {
      var clamped := ClampDamageRegion(regions[k], s.width, s.height);
      ghost var previous := out;
      if clamped.Some? {
        out := CopyRegion(out, data, s, clamped.value);
      }
      CommitClamped(previous, data, s, regions[k], out);
      CommitBoth(before, data, s, regions[..k], previous, regions[k], out);
      assert regions[..k + 1] == regions[..k] + [regions[k]];
      k := k + 1;
    }
    assert regions[..k] == regions;
  }

  /** The candidate loop of `detect`. */
  method ScanCandidates(data: seq<u8>, reference: seq<u8>, s: Shape, candidates: seq<Region>) returns (regions: seq<Region>)
    requires Fits(data, s) && Fits(reference, s)
    ensures Detected(data, reference, s, candidates, regions)
  {
    regions := [];
    var k := 0;
    while k < |candidates|
      invariant 0 <= k <= |candidates|
      invariant Detected(data, reference, s, candidates[..k], regions)
    {
      var clamped := ClampDamageRegion(candidates[k], s.width, s.height);
      ghost var before := regions;
      if clamped.Some? {
        regions := ScanCandidate(data, reference, s, clamped.value, regions);
      }
      DetectedStep(data, reference, s, candidates, k, before, regions);
      k := k + 1;
    }
    assert candidates[..k] == candidates;
  }

  class FrameDiffDamageDetector {
    var reference: Option<seq<u8>>
    var referenceStride: nat

    constructor ()
      ensures reference == None && referenceStride == 0
    {
      reference, referenceStride := None, 0;
    }

    /** The reference was taken from a frame of this layout. */
    ghost predicate Usable(s: Shape)
      reads this
    {
      reference.Some? && referenceStride == s.stride && Fits(reference.value, s)
    }

    method Invalidate()
      modifies this
      ensures reference == None && referenceStride == 0
    {
      reference, referenceStride := None, 0;
    }

    method UpdateReference(data: seq<u8>, height: nat, stride: nat)
      modifies this
      ensures referenceStride == stride
      ensures reference.Some? && reference.value <= data
      ensures |reference.value| == Min(stride * height, |data|)
    {
      var len := Min(stride * height, |data|);
      reference := Some(data[..len]);
      referenceStride := stride;
    }

    method UpdateReferenceRegions(data: seq<u8>, s: Shape, regions: seq<Region>)
      requires Fits(data, s)
      modifies this
      ensures Usable(s)
      ensures old(Usable(s)) ==> Committed(old(reference).value, data, s, regions, reference.value)
      ensures !old(Usable(s)) ==> SamePicture(reference.value, data, s)
    {
      var frameLen := s.stride * s.height;
      if referenceStride != s.stride || reference.None? || |reference.value| < frameLen {
        UpdateReference(data, s.height, s.stride);
        PrefixShowsSame(reference.value, data, s);
        return;
      }
      var updated := CommitRegions(reference.value, data, s, regions);
      reference := Some(updated);
    }

    method Detect(data: seq<u8>, s: Shape, candidates: seq<Region>) returns (regions: seq<Region>)
      requires s.Valid()
      ensures Usable(s) && Fits(data, s) ==> Detected(data, reference.value, s, candidates, regions)
      ensures !(Usable(s) && Fits(data, s)) ==> regions == [s.Full()]
    {
      var frameLen := s.stride * s.height;
      if reference.None? || referenceStride != s.stride || |reference.value| < frameLen || |data| < frameLen {
        return [s.Full()];
      }
      regions := ScanCandidates(data, reference.value, s, candidates);
    }
  }

  lemma PrefixShowsSame(a: seq<u8>, b: seq<u8>, s: Shape)
    requires Fits(a, s) && Fits(b, s) && a <= b
    ensures SamePicture(a, b, s)
  {
    forall px: int, py: int | s.HasPixel(px, py)
      ensures SamePixel(a, b, s, px, py)
    {
      OffsetInBounds(s, px, py);
    }
  }

  /** Copying the clamped part of a region commits the region. */
  lemma CommitClamped(before: seq<u8>, data: seq<u8>, s: Shape, r: Region, after: seq<u8>)
    requires Fits(before, s) && Fits(data, s)
    requires var c := ClampDamageRegion(r, s.width, s.height);
             if c.Some? then Committed(before, data, s, [c.value], after) else after == before
    ensures Committed(before, data, s, [r], after)
  {
    var c := ClampDamageRegion(r, s.width, s.height);
    forall px: int, py: int | s.HasPixel(px, py)
      ensures Covers([r], px, py) <==> c.Some? && Covers([c.value], px, py)
    {
      assert Covers([r], px, py) <==> [r][0].Has(px, py);
      if c.Some? {
        assert Covers([c.value], px, py) <==> [c.value][0].Has(px, py);
      }
    }
  }

  lemma DetectedStep(data: seq<u8>, reference: seq<u8>, s: Shape, candidates: seq<Region>, k: nat,
                     before: seq<Region>, after: seq<Region>)
    requires Fits(data, s) && Fits(reference, s) && k < |candidates|
    requires Detected(data, reference, s, candidates[..k], before)
    requires var c := ClampDamageRegion(candidates[k], s.width, s.height);
             if c.None? then after == before
             else AddsChangedTiles(data, reference, s, c.value, before, after) && CoversChanges(data, reference, s, c.value, after)
    ensures Detected(data, reference, s, candidates[..k + 1], after)
  {
    var c := ClampDamageRegion(candidates[k], s.width, s.height);
    forall i | 0 <= i < |after|
      ensures ReportedTile(data, reference, s, candidates[..k + 1], after[i])
    {
      if i < |before| {
        assert ReportedTile(data, reference, s, candidates[..k], before[i]);
        var j :| 0 <= j < k && Within(before[i], candidates[..k][j]);
        assert candidates[..k + 1][j] == candidates[..k][j];
      } else {
        assert Within(c.value, candidates[k]) && candidates[..k + 1][k] == candidates[k];
      }
    }
    forall px: int, py: int | s.HasPixel(px, py) && Covers(candidates[..k + 1], px, py) && !SamePixel(data, reference, s, px, py)
      ensures Covers(after, px, py)
    {
      assert candidates[..k + 1] == candidates[..k] + [candidates[k]];
      CoversAppend(candidates[..k], candidates[k], px, py);
      if Covers(candidates[..k], px, py) {
        CoversPrefix(before, after, px, py);
      }
    }
  }

  lemma CommitMatchesCandidates(data: seq<u8>, reference: seq<u8>, s: Shape, candidates: seq<Region>,
                                regions: seq<Region>, reference': seq<u8>, px: int, py: int)
    requires Fits(data, s) && Fits(reference, s) && s.HasPixel(px, py) && Covers(candidates, px, py)
    requires Detected(data, reference, s, candidates, regions)
    requires Committed(reference, data, s, regions, reference')
    ensures SamePixel(data, reference', s, px, py)
  {
    assert Covers(regions, px, py) || SamePixel(data, reference, s, px, py);
  }

  /** Committing what was detected leaves nothing to detect in the same candidates. */
  lemma CommitSilencesDetect(data: seq<u8>, reference: seq<u8>, s: Shape, candidates: seq<Region>,
                             regions: seq<Region>, reference': seq<u8>, again: seq<Region>)
    requires Fits(data, s) && Fits(reference, s)
    requires Detected(data, reference, s, candidates, regions)
    requires Committed(reference, data, s, regions, reference')
    requires Detected(data, reference', s, candidates, again)
    ensures again == []
  {
    forall px: int, py: int | s.HasPixel(px, py) && Covers(candidates, px, py)
      ensures SamePixel(data, reference', s, px, py)
    {
      CommitMatchesCandidates(data, reference, s, candidates, regions, reference', px, py);
    }
    NothingToReport(data, reference', s, candidates, again);
  }

  lemma NothingToReport(data: seq<u8>, reference: seq<u8>, s: Shape, candidates: seq<Region>, regions: seq<Region>)
    requires Fits(data, s) && Fits(reference, s)
    requires Detected(data, reference, s, candidates, regions)
    requires forall px: int, py: int :: s.HasPixel(px, py) && Covers(candidates, px, py) ==> SamePixel(data, reference, s, px, py)
    ensures regions == []
  {
    if regions != [] {
      ReportedPixel(data, reference, s, candidates, regions[0]);
    }
  }

  /** A reported tile holds a changed pixel that some candidate covers. */
  lemma ReportedPixel(data: seq<u8>, reference: seq<u8>, s: Shape, candidates: seq<Region>, tile: Region)
    requires Fits(data, s) && Fits(reference, s)
    requires ReportedTile(data, reference, s, candidates, tile)
    ensures exists px: int, py: int :: s.HasPixel(px, py) && Covers(candidates, px, py) && !SamePixel(data, reference, s, px, py)
  {
    var px, py :| tile.Has(px, py) && !SamePixel(data, reference, s, px, py);
    var j :| 0 <= j < |candidates| && Within(tile, candidates[j]);
    assert candidates[j].Has(px, py);
    assert s.HasPixel(px, py) && Covers(candidates, px, py);
  }
}

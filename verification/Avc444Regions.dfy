/**
 Region arithmetic of the AVC444v2 encoder (src/egfx/avc444.rs).

 Protocol regions are rectangles of the picture.  They are aligned to 4 by 2 pixels, the
 smallest block whose chroma the auxiliary planes store in whole cells.  Packed regions are
 rectangles of the auxiliary luma plane, whose left half holds U and whose right half holds V.
 */
module Avc444Regions {
  import opened Arithmetic
  import opened Avc444Layout
  import opened Damage
  import opened Regions

  /** The dimensions an encoder is built for, and that its regions can express. */
  predicate FrameSize(width: nat, height: nat) {
    DimensionsSupported(width, height) && width <= I32_MAX && height <= I32_MAX
  }

  function AlignDown(value: i32, alignment: i32): int
    requires 0 < alignment
  {
    value - value % alignment
  }

  function AlignUp(value: i32, alignment: i32): i32
    requires 0 < alignment
  {
    var rem := value % alignment;
    if rem == 0 then value else SatAdd(value, alignment - rem)
  }

  /** All four edges are on the grid. */
  predicate Aligned(r: Region) {
    r.x % 4 == 0 && (r.x + r.w) % 4 == 0 && r.y % 2 == 0 && (r.y + r.h) % 2 == 0
  }

  ghost predicate AllAligned(regions: seq<Region>) {
    forall i :: 0 <= i < |regions| ==> Aligned(regions[i])
  }

  // ----- alignment

  /** Where a span of one axis starts and ends once it is cut to `0..limit` and aligned outwards. */
  function SpanStart(pos: i32, limit: i32, alignment: i32): int
    requires 0 <= limit && 0 < alignment
  {
    AlignDown(Clamp(pos, 0, limit), alignment)
  }

  function SpanEnd(pos: i32, size: i32, limit: i32, alignment: i32): int
    requires 0 <= limit && 0 < alignment
  {
    Clamp(AlignUp(Clamp(SatAdd(pos, size), 0, limit), alignment), 0, limit)
  }

  function AlignRegion(r: Region, width: nat, height: nat): Option<Region>
    requires FrameSize(width, height)
  {
    if r.w <= 0 || r.h <= 0 then None
    else
      var left := SpanStart(r.x, width, 4);
      var top := SpanStart(r.y, height, 2);
      var right := SpanEnd(r.x, r.w, width, 4);
      var bottom := SpanEnd(r.y, r.h, height, 2);
      if 0 <= left < right <= width && 0 <= top < bottom <= height
      then Some(Region(left, top, right - left, bottom - top)) else None
  }

  lemma AlignedBy4(v: i32, limit: i32)
    requires 0 <= v <= limit && limit % 4 == 0
    ensures AlignDown(v, 4) % 4 == 0 && 0 <= AlignDown(v, 4) <= v < AlignDown(v, 4) + 4
    ensures AlignUp(v, 4) % 4 == 0 && AlignUp(v, 4) - 4 < v <= AlignUp(v, 4) <= limit
  {
    assert v == 4 * (v / 4) + v % 4 && limit == 4 * (limit / 4);
  }

  lemma AlignedBy2(v: i32, limit: i32)
    requires 0 <= v <= limit && limit % 2 == 0
    ensures AlignDown(v, 2) % 2 == 0 && 0 <= AlignDown(v, 2) <= v < AlignDown(v, 2) + 2
    ensures AlignUp(v, 2) % 2 == 0 && AlignUp(v, 2) - 2 < v <= AlignUp(v, 2) <= limit
  {
    assert v == 2 * (v / 2) + v % 2 && limit == 2 * (limit / 2);
  }

  /** A multiple of the alignment, which is 4 or 2. */
  ghost predicate Multiple(v: int, alignment: int) {
    if alignment == 4 then v % 4 == 0 else v % 2 == 0
  }

  /** Aligning down rounds down to a multiple, aligning up rounds up to one. */
  lemma AlignedBounds(v: i32, limit: i32, alignment: i32)
    requires alignment == 4 || alignment == 2
    requires 0 <= v <= limit && Multiple(limit, alignment)
    ensures Multiple(AlignDown(v, alignment), alignment) && Multiple(AlignUp(v, alignment), alignment)
    ensures 0 <= AlignDown(v, alignment) <= v < AlignDown(v, alignment) + alignment
    ensures AlignUp(v, alignment) - alignment < v <= AlignUp(v, alignment) <= limit
  {
    if alignment == 4 {
      AlignedBy4(v, limit);
    } else {
      AlignedBy2(v, limit);
    }
  }

  lemma NoneBelow(a: int, b: int, alignment: int)
    requires alignment == 4 || alignment == 2
    requires Multiple(a, alignment) && Multiple(b, alignment) && a < b + alignment
    ensures a <= b
  {
  }

  lemma SpanIsAligned(pos: i32, size: i32, limit: i32, alignment: i32)
    requires alignment == 4 || alignment == 2
    requires 0 < size && 0 <= limit && Multiple(limit, alignment)
    ensures var lo, hi := Clamp(pos, 0, limit), Clamp(SatAdd(pos, size), 0, limit);
            var start, end := SpanStart(pos, limit, alignment), SpanEnd(pos, size, limit, alignment);
            && 0 <= start <= lo < start + alignment && end - alignment < hi <= end <= limit
            && Multiple(start, alignment) && Multiple(end, alignment)
            && (lo < hi <==> start < end)
  {
    var lo, hi := Clamp(pos, 0, limit), Clamp(SatAdd(pos, size), 0, limit);
    AlignedBounds(lo, limit, alignment);
    AlignedBounds(hi, limit, alignment);
    if hi <= lo {
      assert hi == lo == 0 || hi == lo == limit;
    }
  }

  /** One axis of `AlignedIsSmallest`. */
  lemma SpanIsSmallest(pos: i32, size: i32, limit: i32, alignment: i32, lo: int, hi: int)
    requires alignment == 4 || alignment == 2
    requires 0 < size && 0 <= limit && Multiple(limit, alignment)
    requires Multiple(lo, alignment) && Multiple(hi, alignment)
    requires lo <= Clamp(pos, 0, limit) && Clamp(SatAdd(pos, size), 0, limit) <= hi
    ensures lo <= SpanStart(pos, limit, alignment) && SpanEnd(pos, size, limit, alignment) <= hi
  {
    SpanIsAligned(pos, size, limit, alignment);
    NoneBelow(lo, SpanStart(pos, limit, alignment), alignment);
    NoneBelow(SpanEnd(pos, size, limit, alignment), hi, alignment);
  }

  lemma SpanBounds(pos: i32, size: i32, limit: i32, alignment: i32)
    requires alignment == 4 || alignment == 2
    requires 0 < size && 0 <= limit && Multiple(limit, alignment)
    ensures 0 <= SpanStart(pos, limit, alignment) <= Clamp(pos, 0, limit)
    ensures Clamp(SatAdd(pos, size), 0, limit) <= SpanEnd(pos, size, limit, alignment) <= limit
    ensures Clamp(pos, 0, limit) < Clamp(SatAdd(pos, size), 0, limit) <==>
            SpanStart(pos, limit, alignment) < SpanEnd(pos, size, limit, alignment)
  {
    SpanIsAligned(pos, size, limit, alignment);
  }

  lemma AlignedIsInFrame(r: Region, width: nat, height: nat)
    requires FrameSize(width, height)
    ensures AlignRegion(r, width, height).Some? == ClampDamageRegion(r, width, height).Some?
    ensures AlignRegion(r, width, height).Some? ==>
              && AlignRegion(r, width, height).value.InFrame(width, height)
              && Within(ClampDamageRegion(r, width, height).value, AlignRegion(r, width, height).value)
  {
    if 0 < r.w && 0 < r.h {
      SpanBounds(r.x, r.w, width, 4);
      SpanBounds(r.y, r.h, height, 2);
    }
  }

  lemma AlignedIsAligned(r: Region, width: nat, height: nat)
    requires FrameSize(width, height) && AlignRegion(r, width, height).Some?
    ensures Aligned(AlignRegion(r, width, height).value)
  {
    hide SpanStart, SpanEnd;
    SpanIsAligned(r.x, r.w, width, 4);
    SpanIsAligned(r.y, r.h, height, 2);
  }

  /** The aligned region is the smallest aligned rectangle around the part that is in the frame. */
  lemma AlignedIsSmallest(r: Region, width: nat, height: nat, box: Region)
    requires FrameSize(width, height)
    requires ClampDamageRegion(r, width, height).Some? && AlignRegion(r, width, height).Some?
    requires Aligned(box) && Within(ClampDamageRegion(r, width, height).value, box)
    ensures Within(AlignRegion(r, width, height).value, box)
  {
    hide SpanStart, SpanEnd;
    SpanIsSmallest(r.x, r.w, width, 4, box.x, box.x + box.w);
    SpanIsSmallest(r.y, r.h, height, 2, box.y, box.y + box.h);
  }

  lemma AlignedPixels(r: Region, width: nat, height: nat, px: int, py: int)
    requires FrameSize(width, height)
    requires r.Has(px, py) && 0 <= px < width && 0 <= py < height
    ensures AlignRegion(r, width, height).Some? && AlignRegion(r, width, height).value.Has(px, py)
  {
    AlignedIsInFrame(r, width, height);
  }

  lemma AlignedIsKept(r: Region, width: nat, height: nat)
    requires FrameSize(width, height) && r.InFrame(width, height) && Aligned(r)
    ensures AlignRegion(r, width, height) == Some(r)
  {
    AlignedIsInFrame(r, width, height);
    AlignedIsSmallest(r, width, height, r);
  }

  // ----- merging

  predicate RegionsOverlapOrTouch(a: Region, b: Region) {
    a.x <= SatAdd(b.x, b.w) && b.x <= SatAdd(a.x, a.w) && a.y <= SatAdd(b.y, b.h) && b.y <= SatAdd(a.y, a.h)
  }

  ghost predicate TouchesNone(regions: seq<Region>, region: Region) {
    forall i :: 0 <= i < |regions| ==> !RegionsOverlapOrTouch(regions[i], region)
  }

  lemma UnionStaysAligned(a: Region, b: Region, width: nat, height: nat)
    requires width <= I32_MAX && height <= I32_MAX
    requires a.InFrame(width, height) && b.InFrame(width, height)
    requires Aligned(a) && Aligned(b)
    ensures Aligned(UnionRegion(a, b))
  {
    var u := UnionRegion(a, b);
    assert u.x + u.w == Max(a.x + a.w, b.x + b.w) && u.y + u.h == Max(a.y + a.h, b.y + b.h);
  }

  /** The hull of aligned regions is aligned. */
  lemma {:induction false} HullStaysAligned(seed: Region, absorbed: seq<Region>, width: nat, height: nat)
    requires width <= I32_MAX && height <= I32_MAX
    requires seed.InFrame(width, height) && AllInFrame(absorbed, width, height)
    requires Aligned(seed) && AllAligned(absorbed)
    ensures Aligned(Hull(seed, absorbed, width, height))
    decreases |absorbed|
  {
    if absorbed == [] {
    } else {
      HullStaysAligned(seed, absorbed[..|absorbed| - 1], width, height);
      UnionStaysAligned(absorbed[|absorbed| - 1], Hull(seed, absorbed[..|absorbed| - 1], width, height), width, height);
    }
  }

  lemma PartsOfMultiset(whole: seq<Region>, a: seq<Region>, b: seq<Region>, i: nat)
    requires multiset(whole) == multiset(a) + multiset(b)
    ensures i < |a| ==> a[i] in whole
    ensures i < |b| ==> b[i] in whole
  {
    if i < |a| {
      assert a[i] in multiset(a);
      assert a[i] in multiset(whole);
    }
    if i < |b| {
      assert b[i] in multiset(b);
      assert b[i] in multiset(whole);
    }
  }

  /** Aligned regions stay aligned, however they were merged. */
  lemma MergeStaysAligned(regions: seq<Region>, region: Region, rest: seq<Region>, absorbed: seq<Region>,
                          merged: Region, width: nat, height: nat)
    requires MergeState(regions, region, rest, absorbed, merged, width, height)
    requires AllAligned(regions) && Aligned(region)
    ensures AllAligned(rest + [merged])
  {
    forall i | 0 <= i < |rest|
      ensures Aligned(rest[i])
    {
      PartsOfMultiset(regions, rest, absorbed, i);
    }
    forall i | 0 <= i < |absorbed|
      ensures Aligned(absorbed[i])
    {
      PartsOfMultiset(regions, rest, absorbed, i);
    }
    HullStaysAligned(region, absorbed, width, height);
  }

  /** Nothing leaves a rectangle that held everything before. */
  lemma MergeStaysWithin(regions: seq<Region>, region: Region, rest: seq<Region>, absorbed: seq<Region>,
                         merged: Region, box: Region, width: nat, height: nat)
    requires MergeState(regions, region, rest, absorbed, merged, width, height)
    requires AllWithin(regions, box) && Within(region, box)
    ensures AllWithin(rest + [merged], box)
  {
    forall i | 0 <= i < |rest|
      ensures Within(rest[i], box)
    {
      PartsOfMultiset(regions, rest, absorbed, i);
    }
    forall i | 0 <= i < |absorbed|
      ensures Within(absorbed[i], box)
    {
      PartsOfMultiset(regions, rest, absorbed, i);
    }
    HullIsSmallest(region, absorbed, box, width, height);
  }

  lemma OneMoreUntouched(rest: seq<Region>, n: nat, region: Region, merged: Region, width: nat, height: nat)
    requires width <= I32_MAX && height <= I32_MAX
    requires n < |rest| && AllInFrame(rest, width, height) && region.InFrame(width, height) && merged.InFrame(width, height)
    requires TouchesNone(rest[..n], region) && Within(region, merged) && !RegionsOverlapOrTouch(rest[n], merged)
    ensures TouchesNone(rest[..n + 1], region)
  {
    assert !RegionsOverlapOrTouch(rest[n], region);
    assert rest[..n + 1] == rest[..n] + [rest[n]];
  }

  lemma UntouchedAfterRemove(regions: seq<Region>, rest: seq<Region>, n: nat, region: Region, merged: Region)
    requires n < |rest| && TouchesNone(rest[..n], region) && RegionsOverlapOrTouch(rest[n], merged)
    requires TouchesNone(regions, region) ==> rest == regions && merged == region
    ensures TouchesNone(SwapRemove(rest, n)[..n], region)
    ensures !TouchesNone(regions, region)
  {
    assert SwapRemove(rest, n)[..n] == rest[..n];
  }

  /** What the merge loop makes of the rest of its work; it only serves to say that merging is deterministic. */
  ghost function MergeFrom(rest: seq<Region>, merged: Region, index: nat, width: nat, height: nat): seq<Region>
    requires width <= I32_MAX && height <= I32_MAX
    requires index <= |rest| && AllInFrame(rest, width, height) && merged.InFrame(width, height)
    decreases |rest| - index
  {
    if index == |rest| then rest + [merged]
    else if RegionsOverlapOrTouch(rest[index], merged)
    then MergeFrom(SwapRemove(rest, index), UnionRegion(rest[index], merged), index, width, height)
    else MergeFrom(rest, merged, index + 1, width, height)
  }

  /**
   Adds `region`, absorbing what touches the growing rectangle, so that nothing that touches the new
   region survives.  Nothing covered is lost, aligned regions stay aligned, and everything stays inside
   whatever rectangle held it.
   */
  method MergeRegion(regions: seq<Region>, region: Region, ghost box: Region, ghost width: nat, ghost height: nat)
    returns (out: seq<Region>)
    requires width <= I32_MAX && height <= I32_MAX
    requires AllInFrame(regions, width, height) && region.InFrame(width, height)
    ensures 0 < |out| && AllInFrame(out, width, height)
    ensures forall px: int, py: int :: Covers(regions, px, py) || region.Has(px, py) ==> Covers(out, px, py)
    ensures AllAligned(regions) && Aligned(region) ==> AllAligned(out)
    ensures AllWithin(regions, box) && Within(region, box) ==> AllWithin(out, box)
    ensures TouchesNone(regions, region) ==> out == regions + [region]
    ensures TouchesNone(out[..|out| - 1], region)
    ensures out == MergeFrom(regions, region, 0, width, height)
  {
    var rest := regions;
    var merged := region;
    var index := 0;
    ghost var absorbed := [];
    while index < |rest|
      invariant 0 <= index <= |rest|
      invariant MergeState(regions, region, rest, absorbed, merged, width, height)
      invariant AllInFrame(rest, width, height) && merged.InFrame(width, height)
      invariant TouchesNone(regions, region) ==> rest == regions && merged == region
      invariant TouchesNone(rest[..index], region)
      invariant MergeFrom(rest, merged, index, width, height) == MergeFrom(regions, region, 0, width, height)
      decreases |rest| - index
    {
      hide MergeState, RegionsOverlapOrTouch, UnionRegion, SwapRemove, TouchesNone;
      MergeStateBounds(regions, region, rest, absorbed, merged, width, height);
      if RegionsOverlapOrTouch(rest[index], merged) {
        UntouchedAfterRemove(regions, rest, index, region, merged);
        AbsorbOne(regions, region, rest, absorbed, merged, index, width, height);
        absorbed := absorbed + [rest[index]];
        merged := UnionRegion(rest[index], merged);
        rest := SwapRemove(rest, index);
        MergeStateBounds(regions, region, rest, absorbed, merged, width, height);
      } else {
        OneMoreUntouched(rest, index, region, merged, width, height);
        index := index + 1;
      }
    }
    out := rest + [merged];
    assert out[..|out| - 1] == rest == rest[..index];
    assert out == MergeFrom(rest, merged, index, width, height);
    hide *;
    MergeRegionDone(regions, region, rest, absorbed, merged, box, width, height);
  }

  lemma MergeRegionDone(regions: seq<Region>, region: Region, rest: seq<Region>, absorbed: seq<Region>, merged: Region,
                        box: Region, width: nat, height: nat)
    requires AllInFrame(regions, width, height) && MergeState(regions, region, rest, absorbed, merged, width, height)
    ensures var out := rest + [merged];
            && AllInFrame(out, width, height)
            && (forall px: int, py: int :: Covers(regions, px, py) || region.Has(px, py) ==> Covers(out, px, py))
            && (AllAligned(regions) && Aligned(region) ==> AllAligned(out))
            && (AllWithin(regions, box) && Within(region, box) ==> AllWithin(out, box))
  {
    MergeStateBounds(regions, region, rest, absorbed, merged, width, height);
    MergeCovers(regions, region, rest, absorbed, width, height);
    hide Covers, Aligned, Within, AllAligned, AllWithin;
    if AllAligned(regions) && Aligned(region) {
      MergeStaysAligned(regions, region, rest, absorbed, merged, width, height);
    }
    if AllWithin(regions, box) && Within(region, box) {
      MergeStaysWithin(regions, region, rest, absorbed, merged, box, width, height);
    }
  }

  /** The regions have no pixel in the frame. */
  ghost predicate NoneInFrame(regions: seq<Region>, width: nat, height: nat) {
    forall i :: 0 <= i < |regions| ==> ClampDamageRegion(regions[i], width, height).None?
  }

  ghost predicate ClampedWithin(regions: seq<Region>, box: Region, width: nat, height: nat) {
    forall i :: 0 <= i < |regions| && ClampDamageRegion(regions[i], width, height).Some? ==>
      Within(ClampDamageRegion(regions[i], width, height).value, box)
  }

  ghost predicate CoversInFrame(regions: seq<Region>, out: seq<Region>, width: nat, height: nat) {
    forall px: int, py: int :: 0 <= px < width && 0 <= py < height && Covers(regions, px, py) ==> Covers(out, px, py)
  }

  /** The list after the first `k` regions were aligned and merged. */
  ghost predicate AlignedList(regions: seq<Region>, aligned: seq<Region>, width: nat, height: nat)
    requires FrameSize(width, height)
    decreases |regions|
  {
    if regions == [] then aligned == []
    else
      var a := AlignRegion(regions[|regions| - 1], width, height);
      exists before: seq<Region> ::
        && AlignedList(regions[..|regions| - 1], before, width, height)
        && if a.None? then aligned == before
           else AllInFrame(before, width, height) && a.value.InFrame(width, height) &&
                aligned == MergeFrom(before, a.value, 0, width, height)
  }

  /** Aligning a list has one result. */
  lemma {:induction false} AlignedListIsUnique(regions: seq<Region>, a: seq<Region>, b: seq<Region>, width: nat, height: nat)
    requires FrameSize(width, height)
    requires AlignedList(regions, a, width, height) && AlignedList(regions, b, width, height)
    ensures a == b
    decreases |regions|
  {
    hide AlignRegion, MergeFrom;
    if regions == [] {
    } else {
      var r := AlignRegion(regions[|regions| - 1], width, height);
      var front := regions[..|regions| - 1];
      var a0 :| AlignedList(front, a0, width, height) &&
                if r.None? then a == a0
                else AllInFrame(a0, width, height) && r.value.InFrame(width, height) && a == MergeFrom(a0, r.value, 0, width, height);
      var b0 :| AlignedList(front, b0, width, height) &&
                if r.None? then b == b0
                else AllInFrame(b0, width, height) && r.value.InFrame(width, height) && b == MergeFrom(b0, r.value, 0, width, height);
      AlignedListIsUnique(front, a0, b0, width, height);
    }
  }

  lemma AlignedListStep(regions: seq<Region>, k: nat, before: seq<Region>, after: seq<Region>, width: nat, height: nat)
    requires FrameSize(width, height) && k < |regions|
    requires AlignedList(regions[..k], before, width, height) && AllInFrame(before, width, height)
    requires AlignRegion(regions[k], width, height).Some? ==> AlignRegion(regions[k], width, height).value.InFrame(width, height)
    requires var a := AlignRegion(regions[k], width, height);
             if a.None? then after == before else after == MergeFrom(before, a.value, 0, width, height)
    ensures AlignedList(regions[..k + 1], after, width, height)
  {
    hide AlignRegion, MergeFrom;
    assert regions[..k + 1][..k] == regions[..k];
  }

  /**
   `align_regions` with the 4 by 2 alignment: the result covers every reported pixel of the frame
   and stays inside any aligned rectangle that holds them all.
   */
  method AlignRegions(width: nat, height: nat, regions: seq<Region>, ghost box: Region) returns (aligned: seq<Region>)
    requires FrameSize(width, height)
    ensures AllInFrame(aligned, width, height) && AllAligned(aligned)
    ensures CoversInFrame(regions, aligned, width, height)
    ensures aligned == [] <==> NoneInFrame(regions, width, height)
    ensures Aligned(box) && ClampedWithin(regions, box, width, height) ==> AllWithin(aligned, box)
    ensures AlignedList(regions, aligned, width, height)
  {
    hide AlignRegion, Aligned, ClampDamageRegion, MergeFrom;
    aligned := [];
    var k := 0;
    while k < |regions|
      invariant 0 <= k <= |regions|
      invariant AllInFrame(aligned, width, height) && AllAligned(aligned)
      invariant CoversInFrame(regions[..k], aligned, width, height)
      invariant aligned == [] <==> NoneInFrame(regions[..k], width, height)
      invariant AlignedList(regions[..k], aligned, width, height)
      invariant Aligned(box) && ClampedWithin(regions, box, width, height) ==> AllWithin(aligned, box)
    {
      var a := AlignRegion(regions[k], width, height);
      AlignedIsInFrame(regions[k], width, height);
      if a.Some? {
        AlignedIsAligned(regions[k], width, height);
      }
      ghost var before := aligned;
      if a.Some? {
        if Aligned(box) && ClampedWithin(regions, box, width, height) {
          AlignedIsSmallest(regions[k], width, height, box);
        }
        aligned := MergeRegion(aligned, a.value, box, width, height);
      }
      AlignedListStep(regions, k, before, aligned, width, height);
      AlignedSoFar(regions, k, before, aligned, width, height);
      k := k + 1;
    }
    assert regions[..k] == regions;
  }

  lemma AlignedSoFar(regions: seq<Region>, k: nat, before: seq<Region>, after: seq<Region>, width: nat, height: nat)
    requires FrameSize(width, height) && k < |regions|
    requires CoversInFrame(regions[..k], before, width, height)
    requires before == [] <==> NoneInFrame(regions[..k], width, height)
    requires var a := AlignRegion(regions[k], width, height);
             if a.None? then after == before
             else 0 < |after| &&
                  forall px: int, py: int :: Covers(before, px, py) || a.value.Has(px, py) ==> Covers(after, px, py)
    ensures CoversInFrame(regions[..k + 1], after, width, height)
    ensures after == [] <==> NoneInFrame(regions[..k + 1], width, height)
  {
    assert regions[..k + 1] == regions[..k] + [regions[k]];
    AlignedIsInFrame(regions[k], width, height);
    forall px: int, py: int | 0 <= px < width && 0 <= py < height && Covers(regions[..k + 1], px, py)
      ensures Covers(after, px, py)
    {
      CoversAppend(regions[..k], regions[k], px, py);
      if !Covers(regions[..k], px, py) {
        AlignedPixels(regions[k], width, height, px, py);
      }
    }
    assert regions[..k + 1][k] == regions[k];
    assert forall i :: 0 <= i < k ==> regions[..k + 1][i] == regions[..k][i];
  }

  // ----- packed coordinates

  /** `div_ceil(2)`. */
  function HalfUp(v: int): int { (v + 1) / 2 }

  /** The cell of a half-size plane that some pixel of the region falls on. */
  predicate HalfHas(r: Region, cx: int, cy: int) {
    0 < r.w && 0 < r.h && r.x / 2 <= cx < HalfUp(r.x + r.w) && r.y / 2 <= cy < HalfUp(r.y + r.h)
  }

  /** A cell of any plane, when the region is given in the coordinates of the luma-sized plane. */
  ghost predicate RegionHasCell(p: Plane, r: Region, x: int, y: int) {
    if p.Y444? || p.AuxY? then r.Has(x, y) else HalfHas(r, x, y)
  }

  ghost predicate RegionsHaveCell(p: Plane, regions: seq<Region>, x: int, y: int) {
    exists i :: 0 <= i < |regions| && RegionHasCell(p, regions[i], x, y)
  }

  predicate IsAux(p: Plane) { p.AuxY? || p.AuxU? || p.AuxV? }

  /** The two rectangles of the auxiliary luma plane that hold the U and the V of a region. */
  function PackedCandidates(width: nat, height: nat, region: Region): (out: seq<Region>)
    requires FrameSize(width, height)
    ensures AllInFrame(out, width, height)
  {
    var clamped := ClampDamageRegion(region, width, height);
    if clamped.None? then []
    else
      var c := clamped.value;
      var packedLeft := c.x / 2;
      var packedWidth := HalfUp(c.x + c.w) - packedLeft;
      if packedWidth <= 0 then []
      else
        [Region(packedLeft, c.y, packedWidth, c.h), Region(width / 2 + packedLeft, c.y, packedWidth, c.h)]
  }

  lemma PackedAlignedCandidates(width: nat, height: nat, r: Region)
    requires FrameSize(width, height) && r.InFrame(width, height) && Aligned(r)
    ensures var i, j, q := r.x / 4, (r.x + r.w) / 4, width / 4;
            && r.x == 4 * i && r.x + r.w == 4 * j && width == 4 * q
            && PackedCandidates(width, height, r) ==
               [Region(2 * i, r.y, 2 * (j - i), r.h), Region(2 * q + 2 * i, r.y, 2 * (j - i), r.h)]
  {
  }

  /** Columns of the auxiliary luma plane: the span `4i..4j` of a picture `4q` wide. */
  lemma PackedColumn(i: int, j: int, q: int, x: int)
    requires 0 <= i < j <= q && 0 <= x < 4 * q
    ensures 2 * i <= x < 2 * j || 2 * q + 2 * i <= x < 2 * q + 2 * j <==>
            4 * i <= 2 * (if x < 2 * q then x else x - 2 * q) + 1 < 4 * j
  {
  }

  /** Columns of the auxiliary chroma planes. */
  lemma PackedHalfColumn(i: int, j: int, q: int, x: int)
    requires 0 <= i < j <= q && 0 <= x < 2 * q
    ensures var home := if x < q then x else x - q;
            && (i <= x < j || q + i <= x < q + j <==> 4 * i <= 4 * home < 4 * j)
            && (i <= x < j || q + i <= x < q + j <==> 4 * i <= 4 * home + 2 < 4 * j)
  {
  }

  /** The half-size cells of a rectangle with even edges. */
  lemma EvenHalfHas(r: Region, left: int, right: int, x: int, y: int)
    requires r.x == 2 * left && r.x + r.w == 2 * right && left < right
    requires 0 < r.h && r.y % 2 == 0 && (r.y + r.h) % 2 == 0
    ensures HalfHas(r, x, y) <==> left <= x < right && r.y <= 2 * y + 1 < r.y + r.h
  {
  }

  lemma EitherHasCell(p: Plane, a: Region, b: Region, x: int, y: int)
    ensures RegionsHaveCell(p, [a, b], x, y) <==> RegionHasCell(p, a, x, y) || RegionHasCell(p, b, x, y)
  {
    assert [a, b][0] == a && [a, b][1] == b;
  }

  lemma PackedLumaCells(width: nat, height: nat, r: Region, x: int, y: int)
    requires FrameSize(width, height) && r.InFrame(width, height) && Aligned(r)
    requires HasCell(AuxY, width, height, x, y)
    ensures RegionsHaveCell(AuxY, PackedCandidates(width, height, r), x, y) <==>
            r.Has(HomeX(AuxY, width, x), HomeY(AuxY, y))
  {
    PackedAlignedCandidates(width, height, r);
    HalvesAndQuarters(width, height);
    var i, j, q := r.x / 4, (r.x + r.w) / 4, width / 4;
    hide FrameSize, Aligned;
    EitherHasCell(AuxY, Region(2 * i, r.y, 2 * (j - i), r.h), Region(2 * q + 2 * i, r.y, 2 * (j - i), r.h), x, y);
    hide PackedCandidates, RegionsHaveCell;
    PackedColumn(i, j, q, x);
  }

  lemma PackedChromaCells(width: nat, height: nat, r: Region, p: Plane, x: int, y: int)
    requires FrameSize(width, height) && r.InFrame(width, height) && Aligned(r)
    requires p.AuxU? || p.AuxV?
    requires HasCell(p, width, height, x, y)
    ensures RegionsHaveCell(p, PackedCandidates(width, height, r), x, y) <==> r.Has(HomeX(p, width, x), HomeY(p, y))
  {
    PackedAlignedCandidates(width, height, r);
    HalvesAndQuarters(width, height);
    var i, j, q := r.x / 4, (r.x + r.w) / 4, width / 4;
    var first, second := Region(2 * i, r.y, 2 * (j - i), r.h), Region(2 * q + 2 * i, r.y, 2 * (j - i), r.h);
    EvenHalfHas(first, i, j, x, y);
    EvenHalfHas(second, q + i, q + j, x, y);
    hide PackedCandidates, Aligned, FrameSize, HalfHas;
    EitherHasCell(p, first, second, x, y);
    PackedHalfColumn(i, j, q, x);
  }

  /**
   For an aligned region, the packed candidates hold exactly the auxiliary cells whose home pixel
   is in the region: the cells that converting the region writes.
   */
  lemma PackedCandidatesAreExact(width: nat, height: nat, r: Region, p: Plane, x: int, y: int)
    requires FrameSize(width, height) && r.InFrame(width, height) && Aligned(r)
    requires IsAux(p) && HasCell(p, width, height, x, y)
    ensures RegionsHaveCell(p, PackedCandidates(width, height, r), x, y) <==> r.Has(HomeX(p, width, x), HomeY(p, y))
  {
    if p.AuxY? {
      PackedLumaCells(width, height, r, x, y);
    } else {
      PackedChromaCells(width, height, r, p, x, y);
    }
  }

  // ----- from packed tiles back to the picture

  /** One half of the auxiliary luma plane: its part of a packed region, as a region of the picture. */
  function HalfToProtocol(width: nat, height: nat, c: Region, offset: nat): (r: Option<Region>)
    requires FrameSize(width, height) && c.InFrame(width, height) && (offset == 0 || offset == width / 2)
  {
    var left := Max(c.x, offset);
    var right := Min(c.x + c.w, offset + width / 2);
    if right <= left then None
    else
      var protocolLeft := AlignDown((left - offset) * 2, 4);
      var protocolRight := Clamp(AlignUp((right - offset) * 2, 4), 0, width);
      var protocolTop := AlignDown(c.y, 2);
      var protocolBottom := Clamp(AlignUp(c.y + c.h, 2), 0, height);
      if 0 <= protocolLeft < protocolRight <= width && 0 <= protocolTop < protocolBottom <= height
      then Some(Region(protocolLeft, protocolTop, protocolRight - protocolLeft, protocolBottom - protocolTop))
      else None
  }

  /** It reaches past the half's cells by less than one block on every side. */
  lemma HalfIsMapped(width: nat, height: nat, c: Region, offset: nat)
    requires FrameSize(width, height) && c.InFrame(width, height) && (offset == 0 || offset == width / 2)
    ensures var left, right := Max(c.x, offset), Min(c.x + c.w, offset + width / 2);
            var r := HalfToProtocol(width, height, c, offset);
            && r.Some? == (left < right)
            && (r.Some? ==>
                  && r.value.InFrame(width, height)
                  && r.value.x <= (left - offset) * 2 < r.value.x + 4
                  && r.value.x + r.value.w - 4 < (right - offset) * 2 <= r.value.x + r.value.w
                  && r.value.y <= c.y < r.value.y + 2
                  && r.value.y + r.value.h - 2 < c.y + c.h <= r.value.y + r.value.h)
  {
    hide AlignUp, AlignDown, Multiple;
    var left, right := Max(c.x, offset), Min(c.x + c.w, offset + width / 2);
    if left < right {
      BlockBounds(width, height, c, (left - offset) * 2, (right - offset) * 2);
    }
  }

  lemma BlockBounds(width: nat, height: nat, c: Region, left: i32, right: i32)
    requires FrameSize(width, height) && c.InFrame(width, height) && 0 <= left < right <= width
    ensures 0 <= AlignDown(left, 4) <= left < AlignDown(left, 4) + 4
    ensures AlignUp(right, 4) - 4 < right <= AlignUp(right, 4) <= width
    ensures 0 <= AlignDown(c.y, 2) <= c.y < AlignDown(c.y, 2) + 2
    ensures AlignUp(c.y + c.h, 2) - 2 < c.y + c.h <= AlignUp(c.y + c.h, 2) <= height
  {
    AlignedBounds(left, width, 4);
    AlignedBounds(right, width, 4);
    AlignedBounds(c.y, height, 2);
    AlignedBounds(c.y + c.h, height, 2);
    hide AlignUp, AlignDown, Multiple;
  }

  lemma BlockAligned(width: nat, height: nat, c: Region, left: i32, right: i32)
    requires FrameSize(width, height) && c.InFrame(width, height) && 0 <= left < right <= width
    ensures Multiple(AlignDown(left, 4), 4) && Multiple(AlignUp(right, 4), 4)
    ensures Multiple(AlignDown(c.y, 2), 2) && Multiple(AlignUp(c.y + c.h, 2), 2)
  {
    AlignedBounds(left, width, 4);
    AlignedBounds(right, width, 4);
    AlignedBounds(c.y, height, 2);
    AlignedBounds(c.y + c.h, height, 2);
    hide AlignUp, AlignDown, Multiple;
  }

  lemma AlignedByEdges(r: Region)
    requires Multiple(r.x, 4) && Multiple(r.x + r.w, 4) && Multiple(r.y, 2) && Multiple(r.y + r.h, 2)
    ensures Aligned(r)
  {
  }

  lemma HalfIsAligned(width: nat, height: nat, c: Region, offset: nat)
    requires FrameSize(width, height) && c.InFrame(width, height) && (offset == 0 || offset == width / 2)
    requires HalfToProtocol(width, height, c, offset).Some?
    ensures Aligned(HalfToProtocol(width, height, c, offset).value)
  {
    hide AlignUp, AlignDown, Multiple, Aligned;
    var left, right := Max(c.x, offset), Min(c.x + c.w, offset + width / 2);
    BlockBounds(width, height, c, (left - offset) * 2, (right - offset) * 2);
    BlockAligned(width, height, c, (left - offset) * 2, (right - offset) * 2);
    AlignedByEdges(HalfToProtocol(width, height, c, offset).value);
  }

  lemma MultipleOf4Near(a: int, b: int)
    requires a % 4 == 0
    ensures a <= 4 * b + 2 ==> a <= 4 * b
    ensures 4 * b + 2 <= a ==> 4 * b + 4 <= a
  {
  }

  /** A cell of the packed region belongs to a pixel of the region its half is mapped to. */
  lemma HalfHoldsLumaCell(width: nat, height: nat, c: Region, x: int, y: int)
    requires FrameSize(width, height) && c.InFrame(width, height)
    requires HasCell(AuxY, width, height, x, y) && c.Has(x, y)
    ensures var r := HalfToProtocol(width, height, c, if x < width / 2 then 0 else width / 2);
            r.Some? && r.value.Has(HomeX(AuxY, width, x), HomeY(AuxY, y))
  {
    HalvesAndQuarters(width, height);
    hide HalfToProtocol, FrameSize, DimensionsSupported;
    HalfIsMapped(width, height, c, if x < width / 2 then 0 else width / 2);
  }

  lemma HalvesAndQuarters(width: nat, height: nat)
    requires FrameSize(width, height)
    ensures width == 2 * (width / 2) && width / 2 == 2 * (width / 4) && height == 2 * (height / 2)
  {
    QuartersExactly(width);
    HalvesExactly(height);
  }

  lemma HalfHoldsChromaCell(width: nat, height: nat, c: Region, p: Plane, x: int, y: int)
    requires FrameSize(width, height) && c.InFrame(width, height) && (p.AuxU? || p.AuxV?)
    requires HasCell(p, width, height, x, y) && HalfHas(c, x, y)
    ensures var r := HalfToProtocol(width, height, c, if x < width / 4 then 0 else width / 2);
            r.Some? && r.value.Has(HomeX(p, width, x), HomeY(p, y))
  {
    HalvesAndQuarters(width, height);
    hide HalfToProtocol, Aligned, FrameSize, DimensionsSupported;
    var offset := if x < width / 4 then 0 else width / 2;
    HalfIsMapped(width, height, c, offset);
    var r := HalfToProtocol(width, height, c, offset);
    HalfIsAligned(width, height, c, offset);
    assert 2 * x <= c.x + c.w - 1 && c.x <= 2 * x + 1;
    var q := if x < width / 4 then x else x - width / 4;
    ChromaCellInBlock(r.value, c, q, y, 2 * (Max(c.x, offset) - offset), 2 * (Min(c.x + c.w, offset + width / 2) - offset));
  }

  lemma ChromaCellInBlock(r: Region, c: Region, q: int, y: int, left: int, right: int)
    requires Aligned(r) && r.y <= c.y && c.y + c.h <= r.y + r.h
    requires r.x <= left <= 4 * q + 2 && 4 * q + 2 <= right <= r.x + r.w
    requires c.y <= 2 * y + 1 && 2 * y < c.y + c.h
    ensures r.Has(4 * q, 2 * y + 1) && r.Has(4 * q + 2, 2 * y + 1)
  {
    MultipleOf4Near(r.x, q);
    MultipleOf4Near(r.x + r.w, q);
  }

  /** `c` is inside one of the two packed rectangles of `candidate`. */
  ghost predicate InPackedCandidate(width: nat, height: nat, candidate: Region, c: Region)
    requires FrameSize(width, height)
  {
    exists k :: 0 <= k < |PackedCandidates(width, height, candidate)| &&
                Within(c, PackedCandidates(width, height, candidate)[k])
  }

  /** Mapping a part of an aligned candidate's packed rectangles does not leave the candidate. */
  lemma HalfStaysInside(width: nat, height: nat, candidate: Region, c: Region, offset: nat)
    requires FrameSize(width, height) && c.InFrame(width, height) && (offset == 0 || offset == width / 2)
    requires candidate.InFrame(width, height) && Aligned(candidate)
    requires InPackedCandidate(width, height, candidate, c)
    requires HalfToProtocol(width, height, c, offset).Some?
    ensures Within(HalfToProtocol(width, height, c, offset).value, candidate)
  {
    hide HalfToProtocol;
    PackedAlignedCandidates(width, height, candidate);
    HalvesAndQuarters(width, height);
    hide PackedCandidates, FrameSize, DimensionsSupported;
    HalfIsMapped(width, height, c, offset);
    HalfIsAligned(width, height, c, offset);
    var r := HalfToProtocol(width, height, c, offset).value;
    GridInside(r.x, candidate.x, 4);
    GridInside(candidate.x + candidate.w, r.x + r.w, 4);
    GridInside(r.y, candidate.y, 2);
    GridInside(candidate.y + candidate.h, r.y + r.h, 2);
  }

  lemma GridInside(a: int, b: int, alignment: int)
    requires alignment == 4 || alignment == 2
    requires Multiple(a, alignment) && Multiple(b, alignment)
    ensures b < a + alignment ==> b <= a
  {
  }

  /** What the regions derived from a packed region promise. */
  ghost predicate MapsBack(width: nat, height: nat, c: Region, regions: seq<Region>)
    requires FrameSize(width, height)
  {
    && regions != []
    && AllInFrame(regions, width, height) && AllAligned(regions)
    && forall p: Plane, x: int, y: int ::
         IsAux(p) && HasCell(p, width, height, x, y) && RegionHasCell(p, c, x, y) ==> CellIn(p, width, regions, x, y)
  }

  /**
   `avc444_v2_chroma_packed_region_to_protocol_regions`: aligned regions of the picture that hold
   the home pixel of every auxiliary cell of the packed region, and that stay inside the candidate
   the packed region was cut from.
   */
  method PackedToProtocol(width: nat, height: nat, region: Region, ghost candidate: Region) returns (regions: seq<Region>)
    requires FrameSize(width, height)
    ensures ClampDamageRegion(region, width, height).None? ==> regions == []
    ensures ClampDamageRegion(region, width, height).Some? ==>
              MapsBack(width, height, ClampDamageRegion(region, width, height).value, regions)
    ensures candidate.InFrame(width, height) && Aligned(candidate) &&
            ClampDamageRegion(region, width, height).Some? &&
            InPackedCandidate(width, height, candidate, ClampDamageRegion(region, width, height).value) ==>
              AllWithin(regions, candidate)
  {
    var clamped := ClampDamageRegion(region, width, height);
    if clamped.None? {
      return [];
    }
    var c := clamped.value;
    hide ClampDamageRegion, HalfToProtocol, Aligned, InPackedCandidate;
    ghost var inside := candidate.InFrame(width, height) && Aligned(candidate) &&
                        InPackedCandidate(width, height, candidate, c);
    regions := [];
    for half := 0 to 2
      invariant AllInFrame(regions, width, height) && AllAligned(regions)
      invariant 1 <= half ==> HalfCovered(width, height, c, 0, regions)
      invariant 2 <= half ==> HalfCovered(width, height, c, width / 2, regions)
      invariant inside ==> AllWithin(regions, candidate)
    {
      var offset := if half == 0 then 0 else width / 2;
      var r := HalfToProtocol(width, height, c, offset);
      if r.Some? {
        HalfIsMapped(width, height, c, offset);
        HalfIsAligned(width, height, c, offset);
        if inside {
          HalfStaysInside(width, height, candidate, c, offset);
        }
        regions := MergeRegion(regions, r.value, candidate, width, height);
      }
    }
    HalvesMapBack(width, height, c, regions);
  }

  ghost predicate HalfCovered(width: nat, height: nat, c: Region, offset: nat, regions: seq<Region>)
    requires FrameSize(width, height) && c.InFrame(width, height) && (offset == 0 || offset == width / 2)
  {
    var r := HalfToProtocol(width, height, c, offset);
    r.Some? ==> forall px: int, py: int :: r.value.Has(px, py) ==> Covers(regions, px, py)
  }

  lemma HalvesMapBack(width: nat, height: nat, c: Region, regions: seq<Region>)
    requires FrameSize(width, height) && c.InFrame(width, height)
    requires AllInFrame(regions, width, height) && AllAligned(regions)
    requires HalfCovered(width, height, c, 0, regions) && HalfCovered(width, height, c, width / 2, regions)
    ensures MapsBack(width, height, c, regions)
  {
    hide HalfToProtocol, Aligned, HomeX, HomeY, HasCell;
    forall p: Plane, x: int, y: int | IsAux(p) && HasCell(p, width, height, x, y) && RegionHasCell(p, c, x, y)
      ensures CellIn(p, width, regions, x, y)
    {
      if p.AuxY? {
        HalfHoldsLumaCell(width, height, c, x, y);
      } else {
        HalfHoldsChromaCell(width, height, c, p, x, y);
      }
    }
    FirstCellMapped(width, height, c, regions);
  }

  lemma FirstCellMapped(width: nat, height: nat, c: Region, regions: seq<Region>)
    requires FrameSize(width, height) && c.InFrame(width, height)
    requires HalfCovered(width, height, c, 0, regions) && HalfCovered(width, height, c, width / 2, regions)
    ensures regions != []
  {
    hide HalfToProtocol;
    HalfHoldsLumaCell(width, height, c, c.x, c.y);
    assert Covers(regions, HomeX(AuxY, width, c.x), HomeY(AuxY, c.y));
  }
}

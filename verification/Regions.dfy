/**
 Damage rectangles and the integer widths the capture pipeline computes them in.

 A region is the tuple (x, y, w, h) of `i32` values that Wayland reports.  Sums of
 `i32` values saturate, as `i32::saturating_add` does.
 */
module Regions {

  const I32_MIN: int := -0x8000_0000
  const I32_MAX: int := 0x7fff_ffff

  type i32 = x: int | -0x8000_0000 <= x <= 0x7fff_ffff
  type u8 = x: int | 0 <= x < 256

  datatype Option<+T> = None | Some(value: T)

  datatype PixelFormat = BgrA32 | BgrX32 | RgbA32 | RgbX32 | ARgb32 | XRgb32 | ABgr32 | XBgr32

  /** What the four bytes of a pixel hold, in order; X is padding. */
  function Channels(format: PixelFormat): (names: string)
    ensures |names| == 4
  {
    match format
    case BgrA32 => "BGRA"
    case BgrX32 => "BGRX"
    case RgbA32 => "RGBA"
    case RgbX32 => "RGBX"
    case ARgb32 => "ARGB"
    case XRgb32 => "XRGB"
    case ABgr32 => "ABGR"
    case XBgr32 => "XBGR"
  }

  datatype Region = Region(x: i32, y: i32, w: i32, h: i32) {
    /** The pixel (px, py) lies inside this rectangle, computed without any overflow. */
    predicate Has(px: int, py: int) {
      x <= px < x + w && y <= py < y + h
    }

    /** A non-empty rectangle that lies inside a width by height frame. */
    predicate InFrame(width: int, height: int) {
      0 <= x && 0 < w && x + w <= width && 0 <= y && 0 < h && y + h <= height
    }
  }

  function Clamp(v: int, lo: int, hi: int): int {
    if v < lo then lo else if v > hi then hi else v
  }

  function Min(a: int, b: int): int { if a <= b then a else b }

  function Max(a: int, b: int): int { if a >= b then a else b }

  /** `i32::saturating_add`. */
  function SatAdd(a: i32, b: i32): i32 { Clamp(a + b, I32_MIN, I32_MAX) }

  /** `i32::saturating_sub`. */
  function SatSub(a: i32, b: i32): i32 { Clamp(a - b, I32_MIN, I32_MAX) }

  ghost predicate Covers(regions: seq<Region>, px: int, py: int) {
    exists i :: 0 <= i < |regions| && regions[i].Has(px, py)
  }

  ghost predicate AllInFrame(regions: seq<Region>, width: int, height: int) {
    forall i :: 0 <= i < |regions| ==> regions[i].InFrame(width, height)
  }

  /** Every region lies inside the rectangle `box`. */
  ghost predicate AllWithin(regions: seq<Region>, box: Region) {
    forall i :: 0 <= i < |regions| ==> Within(regions[i], box)
  }

  predicate Within(r: Region, box: Region) {
    box.x <= r.x && r.x + r.w <= box.x + box.w && box.y <= r.y && r.y + r.h <= box.y + box.h
  }

  /**
   `Vec::swap_remove`: the last element takes the place of the removed one, so a merge loop that
   keeps its index sees the moved element next.
   */
  function SwapRemove(s: seq<Region>, i: nat): (r: seq<Region>)
    requires i < |s|
    ensures |r| == |s| - 1
  {
    if i == |s| - 1 then s[..i] else s[..|s| - 1][i := s[|s| - 1]]
  }

  /** Exactly one occurrence of the element at `i` is gone. */
  lemma SwapRemoveTakesOne(s: seq<Region>, i: nat)
    requires i < |s|
    ensures multiset(SwapRemove(s, i)) == multiset(s) - multiset{s[i]}
  {
    var last := [s[|s| - 1]];
    if i == |s| - 1 {
      assert s == s[..i] + last;
    } else {
      var a, b := s[..i], s[i + 1..|s| - 1];
      assert s == a + [s[i]] + b + last;
      assert SwapRemove(s, i) == a + last + b;
      LastReplaces(a, [s[i]], b, last);
    }
  }

  lemma LastReplaces(a: seq<Region>, removed: seq<Region>, b: seq<Region>, last: seq<Region>)
    ensures multiset(a + last + b) == multiset(a + removed + b + last) - multiset(removed)
  {
  }

  lemma CoversAppend(a: seq<Region>, r: Region, px: int, py: int)
    ensures Covers(a + [r], px, py) <==> Covers(a, px, py) || r.Has(px, py)
  {
    if Covers(a, px, py) {
      var k :| 0 <= k < |a| && a[k].Has(px, py);
      assert (a + [r])[k].Has(px, py);
    }
    if r.Has(px, py) {
      assert (a + [r])[|a|].Has(px, py);
    }
  }
}

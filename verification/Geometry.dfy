/**
 Fitting a captured source into a presentation and mapping between the two
 (src/display/geometry.rs).
 */
module Geometry {
  import opened Arithmetic
  import opened Regions

  const U32_MAX: nat := 0xffff_ffff

  datatype Size = Size(width: nat, height: nat) {
    ghost predicate Valid() { 0 < width <= U32_MAX && 0 < height <= U32_MAX }
  }

  datatype Rect = Rect(x: nat, y: nat, width: nat, height: nat) {
    predicate Has(px: int, py: int) { x <= px < x + width && y <= py < y + height }

    function Right(): nat { Min(x + width, U32_MAX) }

    function Bottom(): nat { Min(y + height, U32_MAX) }
  }

  datatype PresentationGeometry = PresentationGeometry(source: Size, presentation: Size, visible: Rect) {
    /** The geometry that `New` builds. */
    ghost predicate Valid() {
      source.Valid() && presentation.Valid() && this == New(source, presentation)
    }

    predicate IsIdentity() {
      source == presentation && visible == Rect(0, 0, source.width, source.height)
    }

    function MapSourceRect(r: Region): Option<Rect>
      requires source.width > 0 && source.height > 0
    {
      if r.w <= 0 || r.h <= 0 then None
      else
        var left := Clamp(r.x, 0, source.width);
        var top := Clamp(r.y, 0, source.height);
        var right := Clamp(r.x + r.w, 0, source.width);
        var bottom := Clamp(r.y + r.h, 0, source.height);
        if right <= left || bottom <= top then None
        else
          var mappedLeft := Clamp(visible.x + ScaleFloor(left, visible.width, source.width), visible.x, visible.Right());
          var mappedTop := Clamp(visible.y + ScaleFloor(top, visible.height, source.height), visible.y, visible.Bottom());
          var mappedRight := Clamp(visible.x + ScaleCeil(right, visible.width, source.width), visible.x, visible.Right());
          var mappedBottom := Clamp(visible.y + ScaleCeil(bottom, visible.height, source.height), visible.y, visible.Bottom());
          if mappedRight <= mappedLeft || mappedBottom <= mappedTop then None
          else Some(Rect(mappedLeft, mappedTop, mappedRight - mappedLeft, mappedBottom - mappedTop))
    }

    function MapSourceDamage(damage: seq<Region>): seq<Region>
      requires source.width > 0 && source.height > 0
    {
      if damage == [] then []
      else
        var rest := MapSourceDamage(damage[1..]);
        var mapped := MapSourceRect(damage[0]);
        if mapped.Some? && AsDamageTuple(mapped.value).Some? then [AsDamageTuple(mapped.value).value] + rest else rest
    }

    function MapPresentationPointToSource(x: nat, y: nat): (nat, nat)
      requires source.width > 0 && source.height > 0 && visible.width > 0 && visible.height > 0
      requires visible.x + visible.width <= U32_MAX && visible.y + visible.height <= U32_MAX
    {
      (PointAxis(x, visible.x, visible.width, source.width), PointAxis(y, visible.y, visible.height, source.height))
    }
  }

  /** One axis of the pointer mapping: the last visible position means the last source pixel. */
  function PointAxis(at: nat, origin: nat, extent: nat, source: nat): nat
    requires 0 < source && 0 < extent && origin + extent <= U32_MAX
  {
    var last := origin + extent - 1;
    var clamped := Clamp(at, origin, last);
    if clamped == last then source - 1 else Min(ScaleFloor(clamped - origin, source, extent), source - 1)
  }

  /** Damage travels as `i32`; a rectangle out of that range is dropped. */
  function AsDamageTuple(r: Rect): Option<Region> {
    if r.x <= I32_MAX && r.y <= I32_MAX && r.width <= I32_MAX && r.height <= I32_MAX
    then Some(Region(r.x, r.y, r.width, r.height)) else None
  }

  function ScaleFloor(value: nat, numerator: nat, denominator: nat): nat
    requires denominator > 0
  {
    value * numerator / denominator
  }

  function ScaleCeil(value: nat, numerator: nat, denominator: nat): nat
    requires denominator > 0
  {
    (value * numerator + (denominator - 1)) / denominator
  }

  /** The largest centred rectangle of the source's aspect ratio. */
  function New(source: Size, presentation: Size): PresentationGeometry
    requires source.Valid() && presentation.Valid()
  {
    var fit := FitSize(source, presentation);
    PresentationGeometry(source, presentation,
                         Rect((presentation.width - fit.width) / 2, (presentation.height - fit.height) / 2, fit.width, fit.height))
  }

  function FitSize(source: Size, presentation: Size): (fit: Size)
    requires source.Valid() && presentation.Valid()
    ensures 0 < fit.width <= presentation.width && 0 < fit.height <= presentation.height
  {
    if source.width * presentation.height > presentation.width * source.height then
      Size(presentation.width, Min(Max(presentation.width * source.height / source.width, 1), presentation.height))
    else
      Size(Min(Max(presentation.height * source.width / source.height, 1), presentation.width), presentation.height)
  }

  // ----- the fit

  /** Nothing is cut off, one pair of edges is touched, and the picture is centred. */
  lemma VisibleFits(g: PresentationGeometry)
    requires g.Valid()
    ensures g.visible.x + g.visible.width <= g.presentation.width && 0 < g.visible.width
    ensures g.visible.y + g.visible.height <= g.presentation.height && 0 < g.visible.height
    ensures g.visible.width == g.presentation.width || g.visible.height == g.presentation.height
    ensures 0 <= (g.presentation.width - g.visible.width) - 2 * g.visible.x <= 1
    ensures 0 <= (g.presentation.height - g.visible.height) - 2 * g.visible.y <= 1
  {
    var source, presentation := g.source, g.presentation;
    if source.width * presentation.height > presentation.width * source.height {
    } else {
      var q := presentation.height * source.width / source.height;
      assert Min(Max(q, 1), presentation.width) <= presentation.width;
    }
  }

  /**
   The fit keeps the aspect ratio as well as whole pixels can.  A source wider than the presentation
   gets the full width and the largest height that does not stretch it (at least one).
   */
  lemma WideFitIsLargest(source: Size, presentation: Size, height: nat)
    requires source.Valid() && presentation.Valid()
    requires source.width * presentation.height > presentation.width * source.height
    ensures FitSize(source, presentation).width == presentation.width
    ensures height <= FitSize(source, presentation).height <==>
            height <= 1 || height * source.width <= presentation.width * source.height
  {
    LargestSide(height, presentation.width * source.height, source.width, presentation.height);
  }

  /** Any other source gets the full height and the largest width that does not stretch it. */
  lemma TallFitIsLargest(source: Size, presentation: Size, width: nat)
    requires source.Valid() && presentation.Valid()
    requires source.width * presentation.height <= presentation.width * source.height
    ensures FitSize(source, presentation).height == presentation.height
    ensures width <= FitSize(source, presentation).width <==>
            width <= 1 || width * source.height <= presentation.height * source.width
  {
    assert presentation.height * source.width == source.width * presentation.height;
    assert source.height * presentation.width == presentation.width * source.height;
    LargestSide(width, presentation.height * source.width, source.height, presentation.width);
  }

  lemma LargestSide(side: nat, a: nat, b: nat, cap: nat)
    requires 0 < b && 0 < cap && a <= b * cap
    ensures side <= Min(Max(a / b, 1), cap) <==> side <= 1 || side * b <= a
  {
    AtMostQuotient(side, a, b);
    AtMostQuotient(cap + 1, a, b);
    assert (cap + 1) * b == cap * b + b;
  }

  // ----- the averaging boxes of the scaler (src/capture/scale.rs), one axis at a time

  /** First source position averaged into presentation position `at` of the visible extent. */
  function BoxStart(at: nat, extent: nat, source: nat): nat
    requires extent > 0
  {
    at * source / extent
  }

  /** One past the last source position averaged into `at`. */
  function BoxEnd(at: nat, extent: nat, source: nat): nat
    requires extent > 0
  {
    Min(Max((at + 1) * source / extent, BoxStart(at, extent, source) + 1), source)
  }

  predicate InBox(s: int, at: nat, extent: nat, source: nat)
    requires extent > 0
  {
    BoxStart(at, extent, source) <= s < BoxEnd(at, extent, source)
  }

  /** Every box holds at least one source position. */
  lemma BoxNonEmpty(at: nat, extent: nat, source: nat)
    requires source > 0 && at < extent
    ensures 0 <= BoxStart(at, extent, source) < BoxEnd(at, extent, source) <= source
  {
    MulMonotone(at + 1, extent, source);
    assert (at + 1) * source == at * source + source;
    AtMostQuotient(source, at * source, extent);
  }

  /** Both ends of a box, multiplied out. */
  lemma BoxBounds(s: int, at: nat, extent: nat, source: nat)
    requires source > 0 && at < extent && InBox(s, at, extent, source)
    ensures s * extent < (at + 1) * source
    ensures at * source < (s + 1) * extent
  {
    var start := BoxStart(at, extent, source);
    DivBounds(at * source, extent);
    assert (at + 1) * source == at * source + source;
    MulMonotone(start + 1, s + 1, extent);
    if s == start {
    } else {
      AtMostQuotient(s + 1, (at + 1) * source, extent);
      assert (s + 1) * extent == s * extent + extent;
    }
  }

  /**
   Damage mapping covers scaling: a presentation position whose box meets the damaged source
   interval lies in the mapped interval.
   */
  lemma BoxInMappedSpan(left: nat, right: nat, s: int, at: nat, extent: nat, source: nat)
    requires left <= s < right <= source && at < extent && InBox(s, at, extent, source)
    ensures ScaleFloor(left, extent, source) <= at < ScaleCeil(right, extent, source)
  {
    BoxBounds(s, at, extent, source);
    DivBounds(left * extent, source);
    MulMonotone(left, s, extent);
    if ScaleFloor(left, extent, source) > at {
      MulMonotone(at + 1, ScaleFloor(left, extent, source), source);
      assert false;
    }
    MulMonotone(s + 1, right, extent);
    BelowCeiling(at, right * extent, source);
  }

  /** A damaged interval never maps to nothing, and never past the visible extent. */
  lemma MappedSpanNonEmpty(left: nat, right: nat, extent: nat, source: nat)
    requires left < right <= source && extent > 0
    ensures ScaleFloor(left, extent, source) < ScaleCeil(right, extent, source) <= extent
  {
    var low := ScaleFloor(left, extent, source);
    DivBounds(left * extent, source);
    MulMonotone(left + 1, right, extent);
    assert (left + 1) * extent == left * extent + extent;
    BelowCeiling(low, right * extent, source);
    MulMonotone(right, source, extent);
    BelowCeiling(extent, right * extent, source);
  }

  /** On an axis that is not enlarged the boxes partition the source. */
  lemma BoxesAreConsecutive(at: nat, extent: nat, source: nat)
    requires at < extent <= source
    ensures BoxEnd(at, extent, source) == BoxStart(at + 1, extent, source)
  {
    var start := BoxStart(at, extent, source);
    DivBounds(at * source, extent);
    assert (at + 1) * source == at * source + source;
    assert (start + 1) * extent == start * extent + extent;
    AtMostQuotient(start + 1, (at + 1) * source, extent);
    MulMonotone(at + 1, extent, source);
    AtMostQuotient(source + 1, (at + 1) * source, extent);
    assert (source + 1) * extent == source * extent + extent;
  }

  lemma LastBoxEnds(extent: nat, source: nat)
    requires 0 < extent <= source
    ensures BoxStart(0, extent, source) == 0 && BoxEnd(extent - 1, extent, source) == source
  {
    AtMostQuotient(source, extent * source, extent);
    assert 0 * source == 0;
    assert extent - 1 + 1 == extent;
    BoxNonEmpty(extent - 1, extent, source);
  }

  /** No source position is dropped or counted twice: exactly one box holds it. */
  lemma ExactlyOneBox(s: nat, extent: nat, source: nat) returns (at: nat)
    requires s < source && 0 < extent <= source
    ensures at < extent && InBox(s, at, extent, source)
    ensures forall other :: 0 <= other < extent && InBox(s, other, extent, source) ==> other == at
  {
    LastBoxEnds(extent, source);
    at := 0;
    while BoxEnd(at, extent, source) <= s
      invariant at < extent && BoxStart(at, extent, source) <= s
      decreases extent - at
    {
      BoxesAreConsecutive(at, extent, source);
      at := at + 1;
    }
    forall other | 0 <= other < extent && InBox(s, other, extent, source)
      ensures other == at
    {
      if other < at {
        BoxesInOrder(other, at, extent, source);
      } else if at < other {
        BoxesInOrder(at, other, extent, source);
      }
    }
  }

  lemma BoxesInOrder(low: nat, high: nat, extent: nat, source: nat)
    requires low < high < extent <= source
    ensures BoxEnd(low, extent, source) <= BoxStart(high, extent, source)
  {
    BoxesAreConsecutive(low, extent, source);
    MulMonotone(low + 1, high, source);
    DivBounds((low + 1) * source, extent);
    AtMostQuotient(BoxStart(low + 1, extent, source), high * source, extent);
  }

  // ----- pointer mapping

  /** The source position under the pointer is one of those averaged into the position it is at. */
  lemma PointerHitsBox(at: nat, origin: nat, extent: nat, source: nat)
    requires 0 < source && 0 < extent && origin + extent <= U32_MAX
    requires origin <= at < origin + extent
    ensures InBox(PointAxis(at, origin, extent, source), at - origin, extent, source)
  {
    BoxNonEmpty(at - origin, extent, source);
    if at == origin + extent - 1 {
      AtMostQuotient(source, extent * source, extent);
    }
  }

  /** Moving the pointer right or down never moves the source position left or up, bars included. */
  lemma PointerMonotone(a: nat, b: nat, origin: nat, extent: nat, source: nat)
    requires 0 < source && 0 < extent && origin + extent <= U32_MAX && a <= b
    ensures PointAxis(a, origin, extent, source) <= PointAxis(b, origin, extent, source) < source
  {
    var last := origin + extent - 1;
    var ca, cb := Clamp(a, origin, last), Clamp(b, origin, last);
    MulMonotone(ca - origin, cb - origin, source);
    DivBounds((ca - origin) * source, extent);
    AtMostQuotient(ScaleFloor(ca - origin, source, extent), (cb - origin) * source, extent);
  }

  /** Both axes together, for any point of the visible picture. */
  lemma PointerMatchesPicture(g: PresentationGeometry, x: nat, y: nat)
    requires g.Valid() && g.visible.Has(x, y)
    ensures g.visible.x + g.visible.width <= U32_MAX && g.visible.y + g.visible.height <= U32_MAX
    ensures g.visible.width > 0 && g.visible.height > 0
    ensures InBox(g.MapPresentationPointToSource(x, y).0, x - g.visible.x, g.visible.width, g.source.width)
    ensures InBox(g.MapPresentationPointToSource(x, y).1, y - g.visible.y, g.visible.height, g.source.height)
  {
    VisibleFits(g);
    PointerHitsBox(x, g.visible.x, g.visible.width, g.source.width);
    PointerHitsBox(y, g.visible.y, g.visible.height, g.source.height);
  }

  // ----- damage mapping

  /** A source rectangle with a pixel in the frame always maps to something inside the visible picture. */
  lemma DamageNeverVanishes(g: PresentationGeometry, r: Region, sx: nat, sy: nat)
    requires g.Valid() && r.Has(sx, sy) && sx < g.source.width && sy < g.source.height
    ensures g.MapSourceRect(r).Some?
    ensures var m := g.MapSourceRect(r).value;
            && 0 < m.width && 0 < m.height
            && g.visible.x <= m.x && m.x + m.width <= g.visible.x + g.visible.width
            && g.visible.y <= m.y && m.y + m.height <= g.visible.y + g.visible.height
  {
    VisibleFits(g);
    MappedSpanNonEmpty(Clamp(r.x, 0, g.source.width), Clamp(r.x + r.w, 0, g.source.width), g.visible.width, g.source.width);
    MappedSpanNonEmpty(Clamp(r.y, 0, g.source.height), Clamp(r.y + r.h, 0, g.source.height), g.visible.height, g.source.height);
  }

  /** A presentation pixel whose box meets a damaged source pixel lies in the mapped rectangle. */
  lemma BoxInMappedRect(g: PresentationGeometry, r: Region, sx: nat, sy: nat, px: nat, py: nat)
    requires g.Valid() && r.Has(sx, sy) && sx < g.source.width && sy < g.source.height && g.visible.Has(px, py)
    requires g.visible.width > 0 && g.visible.height > 0
    requires InBox(sx, px - g.visible.x, g.visible.width, g.source.width)
    requires InBox(sy, py - g.visible.y, g.visible.height, g.source.height)
    ensures g.MapSourceRect(r).Some? && g.MapSourceRect(r).value.Has(px, py)
  {
    VisibleFits(g);
    DamageNeverVanishes(g, r, sx, sy);
    BoxInMappedSpan(Clamp(r.x, 0, g.source.width), Clamp(r.x + r.w, 0, g.source.width), sx, px - g.visible.x, g.visible.width, g.source.width);
    BoxInMappedSpan(Clamp(r.y, 0, g.source.height), Clamp(r.y + r.h, 0, g.source.height), sy, py - g.visible.y, g.visible.height, g.source.height);
  }

  /** Scaled by extent / source, the stretch from `left` to `right` overlaps the presentation position `at`. */
  predicate Overlaps(left: int, right: int, at: int, extent: nat, source: nat) {
    left * extent < (at + 1) * source && at * source < right * extent
  }

  /** The mapped span holds exactly the positions that the scaled stretch overlaps. */
  lemma MappedSpanIsOverlap(left: nat, right: nat, at: nat, extent: nat, source: nat)
    requires source > 0
    ensures ScaleFloor(left, extent, source) <= at < ScaleCeil(right, extent, source) <==> Overlaps(left, right, at, extent, source)
  {
    AtMostQuotient(at + 1, left * extent, source);
    BelowCeiling(at, right * extent, source);
  }

  /** Cutting the stretch to the source changes nothing for the positions of the visible picture. */
  lemma CutOverlaps(left: int, right: int, at: nat, extent: nat, source: nat)
    requires 0 < source && at < extent
    ensures Overlaps(Clamp(left, 0, source), Clamp(right, 0, source), at, extent, source) <==> Overlaps(left, right, at, extent, source)
  {
    MulNonNegative(at, source);
    MulMonotone(at + 1, extent, source);
    assert (at + 1) * source == at * source + source;
    if left < 0 { MulMonotone(left, 0, extent); } else if left > source { MulMonotone(source, left, extent); }
    if right < 0 { MulMonotone(right, 0, extent); } else if right > source { MulMonotone(source, right, extent); }
  }

  /** The source has a pixel of the rectangle. */
  predicate Meets(r: Region, source: Size) {
    0 < r.w && 0 < r.h && r.x < source.width && 0 < r.x + r.w && r.y < source.height && 0 < r.y + r.h
  }

  lemma MeetsIsPixel(r: Region, source: Size)
    requires source.Valid()
    ensures Meets(r, source) <==> exists x: int, y: int :: r.Has(x, y) && 0 <= x < source.width && 0 <= y < source.height
  {
    if Meets(r, source) {
      assert r.Has(Max(r.x, 0), Max(r.y, 0));
    }
  }

  /**
   A rectangle maps to something exactly when the source has a pixel of it, and then to the visible
   pixels that it overlaps once it is scaled: no visible pixel more, and none less.
   */
  lemma MappedRectIsOverlap(g: PresentationGeometry, r: Region, px: int, py: int)
    requires g.Valid()
    ensures g.MapSourceRect(r).Some? <==> exists x: int, y: int :: r.Has(x, y) && 0 <= x < g.source.width && 0 <= y < g.source.height
    ensures g.MapSourceRect(r).Some? && g.MapSourceRect(r).value.Has(px, py) <==>
            && Meets(r, g.source) && g.visible.Has(px, py)
            && Overlaps(r.x, r.x + r.w, px - g.visible.x, g.visible.width, g.source.width)
            && Overlaps(r.y, r.y + r.h, py - g.visible.y, g.visible.height, g.source.height)
  {
    MeetsIsPixel(r, g.source);
    if Meets(r, g.source) {
      DamageNeverVanishes(g, r, Max(r.x, 0), Max(r.y, 0));
      var left, right := Clamp(r.x, 0, g.source.width), Clamp(r.x + r.w, 0, g.source.width);
      var top, bottom := Clamp(r.y, 0, g.source.height), Clamp(r.y + r.h, 0, g.source.height);
      if g.visible.Has(px, py) {
        MappedSpanIsOverlap(left, right, px - g.visible.x, g.visible.width, g.source.width);
        MappedSpanIsOverlap(top, bottom, py - g.visible.y, g.visible.height, g.source.height);
        CutOverlaps(r.x, r.x + r.w, px - g.visible.x, g.visible.width, g.source.width);
        CutOverlaps(r.y, r.y + r.h, py - g.visible.y, g.visible.height, g.source.height);
      }
    }
  }

  /** A pixel of the mapped damage lies in the mapped rectangle of some report. */
  lemma {:induction false} MappedDamageIsMapped(g: PresentationGeometry, damage: seq<Region>, px: int, py: int) returns (i: nat)
    requires g.Valid() && Covers(g.MapSourceDamage(damage), px, py)
    ensures i < |damage| && g.MapSourceRect(damage[i]).Some? && g.MapSourceRect(damage[i]).value.Has(px, py)
    decreases |damage|
  {
    assert g.source.Valid();
    hide PresentationGeometry.MapSourceRect, PresentationGeometry.Valid;
    var rest, first := g.MapSourceDamage(damage[1..]), g.MapSourceRect(damage[0]);
    if first.Some? && first.value.Has(px, py) {
      i := 0;
    } else {
      var mapped := g.MapSourceDamage(damage);
      var k :| 0 <= k < |mapped| && mapped[k].Has(px, py);
      assert rest[k + |rest| - |mapped|] == mapped[k];
      i := MappedDamageIsMapped(g, damage[1..], px, py);
      i := i + 1;
    }
  }

  /** A pixel whose box meets the damage lies in the mapped damage, when presentation coordinates fit the `i32` damage tuples. */
  lemma {:induction false} BoxInMappedDamage(g: PresentationGeometry, damage: seq<Region>, sx: nat, sy: nat, px: nat, py: nat)
    requires g.Valid() && Covers(damage, sx, sy) && sx < g.source.width && sy < g.source.height && g.visible.Has(px, py)
    requires g.presentation.width <= I32_MAX && g.presentation.height <= I32_MAX
    requires g.visible.width > 0 && g.visible.height > 0
    requires InBox(sx, px - g.visible.x, g.visible.width, g.source.width)
    requires InBox(sy, py - g.visible.y, g.visible.height, g.source.height)
    ensures Covers(g.MapSourceDamage(damage), px, py)
    decreases |damage|
  {
    hide InBox, PresentationGeometry.MapSourceRect, PresentationGeometry.Valid;
    var i :| 0 <= i < |damage| && damage[i].Has(sx, sy);
    var mapped := g.MapSourceDamage(damage);
    if damage[0].Has(sx, sy) {
      VisibleFits(g);
      DamageNeverVanishes(g, damage[0], sx, sy);
      BoxInMappedRect(g, damage[0], sx, sy, px, py);
      assert mapped[0].Has(px, py);
    } else {
      assert damage[1..][i - 1].Has(sx, sy);
      BoxInMappedDamage(g, damage[1..], sx, sy, px, py);
      var rest := g.MapSourceDamage(damage[1..]);
      var j :| 0 <= j < |rest| && rest[j].Has(px, py);
      assert mapped[j + |mapped| - |rest|] == rest[j];
    }
  }
}

/**
 ClearCodec input packing (src/egfx/clearcodec.rs): damage rectangles become tiles that cover
 exactly the damaged pixels, each of them once.
 */
module ClearCodec {
  import opened Arithmetic
  import opened Regions

  const TILE: nat := 64
  const U16_MAX: nat := 0xffff

  /** An exclusive rectangle in frame coordinates. */
  datatype Rect = Rect(left: nat, top: nat, right: nat, bottom: nat) {
    predicate Has(x: int, y: int) { left <= x < right && top <= y < bottom }

    ghost predicate InFrame(width: nat, height: nat) {
      left < right <= width && top < bottom <= height
    }
  }

  datatype Span = Span(left: nat, right: nat) {
    predicate Has(x: int) { left <= x < right }
  }

  /** How many of the rectangles contain the pixel. */
  ghost function Hits(rects: seq<Rect>, x: int, y: int): nat {
    if rects == [] then 0
    else Hits(rects[..|rects| - 1], x, y) + if rects[|rects| - 1].Has(x, y) then 1 else 0
  }

  lemma HitsPush(rects: seq<Rect>, r: Rect, x: int, y: int)
    ensures Hits(rects + [r], x, y) == Hits(rects, x, y) + if r.Has(x, y) then 1 else 0
  {
    assert (rects + [r])[..|rects|] == rects;
  }

  // ----- clipping

  /** The damaged part of the frame, or nothing. */
  function Clip(d: Region, width: nat, height: nat): (c: Option<Rect>)
    ensures c.Some? ==> c.value.InFrame(width, height)
    ensures forall x: int, y: int :: (c.Some? && c.value.Has(x, y)) <==> (d.Has(x, y) && 0 <= x < width && 0 <= y < height)
  {
    if d.w <= 0 || d.h <= 0 then None
    else
      var l := Clamp(d.x, 0, width);
      var t := Clamp(d.y, 0, height);
      var r := Clamp(d.x + d.w, 0, width);
      var b := Clamp(d.y + d.h, 0, height);
      if l < r && t < b then Some(Rect(l, t, r, b)) else None
  }

  ghost predicate AnyHas(rects: seq<Rect>, x: int, y: int) {
    exists i :: 0 <= i < |rects| && rects[i].Has(x, y)
  }

  ghost predicate AllInFrame(rects: seq<Rect>, width: nat, height: nat) {
    forall i :: 0 <= i < |rects| ==> rects[i].InFrame(width, height)
  }

  method ClipAll(damage: seq<Region>, width: nat, height: nat) returns (clipped: seq<Rect>)
    ensures AllInFrame(clipped, width, height)
    ensures forall x: int, y: int :: AnyHas(clipped, x, y) <==> Covers(damage, x, y) && 0 <= x < width && 0 <= y < height
  {
    clipped := [];
    var k := 0;
    while k < |damage|
      invariant 0 <= k <= |damage|
      invariant AllInFrame(clipped, width, height)
      invariant forall x: int, y: int :: AnyHas(clipped, x, y) <==> Covers(damage[..k], x, y) && 0 <= x < width && 0 <= y < height
    {
      var c := Clip(damage[k], width, height);
      ghost var before := clipped;
      if c.Some? {
        clipped := clipped + [c.value];
      }
      forall x: int, y: int
        ensures AnyHas(clipped, x, y) <==> Covers(damage[..k + 1], x, y) && 0 <= x < width && 0 <= y < height
      {
        assert damage[..k + 1] == damage[..k] + [damage[k]];
        CoversAppend(damage[..k], damage[k], x, y);
        AnyHasClipped(before, c, clipped, x, y);
      }
      k := k + 1;
    }
    assert damage[..k] == damage;
  }

  lemma AnyHasClipped(before: seq<Rect>, c: Option<Rect>, after: seq<Rect>, x: int, y: int)
    requires after == if c.Some? then before + [c.value] else before
    ensures AnyHas(after, x, y) <==> AnyHas(before, x, y) || (c.Some? && c.value.Has(x, y))
  {
    if AnyHas(before, x, y) {
      var i :| 0 <= i < |before| && before[i].Has(x, y);
      assert after[i].Has(x, y);
    }
    if c.Some? && c.value.Has(x, y) {
      assert after[|before|].Has(x, y);
    }
  }

  // ----- tiling one span of a band

  /** New tiles lie in the given rectangle and are at most 64 by 64. */
  ghost predicate Tiles(before: seq<Rect>, after: seq<Rect>, area: Rect) {
    && before <= after
    && forall i :: |before| <= i < |after| ==>
         && area.left <= after[i].left < after[i].right <= area.right
         && area.top <= after[i].top < after[i].bottom <= area.bottom
         && after[i].right - after[i].left <= TILE && after[i].bottom - after[i].top <= TILE
  }

  /** `u16::saturating_add`. */
  function SatAdd16(a: nat, b: nat): nat { if a + b > U16_MAX then U16_MAX else a + b }

  method TileRow(rects: seq<Rect>, area: Rect, y: nat, ghost yEnd: nat) returns (out: seq<Rect>)
    requires area.left < area.right <= U16_MAX && area.top <= y < yEnd <= area.bottom <= U16_MAX
    requires yEnd == Min(area.bottom, y + TILE)
    ensures Tiles(rects, out, area)
    ensures forall px: int, py: int :: Hits(out, px, py) == Hits(rects, px, py) + (if area.left <= px < area.right && y <= py < yEnd then 1 else 0)
  {
    out := rects;
    var x := area.left;
    assert Min(x, area.right) == area.left;
    while x < area.right
      invariant area.left <= x
      invariant Tiles(rects, out, area)
      invariant forall px: int, py: int ::
          Hits(out, px, py) == Hits(rects, px, py) + (if area.left <= px < Min(x, area.right) && y <= py < yEnd then 1 else 0)
    {
      var tile := Rect(x, y, Min(area.right, SatAdd16(x, TILE)), Min(area.bottom, SatAdd16(y, TILE)));
      forall px: int, py: int
        ensures Hits(out + [tile], px, py) == Hits(out, px, py) + (if tile.Has(px, py) then 1 else 0)
      {
        HitsPush(out, tile, px, py);
      }
      out := out + [tile];
      x := x + TILE;
    }
  }

  method TileArea(rects: seq<Rect>, area: Rect) returns (out: seq<Rect>)
    requires area.left < area.right <= U16_MAX && area.top <= area.bottom <= U16_MAX
    ensures Tiles(rects, out, area)
    ensures forall px: int, py: int :: Hits(out, px, py) == Hits(rects, px, py) + (if area.Has(px, py) then 1 else 0)
  {
    out := rects;
    var y := area.top;
    assert Min(y, area.bottom) == area.top;
    while y < area.bottom
      invariant area.top <= y
      invariant Tiles(rects, out, area)
      invariant forall px: int, py: int ::
          Hits(out, px, py) == Hits(rects, px, py) + (if area.left <= px < area.right && area.top <= py < Min(y, area.bottom) then 1 else 0)
    {
      out := TileRow(out, area, y, Min(area.bottom, y + TILE));
      y := y + TILE;
    }
  }

  // ----- spans of one band

  ghost predicate SpansHave(spans: seq<Span>, x: int) {
    exists i :: 0 <= i < |spans| && spans[i].Has(x)
  }

  /** The order in which `sort_unstable` leaves (left, right) pairs. */
  predicate SpanLe(a: Span, b: Span) {
    a.left < b.left || (a.left == b.left && a.right <= b.right)
  }

  ghost predicate SortedSpans(spans: seq<Span>) {
    forall i, j :: 0 <= i < j < |spans| ==> SpanLe(spans[i], spans[j])
  }

  function InsertSpan(s: Span, spans: seq<Span>): seq<Span> {
    if spans == [] then [s]
    else if SpanLe(s, spans[0]) then [s] + spans
    else [spans[0]] + InsertSpan(s, spans[1..])
  }

  function SortSpans(spans: seq<Span>): seq<Span> {
    if spans == [] then [] else InsertSpan(spans[0], SortSpans(spans[1..]))
  }

  lemma {:induction false} InsertSpanOrdered(s: Span, spans: seq<Span>)
    requires SortedSpans(spans)
    ensures SortedSpans(InsertSpan(s, spans))
    ensures forall v :: v in InsertSpan(s, spans) <==> v == s || v in spans
    decreases |spans|
  {
    if spans != [] && !SpanLe(s, spans[0]) {
      InsertSpanOrdered(s, spans[1..]);
      var rest := InsertSpan(s, spans[1..]);
      forall k | 0 <= k < |rest|
        ensures SpanLe(spans[0], rest[k])
      {
        assert rest[k] in rest;
        if rest[k] != s {
          var j :| 0 <= j < |spans[1..]| && spans[1..][j] == rest[k];
          assert spans[j + 1] == rest[k];
        }
      }
      assert forall v :: v in spans <==> v == spans[0] || v in spans[1..];
    }
  }

  lemma {:induction false} SortSpansOrdered(spans: seq<Span>)
    ensures SortedSpans(SortSpans(spans))
    ensures forall v :: v in SortSpans(spans) <==> v in spans
    decreases |spans|
  {
    if spans == [] {
    } else {
      SortSpansOrdered(spans[1..]);
      InsertSpanOrdered(spans[0], SortSpans(spans[1..]));
      assert forall v :: v in spans <==> v == spans[0] || v in spans[1..];
    }
  }

  /** Non-empty spans in increasing order with a gap after each. */
  ghost predicate Separated(spans: seq<Span>) {
    && (forall i :: 0 <= i < |spans| ==> spans[i].left < spans[i].right)
    && (forall i, j :: 0 <= i < j < |spans| ==> spans[i].right < spans[j].left)
  }

  /** Merges sorted spans that overlap or touch; the union stays exactly the same. */
  method MergeSpans(spans: seq<Span>) returns (merged: seq<Span>)
    requires SortedSpans(spans) && forall i :: 0 <= i < |spans| ==> spans[i].left < spans[i].right
    ensures Separated(merged)
    ensures forall x: int :: SpansHave(merged, x) <==> SpansHave(spans, x)
  {
    merged := [];
    var k := 0;
    while k < |spans|
      invariant 0 <= k <= |spans|
      invariant Separated(merged)
      invariant merged != [] ==> k > 0 && merged[|merged| - 1].left <= spans[k - 1].left
      invariant forall x: int :: SpansHave(merged, x) <==> SpansHave(spans[..k], x)
    {
      var s := spans[k];
      ghost var before := merged;
      if merged != [] && s.left <= merged[|merged| - 1].right {
        var last := merged[|merged| - 1];
        merged := merged[|merged| - 1 := Span(last.left, Max(last.right, s.right))];
      } else {
        merged := merged + [s];
      }
      forall x: int
        ensures SpansHave(merged, x) <==> SpansHave(spans[..k + 1], x)
      {
        SpansHaveNext(spans, k, x);
        MergedHas(before, s, merged, x);
      }
      k := k + 1;
    }
    assert spans[..k] == spans;
  }

  lemma SpansHaveNext(spans: seq<Span>, k: nat, x: int)
    requires k < |spans|
    ensures SpansHave(spans[..k + 1], x) <==> SpansHave(spans[..k], x) || spans[k].Has(x)
  {
    if SpansHave(spans[..k], x) {
      var i :| 0 <= i < k && spans[..k][i].Has(x);
      assert spans[..k + 1][i].Has(x);
    }
    if spans[k].Has(x) {
      assert spans[..k + 1][k].Has(x);
    }
    if SpansHave(spans[..k + 1], x) && !spans[k].Has(x) {
      var i :| 0 <= i < k + 1 && spans[..k + 1][i].Has(x);
      assert spans[..k][i].Has(x);
    }
  }

  lemma MergedHas(before: seq<Span>, s: Span, after: seq<Span>, x: int)
    requires Separated(before) && s.left < s.right
    requires before != [] ==> before[|before| - 1].left <= s.left
    requires after == if before != [] && s.left <= before[|before| - 1].right
                      then before[|before| - 1 := Span(before[|before| - 1].left, Max(before[|before| - 1].right, s.right))]
                      else before + [s]
    ensures SpansHave(after, x) <==> SpansHave(before, x) || s.Has(x)
  {
    var n := |before| - 1;
    if SpansHave(before, x) {
      var i :| 0 <= i < |before| && before[i].Has(x);
      assert after[i].Has(x);
    }
    if s.Has(x) {
      assert after[|after| - 1].Has(x);
    }
    if SpansHave(after, x) {
      var i :| 0 <= i < |after| && after[i].Has(x);
      if i < |after| - 1 {
        assert before[i].Has(x);
      } else if |after| == |before| {
        assert before[n].Has(x) || s.Has(x);
      }
    }
  }

  // ----- bands

  /** The rectangles that span the whole band, as spans of x. */
  function ActiveSpans(clipped: seq<Rect>, top: nat, bottom: nat): seq<Span> {
    if clipped == [] then []
    else (if clipped[0].top <= top && clipped[0].bottom >= bottom then [Span(clipped[0].left, clipped[0].right)] else [])
         + ActiveSpans(clipped[1..], top, bottom)
  }

  /** Some rectangle spans the whole band and contains column x. */
  ghost predicate AnyActive(clipped: seq<Rect>, top: nat, bottom: nat, x: int) {
    exists i :: 0 <= i < |clipped| && ActiveAt(clipped[i], top, bottom, x)
  }

  predicate ActiveAt(c: Rect, top: nat, bottom: nat, x: int) {
    c.top <= top && c.bottom >= bottom && c.left <= x < c.right
  }

  lemma {:induction false} ActiveSpansExact(clipped: seq<Rect>, top: nat, bottom: nat, x: int)
    ensures SpansHave(ActiveSpans(clipped, top, bottom), x) <==> AnyActive(clipped, top, bottom, x)
    decreases |clipped|
  {
    if clipped == [] {
    } else {
      ActiveSpansExact(clipped[1..], top, bottom, x);
      var head: seq<Span> := if clipped[0].top <= top && clipped[0].bottom >= bottom then [Span(clipped[0].left, clipped[0].right)] else [];
      var tail := ActiveSpans(clipped[1..], top, bottom);
      if SpansHave(head + tail, x) {
        var i :| 0 <= i < |head + tail| && (head + tail)[i].Has(x);
        if i < |head| {
          assert ActiveAt(clipped[0], top, bottom, x);
        } else {
          assert tail[i - |head|].Has(x);
          var j :| 0 <= j < |clipped[1..]| && ActiveAt(clipped[1..][j], top, bottom, x);
          assert ActiveAt(clipped[j + 1], top, bottom, x);
        }
      }
      if AnyActive(clipped, top, bottom, x) {
        var i :| 0 <= i < |clipped| && ActiveAt(clipped[i], top, bottom, x);
        if i == 0 {
          assert (head + tail)[0].Has(x);
        } else {
          assert ActiveAt(clipped[1..][i - 1], top, bottom, x);
          var j :| 0 <= j < |tail| && tail[j].Has(x);
          assert (head + tail)[j + |head|].Has(x);
        }
      }
    }
  }

  lemma {:induction false} ActiveSpansInFrame(clipped: seq<Rect>, top: nat, bottom: nat, width: nat, height: nat)
    requires AllInFrame(clipped, width, height)
    ensures forall i :: 0 <= i < |ActiveSpans(clipped, top, bottom)| ==>
              ActiveSpans(clipped, top, bottom)[i].left < ActiveSpans(clipped, top, bottom)[i].right <= width
    decreases |clipped|
  {
    if clipped == [] {
    } else {
      ActiveSpansInFrame(clipped[1..], top, bottom, width, height);
    }
  }

  /** Tiles the separated spans of one band: one hit for each pixel of the union. */
  method TileBand(rects: seq<Rect>, merged: seq<Span>, top: nat, bottom: nat) returns (out: seq<Rect>)
    requires Separated(merged) && top <= bottom <= U16_MAX
    requires forall i :: 0 <= i < |merged| ==> merged[i].right <= U16_MAX
    ensures rects <= out
    ensures forall i :: |rects| <= i < |out| ==> SmallTile(out[i])
    ensures forall px: int, py: int ::
        Hits(out, px, py) == Hits(rects, px, py) + (if top <= py < bottom && SpansHave(merged, px) then 1 else 0)
  {
    out := rects;
    var k := 0;
    assert forall px: int :: !SpansHave(merged[..0], px);
    while k < |merged|
      invariant 0 <= k <= |merged|
      invariant rects <= out
      invariant forall i :: |rects| <= i < |out| ==> SmallTile(out[i])
      invariant forall px: int, py: int ::
          Hits(out, px, py) == Hits(rects, px, py) + (if top <= py < bottom && SpansHave(merged[..k], px) then 1 else 0)
    {
      var area := Rect(merged[k].left, top, merged[k].right, bottom);
      out := TileArea(out, area);
      forall px: int
        ensures SpansHave(merged[..k + 1], px) <==> SpansHave(merged[..k], px) || merged[k].Has(px)
        ensures !(SpansHave(merged[..k], px) && merged[k].Has(px))
      {
        SpansHaveNext(merged, k, px);
      }
      k := k + 1;
    }
    assert merged[..k] == merged;
  }

  ghost predicate SmallTile(r: Rect) {
    r.left < r.right <= r.left + TILE && r.top < r.bottom <= r.top + TILE
  }

  // ----- the whole frame

  ghost predicate StrictlyIncreasing(ys: seq<nat>) {
    forall i, j :: 0 <= i < j < |ys| ==> ys[i] < ys[j]
  }

  /** Sorted insertion that drops a value already there: `sort_unstable` followed by `dedup`. */
  function InsertEdge(y: nat, ys: seq<nat>): seq<nat> {
    if ys == [] then [y]
    else if y < ys[0] then [y] + ys
    else if y == ys[0] then ys
    else [ys[0]] + InsertEdge(y, ys[1..])
  }

  /** The distinct top and bottom edges in increasing order. */
  function Edges(clipped: seq<Rect>): seq<nat> {
    if clipped == [] then []
    else InsertEdge(clipped[0].top, InsertEdge(clipped[0].bottom, Edges(clipped[1..])))
  }

  lemma {:induction false} InsertEdgeOrdered(y: nat, ys: seq<nat>)
    requires StrictlyIncreasing(ys)
    ensures StrictlyIncreasing(InsertEdge(y, ys))
    ensures forall v :: v in InsertEdge(y, ys) <==> v == y || v in ys
    decreases |ys|
  {
    if ys != [] && ys[0] < y {
      InsertEdgeOrdered(y, ys[1..]);
      var rest := InsertEdge(y, ys[1..]);
      forall k | 0 <= k < |rest|
        ensures ys[0] < rest[k]
      {
        assert rest[k] in rest;
        if rest[k] != y {
          var j :| 0 <= j < |ys[1..]| && ys[1..][j] == rest[k];
          assert ys[j + 1] == rest[k];
        }
      }
      assert forall v :: v in ys <==> v == ys[0] || v in ys[1..];
    }
  }

  /** The edges are in order, within the frame, and hold the top and bottom of every rectangle. */
  ghost predicate EdgeList(clipped: seq<Rect>, ys: seq<nat>, height: nat) {
    && StrictlyIncreasing(ys)
    && (forall k :: 0 <= k < |clipped| ==> clipped[k].top in ys && clipped[k].bottom in ys)
    && (forall v :: v in ys ==> v <= height)
  }

  lemma {:induction false} EdgesAreListed(clipped: seq<Rect>, width: nat, height: nat)
    requires AllInFrame(clipped, width, height)
    ensures EdgeList(clipped, Edges(clipped), height)
    decreases |clipped|
  {
    if clipped == [] {
    } else {
      EdgesAreListed(clipped[1..], width, height);
      var rest := Edges(clipped[1..]);
      InsertEdgeOrdered(clipped[0].bottom, rest);
      InsertEdgeOrdered(clipped[0].top, InsertEdge(clipped[0].bottom, rest));
      hide InsertEdge, StrictlyIncreasing;
      TwoMoreEdges(clipped, rest, Edges(clipped), height);
    }
  }

  lemma TwoMoreEdges(clipped: seq<Rect>, rest: seq<nat>, ys: seq<nat>, height: nat)
    requires clipped != [] && EdgeList(clipped[1..], rest, height) && StrictlyIncreasing(ys)
    requires clipped[0].top <= height && clipped[0].bottom <= height
    requires forall v :: v in ys <==> v == clipped[0].top || v == clipped[0].bottom || v in rest
    ensures EdgeList(clipped, ys, height)
  {
    hide StrictlyIncreasing;
    forall k | 0 <= k < |clipped|
      ensures clipped[k].top in ys && clipped[k].bottom in ys
    {
      if k > 0 {
        assert clipped[1..][k - 1] == clipped[k];
      }
    }
  }

  /** Between two neighbouring edges a rectangle is active on every line or on none. */
  lemma BandDecides(clipped: seq<Rect>, ys: seq<nat>, height: nat, i: nat, x: int, y: int)
    requires EdgeList(clipped, ys, height) && i + 1 < |ys| && ys[i] <= y < ys[i + 1]
    ensures AnyActive(clipped, ys[i], ys[i + 1], x) <==> AnyHas(clipped, x, y)
  {
    forall k | 0 <= k < |clipped|
      ensures ActiveAt(clipped[k], ys[i], ys[i + 1], x) <==> clipped[k].Has(x, y)
    {
      var t :| 0 <= t < |ys| && ys[t] == clipped[k].top;
      var b :| 0 <= b < |ys| && ys[b] == clipped[k].bottom;
    }
    if AnyHas(clipped, x, y) {
      var k :| 0 <= k < |clipped| && clipped[k].Has(x, y);
      assert ActiveAt(clipped[k], ys[i], ys[i + 1], x);
    }
  }

  /** Every damaged line lies between the first and the last edge. */
  lemma EdgesEnclose(clipped: seq<Rect>, ys: seq<nat>, height: nat, x: int, y: int)
    requires EdgeList(clipped, ys, height) && AnyHas(clipped, x, y)
    ensures |ys| > 0 && ys[0] <= y < ys[|ys| - 1]
  {
    var k :| 0 <= k < |clipped| && clipped[k].Has(x, y);
    var t :| 0 <= t < |ys| && ys[t] == clipped[k].top;
    var b :| 0 <= b < |ys| && ys[b] == clipped[k].bottom;
  }

  /** Up to edge `i`, each pixel has been hit once if it is damaged and not at all otherwise. */
  ghost predicate ExactUpTo(rects: seq<Rect>, clipped: seq<Rect>, ys: seq<nat>, i: nat)
    requires i < |ys|
  {
    forall x: int, y: int :: Hits(rects, x, y) == if ys[0] <= y < ys[i] && AnyHas(clipped, x, y) then 1 else 0
  }

  /** The separated spans of a band: exactly the columns of the rectangles active in it. */
  method BandSpans(clipped: seq<Rect>, top: nat, bottom: nat, ghost width: nat, ghost height: nat) returns (merged: seq<Span>)
    requires AllInFrame(clipped, width, height)
    ensures Separated(merged)
    ensures forall i :: 0 <= i < |merged| ==> merged[i].right <= width
    ensures forall x: int :: SpansHave(merged, x) <==> AnyActive(clipped, top, bottom, x)
  {
    var active := ActiveSpans(clipped, top, bottom);
    ActiveSpansInFrame(clipped, top, bottom, width, height);
    SortedSpansSame(active);
    var spans := SortSpans(active);
    forall i | 0 <= i < |spans|
      ensures spans[i].left < spans[i].right <= width
    {
      assert spans[i] in active;
    }
    merged := MergeSpans(spans);
    MergedInFrame(merged, spans, width);
    forall x: int
      ensures SpansHave(merged, x) <==> AnyActive(clipped, top, bottom, x)
    {
      ActiveSpansExact(clipped, top, bottom, x);
    }
  }

  method CoverBand(rects: seq<Rect>, clipped: seq<Rect>, ys: seq<nat>, i: nat, ghost width: nat, ghost height: nat)
    returns (out: seq<Rect>)
    requires AllInFrame(clipped, width, height) && width <= U16_MAX && height <= U16_MAX
    requires EdgeList(clipped, ys, height) && i + 1 < |ys|
    requires ExactUpTo(rects, clipped, ys, i)
    requires forall k :: 0 <= k < |rects| ==> SmallTile(rects[k])
    ensures ExactUpTo(out, clipped, ys, i + 1)
    ensures forall k :: 0 <= k < |out| ==> SmallTile(out[k])
  {
    var merged := BandSpans(clipped, ys[i], ys[i + 1], width, height);
    assert ys[i + 1] in ys;
    out := TileBand(rects, merged, ys[i], ys[i + 1]);
    forall x: int, y: int
      ensures Hits(out, x, y) == if ys[0] <= y < ys[i + 1] && AnyHas(clipped, x, y) then 1 else 0
    {
      assert SpansHave(merged, x) <==> AnyActive(clipped, ys[i], ys[i + 1], x);
      if ys[i] <= y < ys[i + 1] {
        BandDecides(clipped, ys, height, i, x, y);
      }
    }
  }

  /** Sorting keeps the columns. */
  lemma SortedSpansSame(spans: seq<Span>)
    ensures SortedSpans(SortSpans(spans))
    ensures forall s :: s in SortSpans(spans) <==> s in spans
    ensures forall x: int :: SpansHave(SortSpans(spans), x) <==> SpansHave(spans, x)
  {
    var sorted := SortSpans(spans);
    SortSpansOrdered(spans);
    forall x: int
      ensures SpansHave(sorted, x) <==> SpansHave(spans, x)
    {
      if SpansHave(spans, x) {
        var i :| 0 <= i < |spans| && spans[i].Has(x);
        assert spans[i] in sorted;
      }
      if SpansHave(sorted, x) {
        var i :| 0 <= i < |sorted| && sorted[i].Has(x);
        assert sorted[i] in spans;
      }
    }
  }

  lemma MergedInFrame(merged: seq<Span>, spans: seq<Span>, width: nat)
    requires Separated(merged) && (forall x: int :: SpansHave(merged, x) <==> SpansHave(spans, x))
    requires forall i :: 0 <= i < |spans| ==> spans[i].right <= width
    ensures forall i :: 0 <= i < |merged| ==> merged[i].right <= width
  {
    forall i | 0 <= i < |merged|
      ensures merged[i].right <= width
    {
      assert merged[i].Has(merged[i].right - 1);
      assert SpansHave(merged, merged[i].right - 1);
      var k :| 0 <= k < |spans| && spans[k].Has(merged[i].right - 1);
    }
  }

  /**
   The rectangles of a ClearCodec frame: every pixel that is damaged and inside the frame lies in
   exactly one of them, no other pixel lies in any, and none is larger than 64 by 64.
   */
  method Cover(damage: seq<Region>, width: nat, height: nat) returns (rects: seq<Rect>)
    requires width <= U16_MAX && height <= U16_MAX
    ensures forall x: int, y: int :: Hits(rects, x, y) ==
              if Covers(damage, x, y) && 0 <= x < width && 0 <= y < height then 1 else 0
    ensures forall k :: 0 <= k < |rects| ==> SmallTile(rects[k]) && rects[k].InFrame(width, height)
  {
    hide SmallTile, Rect.InFrame, EdgeList, AnyHas;
    var clipped := ClipAll(damage, width, height);
    var ys := Edges(clipped);
    EdgesAreListed(clipped, width, height);
    rects := [];
    var i := 0;
    while i + 1 < |ys|
      invariant 0 <= i && (|ys| == 0 ==> i == 0) && (|ys| > 0 ==> i < |ys|)
      invariant |ys| > 0 ==> ExactUpTo(rects, clipped, ys, i)
      invariant |ys| == 0 ==> rects == []
      invariant forall k :: 0 <= k < |rects| ==> SmallTile(rects[k])
    {
      rects := CoverBand(rects, clipped, ys, i, width, height);
      i := i + 1;
    }
    assert |ys| > 0 ==> ExactUpTo(rects, clipped, ys, |ys| - 1);
    forall x: int, y: int
      ensures Hits(rects, x, y) == if AnyHas(clipped, x, y) then 1 else 0
    {
      AllBandsDone(rects, clipped, ys, height, x, y);
    }
    HitTilesInFrame(rects, width, height);
  }

  lemma AllBandsDone(rects: seq<Rect>, clipped: seq<Rect>, ys: seq<nat>, height: nat, x: int, y: int)
    requires EdgeList(clipped, ys, height)
    requires if |ys| > 0 then ExactUpTo(rects, clipped, ys, |ys| - 1) else rects == []
    ensures Hits(rects, x, y) == if AnyHas(clipped, x, y) then 1 else 0
  {
    if AnyHas(clipped, x, y) {
      EdgesEnclose(clipped, ys, height, x, y);
    }
  }

  /** A tile that only hits pixels of the frame lies in the frame. */
  lemma HitTilesInFrame(rects: seq<Rect>, width: nat, height: nat)
    requires forall k :: 0 <= k < |rects| ==> SmallTile(rects[k])
    requires forall x: int, y: int :: Hits(rects, x, y) > 0 ==> 0 <= x < width && 0 <= y < height
    ensures forall k :: 0 <= k < |rects| ==> rects[k].InFrame(width, height)
  {
    forall k | 0 <= k < |rects|
      ensures rects[k].InFrame(width, height)
    {
      HasIsHit(rects, k, rects[k].right - 1, rects[k].bottom - 1);
    }
  }

  lemma {:induction false} HasIsHit(rects: seq<Rect>, k: nat, x: int, y: int)
    requires k < |rects| && rects[k].Has(x, y)
    ensures Hits(rects, x, y) > 0
    decreases |rects|
  {
    if k < |rects| - 1 {
      HasIsHit(rects[..|rects| - 1], k, x, y);
    }
  }

  // ----- the frame and its pixels

  const USIZE_MAX: nat := 0xffff_ffff_ffff_ffff

  /** Formats with four bytes a pixel and alpha (or padding) last. */
  predicate Supported(format: PixelFormat) {
    format.BgrA32? || format.BgrX32? || format.RgbA32? || format.RgbX32?
  }

  predicate RedFirst(format: PixelFormat) { format.RgbA32? || format.RgbX32? }

  datatype InputError = UnsupportedFormat | EmptyFrame | ShortStride | LengthOverflow | ShortBuffer

  datatype Input = Input(data: seq<u8>, stride: nat, format: PixelFormat, rectangles: seq<Rect>) {
    /** The buffer holds every row of a frame of this size. */
    ghost predicate Holds(width: nat, height: nat) {
      4 * width <= stride && stride * height <= |data|
    }
  }

  datatype Result = Ok(input: Input) | Err(error: InputError)

  /** `ClearCodecInput::new`: checks the buffer, then cuts the damage into rectangles. */
  method NewInput(data: seq<u8>, width: nat, height: nat, stride: nat, damage: seq<Region>, format: PixelFormat)
    returns (result: Result)
    requires width <= U16_MAX && height <= U16_MAX && |data| <= USIZE_MAX
    ensures Supported(format) <==> Channels(format)[3] in "AX"
    ensures result.Ok? <==> Supported(format) && 0 < width && 0 < height && 4 * width <= stride && stride * height <= |data|
    ensures result.Err? ==>
              result.error == if !Supported(format) then UnsupportedFormat
                              else if width == 0 || height == 0 then EmptyFrame
                              else if stride < 4 * width then ShortStride
                              else if stride * height > USIZE_MAX then LengthOverflow
                              else ShortBuffer
    ensures result.Ok? ==>
              && result.input.data == data && result.input.stride == stride && result.input.format == format
              && result.input.Holds(width, height)
              && (forall x: int, y: int :: Hits(result.input.rectangles, x, y) ==
                    if Covers(damage, x, y) && 0 <= x < width && 0 <= y < height then 1 else 0)
              && (forall k :: 0 <= k < |result.input.rectangles| ==>
                    SmallTile(result.input.rectangles[k]) && result.input.rectangles[k].InFrame(width, height))
  {
    if !Supported(format) {
      return Err(UnsupportedFormat);
    }
    if width == 0 || height == 0 {
      return Err(EmptyFrame);
    }
    if stride < width * 4 {
      return Err(ShortStride);
    }
    if stride * height > USIZE_MAX {
      return Err(LengthOverflow);
    }
    if |data| < stride * height {
      return Err(ShortBuffer);
    }
    var rectangles := Cover(damage, width, height);
    return Ok(Input(data, stride, format, rectangles));
  }

  /** Bytes 0 and 2 of every pixel trade places. */
  function SwapSource(i: nat): nat {
    if i % 4 == 0 then i + 2 else if i % 4 == 2 then i - 2 else i
  }

  /** The bytes with red and blue exchanged in every pixel. */
  ghost predicate Swapped(bytes: seq<u8>, out: seq<u8>) {
    |out| == |bytes| && |bytes| % 4 == 0 &&
    forall i :: 0 <= i < |out| ==> SwapSource(i) < |bytes| && out[i] == bytes[SwapSource(i)]
  }

  lemma RowInBounds(input: Input, rect: Rect, y: nat, width: nat, height: nat)
    requires input.Holds(width, height) && rect.InFrame(width, height) && y < height
    ensures y * input.stride + rect.left * 4 + (rect.right - rect.left) * 4 <= |input.data|
  {
    RowFits(y, height, input.stride);
  }

  /** Line `y` of the frame, cut to the columns of the rectangle. */
  ghost function Line(input: Input, rect: Rect, y: nat, width: nat, height: nat): (line: seq<u8>)
    requires input.Holds(width, height) && rect.InFrame(width, height) && y < height
    ensures |line| == (rect.right - rect.left) * 4
  {
    RowInBounds(input, rect, y, width, height);
    var start := y * input.stride + rect.left * 4;
    input.data[start..start + (rect.right - rect.left) * 4]
  }

  /** The lines from the top of the rectangle down to `end`, one after the other. */
  ghost function Lines(input: Input, rect: Rect, end: nat, width: nat, height: nat): (lines: seq<u8>)
    requires input.Holds(width, height) && rect.InFrame(width, height) && rect.top <= end <= rect.bottom
    ensures |lines| % 4 == 0
    decreases end
  {
    if end == rect.top then []
    else
      var before, line := Lines(input, rect, end - 1, width, height), Line(input, rect, end - 1, width, height);
      FourMore(|before|, rect.right - rect.left);
      before + line
  }

  /** Where the pixel (x, y) starts among the bytes of its rectangle. */
  function Place(rect: Rect, x: nat, y: nat): (k: nat)
    requires rect.left <= x < rect.right && rect.top <= y
  {
    (y - rect.top) * ((rect.right - rect.left) * 4) + (x - rect.left) * 4
  }

  lemma PlaceIsPixel(rect: Rect, x: nat, y: nat, end: nat)
    requires rect.left <= x < rect.right && rect.top <= y < end
    ensures Place(rect, x, y) % 4 == 0 && Place(rect, x, y) + 4 <= (end - rect.top) * ((rect.right - rect.left) * 4)
  {
    var columns, line := rect.right - rect.left, y - rect.top;
    assert Place(rect, x, y) == 4 * (line * columns + (x - rect.left));
    MulMonotone(line + 1, end - rect.top, columns * 4);
    assert (line + 1) * (columns * 4) == line * (columns * 4) + columns * 4;
  }

  /** The four bytes of a pixel in the frame. */
  function PixelAt(input: Input, x: nat, y: nat): (pixel: seq<u8>)
    requires y * input.stride + x * 4 + 4 <= |input.data|
    ensures |pixel| == 4
  {
    input.data[y * input.stride + x * 4..y * input.stride + x * 4 + 4]
  }

  lemma {:induction false} LinesLength(input: Input, rect: Rect, end: nat, width: nat, height: nat)
    requires input.Holds(width, height) && rect.InFrame(width, height) && rect.top <= end <= rect.bottom
    ensures |Lines(input, rect, end, width, height)| == (end - rect.top) * ((rect.right - rect.left) * 4)
    decreases end
  {
    if end == rect.top {
    } else {
      LinesLength(input, rect, end - 1, width, height);
      assert (end - rect.top) * ((rect.right - rect.left) * 4) ==
             (end - 1 - rect.top) * ((rect.right - rect.left) * 4) + (rect.right - rect.left) * 4;
    }
  }

  lemma SliceOfFirst(a: seq<u8>, b: seq<u8>, k: nat)
    requires k + 4 <= |a|
    ensures (a + b)[k..k + 4] == a[k..k + 4]
  {
  }

  lemma SliceOfSecond(a: seq<u8>, b: seq<u8>, k: nat)
    requires k + 4 <= |b|
    ensures (a + b)[|a| + k..|a| + k + 4] == b[k..k + 4]
  {
  }

  lemma SliceOfSlice(s: seq<u8>, a: nat, b: nat, k: nat)
    requires a <= b <= |s| && a + k + 4 <= b
    ensures s[a..b][k..k + 4] == s[a + k..a + k + 4]
  {
    var t, u := s[a..b][k..k + 4], s[a + k..a + k + 4];
    assert |t| == |u| && forall i :: 0 <= i < |t| ==> t[i] == s[a + k + i] == u[i];
  }

  lemma LineHolds(input: Input, rect: Rect, x: nat, y: nat, width: nat, height: nat)
    requires input.Holds(width, height) && rect.InFrame(width, height)
    requires rect.left <= x < rect.right && y < height
    ensures y * input.stride + x * 4 + 4 <= |input.data|
    ensures Line(input, rect, y, width, height)[(x - rect.left) * 4..(x - rect.left) * 4 + 4] == PixelAt(input, x, y)
  {
    RowInBounds(input, rect, y, width, height);
    var start := y * input.stride + rect.left * 4;
    SliceOfSlice(input.data, start, start + (rect.right - rect.left) * 4, (x - rect.left) * 4);
  }

  /** The lines down to `end` hold the bytes of every pixel above it, in its place. */
  lemma {:induction false} LinesHold(input: Input, rect: Rect, end: nat, width: nat, height: nat, x: nat, y: nat)
    requires input.Holds(width, height) && rect.InFrame(width, height)
    requires rect.left <= x < rect.right && rect.top <= y < end <= rect.bottom
    ensures y * input.stride + x * 4 + 4 <= |input.data|
    ensures var lines, k := Lines(input, rect, end, width, height), Place(rect, x, y);
            k + 4 <= |lines| && lines[k..k + 4] == PixelAt(input, x, y)
    decreases end
  {
    hide Line, PixelAt, Place;
    var before, line := Lines(input, rect, end - 1, width, height), Line(input, rect, end - 1, width, height);
    assert Lines(input, rect, end, width, height) == before + line;
    hide Lines;
    LineHolds(input, rect, x, y, width, height);
    if y < end - 1 {
      LinesHold(input, rect, end - 1, width, height, x, y);
      SliceOfFirst(before, line, Place(rect, x, y));
    } else {
      LinesLength(input, rect, y, width, height);
      PlaceIsSum(rect, x, y);
      SliceOfSecond(before, line, (x - rect.left) * 4);
    }
  }

  lemma PlaceIsSum(rect: Rect, x: nat, y: nat)
    requires rect.left <= x < rect.right && rect.top <= y
    ensures Place(rect, x, y) == (y - rect.top) * ((rect.right - rect.left) * 4) + (x - rect.left) * 4
  {
  }

  /** The byte of a pixel that holds the channel of this name. */
  function ByteOf(pixel: seq<u8>, format: PixelFormat, name: char): u8
    requires |pixel| == 4
  {
    var names := Channels(format);
    if names[0] == name then pixel[0] else if names[1] == name then pixel[1] else if names[2] == name then pixel[2] else pixel[3]
  }

  /** The four bytes at `k` are the pixel's blue, green and red, wherever its format has them, and its last byte. */
  ghost predicate InBgrOrder(out: seq<u8>, k: nat, format: PixelFormat, pixel: seq<u8>)
    requires |pixel| == 4
  {
    k + 4 <= |out| &&
    out[k..k + 4] == [ByteOf(pixel, format, 'B'), ByteOf(pixel, format, 'G'), ByteOf(pixel, format, 'R'), pixel[3]]
  }

  /** The rectangle's pixels, line by line, in BGR order. */
  ghost predicate Shows(input: Input, rect: Rect, out: seq<u8>) {
    && rect.left <= rect.right && rect.top <= rect.bottom
    && |out| == (rect.bottom - rect.top) * ((rect.right - rect.left) * 4)
    && (forall x: nat, y: nat :: rect.left <= x < rect.right && rect.top <= y < rect.bottom ==>
          y * input.stride + x * 4 + 4 <= |input.data| &&
          InBgrOrder(out, Place(rect, x, y), input.format, PixelAt(input, x, y)))
  }

  lemma SwappedPixel(lines: seq<u8>, out: seq<u8>, k: nat, format: PixelFormat, pixel: seq<u8>)
    requires Supported(format) && k % 4 == 0 && k + 4 <= |lines| && |pixel| == 4 && lines[k..k + 4] == pixel
    requires if RedFirst(format) then Swapped(lines, out) else out == lines
    ensures InBgrOrder(out, k, format, pixel)
  {
    assert pixel == [lines[k], lines[k + 1], lines[k + 2], lines[k + 3]];
    if RedFirst(format) {
      assert out[k] == lines[SwapSource(k)] && out[k + 1] == lines[SwapSource(k + 1)];
      assert out[k + 2] == lines[SwapSource(k + 2)] && out[k + 3] == lines[SwapSource(k + 3)];
      assert out[k..k + 4] == [pixel[2], pixel[1], pixel[0], pixel[3]];
    }
  }

  lemma SwapShows(input: Input, rect: Rect, width: nat, height: nat, lines: seq<u8>, out: seq<u8>)
    requires input.Holds(width, height) && rect.InFrame(width, height) && Supported(input.format)
    requires lines == Lines(input, rect, rect.bottom, width, height)
    requires if RedFirst(input.format) then Swapped(lines, out) else out == lines
    ensures Shows(input, rect, out)
  {
    hide Lines, Place, InBgrOrder, RedFirst, Supported;
    LinesLength(input, rect, rect.bottom, width, height);
    assert |out| == |lines|;
    forall x: nat, y: nat | rect.left <= x < rect.right && rect.top <= y < rect.bottom
      ensures y * input.stride + x * 4 + 4 <= |input.data|
      ensures InBgrOrder(out, Place(rect, x, y), input.format, PixelAt(input, x, y))
    {
      PlaceIsPixel(rect, x, y, rect.bottom);
      LinesHold(input, rect, rect.bottom, width, height, x, y);
      SwappedPixel(lines, out, Place(rect, x, y), input.format, PixelAt(input, x, y));
    }
  }

  lemma FourMore(n: nat, m: nat)
    requires n % 4 == 0
    ensures (n + m * 4) % 4 == 0
  {
  }

  /** The pixels of one rectangle in BGR order; every read is inside the buffer. */
  method Pixels(input: Input, rect: Rect, ghost width: nat, ghost height: nat) returns (out: seq<u8>)
    requires input.Holds(width, height) && rect.InFrame(width, height)
    ensures if RedFirst(input.format) then Swapped(Lines(input, rect, rect.bottom, width, height), out)
            else out == Lines(input, rect, rect.bottom, width, height)
    ensures Supported(input.format) ==> Shows(input, rect, out)
  {
    var rowBytes := (rect.right - rect.left) * 4;
    out := [];
    var y := rect.top;
    while y < rect.bottom
      invariant rect.top <= y <= rect.bottom
      invariant out == Lines(input, rect, y, width, height)
    {
      RowInBounds(input, rect, y, width, height);
      var start := y * input.stride + rect.left * 4;
      out := out + input.data[start..start + rowBytes];
      y := y + 1;
    }
    ghost var lines := out;
    if RedFirst(input.format) {
      out := SwapChannels(out);
    }
    if Supported(input.format) {
      SwapShows(input, rect, width, height, lines, out);
    }
  }

  /** `pixel.swap(0, 2)` for every chunk of four bytes. */
  method SwapChannels(bytes: seq<u8>) returns (out: seq<u8>)
    requires |bytes| % 4 == 0
    ensures Swapped(bytes, out)
  {
    out := bytes;
    var i := 0;
    while i < |bytes|
      invariant 0 <= i <= |bytes| && i % 4 == 0 && |out| == |bytes|
      invariant forall k :: 0 <= k < i ==> SwapSource(k) < |bytes| && out[k] == bytes[SwapSource(k)]
      invariant forall k :: i <= k < |out| ==> out[k] == bytes[k]
    {
      out := out[i := out[i + 2]][i + 2 := out[i]];
      i := i + 4;
    }
  }
}

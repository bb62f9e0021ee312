/**
 What the client shows, against what the encoder believes it shows (src/egfx/avc444.rs).

 A decoded stream is a whole picture, but the client takes only the announced regions from it:
 the cells whose home pixel they cover.  The encoder's references are meant to hold what the
 client holds, although they are updated by other regions: tiles for the main picture, packed
 tiles for the auxiliary one.  H.264 is an ideal codec here, so a decoded picture is the encoded
 one.
 */
module Avc444Client {
  import Avc444Buffers
  import opened Avc444Conversion
  import opened Avc444Chroma
  import opened Avc444Detect
  import opened Arithmetic
  import opened Avc444Layout
  import opened Avc444Regions
  import opened Regions

  predicate IsMain(p: Plane) { !IsAux(p) }

  /** The client's planes of one picture after it took `regions` from the decoded `picture`. */
  ghost predicate Shown(width: nat, height: nat, main: bool, before: Yuv420, picture: Yuv420, regions: seq<Region>, after: Yuv420) {
    forall p: Plane :: IsMain(p) == main ==> Repainted(p, width, height, Part(before, p), Part(picture, p), regions, Part(after, p))
  }

  ghost function RepaintedAt(p: Plane, width: nat, height: nat, before: seq<u8>, source: seq<u8>, regions: seq<Region>, i: nat): u8
    requires Sized(p, width, height, before) && Sized(p, width, height, source) && i < |before|
  {
    var stride := Stride(p, width);
    if 0 < stride && CellIn(p, width, regions, i % stride, i / stride) then source[i] else before[i]
  }

  /** A plane with the cells of `regions` taken from `source`. */
  ghost function Repaint(p: Plane, width: nat, height: nat, before: seq<u8>, source: seq<u8>, regions: seq<Region>): seq<u8>
    requires Sized(p, width, height, before) && Sized(p, width, height, source)
  {
    seq(|before|, i requires 0 <= i < |before| => RepaintedAt(p, width, height, before, source, regions, i))
  }

  lemma RepaintIsRepainted(p: Plane, width: nat, height: nat, before: seq<u8>, source: seq<u8>, regions: seq<Region>)
    requires Sized(p, width, height, before) && Sized(p, width, height, source)
    ensures Repainted(p, width, height, before, source, regions, Repaint(p, width, height, before, source, regions))
  {
    var after := Repaint(p, width, height, before, source, regions);
    var stride := Stride(p, width);
    forall x: int, y: int | HasCell(p, width, height, x, y)
      ensures Cell(p, width, height, after, x, y) ==
              if CellIn(p, width, regions, x, y) then Cell(p, width, height, source, x, y) else Cell(p, width, height, before, x, y)
    {
      var i := IndexOf(stride, x, y);
      IndexInBounds(stride, Rows(p, height), x, y);
      IndexSplits(stride, Rows(p, height), i);
      IndexIsInjective(stride, x, y, i % stride, i / stride);
      assert after[i] == RepaintedAt(p, width, height, before, source, regions, i);
    }
  }

  /** What the client shows of one picture after it took `regions` from the decoded one. */
  ghost function Show(width: nat, height: nat, main: bool, before: Yuv420, picture: Yuv420, regions: seq<Region>): Yuv420
    requires PictureSized(width, height, before) && PictureSized(width, height, picture)
  {
    var y := if main then Y444 else AuxY;
    var u := if main then MainU else AuxU;
    var v := if main then MainV else AuxV;
    assert Sized(y, width, height, Part(before, y)) && Sized(y, width, height, Part(picture, y));
    assert Sized(u, width, height, Part(before, u)) && Sized(u, width, height, Part(picture, u));
    assert Sized(v, width, height, Part(before, v)) && Sized(v, width, height, Part(picture, v));
    Yuv420(Repaint(y, width, height, before.y, picture.y, regions),
           Repaint(u, width, height, before.u, picture.u, regions),
           Repaint(v, width, height, before.v, picture.v, regions))
  }

  lemma ShowIsShown(width: nat, height: nat, main: bool, before: Yuv420, picture: Yuv420, regions: seq<Region>)
    requires PictureSized(width, height, before) && PictureSized(width, height, picture)
    ensures Shown(width, height, main, before, picture, regions, Show(width, height, main, before, picture, regions))
  {
    forall p: Plane | IsMain(p) == main
      ensures Repainted(p, width, height, Part(before, p), Part(picture, p), regions,
                        Part(Show(width, height, main, before, picture, regions), p))
    {
      assert Sized(p, width, height, Part(before, p)) && Sized(p, width, height, Part(picture, p));
      RepaintIsRepainted(p, width, height, Part(before, p), Part(picture, p), regions);
    }
  }

  function Full(width: nat, height: nat): Region
    requires FrameSize(width, height)
  {
    Region(0, 0, width, height)
  }

  /** A region list the encoder uses for the main picture: what was detected, or the whole frame. */
  ghost predicate LumaSelected(width: nat, height: nat, picture: Yuv420, reference: Option<Yuv420>, candidates: seq<Region>,
                               regions: seq<Region>)
    requires FrameSize(width, height) && PictureSized(width, height, picture)
    requires reference.Some? ==> PictureSized(width, height, reference.value)
  {
    regions == [Full(width, height)] ||
    (reference.Some? && Detected(width, height, picture, reference.value, candidates, regions))
  }

  ghost predicate ChromaSelected(width: nat, height: nat, aux: Yuv420, reference: Option<Yuv420>, candidates: seq<Region>,
                                 packed: seq<Region>, protocol: seq<Region>)
    requires FrameSize(width, height) && PictureSized(width, height, aux)
    requires reference.Some? ==> PictureSized(width, height, reference.value)
  {
    (packed == [Full(width, height)] && protocol == [Full(width, height)]) ||
    (reference.Some? && ChromaDetected(width, height, aux, reference.value, candidates, packed, protocol))
  }

  /** The reference after a commit. */
  ghost predicate Updated(width: nat, height: nat, reference: Option<Yuv420>, data: Yuv420, regions: seq<Region>, after: Yuv420)
    requires FrameSize(width, height) && PictureSized(width, height, data)
    requires reference.Some? ==> PictureSized(width, height, reference.value)
  {
    PictureSized(width, height, after) &&
    if reference.None? then after == data else Committed(width, height, reference.value, data, regions, after)
  }

  /** All cells of the candidates agree. */
  ghost predicate Agree(width: nat, height: nat, main: bool, a: Yuv420, b: Yuv420, candidates: seq<Region>)
    requires PictureSized(width, height, a) && PictureSized(width, height, b)
  {
    forall p: Plane, x: int, y: int ::
      IsMain(p) == main && HasCell(p, width, height, x, y) && CellIn(p, width, candidates, x, y) ==>
        !CellDiffers(width, height, a, b, p, x, y)
  }

  // ----- the whole frame

  lemma FullHasEverything(width: nat, height: nat, p: Plane, x: int, y: int)
    requires FrameSize(width, height) && HasCell(p, width, height, x, y)
    ensures RegionsHaveCell(p, [Full(width, height)], x, y)
    ensures CellIn(p, width, [Full(width, height)], x, y)
  {
    OneRegionCell(p, Full(width, height), x, y);
    Avc444Buffers.CoversOne(Full(width, height), HomeX(p, width, x), HomeY(p, y));
  }

  /** Committing the whole frame makes the reference the picture. */
  lemma FullCommit(width: nat, height: nat, reference: Option<Yuv420>, data: Yuv420, after: Yuv420, p: Plane, x: int, y: int)
    requires FrameSize(width, height) && PictureSized(width, height, data)
    requires reference.Some? ==> PictureSized(width, height, reference.value)
    requires Updated(width, height, reference, data, [Full(width, height)], after)
    ensures !CellDiffers(width, height, after, data, p, x, y)
  {
    hide PictureSized, HasCell, RegionsHaveCell, DimensionsSupported;
    if reference.None? {
      SelfSame(width, height, data);
    } else {
      if HasCell(p, width, height, x, y) {
        FullHasEverything(width, height, p, x, y);
      } else {
        NoCellNoDifference(width, height, after, data, p, x, y);
      }
    }
  }

  lemma NoCellNoDifference(width: nat, height: nat, a: Yuv420, b: Yuv420, p: Plane, x: int, y: int)
    requires PictureSized(width, height, a) && PictureSized(width, height, b) && !HasCell(p, width, height, x, y)
    ensures !CellDiffers(width, height, a, b, p, x, y)
  {
  }

  // ----- the reference follows the picture

  /** A cell with its home pixel in a region belongs to the region. */
  lemma HomeMeansCell(width: nat, height: nat, p: Plane, regions: seq<Region>, x: int, y: int)
    requires IsMain(p) && CellIn(p, width, regions, x, y)
    ensures RegionsHaveCell(p, regions, x, y)
  {
    var i :| 0 <= i < |regions| && regions[i].Has(HomeX(p, width, x), HomeY(p, y));
    assert RegionHasCell(p, regions[i], x, y);
  }

  /** After the commit, the luma reference holds the picture on every cell of the candidates. */
  lemma LumaReferenceFollows(width: nat, height: nat, picture: Yuv420, reference: Option<Yuv420>, candidates: seq<Region>,
                             regions: seq<Region>, after: Yuv420)
    requires FrameSize(width, height) && PictureSized(width, height, picture)
    requires reference.Some? ==> PictureSized(width, height, reference.value)
    requires LumaSelected(width, height, picture, reference, candidates, regions)
    requires Updated(width, height, reference, picture, regions, after)
    ensures forall p: Plane, x: int, y: int :: RegionsHaveCell(p, candidates, x, y) ==> !CellDiffers(width, height, picture, after, p, x, y)
    ensures Agree(width, height, true, picture, after, candidates)
  {
    hide PictureSized, Detected, Committed, HasCell, RegionsHaveCell, CellDiffers, CellIn, DimensionsSupported;
    forall p: Plane, x: int, y: int | RegionsHaveCell(p, candidates, x, y)
      ensures !CellDiffers(width, height, picture, after, p, x, y)
    {
      if regions == [Full(width, height)] {
        FullCommit(width, height, reference, picture, after, p, x, y);
        DifferIsSymmetric(width, height, picture, after, p, x, y);
      } else {
        CommitMatchesCandidates(width, height, picture, reference.value, candidates, regions, after, p, x, y);
      }
    }
    forall p: Plane, x: int, y: int | IsMain(p) && HasCell(p, width, height, x, y) && CellIn(p, width, candidates, x, y)
      ensures !CellDiffers(width, height, picture, after, p, x, y)
    {
      HomeMeansCell(width, height, p, candidates, x, y);
    }
  }

  /** An auxiliary cell with its home in an aligned candidate is in the candidate's packed rectangles. */
  lemma HomeMeansPacked(width: nat, height: nat, candidates: seq<Region>, p: Plane, x: int, y: int) returns (j: nat)
    requires FrameSize(width, height) && AllInFrame(candidates, width, height) && AllAligned(candidates)
    requires IsAux(p) && HasCell(p, width, height, x, y) && CellIn(p, width, candidates, x, y)
    ensures j < |candidates| && RegionsHaveCell(p, PackedCandidates(width, height, candidates[j]), x, y)
  {
    j :| 0 <= j < |candidates| && candidates[j].Has(HomeX(p, width, x), HomeY(p, y));
    hide PackedCandidates, Aligned;
    PackedCandidatesAreExact(width, height, candidates[j], p, x, y);
  }

  /** One auxiliary cell after the commit: it holds the picture. */
  lemma PackedCellFollows(width: nat, height: nat, aux: Yuv420, reference: Option<Yuv420>, candidates: seq<Region>,
                          packed: seq<Region>, protocol: seq<Region>, after: Yuv420, p: Plane, x: int, y: int, j: nat)
    requires FrameSize(width, height) && PictureSized(width, height, aux)
    requires reference.Some? ==> PictureSized(width, height, reference.value)
    requires ChromaSelected(width, height, aux, reference, candidates, packed, protocol)
    requires Updated(width, height, reference, aux, packed, after)
    requires j < |candidates| && RegionsHaveCell(p, PackedCandidates(width, height, candidates[j]), x, y)
    ensures !CellDiffers(width, height, aux, after, p, x, y)
  {
    hide PictureSized, HasCell, RegionsHaveCell, CellDiffers, DimensionsSupported, PackedTile, TileAnnounced,
         ProtocolRegion, PackedCandidates;
    if packed == [Full(width, height)] {
      FullCommit(width, height, reference, aux, after, p, x, y);
      DifferIsSymmetric(width, height, aux, after, p, x, y);
    } else if HasCell(p, width, height, x, y) {
      assert CandidateScanned(width, height, aux, reference.value, candidates[j], packed);
      CommittedCell(width, height, reference.value, aux, packed, after, p, x, y);
    } else {
      NoCellNoDifference(width, height, aux, after, p, x, y);
    }
  }

  /** A cell that was committed, or did not differ before, does not differ afterwards. */
  lemma CommittedCell(width: nat, height: nat, before: Yuv420, data: Yuv420, regions: seq<Region>, after: Yuv420, p: Plane, x: int, y: int)
    requires PictureSized(width, height, before) && PictureSized(width, height, data)
    requires Committed(width, height, before, data, regions, after) && HasCell(p, width, height, x, y)
    requires CellDiffers(width, height, data, before, p, x, y) ==> RegionsHaveCell(p, regions, x, y)
    ensures !CellDiffers(width, height, data, after, p, x, y)
  {
    CommittedIsSized(width, height, before, data, regions, after);
    hide PictureSized, HasCell, RegionsHaveCell, CellDiffers;
    DifferIsSymmetric(width, height, data, after, p, x, y);
    if !RegionsHaveCell(p, regions, x, y) {
      DifferenceIsTransitive(width, height, data, before, after, data, p, x, y);
      DifferIsSymmetric(width, height, data, before, p, x, y);
    }
  }

  /** After the commit, the chroma reference holds the auxiliary picture on the candidates. */
  lemma ChromaReferenceFollows(width: nat, height: nat, aux: Yuv420, reference: Option<Yuv420>, candidates: seq<Region>,
                               packed: seq<Region>, protocol: seq<Region>, after: Yuv420)
    requires FrameSize(width, height) && PictureSized(width, height, aux)
    requires AllInFrame(candidates, width, height) && AllAligned(candidates)
    requires reference.Some? ==> PictureSized(width, height, reference.value)
    requires ChromaSelected(width, height, aux, reference, candidates, packed, protocol)
    requires Updated(width, height, reference, aux, packed, after)
    ensures Agree(width, height, false, aux, after, candidates)
  {
    hide PictureSized, HasCell, RegionsHaveCell, CellDiffers, DimensionsSupported, ChromaSelected,
         PackedCandidates, Updated, CellIn;
    UpdatedIsSized(width, height, reference, aux, packed, after);
    forall p: Plane, x: int, y: int | IsAux(p) && HasCell(p, width, height, x, y) && CellIn(p, width, candidates, x, y)
      ensures !CellDiffers(width, height, aux, after, p, x, y)
    {
      var j := HomeMeansPacked(width, height, candidates, p, x, y);
      PackedCellFollows(width, height, aux, reference, candidates, packed, protocol, after, p, x, y, j);
    }
  }

  lemma UpdatedIsSized(width: nat, height: nat, reference: Option<Yuv420>, data: Yuv420, regions: seq<Region>, after: Yuv420)
    requires FrameSize(width, height) && PictureSized(width, height, data)
    requires reference.Some? ==> PictureSized(width, height, reference.value)
    requires Updated(width, height, reference, data, regions, after)
    ensures PictureSized(width, height, after)
  {
  }

  // ----- the client and the reference stay in step

  /** The client's picture and the encoder's reference hold the same cells. */
  ghost predicate InStep(width: nat, height: nat, main: bool, client: Yuv420, reference: Yuv420) {
    && PictureSized(width, height, client) && PictureSized(width, height, reference)
    && forall p: Plane, x: int, y: int :: IsMain(p) == main ==> !CellDiffers(width, height, client, reference, p, x, y)
  }

  /** For an even region a cell belongs to the region exactly when its home pixel does. */
  lemma EvenRegionCells(p: Plane, width: nat, r: Region, x: int, y: int)
    requires IsMain(p) && Even(r) && 0 < r.w && 0 < r.h
    ensures RegionHasCell(p, r, x, y) <==> r.Has(HomeX(p, width, x), HomeY(p, y))
  {
  }

  ghost predicate EvenRegions(regions: seq<Region>) {
    forall i :: 0 <= i < |regions| ==> Even(regions[i]) && 0 < regions[i].w && 0 < regions[i].h
  }

  lemma EvenRegionsCells(p: Plane, width: nat, regions: seq<Region>, x: int, y: int)
    requires IsMain(p) && EvenRegions(regions)
    ensures RegionsHaveCell(p, regions, x, y) <==> CellIn(p, width, regions, x, y)
  {
    hide Even, RegionHasCell, HomeX, HomeY;
    if RegionsHaveCell(p, regions, x, y) {
      var i :| 0 <= i < |regions| && RegionHasCell(p, regions[i], x, y);
      EvenRegionCells(p, width, regions[i], x, y);
    }
    if CellIn(p, width, regions, x, y) {
      var i :| 0 <= i < |regions| && regions[i].Has(HomeX(p, width, x), HomeY(p, y));
      EvenRegionCells(p, width, regions[i], x, y);
    }
  }

  lemma AlignedIsEven(r: Region)
    requires Aligned(r)
    ensures Even(r)
  {
    MultipleOf4IsEven(r.x);
    MultipleOf4IsEven(r.x + r.w);
  }

  lemma MultipleOf4IsEven(v: int)
    requires v % 4 == 0
    ensures v % 2 == 0
  {
    assert v == 2 * (2 * (v / 4));
  }

  lemma SelectedIsEven(width: nat, height: nat, picture: Yuv420, reference: Option<Yuv420>, candidates: seq<Region>, regions: seq<Region>)
    requires FrameSize(width, height) && PictureSized(width, height, picture)
    requires reference.Some? ==> PictureSized(width, height, reference.value)
    requires AllInFrame(candidates, width, height) && AllAligned(candidates)
    requires LumaSelected(width, height, picture, reference, candidates, regions)
    ensures EvenRegions(regions)
  {
    AlignedIsEven(Full(width, height));
    hide PictureSized, RegionDiffers, Even, Aligned;
    if regions != [Full(width, height)] {
      forall i | 0 <= i < |regions|
        ensures Even(regions[i]) && 0 < regions[i].w && 0 < regions[i].h
      {
        assert ReportedTile(width, height, picture, reference.value, candidates, regions[i]);
        var j :| 0 <= j < |candidates| && PartOf(width, height, regions[i], candidates[j]);
        AlignedIsEven(candidates[j]);
      }
    }
  }

  /** One cell: taken by the client and committed, or by neither. */
  lemma CellInStep(width: nat, height: nat, client: Yuv420, reference: Option<Yuv420>, picture: Yuv420, shown: seq<Region>,
                   client': Yuv420, committed: seq<Region>, after: Yuv420, p: Plane, x: int, y: int)
    requires FrameSize(width, height) && PictureSized(width, height, picture) && PictureSized(width, height, client)
    requires PictureSized(width, height, client') && HasCell(p, width, height, x, y)
    requires reference.Some? ==> PictureSized(width, height, reference.value) && !CellDiffers(width, height, client, reference.value, p, x, y)
    requires Repainted(p, width, height, Part(client, p), Part(picture, p), shown, Part(client', p))
    requires Updated(width, height, reference, picture, committed, after)
    requires RegionsHaveCell(p, committed, x, y) ==> CellIn(p, width, shown, x, y)
    requires CellIn(p, width, shown, x, y) && !RegionsHaveCell(p, committed, x, y) ==>
               reference.Some? && !CellDiffers(width, height, picture, reference.value, p, x, y)
    requires reference.None? ==> CellIn(p, width, shown, x, y)
    ensures !CellDiffers(width, height, client', after, p, x, y)
  {
    hide RegionsHaveCell, CellIn, DimensionsSupported;
    assert CellIn(p, width, shown, x, y) ==> !CellDiffers(width, height, client', picture, p, x, y);
    assert !CellIn(p, width, shown, x, y) ==> !CellDiffers(width, height, client', client, p, x, y);
    if reference.Some? && !RegionsHaveCell(p, committed, x, y) {
      assert !CellDiffers(width, height, after, reference.value, p, x, y);
    }
    if reference.Some? && RegionsHaveCell(p, committed, x, y) {
      assert !CellDiffers(width, height, after, picture, p, x, y);
    }
  }

  lemma ShownIsSized(width: nat, height: nat, main: bool, before: Yuv420, picture: Yuv420, regions: seq<Region>, after: Yuv420)
    requires Shown(width, height, main, before, picture, regions, after)
    ensures PictureSized(width, height, after) && PictureSized(width, height, before)
  {
    if main {
      assert Repainted(Y444, width, height, Part(before, Y444), Part(picture, Y444), regions, Part(after, Y444));
      assert Repainted(MainU, width, height, Part(before, MainU), Part(picture, MainU), regions, Part(after, MainU));
      assert Repainted(MainV, width, height, Part(before, MainV), Part(picture, MainV), regions, Part(after, MainV));
    } else {
      assert Repainted(AuxY, width, height, Part(before, AuxY), Part(picture, AuxY), regions, Part(after, AuxY));
      assert Repainted(AuxU, width, height, Part(before, AuxU), Part(picture, AuxU), regions, Part(after, AuxU));
      assert Repainted(AuxV, width, height, Part(before, AuxV), Part(picture, AuxV), regions, Part(after, AuxV));
    }
  }

  /** Delivering and committing the selected luma keeps the client in step with the reference. */
  lemma LumaStaysInStep(width: nat, height: nat, client: Yuv420, reference: Option<Yuv420>, picture: Yuv420, candidates: seq<Region>,
                        regions: seq<Region>, client': Yuv420, after: Yuv420)
    requires FrameSize(width, height) && PictureSized(width, height, picture)
    requires AllInFrame(candidates, width, height) && AllAligned(candidates)
    requires reference.Some? ==> InStep(width, height, true, client, reference.value)
    requires LumaSelected(width, height, picture, reference, candidates, regions)
    requires Shown(width, height, true, client, picture, regions, client')
    requires Updated(width, height, reference, picture, regions, after)
    ensures InStep(width, height, true, client', after)
  {
    ShownIsSized(width, height, true, client, picture, regions, client');
    SelectedIsEven(width, height, picture, reference, candidates, regions);
    assert reference.None? ==> regions == [Full(width, height)];
    hide PictureSized, HasCell, RegionsHaveCell, CellDiffers, CellIn, DimensionsSupported, Updated,
         LumaSelected, EvenRegions, Repainted;
    forall p: Plane, x: int, y: int | IsMain(p)
      ensures !CellDiffers(width, height, client', after, p, x, y)
    {
      if HasCell(p, width, height, x, y) {
        EvenRegionsCells(p, width, regions, x, y);
        if reference.None? {
          FullHasEverything(width, height, p, x, y);
        }
        CellInStep(width, height, client, reference, picture, regions, client', regions, after, p, x, y);
      } else {
        NoCellNoDifference(width, height, client', after, p, x, y);
      }
    }
  }

  /** A cell of the announced regions is scanned: it is packed, or it did not change. */
  lemma AnnouncedCell(width: nat, height: nat, aux: Yuv420, reference: Yuv420, candidates: seq<Region>,
                      packed: seq<Region>, protocol: seq<Region>, p: Plane, x: int, y: int)
    requires FrameSize(width, height) && PictureSized(width, height, aux) && PictureSized(width, height, reference)
    requires AllInFrame(candidates, width, height) && AllAligned(candidates)
    requires ChromaDetected(width, height, aux, reference, candidates, packed, protocol)
    requires IsAux(p) && HasCell(p, width, height, x, y) && CellIn(p, width, protocol, x, y)
    ensures RegionsHaveCell(p, packed, x, y) || !CellDiffers(width, height, aux, reference, p, x, y)
  {
    hide PictureSized, HasCell, RegionsHaveCell, CellDiffers, DimensionsSupported, PackedTile, TileAnnounced,
         PackedCandidates, Aligned;
    hide HomeX, HomeY;
    var i :| 0 <= i < |protocol| && protocol[i].Has(HomeX(p, width, x), HomeY(p, y));
    assert ProtocolRegion(width, height, candidates, protocol[i]);
    var k :| 0 <= k < |candidates| && Within(protocol[i], candidates[k]);
    assert candidates[k].Has(HomeX(p, width, x), HomeY(p, y));
    assert CellIn(p, width, candidates, x, y);
    var j := HomeMeansPacked(width, height, candidates, p, x, y);
    assert CandidateScanned(width, height, aux, reference, candidates[j], packed);
  }

  /** A committed packed cell is announced. */
  lemma PackedCellIsAnnounced(width: nat, height: nat, aux: Yuv420, reference: Yuv420, candidates: seq<Region>,
                              packed: seq<Region>, protocol: seq<Region>, p: Plane, x: int, y: int)
    requires FrameSize(width, height) && PictureSized(width, height, aux) && PictureSized(width, height, reference)
    requires ChromaDetected(width, height, aux, reference, candidates, packed, protocol)
    requires IsAux(p) && HasCell(p, width, height, x, y) && RegionsHaveCell(p, packed, x, y)
    ensures CellIn(p, width, protocol, x, y)
  {
    hide PictureSized, HasCell, CellDiffers, DimensionsSupported, PackedTile, ProtocolRegion, RegionHasCell,
         CandidateScanned, CellIn;
    var i :| 0 <= i < |packed| && RegionHasCell(p, packed[i], x, y);
    assert TileAnnounced(width, height, packed[i], protocol);
  }

  /**
   The same for chroma, although the client takes regions of the picture while the reference takes
   packed regions: the two coordinate systems agree.
   */
  lemma ChromaStaysInStep(width: nat, height: nat, client: Yuv420, reference: Option<Yuv420>, aux: Yuv420, candidates: seq<Region>,
                          packed: seq<Region>, protocol: seq<Region>, client': Yuv420, after: Yuv420)
    requires FrameSize(width, height) && PictureSized(width, height, aux)
    requires AllInFrame(candidates, width, height) && AllAligned(candidates)
    requires reference.Some? ==> InStep(width, height, false, client, reference.value)
    requires ChromaSelected(width, height, aux, reference, candidates, packed, protocol)
    requires Shown(width, height, false, client, aux, protocol, client')
    requires Updated(width, height, reference, aux, packed, after)
    ensures InStep(width, height, false, client', after)
  {
    ShownIsSized(width, height, false, client, aux, protocol, client');
    hide PictureSized, HasCell, RegionsHaveCell, CellDiffers, CellIn, DimensionsSupported, Updated,
         ChromaDetected, Repainted;
    forall p: Plane, x: int, y: int | IsAux(p)
      ensures !CellDiffers(width, height, client', after, p, x, y)
    {
      if HasCell(p, width, height, x, y) {
        if packed == protocol == [Full(width, height)] {
          FullHasEverything(width, height, p, x, y);
        } else {
          if CellIn(p, width, protocol, x, y) {
            AnnouncedCell(width, height, aux, reference.value, candidates, packed, protocol, p, x, y);
          }
          if RegionsHaveCell(p, packed, x, y) {
            PackedCellIsAnnounced(width, height, aux, reference.value, candidates, packed, protocol, p, x, y);
          }
        }
        CellInStep(width, height, client, reference, aux, protocol, client', packed, after, p, x, y);
      } else {
        NoCellNoDifference(width, height, client', after, p, x, y);
      }
    }
  }

  // ----- what the viewer sees

  /** On the cells of `regions` the client's planes hold the packed picture. */
  ghost predicate ShowsPacked(width: nat, height: nat, client: Planes, image: Yuv444, regions: seq<Region>)
    requires FrameSize(width, height) && Picture(width, height, image)
  {
    && AllSized(width, height, client)
    && forall p: Plane, x: int, y: int :: HasCell(p, width, height, x, y) && CellIn(p, width, regions, x, y) ==>
         Cell(p, width, height, client.Get(p), x, y) == CellValue(p, width, height, image, x, y)
  }

  /**
   A pixel the regions cover has exactly the picture's luma, its exact chroma wherever x or y is
   odd, and elsewhere the floored average of its block.
   */
  lemma CoveredPixelIsRight(width: nat, height: nat, client: Planes, image: Yuv444, regions: seq<Region>, second: bool, px: int, py: int)
    requires FrameSize(width, height) && Picture(width, height, image)
    requires ShowsPacked(width, height, client, image, regions)
    requires 0 <= px < width && 0 <= py < height && Covers(regions, px, py)
    ensures Sized(Y444, width, height, client.Get(Y444))
    ensures Cell(Y444, width, height, client.Get(Y444), px, py) == Sample(width, height, image.y, px, py)
    ensures CombinedChroma(width, height, client, second, px, py) ==
            SentChroma(width, height, if second then image.v else image.u, px, py)
  {
    ChromaSourceIsHome(width, height, second, px, py);
    CombineAfterPack(width, height, image, second, px, py);
    var c := ChromaSource(width, second, px, py);
    PackedCell(c.p, width, height, image, c.x, c.y);
    assert CellIn(Y444, width, regions, px, py);
    assert CellIn(c.p, width, regions, c.x, c.y);
    hide ChromaSource, Packed, PackPlane, Sample, SentChroma, HomeX, HomeY, DimensionsSupported;
  }
}

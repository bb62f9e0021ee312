/**
 Chroma change detection of the AVC444v2 encoder (src/egfx/avc444.rs).

 Changes are found in the packed coordinates of the auxiliary planes, but announced to the client
 as regions of the picture.
 */
module Avc444Chroma {
  import opened Avc444Detect
  import opened Avc444Layout
  import opened Avc444Regions
  import Damage
  import opened Regions

  ghost predicate InSomePackedCandidate(width: nat, height: nat, candidates: seq<Region>, tile: Region)
    requires FrameSize(width, height)
  {
    exists j :: 0 <= j < |candidates| && InPackedCandidate(width, height, candidates[j], tile)
  }

  ghost predicate WithinSome(r: Region, candidates: seq<Region>) {
    exists j :: 0 <= j < |candidates| && Within(r, candidates[j])
  }

  /** A changed part of the packed rectangles of some candidate. */
  ghost predicate PackedTile(width: nat, height: nat, a: Yuv420, b: Yuv420, candidates: seq<Region>, tile: Region)
    requires FrameSize(width, height) && PictureSized(width, height, a) && PictureSized(width, height, b)
  {
    tile.InFrame(width, height) && RegionDiffers(width, height, a, b, tile) && InSomePackedCandidate(width, height, candidates, tile)
  }

  ghost predicate ProtocolRegion(width: nat, height: nat, candidates: seq<Region>, r: Region) {
    r.InFrame(width, height) && Aligned(r) && WithinSome(r, candidates)
  }

  /** The auxiliary cells of a packed tile belong to pixels the protocol regions cover. */
  ghost predicate TileAnnounced(width: nat, height: nat, tile: Region, protocol: seq<Region>) {
    forall p: Plane, x: int, y: int ::
      IsAux(p) && HasCell(p, width, height, x, y) && RegionHasCell(p, tile, x, y) ==> CellIn(p, width, protocol, x, y)
  }

  /** Every changed auxiliary cell of the candidate is in a packed region. */
  ghost predicate CandidateScanned(width: nat, height: nat, a: Yuv420, b: Yuv420, candidate: Region, packed: seq<Region>)
    requires FrameSize(width, height) && PictureSized(width, height, a) && PictureSized(width, height, b)
  {
    forall p: Plane, x: int, y: int ::
      RegionsHaveCell(p, PackedCandidates(width, height, candidate), x, y) && CellDiffers(width, height, a, b, p, x, y) ==>
        RegionsHaveCell(p, packed, x, y)
  }

  /** What chroma detection against a reference reports, in both coordinate systems. */
  ghost predicate ChromaDetected(width: nat, height: nat, a: Yuv420, b: Yuv420, candidates: seq<Region>,
                                 packed: seq<Region>, protocol: seq<Region>)
    requires FrameSize(width, height) && PictureSized(width, height, a) && PictureSized(width, height, b)
  {
    && (forall i :: 0 <= i < |packed| ==> PackedTile(width, height, a, b, candidates, packed[i]))
    && (forall i :: 0 <= i < |packed| ==> TileAnnounced(width, height, packed[i], protocol))
    && (forall i :: 0 <= i < |protocol| ==> ProtocolRegion(width, height, candidates, protocol[i]))
    && (forall j :: 0 <= j < |candidates| ==> CandidateScanned(width, height, a, b, candidates[j], packed))
    && (packed == [] <==> protocol == [])
  }

  // ----- collecting

  method PushUnique(regions: seq<Region>, region: Region) returns (out: seq<Region>)
    ensures regions <= out && region in out
    ensures out == if region in regions then regions else regions + [region]
  {
    if region in regions {
      return regions;
    }
    return regions + [region];
  }

  lemma AnnouncedStays(width: nat, height: nat, tile: Region, before: seq<Region>, after: seq<Region>)
    requires TileAnnounced(width, height, tile, before)
    requires forall r :: r in before ==> r in after
    ensures TileAnnounced(width, height, tile, after)
  {
    hide HomeX, HomeY, HasCell, RegionHasCell;
    forall p: Plane, x: int, y: int | IsAux(p) && HasCell(p, width, height, x, y) && RegionHasCell(p, tile, x, y)
      ensures CellIn(p, width, after, x, y)
    {
      var i :| 0 <= i < |before| && before[i].Has(HomeX(p, width, x), HomeY(p, y));
      assert before[i] in after;
      var k :| 0 <= k < |after| && after[k] == before[i];
    }
  }

  /** The protocol regions of one packed tile join the list. */
  method Announce(width: nat, height: nat, tile: Region, ghost candidate: Region, ghost candidates: seq<Region>, protocol: seq<Region>)
    returns (out: seq<Region>)
    requires FrameSize(width, height) && tile.InFrame(width, height)
    requires candidate in candidates && candidate.InFrame(width, height) && Aligned(candidate)
    requires InPackedCandidate(width, height, candidate, tile)
    requires forall i :: 0 <= i < |protocol| ==> ProtocolRegion(width, height, candidates, protocol[i])
    ensures protocol <= out && out != []
    ensures TileAnnounced(width, height, tile, out)
    ensures forall i :: 0 <= i < |out| ==> ProtocolRegion(width, height, candidates, out[i])
  {
    hide Damage.ClampDamageRegion, Aligned, InPackedCandidate, DimensionsSupported, ProtocolRegion, TileAnnounced;
    TileIsKept(tile, width, height);
    var regions := PackedToProtocol(width, height, tile, candidate);
    out := protocol;
    for k := 0 to |regions|
      invariant protocol <= out
      invariant forall i :: 0 <= i < k ==> regions[i] in out
      invariant forall i :: 0 <= i < |out| ==> ProtocolRegion(width, height, candidates, out[i])
    {
      FromCandidate(width, height, candidate, candidates, regions[k]);
      out := PushUnique(out, regions[k]);
    }
    MappedIsAnnounced(width, height, tile, regions);
    AnnouncedStays(width, height, tile, regions, out);
    assert regions[0] in out;
  }

  lemma MappedIsAnnounced(width: nat, height: nat, tile: Region, regions: seq<Region>)
    requires FrameSize(width, height) && tile.InFrame(width, height) && MapsBack(width, height, tile, regions)
    ensures TileAnnounced(width, height, tile, regions)
  {
    hide Aligned, DimensionsSupported;
  }

  lemma TileIsKept(tile: Region, width: nat, height: nat)
    requires FrameSize(width, height) && tile.InFrame(width, height)
    ensures Damage.ClampDamageRegion(tile, width, height) == Some(tile)
  {
  }

  lemma FromCandidate(width: nat, height: nat, candidate: Region, candidates: seq<Region>, r: Region)
    requires candidate in candidates && r.InFrame(width, height) && Aligned(r) && Within(r, candidate)
    ensures ProtocolRegion(width, height, candidates, r)
  {
    var j :| 0 <= j < |candidates| && candidates[j] == candidate;
    assert Within(r, candidates[j]);
  }

  ghost predicate Collected(width: nat, height: nat, a: Yuv420, b: Yuv420, candidates: seq<Region>,
                            packed: seq<Region>, protocol: seq<Region>)
    requires FrameSize(width, height) && PictureSized(width, height, a) && PictureSized(width, height, b)
  {
    && (forall i :: 0 <= i < |packed| ==> PackedTile(width, height, a, b, candidates, packed[i]))
    && (forall i :: 0 <= i < |packed| ==> TileAnnounced(width, height, packed[i], protocol))
    && (forall i :: 0 <= i < |protocol| ==> ProtocolRegion(width, height, candidates, protocol[i]))
    && (packed == [] <==> protocol == [])
  }

  /** One changed tile is recorded in both lists. */
  method Record(width: nat, height: nat, ghost a: Yuv420, ghost b: Yuv420, ghost candidate: Region, ghost candidates: seq<Region>,
                tile: Region, packed: seq<Region>, protocol: seq<Region>)
    returns (packed': seq<Region>, protocol': seq<Region>)
    requires FrameSize(width, height) && PictureSized(width, height, a) && PictureSized(width, height, b)
    requires candidate in candidates && candidate.InFrame(width, height) && Aligned(candidate)
    requires PackedTile(width, height, a, b, candidates, tile) && InPackedCandidate(width, height, candidate, tile)
    requires Collected(width, height, a, b, candidates, packed, protocol)
    ensures packed <= packed' && tile in packed'
    ensures Collected(width, height, a, b, candidates, packed', protocol')
  {
    hide Aligned, InPackedCandidate, DimensionsSupported, PictureSized, RegionDiffers, ProtocolRegion;
    protocol' := Announce(width, height, tile, candidate, candidates, protocol);
    packed' := PushUnique(packed, tile);
    forall i | 0 <= i < |packed'|
      ensures TileAnnounced(width, height, packed'[i], protocol')
    {
      if i < |packed| {
        AnnouncedStays(width, height, packed[i], protocol, protocol');
      }
    }
  }

  /** The changed tiles of one candidate. */
  method RecordAll(width: nat, height: nat, ghost a: Yuv420, ghost b: Yuv420, ghost candidate: Region, ghost candidates: seq<Region>,
                   changed: seq<Region>, packed: seq<Region>, protocol: seq<Region>)
    returns (packed': seq<Region>, protocol': seq<Region>)
    requires FrameSize(width, height) && PictureSized(width, height, a) && PictureSized(width, height, b)
    requires candidate in candidates && candidate.InFrame(width, height) && Aligned(candidate)
    requires Detected(width, height, a, b, PackedCandidates(width, height, candidate), changed)
    requires Collected(width, height, a, b, candidates, packed, protocol)
    ensures packed <= packed'
    ensures Collected(width, height, a, b, candidates, packed', protocol')
    ensures CandidateScanned(width, height, a, b, candidate, packed')
  {
    packed', protocol' := packed, protocol;
    hide Aligned, DimensionsSupported, PictureSized, RegionDiffers, Collected, PackedCandidates, RegionHasCell,
         CellDiffers, Even;
    for k := 0 to |changed|
      invariant packed <= packed' && forall i :: 0 <= i < k ==> changed[i] in packed'
      invariant Collected(width, height, a, b, candidates, packed', protocol')
    {
      assert ReportedTile(width, height, a, b, PackedCandidates(width, height, candidate), changed[k]);
      ghost var j :| 0 <= j < |candidates| && candidates[j] == candidate;
      assert InPackedCandidate(width, height, candidates[j], changed[k]);
      packed', protocol' := Record(width, height, a, b, candidate, candidates, changed[k], packed', protocol');
    }
    AllRecorded(width, height, a, b, candidate, changed, packed');
  }

  lemma AllRecorded(width: nat, height: nat, a: Yuv420, b: Yuv420, candidate: Region, changed: seq<Region>, packed: seq<Region>)
    requires FrameSize(width, height) && PictureSized(width, height, a) && PictureSized(width, height, b)
    requires Detected(width, height, a, b, PackedCandidates(width, height, candidate), changed)
    requires forall i :: 0 <= i < |changed| ==> changed[i] in packed
    ensures CandidateScanned(width, height, a, b, candidate, packed)
  {
    hide DimensionsSupported, PictureSized, ReportedTile, PackedCandidates, RegionHasCell, CellDiffers;
    forall p: Plane, x: int, y: int |
      RegionsHaveCell(p, PackedCandidates(width, height, candidate), x, y) && CellDiffers(width, height, a, b, p, x, y)
      ensures RegionsHaveCell(p, packed, x, y)
    {
      var i :| 0 <= i < |changed| && RegionHasCell(p, changed[i], x, y);
      var k :| 0 <= k < |packed| && packed[k] == changed[i];
    }
  }

  /** One candidate is scanned in packed coordinates. */
  method DetectCandidate(width: nat, height: nat, aux: Yuv420, reference: Option<Yuv420>, candidates: seq<Region>, k: nat,
                         packed: seq<Region>, protocol: seq<Region>)
    returns (packed': seq<Region>, protocol': seq<Region>)
    requires FrameSize(width, height) && PictureSized(width, height, aux)
    requires reference.Some? && PictureSized(width, height, reference.value)
    requires k < |candidates| && candidates[k].InFrame(width, height) && Aligned(candidates[k])
    requires Collected(width, height, aux, reference.value, candidates, packed, protocol)
    ensures packed <= packed' && Collected(width, height, aux, reference.value, candidates, packed', protocol')
    ensures CandidateScanned(width, height, aux, reference.value, candidates[k], packed')
  {
    hide Aligned, FrameSize, PictureSized, Collected, Detected, CandidateScanned;
    ghost var b := reference.value;
    packed', protocol' := packed, protocol;
    var packedCandidates := PackedCandidates(width, height, candidates[k]);
    if packedCandidates != [] {
      var changed := DetectRegions(width, height, aux, reference, packedCandidates);
      if changed != [] {
        packed', protocol' := RecordAll(width, height, aux, b, candidates[k], candidates, changed, packed, protocol);
      } else {
        AllRecorded(width, height, aux, b, candidates[k], [], packed);
      }
    } else {
      NothingPacked(width, height, aux, b, candidates[k], packed);
    }
  }

  /** `detect_avc444_v2_chroma_regions`. */
  method DetectChromaRegions(width: nat, height: nat, aux: Yuv420, reference: Option<Yuv420>, candidates: seq<Region>)
    returns (packed: seq<Region>, protocol: seq<Region>)
    requires FrameSize(width, height) && PictureSized(width, height, aux)
    requires reference.Some? ==> PictureSized(width, height, reference.value)
    requires AllInFrame(candidates, width, height) && AllAligned(candidates)
    ensures reference.None? ==> packed == [Region(0, 0, width, height)] && protocol == [Region(0, 0, width, height)]
    ensures reference.Some? ==> ChromaDetected(width, height, aux, reference.value, candidates, packed, protocol)
  {
    if reference.None? {
      return [Region(0, 0, width, height)], [Region(0, 0, width, height)];
    }
    packed, protocol := [], [];
    ghost var b := reference.value;
    assert Collected(width, height, aux, b, candidates, [], []);
    hide Aligned, FrameSize, PictureSized, Detected, CandidateScanned;
    for k := 0 to |candidates|
      invariant Collected(width, height, aux, b, candidates, packed, protocol)
      invariant forall j :: 0 <= j < k ==> CandidateScanned(width, height, aux, b, candidates[j], packed)
    {
      hide Collected;
      ghost var before := packed;
      packed, protocol := DetectCandidate(width, height, aux, reference, candidates, k, packed, protocol);
      forall j | 0 <= j <= k
        ensures CandidateScanned(width, height, aux, b, candidates[j], packed)
      {
        if j < k {
          ScannedStays(width, height, aux, b, candidates[j], before, packed);
        }
      }
    }
  }

  lemma NothingPacked(width: nat, height: nat, a: Yuv420, b: Yuv420, candidate: Region, packed: seq<Region>)
    requires FrameSize(width, height) && PictureSized(width, height, a) && PictureSized(width, height, b)
    requires PackedCandidates(width, height, candidate) == []
    ensures CandidateScanned(width, height, a, b, candidate, packed)
  {
  }

  lemma ScannedStays(width: nat, height: nat, a: Yuv420, b: Yuv420, candidate: Region, before: seq<Region>, packed: seq<Region>)
    requires FrameSize(width, height) && PictureSized(width, height, a) && PictureSized(width, height, b)
    requires CandidateScanned(width, height, a, b, candidate, before) && before <= packed
    ensures CandidateScanned(width, height, a, b, candidate, packed)
  {
    hide DimensionsSupported, PictureSized, PackedCandidates, RegionsHaveCell, CellDiffers;
    forall p: Plane, x: int, y: int |
      RegionsHaveCell(p, PackedCandidates(width, height, candidate), x, y) && CellDiffers(width, height, a, b, p, x, y)
      ensures RegionsHaveCell(p, packed, x, y)
    {
      MoreRegionsMoreCells(p, before, packed, x, y);
    }
  }
}

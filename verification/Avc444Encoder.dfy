/**
 The AVC444v2 encoder (src/egfx/avc444.rs): convert, detect, encode, and commit once sent.

 H.264 is a pair of functions that may fail or give an empty payload.  An ideal one decodes every
 other payload to the picture it was made of.
 */
module Avc444Encoder {
  import opened Avc444Buffers
  import opened Avc444Chroma
  import opened Avc444Client
  import opened Avc444Conversion
  import opened Avc444Detect
  import opened Avc444Layout
  import opened Avc444Regions
  import Damage
  import opened Regions

  datatype Encoding = LumaAndChroma | Luma | Chroma

  datatype EncodedFrame = EncodedFrame(encoding: Encoding, stream1: seq<u8>, stream2: seq<u8>,
                                       stream1Regions: seq<Region>, stream2Regions: seq<Region>)

  /** The frame that says there is nothing to send. */
  const NOTHING := EncodedFrame(Luma, [], [], [], [])

  /** What one call of the H.264 encoder comes to. */
  datatype Outcome = Failed | Payload(bytes: seq<u8>)

  /** H.264 during one frame: what the encoder makes of a main or an auxiliary picture, and the client's decoder. */
  datatype Codec = Codec(luma: Yuv420 -> Outcome, chroma: Yuv420 -> Outcome, decode: seq<u8> -> Yuv420) {
    /** A payload that is not empty decodes to the picture it was made of. */
    ghost predicate Ideal() {
      && (forall p: Yuv420 :: luma(p).Payload? && luma(p).bytes != [] ==> decode(luma(p).bytes) == p)
      && (forall p: Yuv420 :: chroma(p).Payload? && chroma(p).bytes != [] ==> decode(chroma(p).bytes) == p)
    }
  }

  /** `normalize_avc444_encoded_frame`: the frame, and whether its chroma may be committed. */
  function Normalize(encoding: Encoding, stream1: seq<u8>, stream2: seq<u8>, stream1Regions: seq<Region>, stream2Regions: seq<Region>)
    : (EncodedFrame, bool)
  {
    if stream1Regions == [] || stream1 == [] then (NOTHING, false)
    else
      match encoding
      case Luma => (EncodedFrame(Luma, stream1, [], stream1Regions, []), false)
      case Chroma => (EncodedFrame(Chroma, stream1, [], stream1Regions, []), true)
      case LumaAndChroma =>
        if stream2Regions == [] || stream2 == [] then (EncodedFrame(Luma, stream1, [], stream1Regions, []), false)
        else (EncodedFrame(LumaAndChroma, stream1, stream2, stream1Regions, stream2Regions), true)
  }

  /** What one call of `encode` decided to send. */
  datatype Plan = Plan(candidates: seq<Region>, luma: seq<Region>, packed: seq<Region>, protocol: seq<Region>)

  /** The plan is what detection finds, nothing forced. */
  ghost predicate Found(width: nat, height: nat, planes: Planes, luma: Option<Yuv420>, chroma: Option<Yuv420>, plan: Plan)
    requires FrameSize(width, height)
  {
    && PictureSized(width, height, planes.main) && PictureSized(width, height, planes.aux)
    && (luma.Some? ==> PictureSized(width, height, luma.value) &&
                       Detected(width, height, planes.main, luma.value, plan.candidates, plan.luma))
    && (chroma.Some? ==> PictureSized(width, height, chroma.value) &&
                         ChromaDetected(width, height, planes.aux, chroma.value, plan.candidates, plan.packed, plan.protocol))
  }

  /** A frame is nothing, or non-empty streams with the regions of the plan. */
  ghost predicate Carries(frame: EncodedFrame, plan: Plan) {
    frame == NOTHING ||
    (frame.stream1 != [] && frame.stream1Regions != [] &&
     match frame.encoding
     case Luma => frame.stream1Regions == plan.luma && frame.stream2 == [] && frame.stream2Regions == []
     case Chroma => plan.luma == [] && frame.stream1Regions == plan.protocol && frame.stream2 == [] && frame.stream2Regions == []
     case LumaAndChroma => frame.stream1Regions == plan.luma && frame.stream2 != [] && frame.stream2Regions == plan.protocol &&
                           plan.protocol != [])
  }

  predicate CarriesChroma(frame: EncodedFrame) {
    frame != NOTHING && !frame.encoding.Luma?
  }

  /** Nothing that changed is missing from the frame. */
  ghost predicate Complete(frame: EncodedFrame, plan: Plan) {
    if frame == NOTHING then plan.luma == [] && plan.protocol == []
    else (plan.protocol != [] ==> CarriesChroma(frame)) && (plan.luma != [] ==> !frame.encoding.Chroma?)
  }

  /**
   Normalizing gives a frame that carries the plan, commits chroma exactly when it carries chroma,
   and is complete exactly when no payload the plan needs was empty.
   */
  lemma NormalizedFrame(plan: Plan, stream1: seq<u8>, stream2: seq<u8>)
    requires plan.luma != [] || plan.protocol != []
    ensures var encoding := if plan.luma == [] then Chroma else if plan.protocol == [] then Luma else LumaAndChroma;
            var r := Normalize(encoding, stream1, if encoding.LumaAndChroma? then stream2 else [],
                               if plan.luma == [] then plan.protocol else plan.luma,
                               if encoding.LumaAndChroma? then plan.protocol else []);
            && Carries(r.0, plan)
            && r.1 == CarriesChroma(r.0)
            && (Complete(r.0, plan) <==> stream1 != [] && (encoding.LumaAndChroma? ==> stream2 != []))
            && (r.0 == NOTHING <==> stream1 == [])
            && (r.0 != NOTHING ==> r.0.stream1 == stream1 && (r.0.encoding == encoding || (encoding.LumaAndChroma? && r.0.encoding.Luma?)))
            && (r.0.encoding.LumaAndChroma? ==> r.0.stream2 == stream2)
  {
  }

  /** Each payload of the frame is what H.264 made of its own picture, luma first. */
  ghost predicate Streamed(frame: EncodedFrame, luma: Outcome, chroma: Outcome) {
    frame != NOTHING ==>
      match frame.encoding
      case Luma => luma == Payload(frame.stream1)
      case Chroma => chroma == Payload(frame.stream1)
      case LumaAndChroma => luma == Payload(frame.stream1) && chroma == Payload(frame.stream2)
  }

  /** A client that decodes the frame's payloads gets the pictures of these planes. */
  ghost predicate DecodesTo(frame: EncodedFrame, decode: seq<u8> -> Yuv420, planes: Planes) {
    frame != NOTHING ==>
      match frame.encoding
      case Luma => decode(frame.stream1) == planes.main
      case Chroma => decode(frame.stream1) == planes.aux
      case LumaAndChroma => decode(frame.stream1) == planes.main && decode(frame.stream2) == planes.aux
  }

  lemma StreamedDecodes(frame: EncodedFrame, plan: Plan, codec: Codec, planes: Planes)
    requires codec.Ideal() && Carries(frame, plan) && Streamed(frame, codec.luma(planes.main), codec.chroma(planes.aux))
    ensures DecodesTo(frame, codec.decode, planes)
  {
  }

  // ----- what is settled after a commit

  /** The luma reference holds the main picture on every cell of the candidates. */
  ghost predicate LumaSettled(width: nat, height: nat, main: Yuv420, luma: Option<Yuv420>, candidates: seq<Region>) {
    && luma.Some? && PictureSized(width, height, main) && PictureSized(width, height, luma.value)
    && forall p: Plane, x: int, y: int :: RegionsHaveCell(p, candidates, x, y) ==>
         !CellDiffers(width, height, main, luma.value, p, x, y)
  }

  /** The chroma reference holds the auxiliary picture on every packed cell of the candidates. */
  ghost predicate ChromaSettled(width: nat, height: nat, aux: Yuv420, chroma: Option<Yuv420>, candidates: seq<Region>)
    requires FrameSize(width, height)
  {
    && chroma.Some? && PictureSized(width, height, aux) && PictureSized(width, height, chroma.value)
    && forall j :: 0 <= j < |candidates| ==> PackedSettled(width, height, aux, chroma.value, candidates[j])
  }

  /** Every cell of the candidates agrees with its reference. */
  ghost predicate Settled(width: nat, height: nat, planes: Planes, luma: Option<Yuv420>, chroma: Option<Yuv420>, candidates: seq<Region>)
    requires FrameSize(width, height)
  {
    LumaSettled(width, height, planes.main, luma, candidates) && ChromaSettled(width, height, planes.aux, chroma, candidates)
  }

  ghost predicate PackedSettled(width: nat, height: nat, aux: Yuv420, reference: Yuv420, candidate: Region)
    requires FrameSize(width, height) && PictureSized(width, height, aux) && PictureSized(width, height, reference)
  {
    forall p: Plane, x: int, y: int :: RegionsHaveCell(p, PackedCandidates(width, height, candidate), x, y) ==>
      !CellDiffers(width, height, aux, reference, p, x, y)
  }

  /** Where everything is settled, detection finds nothing. */
  lemma SettledIsSilent(width: nat, height: nat, planes: Planes, luma: Option<Yuv420>, chroma: Option<Yuv420>, candidates: seq<Region>,
                        regions: seq<Region>, packed: seq<Region>, protocol: seq<Region>)
    requires FrameSize(width, height) && Settled(width, height, planes, luma, chroma, candidates)
    requires Detected(width, height, planes.main, luma.value, candidates, regions)
    requires ChromaDetected(width, height, planes.aux, chroma.value, candidates, packed, protocol)
    ensures regions == [] && packed == [] && protocol == []
  {
    NothingToReport(width, height, planes.main, luma.value, candidates, regions);
    if packed != [] {
      assert PackedTile(width, height, planes.aux, chroma.value, candidates, packed[0]);
      var j := UnsettledCandidate(width, height, planes.aux, chroma.value, candidates, packed[0]);
    }
  }

  /** A changed packed tile leaves the candidate it was cut from unsettled. */
  lemma UnsettledCandidate(width: nat, height: nat, aux: Yuv420, reference: Yuv420, candidates: seq<Region>, tile: Region) returns (j: nat)
    requires FrameSize(width, height) && PictureSized(width, height, aux) && PictureSized(width, height, reference)
    requires PackedTile(width, height, aux, reference, candidates, tile)
    ensures j < |candidates| && !PackedSettled(width, height, aux, reference, candidates[j])
  {
    hide PictureSized, CellDiffers, PackedCandidates, DimensionsSupported;
    var p: Plane, x: int, y: int :| RegionHasCell(p, tile, x, y) && CellDiffers(width, height, aux, reference, p, x, y);
    j :| 0 <= j < |candidates| && InPackedCandidate(width, height, candidates[j], tile);
    var k :| 0 <= k < |PackedCandidates(width, height, candidates[j])| && Within(tile, PackedCandidates(width, height, candidates[j])[k]);
    WithinKeepsCells(p, tile, PackedCandidates(width, height, candidates[j])[k], x, y);
    assert RegionsHaveCell(p, PackedCandidates(width, height, candidates[j]), x, y);
  }

  /** Detection reports nothing exactly where the reference is settled already. */
  lemma LumaDecides(width: nat, height: nat, main: Yuv420, luma: Yuv420, candidates: seq<Region>, regions: seq<Region>)
    requires FrameSize(width, height) && PictureSized(width, height, main) && PictureSized(width, height, luma)
    requires Detected(width, height, main, luma, candidates, regions)
    ensures LumaSettled(width, height, main, Some(luma), candidates) <==> regions == []
  {
    hide PictureSized, CellDiffers, FrameSize, RegionHasCell, ReportedTile;
    if LumaSettled(width, height, main, Some(luma), candidates) {
      NothingToReport(width, height, main, luma, candidates, regions);
    }
  }

  lemma ChromaDecides(width: nat, height: nat, aux: Yuv420, chroma: Yuv420, candidates: seq<Region>, packed: seq<Region>, protocol: seq<Region>)
    requires FrameSize(width, height) && PictureSized(width, height, aux) && PictureSized(width, height, chroma)
    requires ChromaDetected(width, height, aux, chroma, candidates, packed, protocol)
    ensures ChromaSettled(width, height, aux, Some(chroma), candidates) <==> protocol == []
  {
    hide PictureSized, CellDiffers, PackedCandidates, FrameSize, RegionHasCell;
    if packed != [] {
      assert PackedTile(width, height, aux, chroma, candidates, packed[0]);
      var j := UnsettledCandidate(width, height, aux, chroma, candidates, packed[0]);
    } else {
      forall j | 0 <= j < |candidates|
        ensures PackedSettled(width, height, aux, chroma, candidates[j])
      {
        assert CandidateScanned(width, height, aux, chroma, candidates[j], packed);
      }
    }
  }

  // ----- the client

  /** One picture of the client after it took regions of a decoded one; a picture of another size is ignored. */
  ghost function Take(width: nat, height: nat, main: bool, client: Yuv420, decoded: Yuv420, regions: seq<Region>): Yuv420
    requires PictureSized(width, height, client)
  {
    if PictureSized(width, height, decoded) then Show(width, height, main, client, decoded, regions) else client
  }

  /** The client after it decoded the payloads of a frame and took the announced regions. */
  ghost function ClientTakes(width: nat, height: nat, client: Planes, frame: EncodedFrame, decode: seq<u8> -> Yuv420): Planes
    requires PictureSized(width, height, client.main) && PictureSized(width, height, client.aux)
  {
    if frame == NOTHING then client
    else
      match frame.encoding
      case Luma => client.(main := Take(width, height, true, client.main, decode(frame.stream1), frame.stream1Regions))
      case Chroma => client.(aux := Take(width, height, false, client.aux, decode(frame.stream1), frame.stream1Regions))
      case LumaAndChroma =>
        Planes(Take(width, height, true, client.main, decode(frame.stream1), frame.stream1Regions),
               Take(width, height, false, client.aux, decode(frame.stream2), frame.stream2Regions))
  }

  /** The references, where there are any, hold what the client holds. */
  ghost predicate InSync(width: nat, height: nat, client: Planes, luma: Option<Yuv420>, chroma: Option<Yuv420>) {
    && PictureSized(width, height, client.main) && PictureSized(width, height, client.aux)
    && (luma.Some? ==> InStep(width, height, true, client.main, luma.value))
    && (chroma.Some? ==> InStep(width, height, false, client.aux, chroma.value))
  }

  // ----- the encoder

  class Avc444Encoder {
    const buffers: PlaneBuffers
    var lumaReference: Option<Yuv420>
    var chromaReference: Option<Yuv420>
    var lastChromaEncoded: bool
    var lastLumaReferenceRegions: seq<Region>
    var lastChromaReferenceRegions: seq<Region>
    var forceChromaOnNextFrame: bool

    ghost predicate Valid()
      reads this
    {
      && buffers.Valid()
      && (lumaReference.Some? ==> PictureSized(buffers.width, buffers.height, lumaReference.value))
      && (chromaReference.Some? ==> PictureSized(buffers.width, buffers.height, chromaReference.value))
    }

    constructor (width: nat, height: nat)
      requires FrameSize(width, height)
      ensures Valid() && fresh(buffers) && buffers.width == width && buffers.height == height
      ensures fresh(buffers.y444) && fresh(buffers.mainU) && fresh(buffers.mainV)
      ensures fresh(buffers.auxY) && fresh(buffers.auxU) && fresh(buffers.auxV)
      ensures lumaReference == None && chromaReference == None && forceChromaOnNextFrame
    {
      buffers := new PlaneBuffers(width, height);
      lumaReference, chromaReference := None, None;
      lastChromaEncoded := false;
      lastLumaReferenceRegions, lastChromaReferenceRegions := [], [];
      forceChromaOnNextFrame := true;
    }

    method ForceFullFrame()
      modifies `forceChromaOnNextFrame
      ensures forceChromaOnNextFrame
    {
      forceChromaOnNextFrame := true;
    }

    ghost function Planes(): Avc444Layout.Planes
      reads buffers.y444, buffers.mainU, buffers.mainV, buffers.auxY, buffers.auxU, buffers.auxV
    {
      buffers.Planes()
    }

    /** A plan made from the planes as they are, against the references as they are. */
    ghost predicate Planned(plan: Plan)
      requires Valid()
      reads this, buffers.y444, buffers.mainU, buffers.mainV, buffers.auxY, buffers.auxU, buffers.auxV
    {
      var w, h, planes := buffers.width, buffers.height, Planes();
      && PictureSized(w, h, planes.main) && PictureSized(w, h, planes.aux)
      && AllInFrame(plan.candidates, w, h) && AllAligned(plan.candidates)
      && LumaSelected(w, h, planes.main, lumaReference, plan.candidates, plan.luma)
      && ChromaSelected(w, h, planes.aux, chromaReference, plan.candidates, plan.packed, plan.protocol)
    }

    lemma PicturesSized()
      requires Valid()
      ensures PictureSized(buffers.width, buffers.height, Planes().main)
      ensures PictureSized(buffers.width, buffers.height, Planes().aux)
    {
    }

    /** The first half of `encode`: convert the candidates and detect what changed. */
    method Select(data: seq<u8>, s: Damage.Shape, candidates: seq<Region>, force: bool) returns (plan: Plan)
      requires Valid() && Damage.Fits(data, s) && s.width == buffers.width && s.height == buffers.height
      modifies buffers.y444, buffers.mainU, buffers.mainV, buffers.auxY, buffers.auxU, buffers.auxV
      ensures Valid() && Planned(plan)
      ensures force ==> plan.candidates == [Full(s.width, s.height)] && plan.luma == plan.packed == plan.protocol == plan.candidates
      ensures !force ==> AlignedList(candidates, plan.candidates, s.width, s.height)
      ensures CoversInFrame(candidates, plan.candidates, s.width, s.height)
      ensures AllRepainted(s.width, s.height, old(Planes()), Packed(s.width, s.height, FullRes(data, s)), plan.candidates, Planes())
      ensures !force ==> Found(s.width, s.height, Planes(), lumaReference, chromaReference, plan)
    {
      var aligned := Convert(data, s, candidates, force);
      hide AllRepainted, Packed, FullRes, PictureSized, Found, AlignedList, CoversInFrame, DimensionsSupported,
           LumaSelected, ChromaSelected, AllInFrame, AllAligned, PlaneBuffers.Valid;
      plan := DetectChanges(aligned, force);
    }

    method Convert(data: seq<u8>, s: Damage.Shape, candidates: seq<Region>, force: bool) returns (aligned: seq<Region>)
      requires Valid() && Damage.Fits(data, s) && s.width == buffers.width && s.height == buffers.height
      modifies buffers.y444, buffers.mainU, buffers.mainV, buffers.auxY, buffers.auxU, buffers.auxV
      ensures AllInFrame(aligned, s.width, s.height) && AllAligned(aligned)
      ensures force ==> aligned == [Full(s.width, s.height)]
      ensures !force ==> AlignedList(candidates, aligned, s.width, s.height)
      ensures CoversInFrame(candidates, aligned, s.width, s.height)
      ensures AllRepainted(s.width, s.height, old(Planes()), Packed(s.width, s.height, FullRes(data, s)), aligned, Planes())
    {
      aligned := CandidatesFor(buffers.width, buffers.height, candidates, force);
      hide AllRepainted, Packed, FullRes, PictureSized, AlignedList, AlignedForms, Aligned, CoversInFrame,
           DimensionsSupported;
      buffers.ConvertRegions(data, s, aligned);
    }

    method DetectChanges(candidates: seq<Region>, force: bool) returns (plan: Plan)
      requires Valid() && AllInFrame(candidates, buffers.width, buffers.height) && AllAligned(candidates)
      ensures Planned(plan) && plan.candidates == candidates
      ensures force ==> plan.luma == plan.packed == plan.protocol == [Full(buffers.width, buffers.height)]
      ensures !force ==> Found(buffers.width, buffers.height, Planes(), lumaReference, chromaReference, plan)
    {
      PicturesSized();
      hide PictureSized, Found, LumaSelected, ChromaSelected, Aligned, DimensionsSupported;
      var main := Yuv420(buffers.y444[..], buffers.mainU[..], buffers.mainV[..]);
      var aux := Yuv420(buffers.auxY[..], buffers.auxU[..], buffers.auxV[..]);
      plan := DetectBoth(buffers.width, buffers.height, main, aux, lumaReference, chromaReference, candidates, force);
    }

    /** The second half of `encode`: run H.264 on what the plan asks for and note what may be committed. */
    method Streams(plan: Plan, codec: Codec) returns (r: Option<EncodedFrame>)
      modifies `lastChromaEncoded, `lastLumaReferenceRegions, `lastChromaReferenceRegions
      ensures var luma, chroma := codec.luma(Planes().main), codec.chroma(Planes().aux);
              && (r.None? <==> (plan.luma != [] && luma.Failed?) || (plan.protocol != [] && chroma.Failed?))
              && (r.Some? ==> Committable(r.value, plan) && Streamed(r.value, luma, chroma))
              && (r.Some? && plan.luma == [] && plan.protocol == [] ==>
                    r.value == NOTHING && lastLumaReferenceRegions == [] && lastChromaReferenceRegions == [])
              && (r.Some? && (plan.luma != [] || plan.protocol != []) ==>
                    && (Complete(r.value, plan) <==> (plan.luma != [] ==> luma.bytes != []) && (plan.protocol != [] ==> chroma.bytes != []))
                    && (r.value == NOTHING <==> if plan.luma != [] then luma.bytes == [] else chroma.bytes == []))
              && (r.Some? && chroma == Payload([]) ==> !CarriesChroma(r.value))
    {
      if plan.luma == [] && plan.protocol == [] {
        lastChromaEncoded := false;
        lastLumaReferenceRegions, lastChromaReferenceRegions := [], [];
        return Some(NOTHING);
      }
      lastLumaReferenceRegions := plan.luma;
      lastChromaReferenceRegions := if plan.protocol != [] then plan.packed else [];
      var encoding := Chroma;
      var stream1, stream2: seq<u8> := [], [];
      var stream1Regions, stream2Regions: seq<Region> := plan.protocol, [];
      if plan.luma != [] {
        var lumaOutcome := codec.luma(Yuv420(buffers.y444[..], buffers.mainU[..], buffers.mainV[..]));
        if lumaOutcome.Failed? {
          return None;
        }
        encoding, stream1, stream1Regions := Luma, lumaOutcome.bytes, plan.luma;
        if plan.protocol == [] {
          lastChromaEncoded := false;
        } else {
          var chromaOutcome := codec.chroma(Yuv420(buffers.auxY[..], buffers.auxU[..], buffers.auxV[..]));
          if chromaOutcome.Failed? {
            return None;
          }
          encoding, stream2, stream2Regions := LumaAndChroma, chromaOutcome.bytes, plan.protocol;
          lastChromaEncoded := true;
        }
      } else {
        var chromaOutcome := codec.chroma(Yuv420(buffers.auxY[..], buffers.auxU[..], buffers.auxV[..]));
        if chromaOutcome.Failed? {
          return None;
        }
        stream1 := chromaOutcome.bytes;
        lastChromaEncoded := true;
      }
      NormalizedFrame(plan, stream1, stream2);
      var normalized := Normalize(encoding, stream1, stream2, stream1Regions, stream2Regions);
      lastChromaEncoded := normalized.1;
      r := Some(normalized.0);
    }

    /** The frame carries the plan, and a commit would commit exactly what it carries. */
    ghost predicate Committable(frame: EncodedFrame, plan: Plan)
      reads this
    {
      && Carries(frame, plan) && lastChromaEncoded == CarriesChroma(frame)
      && (frame != NOTHING ==>
            && lastLumaReferenceRegions == plan.luma
            && (lastChromaEncoded ==> lastChromaReferenceRegions == plan.packed))
    }

    /**
     `encode`.  The references do not move; the working planes become the packed picture on the
     candidates; the frame carries what detection found against the references, each payload made from
     its own picture.
     */
    method Encode(data: seq<u8>, s: Damage.Shape, candidates: seq<Region>, fullFrameSwitch: bool, codec: Codec)
      returns (r: Option<EncodedFrame>, ghost plan: Plan)
      requires Valid() && s.Valid() && s.width == buffers.width && s.height == buffers.height
      modifies `forceChromaOnNextFrame, `lastChromaEncoded, `lastLumaReferenceRegions, `lastChromaReferenceRegions
      modifies buffers.y444, buffers.mainU, buffers.mainV, buffers.auxY, buffers.auxU, buffers.auxV
      ensures Valid()
      ensures !Damage.Fits(data, s) ==> r == None && Planes() == old(Planes()) && forceChromaOnNextFrame == old(forceChromaOnNextFrame)
      ensures Damage.Fits(data, s) ==>
                && Planned(plan) && !forceChromaOnNextFrame
                && CoversInFrame(candidates, plan.candidates, s.width, s.height)
                && AllRepainted(s.width, s.height, old(Planes()), Packed(s.width, s.height, FullRes(data, s)), plan.candidates, Planes())
                && (if fullFrameSwitch || old(forceChromaOnNextFrame) then plan.candidates == [Full(s.width, s.height)]
                    else AlignedList(candidates, plan.candidates, s.width, s.height) &&
                         Found(s.width, s.height, Planes(), lumaReference, chromaReference, plan))
      ensures Damage.Fits(data, s) ==>
                var luma, chroma := codec.luma(Planes().main), codec.chroma(Planes().aux);
                && (r.None? <==> (plan.luma != [] && luma.Failed?) || (plan.protocol != [] && chroma.Failed?))
                && (r.Some? ==> Committable(r.value, plan) && Streamed(r.value, luma, chroma))
                && (r.Some? && NoneEmpty(plan, luma, chroma) ==> Complete(r.value, plan))
                && (r.Some? && plan.luma == [] && plan.protocol == [] ==> r.value == NOTHING)
                && (r.Some? && chroma == Payload([]) ==> !CarriesChroma(r.value))
    {
      if |data| < s.height * s.stride {
        return None, Plan([], [], [], []);
      }
      var force := fullFrameSwitch || forceChromaOnNextFrame;
      if forceChromaOnNextFrame {
        forceChromaOnNextFrame := false;
      }
      hide AllRepainted, Packed, FullRes, PictureSized, Found, AlignedList, CoversInFrame, DimensionsSupported,
           LumaSelected, ChromaSelected, AllInFrame, AllAligned, PlaneBuffers.Valid;
      var selected := Select(data, s, candidates, force);
      plan := selected;
      r := Streams(selected, codec);
    }

    /** `commit_reference`. */
    method CommitReference()
      requires Valid()
      modifies `lumaReference, `chromaReference
      ensures Valid() && lumaReference.Some?
      ensures PictureSized(buffers.width, buffers.height, Planes().main) && PictureSized(buffers.width, buffers.height, Planes().aux)
      ensures Updated(buffers.width, buffers.height, old(lumaReference), Planes().main, lastLumaReferenceRegions, lumaReference.value)
      ensures !lastChromaEncoded ==> chromaReference == old(chromaReference)
      ensures lastChromaEncoded ==>
                chromaReference.Some? &&
                Updated(buffers.width, buffers.height, old(chromaReference), Planes().aux, lastChromaReferenceRegions, chromaReference.value)
    {
      PicturesSized();
      hide DimensionsSupported, PictureSized, Committed;
      var main := Yuv420(buffers.y444[..], buffers.mainU[..], buffers.mainV[..]);
      var luma := UpdateReference(buffers.width, buffers.height, lumaReference, main, lastLumaReferenceRegions);
      UpdateIsUpdated(buffers.width, buffers.height, lumaReference, main, lastLumaReferenceRegions, luma);
      lumaReference := Some(luma);
      if lastChromaEncoded {
        var aux := Yuv420(buffers.auxY[..], buffers.auxU[..], buffers.auxV[..]);
        var chroma := UpdateReference(buffers.width, buffers.height, chromaReference, aux, lastChromaReferenceRegions);
        UpdateIsUpdated(buffers.width, buffers.height, chromaReference, aux, lastChromaReferenceRegions, chroma);
        chromaReference := Some(chroma);
      }
    }
  }

  /** No payload the plan needs is empty. */
  ghost predicate NoneEmpty(plan: Plan, lumaOutcome: Outcome, chromaOutcome: Outcome) {
    && (plan.luma != [] ==> lumaOutcome.Payload? && lumaOutcome.bytes != [])
    && (plan.protocol != [] ==> chromaOutcome.Payload? && chromaOutcome.bytes != [])
  }

  lemma UpdateIsUpdated(width: nat, height: nat, reference: Option<Yuv420>, data: Yuv420, regions: seq<Region>, after: Yuv420)
    requires FrameSize(width, height) && PictureSized(width, height, data)
    requires reference.Some? ==> PictureSized(width, height, reference.value)
    requires reference.None? ==> after == data
    requires reference.Some? ==> Committed(width, height, reference.value, data, regions, after)
    ensures PictureSized(width, height, after) && Updated(width, height, reference, data, regions, after)
  {
  }

  /** The aligned candidates, or the whole frame. */
  method CandidatesFor(width: nat, height: nat, candidates: seq<Region>, force: bool) returns (aligned: seq<Region>)
    requires FrameSize(width, height)
    ensures AllInFrame(aligned, width, height) && AllAligned(aligned)
    ensures AlignedForms(aligned, width, height) == aligned
    ensures CoversInFrame(candidates, aligned, width, height)
    ensures force ==> aligned == [Full(width, height)]
    ensures !force ==> AlignedList(candidates, aligned, width, height)
  {
    aligned := AlignRegions(width, height, candidates, Full(width, height));
    if force {
      FullCoversEverything(width, height, candidates);
      aligned := [Full(width, height)];
    }
    AlignedFormsKeepAligned(aligned, width, height);
  }

  /** Both detections; a forced frame overrides what they found. */
  method DetectBoth(width: nat, height: nat, main: Yuv420, aux: Yuv420, lumaReference: Option<Yuv420>, chromaReference: Option<Yuv420>,
                    candidates: seq<Region>, force: bool) returns (plan: Plan)
    requires FrameSize(width, height) && PictureSized(width, height, main) && PictureSized(width, height, aux)
    requires lumaReference.Some? ==> PictureSized(width, height, lumaReference.value)
    requires chromaReference.Some? ==> PictureSized(width, height, chromaReference.value)
    requires AllInFrame(candidates, width, height) && AllAligned(candidates)
    ensures plan.candidates == candidates
    ensures LumaSelected(width, height, main, lumaReference, candidates, plan.luma)
    ensures ChromaSelected(width, height, aux, chromaReference, candidates, plan.packed, plan.protocol)
    ensures force ==> plan.luma == plan.packed == plan.protocol == [Full(width, height)]
    ensures !force ==> Found(width, height, Planes(main, aux), lumaReference, chromaReference, plan)
  {
    hide PictureSized, Detected, ChromaDetected, Aligned, DimensionsSupported;
    var luma := DetectRegions(width, height, main, lumaReference, candidates);
    var packed, protocol := DetectChromaRegions(width, height, aux, chromaReference, candidates);
    if force {
      luma, packed, protocol := [Full(width, height)], [Full(width, height)], [Full(width, height)];
    }
    plan := Plan(candidates, luma, packed, protocol);
  }

  lemma FullCoversEverything(width: nat, height: nat, candidates: seq<Region>)
    requires FrameSize(width, height)
    ensures CoversInFrame(candidates, [Full(width, height)], width, height)
    ensures AllInFrame([Full(width, height)], width, height) && AllAligned([Full(width, height)])
  {
    forall px: int, py: int | 0 <= px < width && 0 <= py < height
      ensures Covers([Full(width, height)], px, py)
    {
      CoversOne(Full(width, height), px, py);
    }
  }
}

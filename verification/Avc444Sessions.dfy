/**
 Whole sessions of the AVC444v2 encoder with a client: encode, send, commit only what was sent.

 Whatever fails or is dropped, the references hold what the client holds; a frame that arrives
 complete makes the client show the captured picture on every pixel of the damage; and encoding
 the same frame again then finds nothing to send.
 */
module Avc444Sessions {
  import opened Avc444Buffers
  import opened Avc444Chroma
  import opened Avc444Client
  import opened Avc444Conversion
  import opened Avc444Detect
  import opened Avc444Encoder
  import opened Avc444Layout
  import opened Avc444Regions
  import Damage
  import opened Regions

  /** What a plan promises about the planes it was made from. */
  ghost predicate PlanFits(width: nat, height: nat, planes: Planes, luma: Option<Yuv420>, chroma: Option<Yuv420>, plan: Plan)
    requires FrameSize(width, height)
  {
    && PictureSized(width, height, planes.main) && PictureSized(width, height, planes.aux)
    && (luma.Some? ==> PictureSized(width, height, luma.value))
    && (chroma.Some? ==> PictureSized(width, height, chroma.value))
    && AllInFrame(plan.candidates, width, height) && AllAligned(plan.candidates)
    && LumaSelected(width, height, planes.main, luma, plan.candidates, plan.luma)
    && ChromaSelected(width, height, planes.aux, chroma, plan.candidates, plan.packed, plan.protocol)
  }

  /** The commit that follows the delivery of a frame. */
  ghost predicate CommittedFrame(width: nat, height: nat, planes: Planes, luma: Option<Yuv420>, chroma: Option<Yuv420>,
                                 frame: EncodedFrame, plan: Plan, luma': Option<Yuv420>, chroma': Option<Yuv420>)
    requires FrameSize(width, height) && PlanFits(width, height, planes, luma, chroma, plan)
  {
    && luma'.Some? && Updated(width, height, luma, planes.main, plan.luma, luma'.value)
    && (if CarriesChroma(frame) then chroma'.Some? && Updated(width, height, chroma, planes.aux, plan.packed, chroma'.value)
        else chroma' == chroma)
  }

  lemma ShowNothing(width: nat, height: nat, main: bool, client: Yuv420, picture: Yuv420)
    requires PictureSized(width, height, client) && PictureSized(width, height, picture)
    ensures Shown(width, height, main, client, picture, [], client)
  {
    forall p: Plane | IsMain(p) == main
      ensures Repainted(p, width, height, Part(client, p), Part(picture, p), [], Part(client, p))
    {
      assert Sized(p, width, height, Part(client, p)) && Sized(p, width, height, Part(picture, p));
    }
  }

  /** Delivering a frame and committing it keeps client and references in sync. */
  lemma DeliveryKeepsSync(width: nat, height: nat, client: Planes, planes: Planes, luma: Option<Yuv420>, chroma: Option<Yuv420>,
                          frame: EncodedFrame, decode: seq<u8> -> Yuv420, plan: Plan, luma': Option<Yuv420>, chroma': Option<Yuv420>)
    requires FrameSize(width, height) && PlanFits(width, height, planes, luma, chroma, plan)
    requires InSync(width, height, client, luma, chroma)
    requires frame != NOTHING && Carries(frame, plan) && DecodesTo(frame, decode, planes)
    requires CommittedFrame(width, height, planes, luma, chroma, frame, plan, luma', chroma')
    ensures InSync(width, height, ClientTakes(width, height, client, frame, decode), luma', chroma')
  {
    hide PictureSized, LumaSelected, ChromaSelected, Updated, Show, Aligned, DimensionsSupported, InStep;
    var client' := ClientTakes(width, height, client, frame, decode);
    assert plan.luma == [] || frame.encoding != Chroma;
    if frame.encoding.Chroma? {
      ShowNothing(width, height, true, client.main, planes.main);
    } else {
      ShowIsShown(width, height, true, client.main, planes.main, plan.luma);
    }
    LumaStaysInStep(width, height, client.main, luma, planes.main, plan.candidates, plan.luma, client'.main, luma'.value);
    InStepIsSized(width, height, true, client'.main, luma'.value);
    if CarriesChroma(frame) {
      ShowIsShown(width, height, false, client.aux, planes.aux, plan.protocol);
      ChromaStaysInStep(width, height, client.aux, chroma, planes.aux, plan.candidates, plan.packed, plan.protocol, client'.aux, chroma'.value);
      InStepIsSized(width, height, false, client'.aux, chroma'.value);
    }
  }

  lemma InStepIsSized(width: nat, height: nat, main: bool, client: Yuv420, reference: Yuv420)
    requires InStep(width, height, main, client, reference)
    ensures PictureSized(width, height, client) && PictureSized(width, height, reference)
  {
  }

  /** What was committed is settled. */
  lemma LumaSettles(width: nat, height: nat, planes: Planes, luma: Option<Yuv420>, chroma: Option<Yuv420>, plan: Plan, after: Yuv420)
    requires FrameSize(width, height) && PlanFits(width, height, planes, luma, chroma, plan)
    requires Updated(width, height, luma, planes.main, plan.luma, after)
    ensures LumaSettled(width, height, planes.main, Some(after), plan.candidates)
  {
    hide PictureSized, LumaSelected, Committed, CellDiffers, RegionsHaveCell, Aligned, DimensionsSupported;
    LumaReferenceFollows(width, height, planes.main, luma, plan.candidates, plan.luma, after);
  }

  lemma ChromaSettles(width: nat, height: nat, planes: Planes, luma: Option<Yuv420>, chroma: Option<Yuv420>, plan: Plan, after: Yuv420)
    requires FrameSize(width, height) && PlanFits(width, height, planes, luma, chroma, plan)
    requires Updated(width, height, chroma, planes.aux, plan.packed, after)
    ensures ChromaSettled(width, height, planes.aux, Some(after), plan.candidates)
  {
    hide PictureSized, ChromaSelected, Committed, CellDiffers, RegionsHaveCell, Aligned, DimensionsSupported,
         PackedCandidates;
    forall j, p: Plane, x: int, y: int |
      0 <= j < |plan.candidates| && RegionsHaveCell(p, PackedCandidates(width, height, plan.candidates[j]), x, y)
      ensures !CellDiffers(width, height, planes.aux, after, p, x, y)
    {
      PackedCellFollows(width, height, planes.aux, chroma, plan.candidates, plan.packed, plan.protocol, after, p, x, y, j);
    }
  }

  /** The client took a frame with something in it. */
  ghost predicate Delivered(r: Option<EncodedFrame>, sent: bool) {
    r.Some? && r.value != NOTHING && sent
  }

  /** All the plan asks for reached the client, or there was nothing to send. */
  ghost predicate Arrived(r: Option<EncodedFrame>, plan: Plan, sent: bool) {
    r.Some? && Complete(r.value, plan) && (r.value == NOTHING || sent)
  }

  /** Luma reached the client or needed nothing, and so did chroma. */
  ghost predicate NothingMissing(width: nat, height: nat, planes: Planes, luma: Option<Yuv420>, chroma: Option<Yuv420>,
                                 r: Option<EncodedFrame>, plan: Plan, sent: bool)
    requires FrameSize(width, height)
  {
    && (Delivered(r, sent) || LumaSettled(width, height, planes.main, luma, plan.candidates))
    && ((Delivered(r, sent) && CarriesChroma(r.value)) || ChromaSettled(width, height, planes.aux, chroma, plan.candidates))
  }

  /**
   After a frame its candidates are settled exactly when each of luma and chroma was delivered or had been
   settled before.
   */
  lemma DeliveryDecides(width: nat, height: nat, planes: Planes, luma: Option<Yuv420>, chroma: Option<Yuv420>,
                        r: Option<EncodedFrame>, plan: Plan, sent: bool, luma': Option<Yuv420>, chroma': Option<Yuv420>)
    requires FrameSize(width, height) && PlanFits(width, height, planes, luma, chroma, plan)
    requires if Delivered(r, sent) then CommittedFrame(width, height, planes, luma, chroma, r.value, plan, luma', chroma')
             else luma' == luma && chroma' == chroma
    ensures Settled(width, height, planes, luma', chroma', plan.candidates) <==>
            NothingMissing(width, height, planes, luma, chroma, r, plan, sent)
  {
    hide PlanFits, LumaSettled, ChromaSettled;
    if Delivered(r, sent) {
      LumaSettles(width, height, planes, luma, chroma, plan, luma'.value);
      if CarriesChroma(r.value) {
        ChromaSettles(width, height, planes, luma, chroma, plan, chroma'.value);
      }
    }
  }

  /** A frame that arrived leaves nothing missing; without force, no other frame does. */
  lemma ArrivedDecides(width: nat, height: nat, planes: Planes, luma: Option<Yuv420>, chroma: Option<Yuv420>,
                       r: Option<EncodedFrame>, plan: Plan, sent: bool)
    requires FrameSize(width, height) && PlanFits(width, height, planes, luma, chroma, plan)
    requires if r.Some? then Carries(r.value, plan) else plan.luma != [] || plan.protocol != []
    ensures Arrived(r, plan, sent) ==> NothingMissing(width, height, planes, luma, chroma, r, plan, sent)
    ensures Found(width, height, planes, luma, chroma, plan) ==>
              (NothingMissing(width, height, planes, luma, chroma, r, plan, sent) <==> Arrived(r, plan, sent))
  {
    EmptyPlan(width, height, planes, luma, chroma, plan);
    hide PlanFits, LumaSettled, ChromaSettled, Found;
  }

  /** An empty plan means that everything was settled, and without force only then is the plan empty. */
  lemma EmptyPlan(width: nat, height: nat, planes: Planes, luma: Option<Yuv420>, chroma: Option<Yuv420>, plan: Plan)
    requires FrameSize(width, height) && PlanFits(width, height, planes, luma, chroma, plan)
    ensures plan.luma == [] ==> LumaSettled(width, height, planes.main, luma, plan.candidates)
    ensures plan.protocol == [] ==> ChromaSettled(width, height, planes.aux, chroma, plan.candidates)
    ensures Found(width, height, planes, luma, chroma, plan) ==>
              && (LumaSettled(width, height, planes.main, luma, plan.candidates) ==> plan.luma == [])
              && (ChromaSettled(width, height, planes.aux, chroma, plan.candidates) ==> plan.protocol == [])
  {
    hide PictureSized, Detected, ChromaDetected, PackedSettled, CellDiffers, RegionsHaveCell, AllAligned, AllInFrame;
    if luma.Some? && Detected(width, height, planes.main, luma.value, plan.candidates, plan.luma) {
      LumaDecides(width, height, planes.main, luma.value, plan.candidates, plan.luma);
    }
    if chroma.Some? && ChromaDetected(width, height, planes.aux, chroma.value, plan.candidates, plan.packed, plan.protocol) {
      ChromaDecides(width, height, planes.aux, chroma.value, plan.candidates, plan.packed, plan.protocol);
    }
  }

  /** A client in sync with settled references shows the picture that was converted. */
  lemma SettledIsShown(width: nat, height: nat, client: Planes, before: Planes, planes: Planes, luma: Option<Yuv420>, chroma: Option<Yuv420>,
                       image: Yuv444, candidates: seq<Region>)
    requires FrameSize(width, height) && Picture(width, height, image)
    requires AllInFrame(candidates, width, height) && AllAligned(candidates)
    requires InSync(width, height, client, luma, chroma)
    requires Settled(width, height, planes, luma, chroma, candidates)
    requires AllRepainted(width, height, before, Packed(width, height, image), candidates, planes)
    ensures ShowsPacked(width, height, client, image, candidates)
  {
    SidesAreSized(width, height, client);
    hide PictureSized, RegionsHaveCell, Aligned, DimensionsSupported, Packed, PackPlane, CellIn, HasCell,
         AllSized, Repainted, InSync, Settled, AllRepainted;
    forall p: Plane, x: int, y: int | HasCell(p, width, height, x, y) && CellIn(p, width, candidates, x, y)
      ensures Sized(p, width, height, client.Get(p))
      ensures Cell(p, width, height, client.Get(p), x, y) == CellValue(p, width, height, image, x, y)
    {
      CellIsShown(width, height, client, before, planes, luma, chroma, image, candidates, p, x, y);
    }
  }

  lemma SidesAreSized(width: nat, height: nat, planes: Planes)
    requires PictureSized(width, height, planes.main) && PictureSized(width, height, planes.aux)
    ensures AllSized(width, height, planes)
  {
    forall p: Plane
      ensures Sized(p, width, height, planes.Get(p))
    {
      assert Sized(p, width, height, Part(planes.main, p)) && Sized(p, width, height, Part(planes.aux, p));
    }
  }

  lemma CellIsShown(width: nat, height: nat, client: Planes, before: Planes, planes: Planes, luma: Option<Yuv420>, chroma: Option<Yuv420>,
                    image: Yuv444, candidates: seq<Region>, p: Plane, x: int, y: int)
    requires FrameSize(width, height) && Picture(width, height, image)
    requires AllInFrame(candidates, width, height) && AllAligned(candidates)
    requires InSync(width, height, client, luma, chroma)
    requires Settled(width, height, planes, luma, chroma, candidates)
    requires AllRepainted(width, height, before, Packed(width, height, image), candidates, planes)
    requires HasCell(p, width, height, x, y) && CellIn(p, width, candidates, x, y)
    ensures Sized(p, width, height, client.Get(p))
    ensures Cell(p, width, height, client.Get(p), x, y) == CellValue(p, width, height, image, x, y)
  {
    assert Repainted(p, width, height, before.Get(p), Packed(width, height, image).Get(p), candidates, planes.Get(p));
    PackedCell(p, width, height, image, x, y);
    SidesAreSized(width, height, client);
    assert Sized(p, width, height, client.Get(p));
    hide PictureSized, RegionsHaveCell, Aligned, DimensionsSupported, Packed, PackPlane, CellIn, AllRepainted,
         PackedCandidates, CellValue;
    if IsMain(p) {
      HomeMeansCell(width, height, p, candidates, x, y);
      assert !CellDiffers(width, height, planes.main, luma.value, p, x, y);
      assert !CellDiffers(width, height, client.main, luma.value, p, x, y);
    } else {
      var j := HomeMeansPacked(width, height, candidates, p, x, y);
      assert PackedSettled(width, height, planes.aux, chroma.value, candidates[j]);
      assert !CellDiffers(width, height, planes.aux, chroma.value, p, x, y);
      assert !CellDiffers(width, height, client.aux, chroma.value, p, x, y);
    }
  }

  /** A cell of the candidates that the client shows right agrees with its reference. */
  lemma ShownCellAgrees(width: nat, height: nat, client: Planes, before: Planes, planes: Planes, luma: Yuv420, chroma: Yuv420,
                        image: Yuv444, candidates: seq<Region>, p: Plane, x: int, y: int)
    requires FrameSize(width, height) && Picture(width, height, image)
    requires InSync(width, height, client, Some(luma), Some(chroma))
    requires PictureSized(width, height, planes.main) && PictureSized(width, height, planes.aux)
    requires AllRepainted(width, height, before, Packed(width, height, image), candidates, planes)
    requires ShowsPacked(width, height, client, image, candidates)
    requires HasCell(p, width, height, x, y) && CellIn(p, width, candidates, x, y)
    ensures PictureSized(width, height, luma) && PictureSized(width, height, chroma)
    ensures IsMain(p) ==> !CellDiffers(width, height, planes.main, luma, p, x, y)
    ensures IsAux(p) ==> !CellDiffers(width, height, planes.aux, chroma, p, x, y)
  {
    assert Repainted(p, width, height, before.Get(p), Packed(width, height, image).Get(p), candidates, planes.Get(p));
    PackedCell(p, width, height, image, x, y);
    hide PictureSized, Packed, PackPlane, CellIn, AllRepainted, CellValue, FrameSize;
    if IsMain(p) {
      assert !CellDiffers(width, height, client.main, luma, p, x, y);
    } else {
      assert !CellDiffers(width, height, client.aux, chroma, p, x, y);
    }
  }

  /** Conversely, where the client shows the picture the references are settled. */
  lemma ShownIsSettled(width: nat, height: nat, client: Planes, before: Planes, planes: Planes, luma: Yuv420, chroma: Yuv420,
                       image: Yuv444, candidates: seq<Region>)
    requires FrameSize(width, height) && Picture(width, height, image)
    requires AllInFrame(candidates, width, height) && AllAligned(candidates)
    requires InSync(width, height, client, Some(luma), Some(chroma))
    requires PictureSized(width, height, planes.main) && PictureSized(width, height, planes.aux)
    requires AllRepainted(width, height, before, Packed(width, height, image), candidates, planes)
    requires ShowsPacked(width, height, client, image, candidates)
    ensures Settled(width, height, planes, Some(luma), Some(chroma), candidates)
  {
    CandidatesAreEven(candidates, width, height);
    hide PictureSized, RegionsHaveCell, Aligned, FrameSize, Packed, PackPlane, CellIn, HasCell, InStep, EvenRegions,
         AllSized, Repainted, AllRepainted, ShowsPacked, CellDiffers, PackedCandidates, RegionHasCell;
    forall p: Plane, x: int, y: int | RegionsHaveCell(p, candidates, x, y)
      ensures PictureSized(width, height, luma) && !CellDiffers(width, height, planes.main, luma, p, x, y)
    {
      RoleHasCell(width, height, planes.main, luma, p, MainRole(p), candidates, x, y);
      if HasCell(MainRole(p), width, height, x, y) {
        EvenRegionsCells(MainRole(p), width, candidates, x, y);
        ShownCellAgrees(width, height, client, before, planes, luma, chroma, image, candidates, MainRole(p), x, y);
      } else {
        NoCellNoDifference(width, height, planes.main, luma, MainRole(p), x, y);
      }
    }
    forall j, p: Plane, x: int, y: int | 0 <= j < |candidates| && RegionsHaveCell(p, PackedCandidates(width, height, candidates[j]), x, y)
      ensures PictureSized(width, height, chroma) && !CellDiffers(width, height, planes.aux, chroma, p, x, y)
    {
      RoleHasCell(width, height, planes.aux, chroma, p, AuxRole(p), PackedCandidates(width, height, candidates[j]), x, y);
      if HasCell(AuxRole(p), width, height, x, y) {
        PackedMeansHome(width, height, candidates, j, AuxRole(p), x, y);
        ShownCellAgrees(width, height, client, before, planes, luma, chroma, image, candidates, AuxRole(p), x, y);
      } else {
        NoCellNoDifference(width, height, planes.aux, chroma, AuxRole(p), x, y);
      }
    }
  }

  lemma CandidatesAreEven(candidates: seq<Region>, width: nat, height: nat)
    requires AllInFrame(candidates, width, height) && AllAligned(candidates)
    ensures EvenRegions(candidates)
  {
    hide Even, Aligned;
    forall i | 0 <= i < |candidates|
      ensures Even(candidates[i])
    {
      AlignedIsEven(candidates[i]);
    }
  }

  /** The auxiliary plane of the same role. */
  function AuxRole(p: Plane): Plane {
    match p
    case Y444 => AuxY
    case MainU => AuxU
    case MainV => AuxV
    case _ => p
  }

  lemma RoleHasCell(width: nat, height: nat, a: Yuv420, b: Yuv420, p: Plane, role: Plane, regions: seq<Region>, x: int, y: int)
    requires PictureSized(width, height, a) && PictureSized(width, height, b)
    requires role == MainRole(p) || role == AuxRole(p)
    ensures CellDiffers(width, height, a, b, p, x, y) == CellDiffers(width, height, a, b, role, x, y)
    ensures RegionsHaveCell(p, regions, x, y) == RegionsHaveCell(role, regions, x, y)
  {
    hide PictureSized;
    assert Part(a, p) == Part(a, role) && Part(b, p) == Part(b, role);
    forall i | 0 <= i < |regions|
      ensures RegionHasCell(p, regions[i], x, y) == RegionHasCell(role, regions[i], x, y)
    {
    }
  }

  lemma PackedMeansHome(width: nat, height: nat, candidates: seq<Region>, j: nat, p: Plane, x: int, y: int)
    requires FrameSize(width, height) && AllInFrame(candidates, width, height) && AllAligned(candidates)
    requires j < |candidates| && IsAux(p) && HasCell(p, width, height, x, y)
    requires RegionsHaveCell(p, PackedCandidates(width, height, candidates[j]), x, y)
    ensures CellIn(p, width, candidates, x, y)
  {
    hide PackedCandidates, Aligned, RegionsHaveCell, FrameSize;
    PackedCandidatesAreExact(width, height, candidates[j], p, x, y);
  }

  // ----- one frame, end to end

  /** One call of `encode` and what became of its frame. */
  datatype Attempt = Attempt(data: seq<u8>, damage: seq<Region>, fullFrameSwitch: bool, codec: Codec, sent: bool)

  /** The client decodes the frame, then the encoder commits it. */
  method Deliver(e: Avc444Encoder, ghost frame: EncodedFrame, ghost decode: seq<u8> -> Yuv420, ghost plan: Plan, ghost client: Planes)
    returns (ghost client': Planes)
    requires e.Valid() && e.Planned(plan) && e.Committable(frame, plan) && frame != NOTHING
    requires DecodesTo(frame, decode, e.Planes())
    requires InSync(e.buffers.width, e.buffers.height, client, e.lumaReference, e.chromaReference)
    modifies e`lumaReference, e`chromaReference
    ensures e.Valid()
    ensures InSync(e.buffers.width, e.buffers.height, client', e.lumaReference, e.chromaReference)
    ensures PictureSized(e.buffers.width, e.buffers.height, e.Planes().main) && PictureSized(e.buffers.width, e.buffers.height, e.Planes().aux)
    ensures client' == ClientTakes(e.buffers.width, e.buffers.height, client, frame, decode)
    ensures PlanFits(e.buffers.width, e.buffers.height, e.Planes(), old(e.lumaReference), old(e.chromaReference), plan)
    ensures CommittedFrame(e.buffers.width, e.buffers.height, e.Planes(), old(e.lumaReference), old(e.chromaReference),
                           frame, plan, e.lumaReference, e.chromaReference)
    ensures !CarriesChroma(frame) ==> client'.aux == client.aux
  {
    ghost var luma, chroma := e.lumaReference, e.chromaReference;
    e.CommitReference();
    hide PictureSized, LumaSelected, ChromaSelected, Updated, Show, Aligned, DimensionsSupported, InStep;
    client' := ClientTakes(e.buffers.width, e.buffers.height, client, frame, decode);
    DeliveryKeepsSync(e.buffers.width, e.buffers.height, client, e.Planes(), luma, chroma, frame, decode, plan, e.lumaReference, e.chromaReference);
  }

  /** What a frame achieves that arrives complete, or that has nothing to send. */
  ghost predicate Served(s: Damage.Shape, a: Attempt, plan: Plan, planes: Planes, luma: Option<Yuv420>, chroma: Option<Yuv420>, client: Planes)
    requires Damage.Fits(a.data, s) && FrameSize(s.width, s.height)
  {
    && CoversInFrame(a.damage, plan.candidates, s.width, s.height)
    && AllRepainted(s.width, s.height, planes, Packed(s.width, s.height, FullRes(a.data, s)), plan.candidates, planes)
    && Settled(s.width, s.height, planes, luma, chroma, plan.candidates)
    && ShowsPacked(s.width, s.height, client, FullRes(a.data, s), plan.candidates)
  }

  /** Repainting what is painted changes nothing. */
  lemma RepaintIsIdempotent(width: nat, height: nat, before: Planes, source: Planes, regions: seq<Region>, planes: Planes)
    requires AllRepainted(width, height, before, source, regions, planes)
    ensures AllRepainted(width, height, planes, source, regions, planes)
  {
    hide CellIn;
    forall p: Plane
      ensures Repainted(p, width, height, planes.Get(p), source.Get(p), regions, planes.Get(p))
    {
      assert Repainted(p, width, height, before.Get(p), source.Get(p), regions, planes.Get(p));
    }
  }

  /** The frame is served exactly when its candidates are settled, and then exactly if the client shows it there. */
  lemma ServedDecides(s: Damage.Shape, a: Attempt, plan: Plan, before: Planes, planes: Planes,
                      luma: Option<Yuv420>, chroma: Option<Yuv420>, client: Planes)
    requires Damage.Fits(a.data, s) && FrameSize(s.width, s.height)
    requires PictureSized(s.width, s.height, planes.main) && PictureSized(s.width, s.height, planes.aux)
    requires AllInFrame(plan.candidates, s.width, s.height) && AllAligned(plan.candidates)
    requires InSync(s.width, s.height, client, luma, chroma)
    requires CoversInFrame(a.damage, plan.candidates, s.width, s.height)
    requires AllRepainted(s.width, s.height, before, Packed(s.width, s.height, FullRes(a.data, s)), plan.candidates, planes)
    ensures Served(s, a, plan, planes, luma, chroma, client) <==> Settled(s.width, s.height, planes, luma, chroma, plan.candidates)
    ensures luma.Some? && chroma.Some? ==>
              (Served(s, a, plan, planes, luma, chroma, client) <==>
               ShowsPacked(s.width, s.height, client, FullRes(a.data, s), plan.candidates))
  {
    RepaintIsIdempotent(s.width, s.height, before, Packed(s.width, s.height, FullRes(a.data, s)), plan.candidates, planes);
    hide PictureSized, AllAligned, AllInFrame, FrameSize, AllRepainted, Packed, FullRes, InSync, Settled, ShowsPacked;
    if Settled(s.width, s.height, planes, luma, chroma, plan.candidates) {
      SettledIsShown(s.width, s.height, client, before, planes, luma, chroma, FullRes(a.data, s), plan.candidates);
    }
    if luma.Some? && chroma.Some? && ShowsPacked(s.width, s.height, client, FullRes(a.data, s), plan.candidates) {
      ShownIsSettled(s.width, s.height, client, before, planes, luma.value, chroma.value, FullRes(a.data, s), plan.candidates);
    }
  }

  /** The two clients show the same on every cell that has its home outside the regions. */
  ghost predicate SameOutside(width: nat, height: nat, a: Planes, b: Planes, regions: seq<Region>) {
    && AllSized(width, height, a) && AllSized(width, height, b)
    && forall p: Plane, x: int, y: int :: HasCell(p, width, height, x, y) && !CellIn(p, width, regions, x, y) ==>
         Cell(p, width, height, a.Get(p), x, y) == Cell(p, width, height, b.Get(p), x, y)
  }

  ghost predicate AllWithinSome(regions: seq<Region>, candidates: seq<Region>) {
    forall i :: 0 <= i < |regions| ==> WithinSome(regions[i], candidates)
  }

  lemma WithinKeepsHome(width: nat, regions: seq<Region>, candidates: seq<Region>, p: Plane, x: int, y: int)
    requires AllWithinSome(regions, candidates) && CellIn(p, width, regions, x, y)
    ensures CellIn(p, width, candidates, x, y)
  {
    hide HomeX, HomeY;
    var i :| 0 <= i < |regions| && regions[i].Has(HomeX(p, width, x), HomeY(p, y));
    assert WithinSome(regions[i], candidates);
    var j :| 0 <= j < |candidates| && Within(regions[i], candidates[j]);
    assert candidates[j].Has(HomeX(p, width, x), HomeY(p, y));
  }

  /** Without force a frame carries regions of the candidates only. */
  lemma PlanStaysInside(width: nat, height: nat, planes: Planes, luma: Option<Yuv420>, chroma: Option<Yuv420>, plan: Plan)
    requires FrameSize(width, height) && Found(width, height, planes, luma, chroma, plan) && luma.Some? && chroma.Some?
    ensures AllWithinSome(plan.luma, plan.candidates) && AllWithinSome(plan.protocol, plan.candidates)
  {
    hide PictureSized, RegionDiffers, Even, PackedTile, TileAnnounced, CandidateScanned, CellDiffers, RegionsHaveCell;
    forall i | 0 <= i < |plan.luma|
      ensures WithinSome(plan.luma[i], plan.candidates)
    {
      assert ReportedTile(width, height, planes.main, luma.value, plan.candidates, plan.luma[i]);
      var j :| 0 <= j < |plan.candidates| && PartOf(width, height, plan.luma[i], plan.candidates[j]);
    }
    forall i | 0 <= i < |plan.protocol|
      ensures WithinSome(plan.protocol[i], plan.candidates)
    {
      assert ProtocolRegion(width, height, plan.candidates, plan.protocol[i]);
    }
  }

  /** One picture of the client, after it took regions that lie inside the candidates. */
  lemma ShownStaysInside(width: nat, height: nat, main: bool, before: Yuv420, picture: Yuv420, regions: seq<Region>, after: Yuv420,
                         candidates: seq<Region>, p: Plane, x: int, y: int)
    requires Shown(width, height, main, before, picture, regions, after) && AllWithinSome(regions, candidates)
    requires IsMain(p) == main && HasCell(p, width, height, x, y) && !CellIn(p, width, candidates, x, y)
    ensures Sized(p, width, height, Part(before, p)) && Sized(p, width, height, Part(after, p))
    ensures Cell(p, width, height, Part(after, p), x, y) == Cell(p, width, height, Part(before, p), x, y)
  {
    hide CellIn, HasCell, Cell, AllWithinSome;
    assert Repainted(p, width, height, Part(before, p), Part(picture, p), regions, Part(after, p));
    if CellIn(p, width, regions, x, y) {
      WithinKeepsHome(width, regions, candidates, p, x, y);
    }
  }

  /** Without force the client changes inside the candidates only. */
  lemma TakesInside(width: nat, height: nat, client: Planes, planes: Planes, luma: Option<Yuv420>, chroma: Option<Yuv420>,
                    frame: EncodedFrame, decode: seq<u8> -> Yuv420, plan: Plan)
    requires FrameSize(width, height) && Found(width, height, planes, luma, chroma, plan) && luma.Some? && chroma.Some?
    requires PictureSized(width, height, client.main) && PictureSized(width, height, client.aux)
    requires Carries(frame, plan) && DecodesTo(frame, decode, planes)
    ensures PictureSized(width, height, planes.main) && PictureSized(width, height, planes.aux)
    ensures SameOutside(width, height, client, ClientTakes(width, height, client, frame, decode), plan.candidates)
  {
    PlanStaysInside(width, height, planes, luma, chroma, plan);
    ShowIsShown(width, height, true, client.main, planes.main, plan.luma);
    ShowIsShown(width, height, false, client.aux, planes.aux, plan.protocol);
    var client' := ClientTakes(width, height, client, frame, decode);
    ShownIsSized(width, height, true, client.main, planes.main, plan.luma, Show(width, height, true, client.main, planes.main, plan.luma));
    ShownIsSized(width, height, false, client.aux, planes.aux, plan.protocol, Show(width, height, false, client.aux, planes.aux, plan.protocol));
    SidesAreSized(width, height, client);
    SidesAreSized(width, height, client');
    hide PictureSized, Found, Show, Shown, CellIn, HasCell, Cell, AllWithinSome, AllSized, FrameSize;
    forall p: Plane, x: int, y: int | HasCell(p, width, height, x, y) && !CellIn(p, width, plan.candidates, x, y)
      ensures Sized(p, width, height, client.Get(p)) && Sized(p, width, height, client'.Get(p))
      ensures Cell(p, width, height, client.Get(p), x, y) == Cell(p, width, height, client'.Get(p), x, y)
    {
      GetIsSized(width, height, client, p);
      GetIsSized(width, height, client', p);
      if IsMain(p) {
        ShownStaysInside(width, height, true, client.main, planes.main, plan.luma,
                         Show(width, height, true, client.main, planes.main, plan.luma), plan.candidates, p, x, y);
      } else {
        ShownStaysInside(width, height, false, client.aux, planes.aux, plan.protocol,
                         Show(width, height, false, client.aux, planes.aux, plan.protocol), plan.candidates, p, x, y);
      }
    }
  }

  lemma GetIsSized(width: nat, height: nat, planes: Planes, p: Plane)
    requires AllSized(width, height, planes)
    ensures Sized(p, width, height, planes.Get(p))
  {
  }

  /**
   Encode a frame; send it unless there is nothing to send; commit only once it was sent, and ask
   for a full frame when it was not.  Client and references stay in sync whatever happens.

   The frame is served, so that the client shows the captured picture on its candidates, exactly when
   luma and chroma each reached the client or needed nothing.  Without force that means that the whole
   frame arrived.  An empty chroma payload leaves both the client's chroma and the chroma reference
   behind; a forced frame that loses its chroma is served only if the chroma reference held the whole
   picture already.
   */
  method Serve(e: Avc444Encoder, s: Damage.Shape, a: Attempt, ghost client: Planes)
    returns (r: Option<EncodedFrame>, ghost plan: Plan, ghost client': Planes)
    requires e.Valid() && s.Valid() && s.width == e.buffers.width && s.height == e.buffers.height
    requires InSync(s.width, s.height, client, e.lumaReference, e.chromaReference) && a.codec.Ideal()
    modifies e, e.buffers.y444, e.buffers.mainU, e.buffers.mainV, e.buffers.auxY, e.buffers.auxU, e.buffers.auxV
    ensures e.Valid()
    ensures InSync(s.width, s.height, client', e.lumaReference, e.chromaReference)
    ensures Damage.Fits(a.data, s) ==>
              (Served(s, a, plan, e.Planes(), e.lumaReference, e.chromaReference, client') <==>
               NothingMissing(s.width, s.height, e.Planes(), old(e.lumaReference), old(e.chromaReference), r, plan, a.sent))
    ensures Damage.Fits(a.data, s) && Arrived(r, plan, a.sent) ==>
              Served(s, a, plan, e.Planes(), e.lumaReference, e.chromaReference, client') && !e.forceChromaOnNextFrame
    ensures Damage.Fits(a.data, s) && !a.fullFrameSwitch && !old(e.forceChromaOnNextFrame) ==>
              (Served(s, a, plan, e.Planes(), e.lumaReference, e.chromaReference, client') <==> Arrived(r, plan, a.sent))
    ensures Damage.Fits(a.data, s) && e.lumaReference.Some? && e.chromaReference.Some? ==>
              (Served(s, a, plan, e.Planes(), e.lumaReference, e.chromaReference, client') <==>
               ShowsPacked(s.width, s.height, client', FullRes(a.data, s), plan.candidates))
    ensures Damage.Fits(a.data, s) ==>
              if a.fullFrameSwitch || old(e.forceChromaOnNextFrame) then plan.candidates == [Full(s.width, s.height)]
              else AlignedList(a.damage, plan.candidates, s.width, s.height)
    ensures Damage.Fits(a.data, s) ==> AllInFrame(plan.candidates, s.width, s.height) && AllAligned(plan.candidates)
    ensures Damage.Fits(a.data, s) && !a.fullFrameSwitch && !old(e.forceChromaOnNextFrame) &&
            old(e.lumaReference).Some? && old(e.chromaReference).Some? ==>
              SameOutside(s.width, s.height, client, client', plan.candidates)
    ensures Damage.Fits(a.data, s) && NoneEmpty(plan, a.codec.luma(e.Planes().main), a.codec.chroma(e.Planes().aux)) ==> r.Some? && Complete(r.value, plan)
    ensures Damage.Fits(a.data, s) && a.codec.luma(e.Planes().main).Payload? && a.codec.chroma(e.Planes().aux) == Payload([]) ==>
              r.Some? && !CarriesChroma(r.value)
    ensures Damage.Fits(a.data, s) && r.Some? ==>
              && Streamed(r.value, a.codec.luma(e.Planes().main), a.codec.chroma(e.Planes().aux))
              && client' == if a.sent then ClientTakes(s.width, s.height, client, r.value, a.codec.decode) else client
    ensures r.Some? && !CarriesChroma(r.value) ==> e.chromaReference == old(e.chromaReference) && client'.aux == client.aux
    ensures r.None? || !a.sent ==> e.lumaReference == old(e.lumaReference) && e.chromaReference == old(e.chromaReference) && client' == client
    ensures Damage.Fits(a.data, s) && (r.None? || (r.value != NOTHING && !a.sent)) ==> e.forceChromaOnNextFrame
  {
    client' := client;
    ghost var before, luma, chroma := e.Planes(), e.lumaReference, e.chromaReference;
    ghost var forced := a.fullFrameSwitch || e.forceChromaOnNextFrame;
    hide PictureSized, LumaSelected, ChromaSelected, Aligned, FrameSize, AllRepainted, Packed, FullRes, InSync, Complete,
         CoversInFrame, Served, Found, AlignedList, Carries, NothingMissing, ShowsPacked, SameOutside, PlaneBuffers.Valid;
    r, plan := e.Encode(a.data, s, a.damage, a.fullFrameSwitch, a.codec);
    if |a.data| < s.height * s.stride {
      return;
    }
    if r.Some? {
      StreamedDecodes(r.value, plan, a.codec, e.Planes());
    }
    if r.None? {
      e.ForceFullFrame();
    } else if r.value != NOTHING && !a.sent {
      e.ForceFullFrame();
    } else if r.value != NOTHING {
      client' := Deliver(e, r.value, a.codec.decode, plan, client);
    }
    hide *;
    FrameDecides(s, a, plan, before, e.Planes(), luma, chroma, r, e.lumaReference, e.chromaReference, client');
    if !forced && luma.Some? && chroma.Some? {
      ClientStaysInside(s.width, s.height, client, e.Planes(), luma, chroma, r, a.codec.decode, plan, a.sent, client');
    }
  }

  /** What became of the frame decides whether it is served. */
  lemma FrameDecides(s: Damage.Shape, a: Attempt, plan: Plan, before: Planes, planes: Planes, luma: Option<Yuv420>, chroma: Option<Yuv420>,
                     r: Option<EncodedFrame>, luma': Option<Yuv420>, chroma': Option<Yuv420>, client: Planes)
    requires Damage.Fits(a.data, s) && FrameSize(s.width, s.height)
    requires PlanFits(s.width, s.height, planes, luma, chroma, plan)
    requires if r.Some? then Carries(r.value, plan) else plan.luma != [] || plan.protocol != []
    requires if Delivered(r, a.sent) then CommittedFrame(s.width, s.height, planes, luma, chroma, r.value, plan, luma', chroma')
             else luma' == luma && chroma' == chroma
    requires InSync(s.width, s.height, client, luma', chroma')
    requires CoversInFrame(a.damage, plan.candidates, s.width, s.height)
    requires AllRepainted(s.width, s.height, before, Packed(s.width, s.height, FullRes(a.data, s)), plan.candidates, planes)
    ensures Served(s, a, plan, planes, luma', chroma', client) <==> NothingMissing(s.width, s.height, planes, luma, chroma, r, plan, a.sent)
    ensures Arrived(r, plan, a.sent) ==> Served(s, a, plan, planes, luma', chroma', client)
    ensures Found(s.width, s.height, planes, luma, chroma, plan) ==>
              (Served(s, a, plan, planes, luma', chroma', client) <==> Arrived(r, plan, a.sent))
    ensures luma'.Some? && chroma'.Some? ==>
              (Served(s, a, plan, planes, luma', chroma', client) <==> ShowsPacked(s.width, s.height, client, FullRes(a.data, s), plan.candidates))
  {
    hide PictureSized, AllInFrame, AllAligned, LumaSelected, ChromaSelected, FrameSize, AllRepainted, Packed, FullRes, InSync, CommittedFrame,
         CoversInFrame, Served, Found, Carries, NothingMissing, ShowsPacked, Arrived;
    DeliveryDecides(s.width, s.height, planes, luma, chroma, r, plan, a.sent, luma', chroma');
    ArrivedDecides(s.width, s.height, planes, luma, chroma, r, plan, a.sent);
    ServedDecides(s, a, plan, before, planes, luma', chroma', client);
  }

  lemma ClientStaysInside(width: nat, height: nat, client: Planes, planes: Planes, luma: Option<Yuv420>, chroma: Option<Yuv420>,
                          r: Option<EncodedFrame>, decode: seq<u8> -> Yuv420, plan: Plan, sent: bool, client': Planes)
    requires FrameSize(width, height) && Found(width, height, planes, luma, chroma, plan) && luma.Some? && chroma.Some?
    requires InSync(width, height, client, luma, chroma) && (r.Some? ==> Carries(r.value, plan) && DecodesTo(r.value, decode, planes))
    requires client' == if Delivered(r, sent) then ClientTakes(width, height, client, r.value, decode) else client
    ensures SameOutside(width, height, client, client', plan.candidates)
  {
    SidesAreSized(width, height, client);
    hide PictureSized, Found, InStep, CellIn, HasCell, Cell, AllSized, FrameSize, Carries;
    if Delivered(r, sent) {
      TakesInside(width, height, client, planes, luma, chroma, r.value, decode, plan);
    }
  }

  /** Exact luma; exact chroma where x or y is odd; elsewhere the floored average of the block. */
  ghost predicate PixelIsRight(s: Damage.Shape, data: seq<u8>, client: Planes, second: bool, px: int, py: int)
    requires Damage.Fits(data, s) && FrameSize(s.width, s.height) && s.HasPixel(px, py)
    requires AllSized(s.width, s.height, client)
  {
    assert Sized(Y444, s.width, s.height, client.Get(Y444));
    var yuv := PixelToYuv(data, s, px, py);
    && Cell(Y444, s.width, s.height, client.Get(Y444), px, py) == yuv.y
    && var shown := CombinedChroma(s.width, s.height, client, second, px, py);
    && shown == SentChroma(s.width, s.height, if second then FullRes(data, s).v else FullRes(data, s).u, px, py)
    && (px % 2 == 1 || py % 2 == 1 ==> shown == if second then yuv.v else yuv.u)
  }

  /** A pixel of the damage is right on the client once its frame was served. */
  lemma ServedPixelIsRight(s: Damage.Shape, a: Attempt, plan: Plan, planes: Planes, luma: Option<Yuv420>, chroma: Option<Yuv420>,
                           client: Planes, second: bool, px: int, py: int)
    requires Damage.Fits(a.data, s) && FrameSize(s.width, s.height)
    requires Served(s, a, plan, planes, luma, chroma, client)
    requires s.HasPixel(px, py) && Covers(a.damage, px, py)
    ensures AllSized(s.width, s.height, client) && PixelIsRight(s, a.data, client, second, px, py)
  {
    assert Covers(plan.candidates, px, py);
    hide Packed, FullRes, AllRepainted, Settled, DimensionsSupported, PixelToYuv, BlockAverage, CoversInFrame,
         CombinedChroma, Sample, Cell, Covers;
    CoveredPixelIsRight(s.width, s.height, client, FullRes(a.data, s), plan.candidates, second, px, py);
    FullResSample(a.data, s, px, py);
  }

  // ----- serving the same frame again

  /** Converting the same picture again on the same candidates, or after the whole frame, changes no plane. */
  lemma ConvertAgain(width: nat, height: nat, planes: Planes, source: Planes, first: seq<Region>, second: seq<Region>, again: Planes)
    requires FrameSize(width, height)
    requires AllRepainted(width, height, planes, source, first, planes)
    requires AllRepainted(width, height, planes, source, second, again)
    requires first == second || first == [Full(width, height)]
    ensures again == planes
  {
    hide CellIn, Cell, HasCell, HomeX, HomeY, DimensionsSupported;
    forall p: Plane
      ensures again.Get(p) == planes.Get(p)
    {
      assert Repainted(p, width, height, planes.Get(p), source.Get(p), first, planes.Get(p));
      assert Repainted(p, width, height, planes.Get(p), source.Get(p), second, again.Get(p));
      forall x: int, y: int | HasCell(p, width, height, x, y)
        ensures Cell(p, width, height, again.Get(p), x, y) == Cell(p, width, height, planes.Get(p), x, y)
      {
        FullHasEverything(width, height, p, x, y);
      }
      CellsDeterminePlane(p, width, height, again.Get(p), planes.Get(p));
    }
    assert again.Get(Y444) == planes.Get(Y444) && again.Get(MainU) == planes.Get(MainU) && again.Get(MainV) == planes.Get(MainV);
    assert again.Get(AuxY) == planes.Get(AuxY) && again.Get(AuxU) == planes.Get(AuxU) && again.Get(AuxV) == planes.Get(AuxV);
  }

  /** The packed rectangles of the whole frame hold every auxiliary cell. */
  lemma FullIsAllPacked(width: nat, height: nat, p: Plane, x: int, y: int)
    requires FrameSize(width, height) && HasCell(p, width, height, x, y)
    ensures RegionsHaveCell(p, PackedCandidates(width, height, Full(width, height)), x, y)
  {
    var aux := match p case Y444 => AuxY case MainU => AuxU case MainV => AuxV case _ => p;
    HomeInFrame(aux, width, height, x, y);
    PackedCandidatesAreExact(width, height, Full(width, height), aux, x, y);
    hide PackedCandidates;
    var packed := PackedCandidates(width, height, Full(width, height));
    var i :| 0 <= i < |packed| && RegionHasCell(aux, packed[i], x, y);
    assert RegionHasCell(p, packed[i], x, y);
  }

  /** Settling the whole frame settles any candidates. */
  lemma FullSettlesAll(width: nat, height: nat, planes: Planes, luma: Option<Yuv420>, chroma: Option<Yuv420>, candidates: seq<Region>)
    requires FrameSize(width, height) && Settled(width, height, planes, luma, chroma, [Full(width, height)])
    ensures Settled(width, height, planes, luma, chroma, candidates)
  {
    assert PackedSettled(width, height, planes.aux, chroma.value, [Full(width, height)][0]);
    hide PictureSized, CellDiffers, HasCell, RegionsHaveCell, PackedCandidates, DimensionsSupported;
    forall p: Plane, x: int, y: int
      ensures !CellDiffers(width, height, planes.main, luma.value, p, x, y)
      ensures !CellDiffers(width, height, planes.aux, chroma.value, p, x, y)
    {
      if HasCell(p, width, height, x, y) {
        FullHasEverything(width, height, p, x, y);
        FullIsAllPacked(width, height, p, x, y);
      } else {
        NoCellNoDifference(width, height, planes.main, luma.value, p, x, y);
        NoCellNoDifference(width, height, planes.aux, chroma.value, p, x, y);
      }
    }
  }

  /** Encoding a frame again after it was served finds nothing, whatever H.264 would have answered. */
  method EncodeAgain(e: Avc444Encoder, s: Damage.Shape, a: Attempt, ghost plan: Plan, ghost client: Planes, codec: Codec)
    returns (r: Option<EncodedFrame>)
    requires e.Valid() && Damage.Fits(a.data, s) && s.width == e.buffers.width && s.height == e.buffers.height
    requires Served(s, a, plan, e.Planes(), e.lumaReference, e.chromaReference, client) && !e.forceChromaOnNextFrame
    requires plan.candidates == [Full(s.width, s.height)] || AlignedList(a.damage, plan.candidates, s.width, s.height)
    modifies e, e.buffers.y444, e.buffers.mainU, e.buffers.mainV, e.buffers.auxY, e.buffers.auxU, e.buffers.auxV
    ensures r == Some(NOTHING)
    ensures e.Valid() && e.Planes() == old(e.Planes())
  {
    ghost var planes := e.Planes();
    hide PictureSized, LumaSelected, ChromaSelected, Aligned, DimensionsSupported, AllRepainted, Packed, FullRes, InSync, Complete,
         CoversInFrame, ShowsPacked, AlignedList, Carries, PlaneBuffers.Valid, Settled, Detected, ChromaDetected;
    ghost var again: Plan;
    r, again := e.Encode(a.data, s, a.damage, false, codec);
    if plan.candidates != [Full(s.width, s.height)] {
      AlignedListIsUnique(a.damage, plan.candidates, again.candidates, s.width, s.height);
    }
    ConvertAgain(s.width, s.height, planes, Packed(s.width, s.height, FullRes(a.data, s)), plan.candidates, again.candidates, e.Planes());
    SettledAgain(s, a, plan, planes, e.lumaReference, e.chromaReference, again);
  }

  lemma SettledAgain(s: Damage.Shape, a: Attempt, plan: Plan, planes: Planes, luma: Option<Yuv420>, chroma: Option<Yuv420>, again: Plan)
    requires FrameSize(s.width, s.height)
    requires Settled(s.width, s.height, planes, luma, chroma, plan.candidates)
    requires Found(s.width, s.height, planes, luma, chroma, again)
    requires again.candidates == plan.candidates || plan.candidates == [Full(s.width, s.height)]
    ensures again.luma == [] && again.protocol == []
  {
    if again.candidates != plan.candidates {
      FullSettlesAll(s.width, s.height, planes, luma, chroma, again.candidates);
    }
    hide PictureSized, CellDiffers, Detected, ChromaDetected, RegionsHaveCell, DimensionsSupported, PackedSettled;
    SettledIsSilent(s.width, s.height, planes, luma, chroma, again.candidates, again.luma, again.packed, again.protocol);
  }

  // ----- a frame that loses its chroma

  /**
   A new encoder's first frame with an empty chroma payload: at an odd column the client keeps the chroma
   it showed before, so the pixel is wrong unless that happened to be the right one.
   */
  method FirstFrameWithoutChroma(s: Damage.Shape, a: Attempt, ghost screen: Planes, ghost second: bool, ghost px: int, ghost py: int)
    returns (e: Avc444Encoder, ghost plan: Plan, ghost client: Planes)
    requires FrameSize(s.width, s.height) && Damage.Fits(a.data, s)
    requires AllSized(s.width, s.height, screen) && PictureSized(s.width, s.height, screen.main) && PictureSized(s.width, s.height, screen.aux)
    requires a.codec.Ideal() && forall p: Yuv420 :: a.codec.luma(p).Payload? && a.codec.chroma(p) == Payload([])
    requires s.HasPixel(px, py) && px % 2 == 1
    requires var yuv := PixelToYuv(a.data, s, px, py);
             CombinedChroma(s.width, s.height, screen, second, px, py) != if second then yuv.v else yuv.u
    ensures AllSized(s.width, s.height, client) && !PixelIsRight(s, a.data, client, second, px, py)
    ensures !Served(s, a, plan, e.Planes(), e.lumaReference, e.chromaReference, client)
  {
    e := new Avc444Encoder(s.width, s.height);
    hide FrameSize, Served, NothingMissing, ShowsPacked, SameOutside, AllRepainted, Packed, FullRes, PlaneBuffers.Valid, Complete,
         AlignedList, CoversInFrame, Cell, InStep, PixelToYuv;
    var r: Option<EncodedFrame>;
    r, plan, client := Serve(e, s, a, screen);
    SidesAreSized(s.width, s.height, client);
    if Served(s, a, plan, e.Planes(), e.lumaReference, e.chromaReference, client) {
      NeverSettled(s.width, s.height, e.Planes(), None, r, plan, a.sent);
    }
  }

  lemma NeverSettled(width: nat, height: nat, planes: Planes, luma: Option<Yuv420>, r: Option<EncodedFrame>, plan: Plan, sent: bool)
    requires FrameSize(width, height) && r.Some? && !CarriesChroma(r.value)
    ensures !NothingMissing(width, height, planes, luma, None, r, plan, sent)
  {
  }

  // ----- whole sessions

  /** Every frame fits, and the damage of each covers its difference to the frame before. */
  ghost predicate HonestSession(s: Damage.Shape, attempts: seq<Attempt>) {
    && (forall k :: 0 <= k < |attempts| ==> Damage.Fits(attempts[k].data, s))
    && (forall k :: 0 < k < |attempts| ==> Damage.Honest(attempts[k - 1].data, attempts[k].data, s, attempts[k].damage))
  }

  /** What became of an attempt: the whole frame was asked for, everything arrived, the frame failed or was dropped. */
  datatype Step = Step(forced: bool, arrived: bool, lost: bool)

  ghost predicate ArrivedSince(log: seq<Step>, i: nat) {
    forall j :: i <= j < |log| ==> log[j].arrived
  }

  /** Everything arrived since the whole frame was asked for. */
  ghost predicate CaughtUp(log: seq<Step>) {
    exists i :: 0 <= i < |log| && log[i].forced && ArrivedSince(log, i)
  }

  lemma CaughtUpStep(log: seq<Step>, step: Step)
    ensures CaughtUp(log + [step]) <==> step.arrived && (step.forced || CaughtUp(log))
  {
    var longer := log + [step];
    if CaughtUp(longer) {
      var i :| 0 <= i < |longer| && longer[i].forced && ArrivedSince(longer, i);
      assert longer[|log|].arrived;
      if i < |log| {
        assert forall j :: i <= j < |log| ==> longer[j] == log[j];
        assert log[i].forced && ArrivedSince(log, i);
      }
    }
    if step.arrived && step.forced {
      assert longer[|log|].forced && ArrivedSince(longer, |log|);
    } else if step.arrived && CaughtUp(log) {
      var i :| 0 <= i < |log| && log[i].forced && ArrivedSince(log, i);
      assert longer[i].forced && ArrivedSince(longer, i);
    }
  }

  lemma SamePixelSameYuv(a: seq<u8>, b: seq<u8>, s: Damage.Shape, px: int, py: int)
    requires Damage.Fits(a, s) && Damage.Fits(b, s) && s.HasPixel(px, py) && Damage.SamePixel(a, b, s, px, py)
    ensures PixelToYuv(a, s, px, py) == PixelToYuv(b, s, px, py)
  {
    Damage.OffsetInBounds(s, px, py);
    var o := Damage.Offset(s, px, py);
    var p, q := Damage.Pixel(a, s, px, py), Damage.Pixel(b, s, px, py);
    assert a[o] == p[0] && a[o + 1] == p[1] && a[o + 2] == p[2];
    assert b[o] == q[0] && b[o + 1] == q[1] && b[o + 2] == q[2];
  }

  /** A pixel outside the candidates is the same in both frames. */
  lemma UnchangedSample(s: Damage.Shape, before: seq<u8>, a: Attempt, candidates: seq<Region>, px: int, py: int)
    requires Damage.Fits(before, s) && Damage.Fits(a.data, s) && Damage.Honest(before, a.data, s, a.damage)
    requires CoversInFrame(a.damage, candidates, s.width, s.height)
    requires s.HasPixel(px, py) && !Covers(candidates, px, py)
    ensures Sample(s.width, s.height, FullRes(before, s).y, px, py) == Sample(s.width, s.height, FullRes(a.data, s).y, px, py)
    ensures Sample(s.width, s.height, FullRes(before, s).u, px, py) == Sample(s.width, s.height, FullRes(a.data, s).u, px, py)
    ensures Sample(s.width, s.height, FullRes(before, s).v, px, py) == Sample(s.width, s.height, FullRes(a.data, s).v, px, py)
  {
    assert !Covers(a.damage, px, py);
    SamePixelSameYuv(before, a.data, s, px, py);
    FullResSample(before, s, px, py);
    FullResSample(a.data, s, px, py);
  }

  /** Aligned candidates hold all of a 2 by 2 block or nothing of it. */
  lemma BlockIsCovered(candidates: seq<Region>, cx: int, cy: int, px: int, py: int)
    requires EvenRegions(candidates) && Covers(candidates, px, py)
    requires 2 * cx <= px <= 2 * cx + 1 && 2 * cy <= py <= 2 * cy + 1
    ensures Covers(candidates, 2 * cx, 2 * cy)
  {
    var i :| 0 <= i < |candidates| && candidates[i].Has(px, py);
    assert candidates[i].Has(2 * cx, 2 * cy);
  }

  lemma UnchangedBlock(s: Damage.Shape, before: seq<u8>, a: Attempt, candidates: seq<Region>, cx: int, cy: int)
    requires FrameSize(s.width, s.height) && Damage.Fits(before, s) && Damage.Fits(a.data, s) && Damage.Honest(before, a.data, s, a.damage)
    requires CoversInFrame(a.damage, candidates, s.width, s.height) && EvenRegions(candidates)
    requires 0 <= cx < s.width / 2 && 0 <= cy < s.height / 2 && !Covers(candidates, 2 * cx, 2 * cy)
    ensures BlockAverage(s.width, s.height, FullRes(before, s).u, cx, cy) == BlockAverage(s.width, s.height, FullRes(a.data, s).u, cx, cy)
    ensures BlockAverage(s.width, s.height, FullRes(before, s).v, cx, cy) == BlockAverage(s.width, s.height, FullRes(a.data, s).v, cx, cy)
  {
    HalvesAndQuarters(s.width, s.height);
    hide FullRes, Sample, CoversInFrame, EvenRegions, Covers, FrameSize, Damage.Honest;
    UnchangedInBlock(s, before, a, candidates, cx, cy, 2 * cx, 2 * cy);
    UnchangedInBlock(s, before, a, candidates, cx, cy, 2 * cx + 1, 2 * cy);
    UnchangedInBlock(s, before, a, candidates, cx, cy, 2 * cx, 2 * cy + 1);
    UnchangedInBlock(s, before, a, candidates, cx, cy, 2 * cx + 1, 2 * cy + 1);
  }

  lemma UnchangedInBlock(s: Damage.Shape, before: seq<u8>, a: Attempt, candidates: seq<Region>, cx: int, cy: int, px: int, py: int)
    requires Damage.Fits(before, s) && Damage.Fits(a.data, s) && Damage.Honest(before, a.data, s, a.damage)
    requires CoversInFrame(a.damage, candidates, s.width, s.height) && EvenRegions(candidates)
    requires !Covers(candidates, 2 * cx, 2 * cy) && s.HasPixel(px, py)
    requires 2 * cx <= px <= 2 * cx + 1 && 2 * cy <= py <= 2 * cy + 1
    ensures Sample(s.width, s.height, FullRes(before, s).u, px, py) == Sample(s.width, s.height, FullRes(a.data, s).u, px, py)
    ensures Sample(s.width, s.height, FullRes(before, s).v, px, py) == Sample(s.width, s.height, FullRes(a.data, s).v, px, py)
  {
    hide FullRes, Sample, CoversInFrame, EvenRegions, Damage.Honest;
    if Covers(candidates, px, py) {
      BlockIsCovered(candidates, cx, cy, px, py);
    }
    UnchangedSample(s, before, a, candidates, px, py);
  }

  /** A cell with its home outside the candidates has the same value in both frames. */
  lemma UnchangedCell(s: Damage.Shape, before: seq<u8>, a: Attempt, candidates: seq<Region>, p: Plane, x: int, y: int)
    requires FrameSize(s.width, s.height) && Damage.Fits(before, s) && Damage.Fits(a.data, s) && Damage.Honest(before, a.data, s, a.damage)
    requires CoversInFrame(a.damage, candidates, s.width, s.height) && EvenRegions(candidates)
    requires HasCell(p, s.width, s.height, x, y) && !CellIn(p, s.width, candidates, x, y)
    ensures CellValue(p, s.width, s.height, FullRes(before, s), x, y) == CellValue(p, s.width, s.height, FullRes(a.data, s), x, y)
  {
    HomeInFrame(p, s.width, s.height, x, y);
    hide FullRes, Sample, BlockAverage, CoversInFrame, EvenRegions, Covers, FrameSize, Damage.Honest;
    if p.MainU? || p.MainV? {
      UnchangedBlock(s, before, a, candidates, x, y);
    } else {
      UnchangedSample(s, before, a, candidates, HomeX(p, s.width, x), HomeY(p, y));
    }
  }

  /** A client that showed the whole frame before shows the whole frame after honest damage was served. */
  lemma WholePictureFollows(s: Damage.Shape, before: seq<u8>, a: Attempt, candidates: seq<Region>, client: Planes, client': Planes)
    requires FrameSize(s.width, s.height) && Damage.Fits(before, s) && Damage.Fits(a.data, s) && Damage.Honest(before, a.data, s, a.damage)
    requires CoversInFrame(a.damage, candidates, s.width, s.height)
    requires AllInFrame(candidates, s.width, s.height) && AllAligned(candidates)
    requires ShowsPacked(s.width, s.height, client, FullRes(before, s), [Full(s.width, s.height)])
    requires ShowsPacked(s.width, s.height, client', FullRes(a.data, s), candidates)
    requires SameOutside(s.width, s.height, client, client', candidates)
    ensures ShowsPacked(s.width, s.height, client', FullRes(a.data, s), [Full(s.width, s.height)])
  {
    CandidatesAreEven(candidates, s.width, s.height);
    hide FullRes, Cell, CellValue, CellIn, HasCell, EvenRegions, CoversInFrame, Damage.Honest, FrameSize, AllAligned, AllInFrame;
    forall p: Plane, x: int, y: int | HasCell(p, s.width, s.height, x, y)
      ensures Sized(p, s.width, s.height, client'.Get(p))
      ensures Cell(p, s.width, s.height, client'.Get(p), x, y) == CellValue(p, s.width, s.height, FullRes(a.data, s), x, y)
    {
      GetIsSized(s.width, s.height, client', p);
      GetIsSized(s.width, s.height, client, p);
      FullHasEverything(s.width, s.height, p, x, y);
      if !CellIn(p, s.width, candidates, x, y) {
        UnchangedCell(s, before, a, candidates, p, x, y);
      }
    }
  }

  /** What one more attempt does to a client that is caught up. */
  lemma StaysCaughtUp(s: Damage.Shape, attempts: seq<Attempt>, k: nat, plan: Plan, planes: Planes, luma: Option<Yuv420>, chroma: Option<Yuv420>,
                      forced: bool, caughtUp: bool, client: Planes, client': Planes)
    requires FrameSize(s.width, s.height) && HonestSession(s, attempts) && k < |attempts|
    requires Served(s, attempts[k], plan, planes, luma, chroma, client')
    requires AllInFrame(plan.candidates, s.width, s.height) && AllAligned(plan.candidates)
    requires forced ==> plan.candidates == [Full(s.width, s.height)]
    requires !forced ==> caughtUp && 0 < k && SameOutside(s.width, s.height, client, client', plan.candidates)
    requires caughtUp && 0 < k ==> ShowsPacked(s.width, s.height, client, FullRes(attempts[k - 1].data, s), [Full(s.width, s.height)])
    ensures luma.Some? && chroma.Some?
    ensures ShowsPacked(s.width, s.height, client', FullRes(attempts[k].data, s), [Full(s.width, s.height)])
  {
    hide ShowsPacked, SameOutside, FullRes, AllAligned, AllInFrame, CoversInFrame, Damage.Honest, FrameSize, AllRepainted, PictureSized;
    if !forced {
      WholePictureFollows(s, attempts[k - 1].data, attempts[k], plan.candidates, client, client');
    }
  }

  /** The first `k` attempts were made, and what became of them is on record. */
  ghost predicate Recorded(e: Avc444Encoder, s: Damage.Shape, attempts: seq<Attempt>, k: nat, log: seq<Step>, client: Planes)
    requires s.Valid() && FrameSize(s.width, s.height) && k <= |attempts|
    reads e
  {
    && e.Valid() && e.buffers.width == s.width && e.buffers.height == s.height
    && InSync(s.width, s.height, client, e.lumaReference, e.chromaReference)
    && |log| == k && (k == 0 ==> e.forceChromaOnNextFrame) && (0 < k ==> log[0].forced)
    && (forall j :: 0 < j < k && log[j - 1].lost ==> log[j].forced)
    && (0 < k && log[k - 1].lost ==> e.forceChromaOnNextFrame)
    && (HonestSession(s, attempts) && CaughtUp(log) ==>
          && 0 < k && e.lumaReference.Some? && e.chromaReference.Some?
          && ShowsPacked(s.width, s.height, client, FullRes(attempts[k - 1].data, s), [Full(s.width, s.height)]))
  }

  /** One more attempt. */
  method Attend(e: Avc444Encoder, s: Damage.Shape, attempts: seq<Attempt>, k: nat, ghost log: seq<Step>, ghost client: Planes)
    returns (ghost log': seq<Step>, ghost client': Planes)
    requires s.Valid() && FrameSize(s.width, s.height) && k < |attempts| && attempts[k].codec.Ideal()
    requires Recorded(e, s, attempts, k, log, client)
    modifies e, e.buffers.y444, e.buffers.mainU, e.buffers.mainV, e.buffers.auxY, e.buffers.auxU, e.buffers.auxV
    ensures Recorded(e, s, attempts, k + 1, log', client')
  {
    hide Codec.Ideal, NoneEmpty, Streamed, ClientTakes, InSync, FrameSize, CaughtUp, ShowsPacked, SameOutside, Served, NothingMissing,
         Arrived, AlignedList, Complete, FullRes, AllInFrame, AllAligned, PictureSized, PlaneBuffers.Valid, HonestSession, Damage.Fits;
    ghost var a, forced := attempts[k], attempts[k].fullFrameSwitch || e.forceChromaOnNextFrame;
    ghost var plan: Plan;
    var r: Option<EncodedFrame>;
    r, plan, client' := Serve(e, s, attempts[k], client);
    ghost var step := Step(forced, Damage.Fits(a.data, s) && Arrived(r, plan, a.sent),
                           Damage.Fits(a.data, s) && (r.None? || (r.value != NOTHING && !a.sent)));
    CaughtUpStep(log, step);
    if HonestSession(s, attempts) && CaughtUp(log + [step]) {
      StaysCaughtUp(s, attempts, k, plan, e.Planes(), e.lumaReference, e.chromaReference, forced, CaughtUp(log), client, client');
    }
    log' := log + [step];
  }

  /**
   Any sequence of frames, failures and losses.  The references never claim more than the client has.
   The first frame is a whole one, and so is the one after a loss.  With honest damage, the client's planes
   hold the whole of the packed latest frame whenever everything arrived since a whole frame was asked for.
   */
  method Run(s: Damage.Shape, attempts: seq<Attempt>, ghost screen: Planes)
    returns (e: Avc444Encoder, ghost log: seq<Step>, ghost client: Planes)
    requires s.Valid() && FrameSize(s.width, s.height) && forall k :: 0 <= k < |attempts| ==> attempts[k].codec.Ideal()
    requires PictureSized(s.width, s.height, screen.main) && PictureSized(s.width, s.height, screen.aux)
    ensures fresh(e) && e.Valid() && e.buffers.width == s.width && e.buffers.height == s.height
    ensures InSync(s.width, s.height, client, e.lumaReference, e.chromaReference)
    ensures |log| == |attempts| && (log != [] ==> log[0].forced)
    ensures forall k :: 0 < k < |log| && log[k - 1].lost ==> log[k].forced
    ensures HonestSession(s, attempts) && CaughtUp(log) ==>
              attempts != [] && ShowsPacked(s.width, s.height, client, FullRes(attempts[|attempts| - 1].data, s), [Full(s.width, s.height)])
  {
    e := new Avc444Encoder(s.width, s.height);
    client, log := screen, [];
    assert InSync(s.width, s.height, client, None, None) && !CaughtUp([]);
    for k := 0 to |attempts|
      invariant fresh(e) && fresh(e.buffers.y444) && fresh(e.buffers.mainU) && fresh(e.buffers.mainV)
      invariant fresh(e.buffers.auxY) && fresh(e.buffers.auxU) && fresh(e.buffers.auxV)
      invariant Recorded(e, s, attempts, k, log, client)
    {
      hide Recorded, Codec.Ideal, FrameSize;
      log, client := Attend(e, s, attempts, k, log, client);
    }
  }
}

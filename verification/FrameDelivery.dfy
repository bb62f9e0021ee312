/**
 The frame processor (src/capture/frame.rs): damage that was captured is queued, diffed
 against what the client holds, sent and only then committed.

 The client is a ghost picture.  It changes only when a frame is accepted for sending, or when
 a channel event makes what it shows unknown.
 */
module FrameDelivery {
  import Avc444Layout
  import opened Regions
  import opened Damage

  const MAX_ENCODE_FAILURES: nat := 5

  /** What the client shows at each coordinate. */
  type Picture = (int, int) -> seq<u8>

  datatype Codec = Avc420 | Avc444
  datatype Backend = Auto | Software | Vaapi
  /** `SendableLuma`: an AVC444v2 frame whose chroma payload came out empty, sent with luma only. */
  datatype EncodeOutcome = Sendable | SendableLuma | Skipped | Invalid | Failed
  datatype ClearSend = Queued | Retry | Fatal

  /**
   The answers that the transport, the encoder and the clock give during one call; `lumaShown` is what
   a client shows that takes a frame without its chroma, `healed` where an AVC444v2 frame carries more than
   it was asked to.
   */
  datatype Outcome = Outcome(
    handleAvailable: bool, senderAvailable: bool, senderClosed: bool,
    refreshReady: bool, frameReady: bool, surfaceReady: bool,
    encoderCreated: bool, createdIsVaapi: bool, softwareCreated: bool,
    encode: EncodeOutcome, lumaShown: Picture, healed: seq<Region>, sendAccepted: bool, clear: ClearSend,
    bitmapDue: bool, updatesOpen: bool)

  /** What an attempt found: delivery state, whether there was a surface, and whether everything had to be, or was asked to be, sent. */
  datatype Before = Before(sent: bool, surface: bool, pending: seq<Region>, reference: Option<seq<u8>>, startsOver: bool, requested: bool)

  ghost predicate Shows(client: Picture, data: seq<u8>, s: Shape)
    requires Fits(data, s)
  {
    forall px: int, py: int :: s.HasPixel(px, py) ==> client(px, py) == Pixel(data, s, px, py)
  }

  /** How a frame reached the client. */
  datatype Route = Bitmap | ClearCodec | H264(codec: Codec)

  /**
   A frame the client took: what it was to paint, what shows there instead if the chroma was dropped, where
   else the payload happened to carry whole pixels, and the way it went.
   */
  datatype Delivery = Delivery(frame: seq<u8>, regions: seq<Region>, shown: Option<Picture>, healed: seq<Region>, route: Route)

  ghost predicate DeliveriesFit(deliveries: seq<Delivery>, s: Shape) {
    forall k :: 0 <= k < |deliveries| ==> Fits(deliveries[k].frame, s)
  }

  /** The delivery that painted the pixel last dropped its chroma, and it shows. */
  ghost predicate Missing(deliveries: seq<Delivery>, s: Shape, px: int, py: int)
    requires DeliveriesFit(deliveries, s) && s.HasPixel(px, py)
    decreases |deliveries|
  {
    if deliveries == [] then false
    else
      var last := deliveries[|deliveries| - 1];
      if Covers(last.regions, px, py) then last.shown.Some? && last.shown.value(px, py) != Pixel(last.frame, s, px, py)
      else !Covers(last.healed, px, py) && Missing(deliveries[..|deliveries| - 1], s, px, py)
  }

  /** No pixel is missing anything. */
  ghost predicate AllCarried(deliveries: seq<Delivery>, s: Shape)
    requires DeliveriesFit(deliveries, s)
  {
    forall px: int, py: int :: s.HasPixel(px, py) ==> !Missing(deliveries, s, px, py)
  }

  /** Apart from the pixels of `pending`, the client differs from `data` exactly where something is missing. */
  ghost predicate Mirrors(client: Picture, data: seq<u8>, s: Shape, deliveries: seq<Delivery>, pending: seq<Region>)
    requires Fits(data, s) && DeliveriesFit(deliveries, s)
  {
    forall px: int, py: int :: s.HasPixel(px, py) && !Covers(pending, px, py) ==>
      (client(px, py) != Pixel(data, s, px, py) <==> Missing(deliveries, s, px, py))
  }

  /** The client after a delivery. */
  ghost function Painted(client: Picture, d: Delivery, s: Shape): Picture
    requires Fits(d.frame, s)
  {
    (px: int, py: int) =>
      if s.HasPixel(px, py) && Covers(d.regions, px, py)
      then if d.shown.Some? then d.shown.value(px, py) else Pixel(d.frame, s, px, py)
      else if s.HasPixel(px, py) && Covers(d.healed, px, py) then Pixel(d.frame, s, px, py)
      else client(px, py)
  }

  /** Every pixel where `data` is not what the reference holds is covered by `pending`. */
  ghost predicate Tracked(data: seq<u8>, reference: seq<u8>, s: Shape, pending: seq<Region>)
    requires Fits(data, s) && Fits(reference, s)
  {
    forall px: int, py: int :: s.HasPixel(px, py) && !SamePixel(data, reference, s, px, py) ==> Covers(pending, px, py)
  }

  /** The graphics channel state that callbacks change (src/egfx/shared.rs, src/egfx/factory.rs). */
  class EgfxShared {
    var ready: bool
    var avcEnabled: bool
    var avc444Enabled: bool
    var generation: nat
    var fullFrame: bool

    constructor ()
      ensures !ready && !avcEnabled && !avc444Enabled && generation == 0 && !fullFrame
    {
      ready, avcEnabled, avc444Enabled, generation, fullFrame := false, false, false, 0, false;
    }

    method TakeFullFrameRequest() returns (requested: bool)
      modifies this`fullFrame
      ensures requested == old(fullFrame) && !fullFrame
    {
      requested := fullFrame;
      fullFrame := false;
    }
  }

  lemma MissingAfter(deliveries: seq<Delivery>, d: Delivery, s: Shape, px: int, py: int)
    requires DeliveriesFit(deliveries, s) && Fits(d.frame, s) && s.HasPixel(px, py)
    ensures DeliveriesFit(deliveries + [d], s)
    ensures Missing(deliveries + [d], s, px, py) <==>
            if Covers(d.regions, px, py) then d.shown.Some? && d.shown.value(px, py) != Pixel(d.frame, s, px, py)
            else !Covers(d.healed, px, py) && Missing(deliveries, s, px, py)
  {
    assert (deliveries + [d])[..|deliveries|] == deliveries;
  }

  /** With nothing pending the client shows the frame exactly when no pixel is missing anything. */
  lemma MirrorsDecidesShown(client: Picture, data: seq<u8>, s: Shape, deliveries: seq<Delivery>)
    requires Fits(data, s) && DeliveriesFit(deliveries, s) && Mirrors(client, data, s, deliveries, [])
    ensures Shows(client, data, s) <==> AllCarried(deliveries, s)
  {
  }

  /** A delivery of what was detected in the pending damage: what is missing afterwards is all that is wrong. */
  lemma PaintingChangesSuffices(client: Picture, reference: seq<u8>, s: Shape, deliveries: seq<Delivery>,
                                pending: seq<Region>, d: Delivery)
    requires Fits(reference, s) && Fits(d.frame, s) && DeliveriesFit(deliveries, s)
    requires Mirrors(client, reference, s, deliveries, []) && Tracked(d.frame, reference, s, pending)
    requires Detected(d.frame, reference, s, pending, d.regions)
    ensures DeliveriesFit(deliveries + [d], s)
    ensures Mirrors(Painted(client, d, s), d.frame, s, deliveries + [d], [])
  {
    forall px: int, py: int | s.HasPixel(px, py)
      ensures DeliveriesFit(deliveries + [d], s)
      ensures Painted(client, d, s)(px, py) != Pixel(d.frame, s, px, py) <==> Missing(deliveries + [d], s, px, py)
    {
      MissingAfter(deliveries, d, s, px, py);
      assert Covers(d.regions, px, py) || SamePixel(d.frame, reference, s, px, py);
    }
  }

  /** A delivery of the whole frame needs nothing from before. */
  lemma PaintingAllSuffices(client: Picture, s: Shape, deliveries: seq<Delivery>, d: Delivery)
    requires Fits(d.frame, s) && DeliveriesFit(deliveries, s) && d.regions == [s.Full()]
    ensures DeliveriesFit(deliveries + [d], s)
    ensures Mirrors(Painted(client, d, s), d.frame, s, deliveries + [d], [])
    ensures d.shown.None? ==> AllCarried(deliveries + [d], s) && Shows(Painted(client, d, s), d.frame, s)
  {
    forall px: int, py: int | s.HasPixel(px, py)
      ensures DeliveriesFit(deliveries + [d], s)
      ensures Painted(client, d, s)(px, py) != Pixel(d.frame, s, px, py) <==> Missing(deliveries + [d], s, px, py)
      ensures d.shown.None? ==> !Missing(deliveries + [d], s, px, py)
    {
      MissingAfter(deliveries, d, s, px, py);
      assert [s.Full()][0].Has(px, py);
    }
  }

  /** A client mirrors one of two equal frames exactly when it mirrors the other. */
  lemma SameIsMirrored(client: Picture, a: seq<u8>, b: seq<u8>, s: Shape, deliveries: seq<Delivery>, pending: seq<Region>)
    requires Fits(a, s) && Fits(b, s) && DeliveriesFit(deliveries, s)
    requires SamePicture(a, b, s)
    ensures Mirrors(client, a, s, deliveries, pending) <==> Mirrors(client, b, s, deliveries, pending)
  {
    forall px: int, py: int | s.HasPixel(px, py)
      ensures Pixel(a, s, px, py) == Pixel(b, s, px, py)
    {
      assert SamePixel(a, b, s, px, py);
    }
  }

  // ----- what the log of deliveries says

  /** If no delivery dropped chroma, nothing is missing. */
  lemma {:induction false} WholeDeliveriesCarryAll(deliveries: seq<Delivery>, s: Shape)
    requires DeliveriesFit(deliveries, s) && forall k :: 0 <= k < |deliveries| ==> deliveries[k].shown.None?
    ensures AllCarried(deliveries, s)
    decreases |deliveries|
  {
    if deliveries == [] {
    } else {
      WholeDeliveriesCarryAll(deliveries[..|deliveries| - 1], s);
    }
  }

  /** Whatever came before a delivery of the whole frame does not matter. */
  lemma {:induction false} WholeFrameStartsOver(deliveries: seq<Delivery>, s: Shape, k: nat, px: int, py: int)
    requires DeliveriesFit(deliveries, s) && k < |deliveries| && deliveries[k].regions == [s.Full()] && s.HasPixel(px, py)
    ensures DeliveriesFit(deliveries[k..], s)
    ensures Missing(deliveries, s, px, py) <==> Missing(deliveries[k..], s, px, py)
    decreases |deliveries|
  {
    var front := deliveries[..|deliveries| - 1];
    if k == |deliveries| - 1 {
      assert [s.Full()][0].Has(px, py);
      assert deliveries[k..] == [deliveries[k]];
    } else {
      assert deliveries[k..][..|deliveries| - 1 - k] == front[k..];
      WholeFrameStartsOver(front, s, k, px, py);
    }
  }

  /**
   Nothing is missing if no delivery dropped chroma since the whole frame was last delivered, that one
   included.
   */
  lemma NothingDroppedSinceWholeFrame(deliveries: seq<Delivery>, s: Shape, k: nat)
    requires DeliveriesFit(deliveries, s) && k < |deliveries| && deliveries[k].regions == [s.Full()]
    requires forall j :: k <= j < |deliveries| ==> deliveries[j].shown.None?
    ensures AllCarried(deliveries, s)
  {
    WholeDeliveriesCarryAll(deliveries[k..], s);
    forall px: int, py: int | s.HasPixel(px, py)
      ensures !Missing(deliveries, s, px, py)
    {
      WholeFrameStartsOver(deliveries, s, k, px, py);
    }
  }

  /** A pixel left wrong by dropped chroma stays wrong until a later delivery paints it again. */
  lemma {:induction false} DroppedUntilRepainted(deliveries: seq<Delivery>, s: Shape, k: nat, px: int, py: int)
    requires DeliveriesFit(deliveries, s) && k < |deliveries| && s.HasPixel(px, py)
    requires Covers(deliveries[k].regions, px, py) && deliveries[k].shown.Some?
    requires deliveries[k].shown.value(px, py) != Pixel(deliveries[k].frame, s, px, py)
    requires forall j :: k < j < |deliveries| ==> !Covers(deliveries[j].regions, px, py) && !Covers(deliveries[j].healed, px, py)
    ensures Missing(deliveries, s, px, py)
    decreases |deliveries|
  {
    if k == |deliveries| - 1 {
    } else {
      DroppedUntilRepainted(deliveries[..|deliveries| - 1], s, k, px, py);
    }
  }

  /** After such a send the reference equals the frame, whether or not it was usable before. */
  lemma CommittedMatches(data: seq<u8>, reference: seq<u8>, s: Shape, pending: seq<Region>, regions: seq<Region>,
                         after: seq<u8>)
    requires Fits(data, s) && Fits(reference, s)
    requires Tracked(data, reference, s, pending)
    requires Detected(data, reference, s, pending, regions)
    requires Committed(reference, data, s, regions, after)
    ensures SamePicture(after, data, s)
  {
    forall px: int, py: int | s.HasPixel(px, py)
      ensures SamePixel(after, data, s, px, py)
    {
      assert Covers(regions, px, py) || SamePixel(data, reference, s, px, py);
    }
  }

  lemma CommittedAllMatches(data: seq<u8>, reference: seq<u8>, s: Shape, after: seq<u8>)
    requires Fits(data, s) && Fits(reference, s)
    requires Committed(reference, data, s, [s.Full()], after)
    ensures SamePicture(after, data, s)
  {
    forall px: int, py: int | s.HasPixel(px, py)
      ensures SamePixel(after, data, s, px, py)
    {
      assert [s.Full()][0].Has(px, py);
      assert Covers([s.Full()], px, py);
    }
  }

  lemma SameIsTracked(data: seq<u8>, reference: seq<u8>, s: Shape)
    requires Fits(data, s) && Fits(reference, s) && SamePicture(reference, data, s)
    ensures Tracked(data, reference, s, [])
  {
    forall px: int, py: int | s.HasPixel(px, py)
      ensures SamePixel(data, reference, s, px, py)
    {
      assert SamePixel(reference, data, s, px, py);
    }
  }

  /** Honest damage added to the pending list keeps every stale pixel tracked. */
  lemma HonestDamageIsTracked(before: seq<u8>, after: seq<u8>, reference: seq<u8>, s: Shape,
                              pending: seq<Region>, damage: seq<Region>, pending': seq<Region>)
    requires Fits(before, s) && Fits(after, s) && Fits(reference, s)
    requires Tracked(before, reference, s, pending) && Honest(before, after, s, damage)
    requires forall px: int, py: int :: s.HasPixel(px, py) && (Covers(pending, px, py) || Covers(damage, px, py))
                              ==> Covers(pending', px, py)
    ensures Tracked(after, reference, s, pending')
  {
    forall px: int, py: int | s.HasPixel(px, py) && !SamePixel(after, reference, s, px, py)
      ensures Covers(pending', px, py)
    {
      assert !SamePixel(before, reference, s, px, py) || !SamePixel(before, after, s, px, py);
    }
  }

  lemma HonestDamageIsPending(client: Picture, before: seq<u8>, after: seq<u8>, s: Shape, deliveries: seq<Delivery>,
                              pending: seq<Region>, damage: seq<Region>, pending': seq<Region>)
    requires Fits(before, s) && Fits(after, s) && DeliveriesFit(deliveries, s)
    requires Mirrors(client, before, s, deliveries, pending) && Honest(before, after, s, damage)
    requires forall px: int, py: int :: s.HasPixel(px, py) && (Covers(pending, px, py) || Covers(damage, px, py))
                              ==> Covers(pending', px, py)
    ensures Mirrors(client, after, s, deliveries, pending')
  {
    forall px: int, py: int | s.HasPixel(px, py) && !Covers(pending', px, py)
      ensures client(px, py) != Pixel(after, s, px, py) <==> Missing(deliveries, s, px, py)
    {
      assert SamePixel(before, after, s, px, py);
    }
  }

  /** A delivery brings the client from the reference to the frame. */
  ghost predicate Advances(client: Picture, reference: Option<seq<u8>>, s: Shape, deliveries: seq<Delivery>, pending: seq<Region>, d: Delivery)
    requires Fits(d.frame, s) && DeliveriesFit(deliveries, s)
    requires reference.Some? ==> Fits(reference.value, s)
  {
    || d.regions == [s.Full()]
    || (reference.Some? && Mirrors(client, reference.value, s, deliveries, []) && Tracked(d.frame, reference.value, s, pending) &&
        Detected(d.frame, reference.value, s, pending, d.regions))
  }

  /** The client after a delivery, and the reference after it followed. */
  lemma AfterDelivery(client: Picture, reference: Option<seq<u8>>, s: Shape, deliveries: seq<Delivery>, pending: seq<Region>, d: Delivery,
                      after: seq<u8>)
    requires Fits(d.frame, s) && DeliveriesFit(deliveries, s)
    requires reference.Some? ==> Fits(reference.value, s)
    requires Advances(client, reference, s, deliveries, pending, d) && Fits(after, s)
    requires if reference.Some? then Committed(reference.value, d.frame, s, d.regions, after) else SamePicture(after, d.frame, s)
    ensures DeliveriesFit(deliveries + [d], s)
    ensures Mirrors(Painted(client, d, s), d.frame, s, deliveries + [d], [])
    ensures Mirrors(Painted(client, d, s), after, s, deliveries + [d], [])
    ensures Tracked(d.frame, after, s, [])
    ensures d.regions == [s.Full()] && d.shown.None? ==> Shows(Painted(client, d, s), d.frame, s)
  {
    hide DeliveriesFit, Mirrors, Tracked, Detected, Committed, SamePicture, Painted, Shows;
    if d.regions == [s.Full()] {
      PaintingAllSuffices(client, s, deliveries, d);
      if reference.Some? {
        CommittedAllMatches(d.frame, reference.value, s, after);
      }
    } else {
      PaintingChangesSuffices(client, reference.value, s, deliveries, pending, d);
      CommittedMatches(d.frame, reference.value, s, pending, d.regions, after);
    }
    SameIsTracked(d.frame, after, s);
    SameIsMirrored(Painted(client, d, s), after, d.frame, s, deliveries + [d], []);
  }

  lemma NothingInFrame(width: nat, height: nat)
    ensures AllInFrame([], width, height)
  {
  }

  class FrameProcessor {
    const shape: Shape
    const shared: EgfxShared?
    const detector: FrameDiffDamageDetector
    const backend: Backend

    var hasEncoder: bool
    var encoderIsVaapi: bool
    var hasHandle: bool
    var hasSender: bool
    var hasSurface: bool
    var egfxActive: bool
    var egfxReady: bool
    var egfxGeneration: nat
    var egfxCodec: Option<Codec>
    var sentFirstFrame: bool
    var encodeFailures: nat
    var pending: seq<Region>
    var pendingInitialResize: bool

    /** The picture the client shows, and whether it still is what this processor sent. */
    ghost var client: Picture
    ghost var synced: bool
    /** What clients were sent, in order. */
    ghost var deliveries: seq<Delivery>
    /** The frame captured last. */
    ghost var latest: Option<seq<u8>>

    ghost predicate Structural()
      reads this`pending, this`latest, this`sentFirstFrame, this`deliveries, detector
    {
      && shape.Valid() && DeliveriesFit(deliveries, shape)
      && AllInFrame(pending, shape.width, shape.height)
      && (latest.Some? ==> Fits(latest.value, shape))
      && (if sentFirstFrame then detector.Usable(shape) && latest.Some? else detector.reference == None)
    }

    /** The client shows the reference except where something is missing, unless a channel event intervened. */
    ghost predicate ReferenceIsClient()
      requires Structural()
      reads this`pending, this`latest, this`sentFirstFrame, this`client, this`synced, this`deliveries, detector
    {
      synced && sentFirstFrame ==> Mirrors(client, detector.reference.value, shape, deliveries, [])
    }

    /** Every pixel of the latest frame that the reference does not hold is covered by pending damage. */
    ghost predicate ReferenceTracked()
      requires Structural()
      reads this`pending, this`latest, this`sentFirstFrame, this`deliveries, detector
    {
      sentFirstFrame ==> Tracked(latest.value, detector.reference.value, shape, pending)
    }

    /** Apart from pending damage the client shows the latest frame except where something is missing. */
    ghost predicate ClientTracked()
      requires Structural()
      reads this`pending, this`latest, this`sentFirstFrame, this`client, this`synced, this`deliveries, detector
    {
      synced ==> latest.Some? && Mirrors(client, latest.value, shape, deliveries, pending)
    }

    /** What holds of the pictures. */
    ghost predicate PicturesValid()
      reads this`pending, this`latest, this`sentFirstFrame, this`client, this`synced, this`deliveries, detector
    {
      Structural() && ReferenceIsClient() && ReferenceTracked() && ClientTracked()
    }

    /** An event that made the client's picture unknown is still visible in the channel state. */
    ghost predicate EventNoticeable()
      reads this`sentFirstFrame, this`synced, this`egfxGeneration, shared
    {
      && (shared != null ==> egfxGeneration <= shared.generation)
      && (!synced && sentFirstFrame ==> shared != null && (shared.generation != egfxGeneration || !shared.ready))
    }

    /** H.264 is in use, and an encoder kept, only while the channel is ready, and an encoder has its codec on record. */
    ghost predicate ChannelValid()
      reads this`egfxActive, this`egfxReady, this`hasHandle, this`hasSender, this`hasEncoder, this`egfxCodec
    {
      && (egfxActive ==> egfxReady && shared != null && hasHandle && hasSender)
      && (hasEncoder ==> egfxReady && egfxCodec.Some?)
    }

    ghost predicate Valid()
      reads this, detector, shared
    {
      PicturesValid() && EventNoticeable() && ChannelValid()
    }

    /** The channel, if one is configured. */
    ghost function Channel(): set<EgfxShared> {
      if shared == null then {} else {shared}
    }

    /** No captured damage waits, and no full frame was asked for. */
    predicate Quiet()
      reads this, shared
    {
      sentFirstFrame && pending == [] && !(shared != null && shared.fullFrame)
    }

    /** The capture loops offer a frame to the processor only before the first delivery or with damage pending. */
    predicate Idle()
      reads this`sentFirstFrame, this`pending
    {
      sentFirstFrame && pending == []
    }

    /** A resize that waited for the channel is to be sent instead of a frame. */
    predicate ResizeDue()
      reads this`pendingInitialResize, shared
    {
      pendingInitialResize && (shared == null || shared.ready)
    }

    /** The next frame that is processed repaints everything. */
    predicate FullRepaintDue()
      reads this`sentFirstFrame, this`egfxGeneration, shared
    {
      !sentFirstFrame || (shared != null && (shared.generation != egfxGeneration || (shared.ready && shared.fullFrame)))
    }

    /** `data` was just delivered. */
    ghost predicate Delivered(before: seq<Delivery>, data: seq<u8>)
      reads this`deliveries, this`synced, this`sentFirstFrame, this`pending
    {
      && deliveries != [] && deliveries[..|deliveries| - 1] == before && deliveries[|deliveries| - 1].frame == data
      && synced && sentFirstFrame && pending == []
    }

    lemma ShapeIsValid()
      requires Valid()
      ensures shape.Valid() && (latest.Some? ==> Fits(latest.value, shape))
    {
    }

    /** With nothing pending, the client shows the latest frame exactly when no pixel is missing anything. */
    lemma NothingPendingDecides()
      requires Valid() && synced && pending == []
      ensures latest.Some? && Fits(latest.value, shape) && DeliveriesFit(deliveries, shape)
      ensures Mirrors(client, latest.value, shape, deliveries, pending)
      ensures Shows(client, latest.value, shape) <==> AllCarried(deliveries, shape)
    {
      MirrorsDecidesShown(client, latest.value, shape, deliveries);
    }

    /** A pixel with something missing is wrong on the client. */
    lemma StillPainted(px: int, py: int)
      requires Valid() && synced && pending == [] && shape.HasPixel(px, py) && Missing(deliveries, shape, px, py)
      ensures latest.Some? && client(px, py) != Pixel(latest.value, shape, px, py)
    {
    }

    constructor (s: Shape, egfx: EgfxShared?, b: Backend, ghost picture: Picture)
      requires s.Valid()
      ensures Valid() && shape == s && shared == egfx && backend == b && fresh(detector)
      ensures !sentFirstFrame && pending == [] && latest == None && !pendingInitialResize && deliveries == []
      ensures egfxGeneration == 0 && !hasEncoder
    {
      shape, shared, backend := s, egfx, b;
      detector := new FrameDiffDamageDetector();
      hasEncoder, encoderIsVaapi, hasHandle, hasSender, hasSurface := false, false, false, false, false;
      egfxActive, egfxReady, egfxGeneration, egfxCodec := false, false, 0, None;
      sentFirstFrame, encodeFailures, pending, pendingInitialResize := false, 0, [], false;
      client, synced, latest, deliveries := picture, false, None, [];
    }

    /** A captured frame arrives with its damage; each rectangle is clamped and merged. */
    method QueueDamage(damage: seq<Region>, ghost frame: seq<u8>)
      requires Valid() && Fits(frame, shape)
      requires latest.Some? ==> Honest(latest.value, frame, shape, damage)
      modifies this`pending, this`latest
      ensures Valid() && latest == Some(frame)
      ensures forall px: int, py: int :: shape.HasPixel(px, py) && (Covers(old(pending), px, py) || Covers(damage, px, py))
                               ==> Covers(pending, px, py)
      ensures NoneInFrame(shape, damage) ==> pending == old(pending)
      ensures shape.Valid() && Merged(shape, old(pending), damage, pending)
    {
      ghost var before := pending;
      var merged := MergeAll(shape, pending, damage);
      pending := merged;
      ghost var previous := latest;
      latest := Some(frame);
      if sentFirstFrame {
        HonestDamageIsTracked(previous.value, frame, detector.reference.value, shape, before, damage, pending);
      }
      if synced {
        HonestDamageIsPending(client, previous.value, frame, shape, deliveries, before, damage, pending);
      }
    }

    /** The repaint list brings the client from what it shows to `data`. */
    ghost predicate Repaints(data: seq<u8>, regions: seq<Region>)
      requires Structural() && Fits(data, shape)
      reads this`pending, this`latest, this`sentFirstFrame, this`deliveries, this`synced, detector
    {
      || regions == [shape.Full()]
      || (sentFirstFrame && synced && Detected(data, detector.reference.value, shape, pending, regions))
    }

    lemma RepaintsAdvance(d: Delivery)
      requires Valid() && latest == Some(d.frame) && Repaints(d.frame, d.regions)
      ensures Advances(client, if detector.Usable(shape) then detector.reference else None, shape, deliveries, pending, d)
    {
      hide Mirrors, Tracked, Detected, AllInFrame;
    }

    /** The accepted frame reaches the client, perhaps without its chroma, and the reference follows it. */
    method CommitSend(data: seq<u8>, regions: seq<Region>, ghost shown: Option<Picture>, ghost healed: seq<Region>, ghost route: Route)
      requires Valid() && latest == Some(data) && Repaints(data, regions)
      modifies this`client, this`synced, this`sentFirstFrame, this`pending, this`deliveries, detector
      ensures Valid() && Delivered(old(deliveries), data)
      ensures deliveries == old(deliveries) + [Delivery(data, regions, shown, healed, route)]
    {
      hide ChannelValid, Shows, Fits, Mirrors, Tracked, Detected, Committed, SamePicture, Painted, AllInFrame, DeliveriesFit;
      NothingInFrame(shape.width, shape.height);
      ghost var d := Delivery(data, regions, shown, healed, route);
      ghost var reference := if detector.Usable(shape) then detector.reference else None;
      ghost var before, deliveredBefore, pendingBefore := client, deliveries, pending;
      RepaintsAdvance(d);
      hide Repaints, Advances;
      client, synced := Painted(client, d, shape), true;
      detector.UpdateReferenceRegions(data, shape, regions);
      AfterDelivery(before, reference, shape, deliveredBefore, pendingBefore, d, detector.reference.value);
      deliveries := deliveries + [d];
      sentFirstFrame := true;
      pending := [];
      assert Structural();
      assert ReferenceIsClient() && ReferenceTracked() && ClientTracked();
    }

    /** Forget what the client holds: the next send is a whole frame. */
    method Forget()
      requires Structural() && ClientTracked() && ChannelValid()
      requires shared != null ==> egfxGeneration <= shared.generation
      modifies this`sentFirstFrame, detector
      ensures !sentFirstFrame && Valid()
    {
      sentFirstFrame := false;
      detector.Invalidate();
    }

    /** Nothing in the pending damage differs from the reference. */
    ghost predicate NothingNew(data: seq<u8>)
      reads this`sentFirstFrame, this`pending, detector
    {
      && sentFirstFrame && detector.reference.Some? && Fits(data, shape) && Fits(detector.reference.value, shape)
      && Detected(data, detector.reference.value, shape, pending, [])
    }

    /** Nothing to send: the detector found no difference in the pending damage. */
    method DropUnchangedDamage(data: seq<u8>)
      requires Valid() && latest == Some(data) && NothingNew(data)
      modifies this`pending
      ensures Valid() && Unchanged(data, old(Now(false, false)))
    {
      forall px: int, py: int | shape.HasPixel(px, py)
        ensures SamePixel(data, detector.reference.value, shape, px, py)
      {
        assert Covers(pending, px, py) ==> Covers([], px, py) || SamePixel(data, detector.reference.value, shape, px, py);
      }
      SameIsMirrored(client, data, detector.reference.value, shape, deliveries, []);
      pending := [];
    }

    /** Non-AVC graphics channel: sparse ClearCodec frames. */
    method ProcessClearcodec(data: seq<u8>, o: Outcome) returns (cont: bool, delivered: bool)
      requires Valid() && latest == Some(data) && shared != null && shared.ready && !shared.avcEnabled
      modifies this, detector, shared`fullFrame
      ensures cont ==> Valid()
      ensures latest == old(latest) && pendingInitialResize == old(pendingInitialResize)
      ensures delivered ==> cont && Delivered(old(deliveries), data)
      ensures !delivered ==> client == old(client) && synced == old(synced) && deliveries == old(deliveries)
      ensures Explained(data, o, cont, delivered, old(Now(StartsOver(), shared.fullFrame)))
    {
      ghost var found := Now(StartsOver(), shared.fullFrame);
      hide PicturesValid, Delivered, Explained;
      if shared.generation != egfxGeneration || hasEncoder {
        LeaveAvc();
      }
      if !o.handleAvailable || !o.senderAvailable {
        SilentExplained(data, o, found);
        return true, false;
      }
      if o.senderClosed {
        EndExplained(data, o, found);
        return false, false;
      }
      var readiness := if shared.fullFrame then o.refreshReady else o.frameReady;
      if !readiness {
        SilentExplained(data, o, found);
        return true, false;
      }
      if shape.width > 0xffff || shape.height > 0xffff {
        EndExplained(data, o, found);
        return false, false;
      }
      ghost var later := Now(shared.fullFrame || !sentFirstFrame, shared.fullFrame);
      cont, delivered := SendClearcodec(data, o);
      ExplainedEarlier(data, o, cont, delivered, later, found);
    }

    /** A new generation, or an AVC encoder left over, starts ClearCodec from nothing. */
    method LeaveAvc()
      requires Valid() && shared != null
      modifies this`egfxGeneration, this`hasEncoder, this`egfxCodec, this`egfxActive, this`hasSurface, this`sentFirstFrame, detector
      ensures Valid() && !sentFirstFrame && egfxGeneration == shared.generation
      ensures !hasEncoder && egfxCodec == None && !egfxActive && !hasSurface
    {
      egfxGeneration := shared.generation;
      hasEncoder, egfxCodec, egfxActive, hasSurface := false, None, false, false;
      Forget();
    }

    method SendClearcodec(data: seq<u8>, o: Outcome) returns (cont: bool, delivered: bool)
      requires Valid() && latest == Some(data) && shared != null && shared.ready && !shared.avcEnabled
      requires ClearReady(o, shared.fullFrame) && egfxGeneration == shared.generation
      modifies this`client, this`synced, this`sentFirstFrame, this`pending, this`deliveries, this`hasSurface, detector, shared`fullFrame
      ensures cont ==> Valid()
      ensures delivered ==> cont && Delivered(old(deliveries), data)
      ensures !delivered ==> client == old(client) && synced == old(synced) && deliveries == old(deliveries)
      ensures delivered ==> hasSurface
      ensures Explained(data, o, cont, delivered, old(Now(shared.fullFrame || !sentFirstFrame, shared.fullFrame)))
    {
      hide ChannelValid, Tracked, Mirrors, AllInFrame, Fits, SamePicture, Detected;
      var damage := [shape.Full()];
      if !shared.fullFrame && sentFirstFrame {
        damage := detector.Detect(data, shape, pending);
      }
      if damage == [] {
        DropUnchangedDamage(data);
        return true, false;
      }
      if !o.surfaceReady {
        return true, false;
      }
      match o.clear
      case Queued =>
        CommitSend(data, damage, None, [], ClearCodec);
        hasSurface := true;
        var _ := shared.TakeFullFrameRequest();
        return true, true;
      case Retry =>
        return true, false;
      case Fatal =>
        return false, false;
    }

    /** Every answer that the ClearCodec path asks for is favourable. */
    ghost predicate ClearHealthy(o: Outcome) {
      && o.handleAvailable && o.senderAvailable && !o.senderClosed && o.refreshReady && o.frameReady
      && shape.width <= 0xffff && shape.height <= 0xffff && o.surfaceReady && o.clear == Queued
    }

    /** The client takes AVC444v2, and the frame has a size that it can code. */
    predicate Avc444Negotiated()
      requires shared != null
      reads shared`avc444Enabled
    {
      shared.avc444Enabled && 0 < shape.width && 0 < shape.height && shape.width % 4 == 0 && shape.height % 2 == 0
    }

    /** The codec that was negotiated and fits the frame. */
    function SelectCodec(): (codec: Option<Codec>)
      requires shared != null
      reads shared`avcEnabled, shared`avc444Enabled
      ensures codec == Some(Avc444) <==> Avc444Negotiated()
      ensures codec.None? <==> !Avc444Negotiated() && !shared.avcEnabled
    {
      if shared.avc444Enabled && Avc444Layout.DimensionsSupported(shape.width, shape.height) then Some(Avc444)
      else if shared.avcEnabled then Some(Avc420)
      else None
    }

    /** Why the next frame that goes out by EGFX is a whole one. */
    predicate StartsOver()
      reads this`sentFirstFrame, this`egfxGeneration, this`egfxReady, this`egfxCodec, this`hasEncoder, shared
    {
      || shared == null || !sentFirstFrame || shared.generation != egfxGeneration || (shared.ready && shared.fullFrame)
      || (if !shared.ready then egfxReady else if shared.avcEnabled then SelectCodec() != egfxCodec else hasEncoder)
    }

    // ----- what may go out, and why nothing does

    ghost function Last(): Delivery
      requires deliveries != []
      reads this`deliveries
    {
      deliveries[|deliveries| - 1]
    }

    /** The encoder gave something that can be sent, and the transport took it. */
    predicate Encoded(o: Outcome) {
      (o.encode.Sendable? || o.encode.SendableLuma?) && o.sendAccepted
    }

    /** How a frame may have been delivered, with the channel as it is and these answers. */
    ghost predicate RouteAllowed(o: Outcome, route: Route, b: Before)
      reads this`egfxActive, this`hasEncoder, this`hasSurface, shared
    {
      if shared == null then route == Bitmap && o.updatesOpen
      else if !shared.ready then route == Bitmap && o.bitmapDue && o.updatesOpen
      else if b.requested && !o.refreshReady then false
      else if !shared.avcEnabled then route == ClearCodec && ClearReady(o, b.requested) && o.surfaceReady && o.clear.Queued?
      else if route.Bitmap? then o.updatesOpen && !(egfxActive && hasEncoder && hasSurface)
      else route.H264? && Encoded(o) && o.frameReady && (b.surface || o.surfaceReady) && (route.codec.Avc444? <==> Avc444Negotiated())
    }

    /** ClearCodec can take a frame of this size. */
    predicate ClearReady(o: Outcome, requested: bool) {
      && o.handleAvailable && o.senderAvailable && !o.senderClosed
      && (if requested then o.refreshReady else o.frameReady)
      && shape.width <= 0xffff && shape.height <= 0xffff
    }

    /** Why a frame that changed was not delivered, and yet the session goes on. */
    ghost predicate Excused(o: Outcome, requested: bool)
      requires shared != null
      reads this`egfxActive, this`hasEncoder, this`hasSurface, shared
    {
      if !shared.ready then !o.bitmapDue
      else if !shared.avcEnabled then
        || !o.handleAvailable || !o.senderAvailable
        || (!o.senderClosed && !(if requested then o.refreshReady else o.frameReady))
        || (ClearReady(o, requested) && (!o.surfaceReady || o.clear.Retry?))
      else (requested && !o.refreshReady) || (egfxActive && hasSurface && (!o.frameReady || (hasEncoder && !Encoded(o))))
    }

    /** The state that an attempt found. */
    ghost function Now(startsOver: bool, requested: bool): Before
      reads this`sentFirstFrame, this`hasSurface, this`pending, detector
    {
      Before(sentFirstFrame, hasSurface, pending, detector.reference, startsOver, requested)
    }

    /** The frame did not differ from the reference, and that is why its damage is gone. */
    ghost predicate Unchanged(data: seq<u8>, b: Before)
      reads this`pending
    {
      && pending == [] && b.sent && b.reference.Some?
      && Fits(data, shape) && Fits(b.reference.value, shape) && SamePicture(data, b.reference.value, shape)
    }

    /** Unless everything starts over, EGFX is sent only what changed of the pending damage. */
    ghost predicate SparseUpdate(data: seq<u8>, b: Before, regions: seq<Region>) {
      && regions != [] && b.reference.Some? && Fits(data, shape) && Fits(b.reference.value, shape)
      && Detected(data, b.reference.value, shape, b.pending, regions)
    }

    /** Why the session ends. */
    ghost predicate Ended(o: Outcome, requested: bool)
      reads this`egfxActive, this`hasEncoder, this`hasSurface, shared
    {
      if shared == null then !o.updatesOpen
      else if !shared.ready then o.bitmapDue && !o.updatesOpen
      else if shared.avcEnabled then !o.updatesOpen && !(egfxActive && hasEncoder && hasSurface) && (requested ==> o.refreshReady)
      else
        o.handleAvailable && o.senderAvailable &&
        (o.senderClosed ||
         ((if requested then o.refreshReady else o.frameReady) &&
          (shape.width > 0xffff || shape.height > 0xffff || (o.surfaceReady && o.clear.Fatal?))))
    }

    /** The whole frame is to be painted. */
    ghost predicate Whole(regions: seq<Region>) { shape.Valid() && regions == [shape.Full()] }

    /** A delivery says what it left out, and only an AVC444v2 frame leaves anything out or carries more. */
    ghost predicate WellLogged(o: Outcome, d: Delivery) {
      && (if d.route == H264(Avc444) && o.encode.SendableLuma? then d.shown == Some(o.lumaShown) else d.shown == None)
      && d.healed == if d.route.H264? then o.healed else []
    }

    /** A delivery took an allowed route and painted no more than changed, or all. */
    ghost predicate DeliveryExplained(data: seq<u8>, o: Outcome, b: Before)
      reads this`deliveries, this`egfxActive, this`hasEncoder, this`hasSurface, shared
    {
      && deliveries != [] && RouteAllowed(o, Last().route, b) && WellLogged(o, Last())
      && if Last().route == Bitmap || b.startsOver then Whole(Last().regions) else SparseUpdate(data, b, Last().regions)
    }

    /** The damage waits on and there is an excuse, or the frame had not changed. */
    ghost predicate SilenceExplained(data: seq<u8>, o: Outcome, b: Before)
      reads this`sentFirstFrame, this`pending, this`synced, this`egfxActive, this`hasEncoder, this`hasSurface, shared
    {
      shared != null &&
      ((Unchanged(data, b) && !b.startsOver && (shared.ready ==> synced && (shared.avcEnabled || ClearReady(o, b.requested))))
       || (Excused(o, b.requested) && pending == b.pending && (sentFirstFrame ==> b.sent)))
    }

    /**
     What an attempt may come to.  A request for a full frame is met by one, unless the channel had no
     room for it.
     */
    ghost predicate Explained(data: seq<u8>, o: Outcome, cont: bool, delivered: bool, b: Before)
      reads this`sentFirstFrame, this`pending, this`synced, this`deliveries, this`egfxActive, this`hasEncoder, this`hasSurface, shared
    {
      && (delivered ==> DeliveryExplained(data, o, b))
      && (cont && !delivered ==> SilenceExplained(data, o, b))
      && (!cont ==> Ended(o, b.requested))
      && (shared != null ==>
            && (shared.fullFrame ==> b.requested)
            && (cont && b.requested && !shared.fullFrame ==> !o.frameReady || (delivered && Whole(Last().regions))))
    }

    lemma DeliveredExplained(data: seq<u8>, o: Outcome, b: Before)
      requires DeliveryExplained(data, o, b)
      requires shared != null ==> (shared.fullFrame ==> b.requested) && (b.requested && !shared.fullFrame ==> Whole(Last().regions))
      ensures Explained(data, o, true, true, b)
    {
      hide DeliveryExplained;
    }

    /** The frame went out by H.264. */
    lemma H264Explained(data: seq<u8>, regions: seq<Region>, o: Outcome, b: Before)
      requires shared != null && shared.ready && shared.avcEnabled && egfxCodec == SelectCodec() && Encoded(o) && o.frameReady
      requires deliveries != [] && Last() == Delivery(data, regions, ShownInstead(o), o.healed, H264(UsedCodec()))
      requires if b.startsOver then Whole(regions) else SparseUpdate(data, b, regions)
      requires (b.requested ==> o.refreshReady) && (b.surface || o.surfaceReady)
      requires (shared.fullFrame ==> b.requested) && (b.requested && !shared.fullFrame ==> Whole(regions))
      ensures Explained(data, o, true, true, b)
    {
      hide SparseUpdate, Whole;
      DeliveredExplained(data, o, b);
    }

    /** The frame went out as a bitmap. */
    lemma BitmapExplained(data: seq<u8>, o: Outcome, b: Before)
      requires shape.Valid() && deliveries != [] && Last() == Delivery(data, [shape.Full()], None, [], Bitmap)
      requires RouteAllowed(o, Bitmap, b)
      requires shared != null ==> (shared.fullFrame ==> b.requested)
      ensures Explained(data, o, true, true, b)
    {
      hide SparseUpdate, RouteAllowed;
      DeliveredExplained(data, o, b);
    }

    /** Nothing went out, for a reason. */
    lemma SilentExplained(data: seq<u8>, o: Outcome, b: Before)
      requires shared != null && Excused(o, b.requested) && pending == b.pending && (sentFirstFrame ==> b.sent)
      requires (shared.fullFrame ==> b.requested) && (b.requested && !shared.fullFrame ==> !o.frameReady)
      ensures Explained(data, o, true, false, b)
    {
      hide Excused;
    }

    /** A full frame was asked for, and there is no room for one. */
    lemma RefreshWaits(data: seq<u8>, o: Outcome, b: Before)
      requires shared != null && shared.ready && shared.avcEnabled && shared.fullFrame && !o.refreshReady
      requires pending == b.pending && (sentFirstFrame ==> b.sent) && b.requested
      ensures Explained(data, o, true, false, b)
    {
      SilentExplained(data, o, b);
    }

    /** The session ends. */
    lemma EndExplained(data: seq<u8>, o: Outcome, b: Before)
      requires Ended(o, b.requested) && (shared != null ==> (shared.fullFrame ==> b.requested))
      ensures Explained(data, o, false, false, b)
    {
    }

    /** A whole frame that kept its chroma is what the client shows. */
    lemma WholeIsShown(data: seq<u8>, before: seq<Delivery>)
      requires Valid() && latest == Some(data) && Delivered(before, data) && Whole(Last().regions) && Last().shown.None?
      ensures Fits(data, shape) && Shows(client, data, shape)
    {
      NothingPendingDecides();
      assert deliveries == deliveries[..|deliveries| - 1] + [Last()];
      forall px: int, py: int | shape.HasPixel(px, py)
        ensures !Missing(deliveries, shape, px, py)
      {
        assert [shape.Full()][0].Has(px, py);
      }
    }

    /** The encoder and the transport do their part. */
    predicate Working(o: Outcome) {
      o.handleAvailable && o.senderAvailable && o.surfaceReady && o.frameReady && o.refreshReady && Encoded(o)
    }

    lemma WorkingNeedsRoom(o: Outcome)
      ensures Working(o) ==> o.refreshReady
    {
    }

    /** What was found later, once the channel was followed, explains the attempt to who looked before. */
    lemma ExplainedEarlier(data: seq<u8>, o: Outcome, cont: bool, delivered: bool, later: Before, b: Before)
      requires Explained(data, o, cont, delivered, later)
      requires later.pending == b.pending && later.startsOver == b.startsOver && later.requested == b.requested
      requires (later.sent ==> b.sent) && (later.surface ==> b.surface)
      requires !later.startsOver ==> later.reference == b.reference
      ensures Explained(data, o, cont, delivered, b)
    {
      hide SamePicture, Detected, Excused, WellLogged, Avc444Negotiated, Encoded, ClearReady;
    }

    /** The AVC channel became usable, or stopped being so. */
    method FollowReadiness(ready: bool)
      requires Valid() && shared != null
      modifies this`egfxReady, this`egfxActive, this`hasHandle, this`hasSender, this`hasSurface
      modifies this`hasEncoder, this`egfxCodec, this`sentFirstFrame, detector
      ensures Valid() && egfxReady == ready && (hasSurface ==> old(hasSurface))
      ensures sentFirstFrame == (old(sentFirstFrame) && (ready || !old(egfxReady)))
      ensures sentFirstFrame ==> detector.reference == old(detector.reference)
      ensures ready ==> egfxCodec == old(egfxCodec) && hasEncoder == old(hasEncoder)
      ensures !ready ==> !egfxActive && !hasEncoder
      ensures !ready && old(egfxReady) ==> egfxCodec == None && !hasHandle && !hasSender && !hasSurface
    {
      hide Tracked, Mirrors, AllInFrame, Fits, Shows;
      if ready != egfxReady {
        egfxReady := ready;
        if !ready {
          egfxActive, hasHandle, hasSender, hasSurface := false, false, false, false;
          hasEncoder, egfxCodec := false, None;
          Forget();
        }
      }
    }

    /** A renegotiated channel or another codec starts over with a new encoder. */
    method FollowGeneration(ready: bool, codec: Option<Codec>, o: Outcome)
      requires Valid() && shared != null && egfxReady == ready
      modifies this`egfxGeneration, this`hasSurface, this`hasEncoder, this`egfxCodec, this`encoderIsVaapi, this`sentFirstFrame, detector
      ensures Valid() && egfxGeneration == shared.generation && (hasSurface ==> old(hasSurface))
      ensures sentFirstFrame ==
              (old(sentFirstFrame) && shared.generation == old(egfxGeneration) && !(ready && codec != old(egfxCodec)))
      ensures sentFirstFrame ==> detector.reference == old(detector.reference)
      ensures ready && hasEncoder && codec.Some? ==> egfxCodec == codec
      ensures shared.generation != old(egfxGeneration) && ready && o.encoderCreated ==>
                hasEncoder && egfxCodec == Some(if codec.Some? then codec.value else Avc420)
    {
      if shared.generation != egfxGeneration || (ready && codec != egfxCodec) {
        Forget();
        StartOver(ready, codec, o);
      }
    }

    method StartOver(ready: bool, codec: Option<Codec>, o: Outcome)
      requires Valid() && shared != null && !sentFirstFrame && egfxReady == ready
      modifies this`egfxGeneration, this`hasSurface, this`hasEncoder, this`egfxCodec, this`encoderIsVaapi
      ensures Valid() && egfxGeneration == shared.generation && !hasSurface
      ensures hasEncoder == (ready && o.encoderCreated)
      ensures egfxCodec == if hasEncoder then Some(if codec.Some? then codec.value else Avc420) else None
    {
      hide PicturesValid;
      egfxGeneration := shared.generation;
      hasSurface, hasEncoder, egfxCodec := false, false, None;
      if ready && o.encoderCreated {
        egfxCodec := Some(if codec.Some? then codec.value else Avc420);
        hasEncoder, encoderIsVaapi := true, o.createdIsVaapi;
      }
    }

    /** The repaint list for this frame. */
    method SelectDamage(data: seq<u8>, force: bool) returns (regions: seq<Region>)
      requires Valid() && latest == Some(data)
      requires synced || !sentFirstFrame || force || !egfxReady
      ensures egfxReady ==> Repaints(data, regions)
      ensures !force && sentFirstFrame ==> if regions == [] then NothingNew(data) else SparseUpdate(data, Now(false, false), regions)
      ensures force || !sentFirstFrame ==> regions == [shape.Full()]
    {
      if force {
        regions := [shape.Full()];
      } else if sentFirstFrame {
        regions := detector.Detect(data, shape, pending);
      } else {
        regions := detector.Detect(data, shape, [shape.Full()]);
      }
    }

    /** Switch to EGFX once an encoder, a handle and a sender exist. */
    method Activate(o: Outcome)
      requires Valid() && shared != null && egfxReady
      modifies this`hasHandle, this`hasSender, this`egfxActive
      ensures Valid()
      ensures old(egfxActive) ==> egfxActive && hasHandle == old(hasHandle) && hasSender == old(hasSender)
      ensures !old(egfxActive) ==> hasHandle == o.handleAvailable && hasSender == o.senderAvailable
      ensures !old(egfxActive) ==> egfxActive == (hasEncoder && hasHandle && hasSender)
    {
      if !egfxActive {
        hasHandle, hasSender := o.handleAvailable, o.senderAvailable;
        if hasEncoder && hasHandle && hasSender {
          egfxActive := true;
        }
      }
    }

    /** The codec a frame is encoded for. */
    function UsedCodec(): Codec
      reads this`egfxCodec
    {
      if egfxCodec.Some? then egfxCodec.value else Avc420
    }

    /** An AVC444v2 frame may lose its chroma; an AVC420 frame has no second payload. */
    ghost function ShownInstead(o: Outcome): Option<Picture>
      reads this`egfxCodec
    {
      if o.encode.SendableLuma? && egfxCodec == Some(Avc444) then Some(o.lumaShown) else None
    }

    /** Encode the frame, hand it to the transport and commit it if it was accepted. */
    method EncodeAndSend(data: seq<u8>, regions: seq<Region>, force: bool, o: Outcome) returns (sent: bool)
      requires Valid() && latest == Some(data) && shared != null && egfxActive && hasSurface
      requires Repaints(data, regions)
      modifies this`encodeFailures, this`hasEncoder, this`encoderIsVaapi, this`hasSurface, this`egfxActive
      modifies this`client, this`synced, this`sentFirstFrame, this`pending, this`deliveries, detector, shared`fullFrame
      ensures Valid() && !Exhausted()
      ensures sent <==> old(hasEncoder && hasHandle && hasSender) && (o.encode.Sendable? || o.encode.SendableLuma?) && o.sendAccepted
      ensures sent ==> Delivered(old(deliveries), data)
      ensures sent ==> deliveries == old(deliveries) + [Delivery(data, regions, ShownInstead(o), o.healed, H264(UsedCodec()))]
      ensures !sent ==> client == old(client) && synced == old(synced) && pending == old(pending)
      ensures !sent ==> sentFirstFrame == old(sentFirstFrame) && deliveries == old(deliveries)
      ensures shared.fullFrame == (old(shared.fullFrame) || (force && !sent))
      ensures !old(hasEncoder) ==> !hasEncoder
      ensures !sent ==> Repaints(data, regions)
      ensures hasEncoder && encoderIsVaapi ==> egfxActive && hasSurface
      ensures old(encoderIsVaapi) && hasEncoder && !encoderIsVaapi ==> backend == Auto
      ensures old(hasEncoder) && (o.encode.Invalid? || o.encode.Failed?) ==>
                encodeFailures == old(encodeFailures) + 1 || !(hasEncoder && encoderIsVaapi)
    {
      hide Shows, Tracked, Mirrors, AllInFrame, Fits, SamePicture, PicturesValid, Delivered;
      sent := false;
      if hasEncoder {
        sent := SendEncoded(data, regions, o);
      }
      if force && !sent {
        shared.fullFrame := true;
      }
      RecoverEncoder(o);
    }

    /** What the encoder made of the frame goes out, or is counted as a failure. */
    method SendEncoded(data: seq<u8>, regions: seq<Region>, o: Outcome) returns (sent: bool)
      requires Valid() && latest == Some(data) && Repaints(data, regions)
      modifies this`encodeFailures, this`client, this`synced, this`sentFirstFrame, this`pending, this`deliveries, detector
      ensures Valid()
      ensures sent <==> hasHandle && hasSender && (o.encode.Sendable? || o.encode.SendableLuma?) && o.sendAccepted
      ensures sent ==> Delivered(old(deliveries), data)
      ensures sent ==> deliveries == old(deliveries) + [Delivery(data, regions, ShownInstead(o), o.healed, H264(UsedCodec()))]
      ensures !sent ==> client == old(client) && synced == old(synced) && pending == old(pending)
      ensures !sent ==> sentFirstFrame == old(sentFirstFrame) && deliveries == old(deliveries) && Repaints(data, regions)
      ensures encodeFailures == if o.encode.Invalid? || o.encode.Failed? then old(encodeFailures) + 1 else 0
    {
      hide Shows, Tracked, Mirrors, AllInFrame, Fits, SamePicture;
      sent := false;
      match o.encode
      case Sendable | SendableLuma =>
        encodeFailures := 0;
        if hasHandle && hasSender {
          sent := o.sendAccepted;
          if sent {
            CommitSend(data, regions, ShownInstead(o), o.healed, H264(UsedCodec()));
          }
        }
      case Skipped =>
        encodeFailures := 0;
      case Invalid | Failed =>
        encodeFailures := encodeFailures + 1;
    }

    /** A VA-API encoder that has failed too often is still in use. */
    predicate Exhausted()
      reads this`hasEncoder, this`encoderIsVaapi, this`encodeFailures
    {
      encodeFailures >= MAX_ENCODE_FAILURES && hasEncoder && encoderIsVaapi
    }

    /**
     What repeated VA-API failures lead to.  No VA-API encoder stays in use past the limit; a software
     encoder takes its place only in auto mode, and then with the failures forgotten and the surface set
     up anew; otherwise H.264 is off.  An encoder that is not exhausted is left alone.
     */
    method RecoverEncoder(o: Outcome)
      requires ChannelValid()
      modifies this`hasEncoder, this`encoderIsVaapi, this`encodeFailures, this`hasSurface, this`egfxActive
      ensures ChannelValid() && !Exhausted()
      ensures hasEncoder ==> old(hasEncoder)
      ensures egfxActive ==> old(egfxActive) && (hasEncoder == old(hasEncoder))
      ensures backend != Auto ==> encoderIsVaapi == old(encoderIsVaapi) && encodeFailures == old(encodeFailures)
      ensures old(Exhausted()) && hasEncoder ==> !encoderIsVaapi && encodeFailures == 0 && !hasSurface && egfxActive == old(egfxActive)
      ensures old(Exhausted()) ==> (hasEncoder <==> backend == Auto && o.softwareCreated)
      ensures !old(Exhausted()) ==>
                && hasEncoder == old(hasEncoder) && encoderIsVaapi == old(encoderIsVaapi) && encodeFailures == old(encodeFailures)
                && hasSurface == old(hasSurface) && egfxActive == old(egfxActive)
    {
      if encodeFailures >= MAX_ENCODE_FAILURES && hasEncoder && encoderIsVaapi {
        if backend == Auto {
          if o.softwareCreated {
            hasEncoder, encoderIsVaapi := true, false;
            encodeFailures := 0;
            hasSurface := false;
          } else {
            hasEncoder, egfxActive := false, false;
          }
        } else {
          hasEncoder, egfxActive := false, false;
        }
      }
    }

    /** Legacy bitmap update: always the whole frame. */
    method SendBitmap(data: seq<u8>, o: Outcome) returns (cont: bool)
      requires Valid() && latest == Some(data)
      modifies this`sentFirstFrame, this`pending, this`client, this`synced, this`deliveries, detector
      ensures cont == o.updatesOpen
      ensures cont ==> Valid() && Delivered(old(deliveries), data)
      ensures cont ==> deliveries == old(deliveries) + [Delivery(data, [shape.Full()], None, [], Bitmap)]
      ensures !cont ==> client == old(client) && synced == old(synced) && deliveries == old(deliveries)
    {
      hide ChannelValid, Shows, Mirrors, Tracked, SamePicture, Painted, AllInFrame, DeliveriesFit;
      sentFirstFrame := true;
      if !o.updatesOpen {
        return false;
      }
      NothingInFrame(shape.width, shape.height);
      ghost var d := Delivery(data, [shape.Full()], None, [], Bitmap);
      detector.UpdateReference(data, shape.height, shape.stride);
      PrefixShowsSame(detector.reference.value, data, shape);
      AfterDelivery(client, None, shape, deliveries, pending, d, detector.reference.value);
      client, synced := Painted(client, d, shape), true;
      deliveries := deliveries + [d];
      pending := [];
      assert Structural();
      assert ReferenceIsClient() && ReferenceTracked() && ClientTracked();
      return true;
    }

    /** Graphics channel negotiated with AVC, or not negotiated (yet). */
    method ProcessAvc(data: seq<u8>, o: Outcome) returns (cont: bool, delivered: bool)
      requires Valid() && latest == Some(data) && shared != null && (shared.ready ==> shared.avcEnabled)
      modifies this`encodeFailures, this`hasHandle, this`hasSender, this`hasEncoder, this`encoderIsVaapi, this`hasSurface, this`egfxActive
      modifies this`egfxReady, this`egfxGeneration, this`egfxCodec
      modifies this`client, this`synced, this`sentFirstFrame, this`pending, this`deliveries, detector, shared`fullFrame
      ensures cont ==> Valid()
      ensures latest == old(latest) && pendingInitialResize == old(pendingInitialResize)
      ensures delivered ==> cont && Delivered(old(deliveries), data)
      ensures !delivered ==> client == old(client) && synced == old(synced) && deliveries == old(deliveries)
      ensures Explained(data, o, cont, delivered, old(Now(StartsOver(), shared.fullFrame)))
      ensures shared.ready && Working(o) && o.encoderCreated && old(shared.generation != egfxGeneration) ==>
                delivered && Last().route.H264?
    {
      hide PicturesValid, ChannelValid, Delivered, Repaints, SelectCodec, Explained, Working, StartsOver;
      WorkingNeedsRoom(o);
      ghost var found := Now(StartsOver(), shared.fullFrame);
      var force, waits := PrepareAvc(o);
      if waits {
        RefreshWaits(data, o, found);
        return true, false;
      }
      ghost var later := Now(force || !sentFirstFrame, force || shared.fullFrame);
      cont, delivered := DeliverAvc(data, force, o);
      ExplainedEarlier(data, o, cont, delivered, later, found);
    }

    /** Follow the channel, and take a request for a full frame unless it has to wait for room. */
    method PrepareAvc(o: Outcome) returns (force: bool, waits: bool)
      requires Valid() && shared != null && (shared.ready ==> shared.avcEnabled)
      modifies this`egfxReady, this`egfxActive, this`hasHandle, this`hasSender, this`hasSurface, this`encoderIsVaapi
      modifies this`hasEncoder, this`egfxCodec, this`sentFirstFrame, this`egfxGeneration, detector, shared`fullFrame
      ensures Valid() && egfxReady == shared.ready && egfxGeneration == shared.generation
      ensures (sentFirstFrame ==> old(sentFirstFrame) && detector.reference == old(detector.reference)) && (hasSurface ==> old(hasSurface))
      ensures shared.ready && hasEncoder ==> egfxCodec == SelectCodec()
      ensures shared.ready && o.encoderCreated && old(shared.generation != egfxGeneration) ==> hasEncoder && !sentFirstFrame
      ensures waits <==> shared.ready && old(shared.fullFrame) && !o.refreshReady
      ensures force <==> shared.ready && old(shared.fullFrame) && o.refreshReady
      ensures shared.fullFrame == (old(shared.fullFrame) && !force)
      ensures !waits ==> (force || !sentFirstFrame) == old(StartsOver())
    {
      hide PicturesValid, ChannelValid, SelectCodec;
      var ready := shared.ready && shared.avcEnabled;
      FollowChannel(ready, o);
      force, waits := false, ready && shared.fullFrame && !o.refreshReady;
      if ready && !waits {
        force := shared.TakeFullFrameRequest();
      }
    }

    /** Readiness first, then generation and codec. */
    method FollowChannel(ready: bool, o: Outcome)
      requires Valid() && shared != null && (ready <==> shared.ready && shared.avcEnabled)
      modifies this`egfxReady, this`egfxActive, this`hasHandle, this`hasSender, this`hasSurface, this`encoderIsVaapi
      modifies this`hasEncoder, this`egfxCodec, this`sentFirstFrame, this`egfxGeneration, detector
      ensures Valid() && egfxReady == ready && egfxGeneration == shared.generation && (hasSurface ==> old(hasSurface))
      ensures sentFirstFrame == (old(sentFirstFrame) && (ready || !old(egfxReady)) && shared.generation == old(egfxGeneration) &&
                                 !(ready && SelectCodec() != old(egfxCodec)))
      ensures sentFirstFrame ==> detector.reference == old(detector.reference)
      ensures ready && hasEncoder ==> egfxCodec == SelectCodec()
      ensures shared.generation != old(egfxGeneration) && ready && o.encoderCreated ==>
                hasEncoder && egfxCodec == Some(if SelectCodec().Some? then SelectCodec().value else Avc420)
    {
      hide PicturesValid;
      var codec := SelectCodec();
      FollowReadiness(ready);
      FollowGeneration(ready, codec, o);
    }

    /** Work out what changed; then send it. */
    method DeliverAvc(data: seq<u8>, force: bool, o: Outcome) returns (cont: bool, delivered: bool)
      requires Valid() && latest == Some(data) && shared != null && (shared.ready ==> shared.avcEnabled)
      requires egfxReady == shared.ready && egfxGeneration == shared.generation
      requires (shared.ready && hasEncoder ==> egfxCodec == SelectCodec()) && (force ==> shared.ready)
      requires shared.ready && (force || shared.fullFrame) ==> o.refreshReady
      modifies this`encodeFailures, this`hasHandle, this`hasSender, this`hasEncoder, this`encoderIsVaapi, this`hasSurface, this`egfxActive
      modifies this`client, this`synced, this`sentFirstFrame, this`pending, this`deliveries, detector, shared`fullFrame
      ensures cont ==> Valid()
      ensures delivered ==> cont && Delivered(old(deliveries), data)
      ensures !delivered ==> client == old(client) && synced == old(synced) && deliveries == old(deliveries)
      ensures Explained(data, o, cont, delivered, old(Now(force || !sentFirstFrame, force || shared.fullFrame)))
      ensures shared.ready && Working(o) && old(hasEncoder && !sentFirstFrame) ==> delivered && Last().route.H264?
    {
      hide PicturesValid, ChannelValid, NothingNew, SparseUpdate, RouteAllowed, Excused, Detected, SamePicture, Fits, Delivered, Repaints;
      ghost var startsOver := force || !sentFirstFrame;
      var regions := SelectDamage(data, force);
      if sentFirstFrame && regions == [] {
        DropUnchangedDamage(data);
        return true, false;
      }
      if egfxReady {
        Activate(o);
      }
      cont, delivered := SendChanged(data, regions, force, o, startsOver);
    }

    /** Send what was selected, by EGFX or as a bitmap. */
    method SendChanged(data: seq<u8>, regions: seq<Region>, force: bool, o: Outcome, ghost startsOver: bool)
      returns (cont: bool, delivered: bool)
      requires Valid() && latest == Some(data) && shared != null && (shared.ready ==> shared.avcEnabled)
      requires egfxReady == shared.ready && (shared.ready ==> Repaints(data, regions))
      requires shared.ready && hasEncoder ==> egfxCodec == SelectCodec()
      requires force ==> shared.ready && regions == [shape.Full()]
      requires shared.ready && (force || shared.fullFrame) ==> o.refreshReady
      requires if startsOver then regions == [shape.Full()] else SparseUpdate(data, Now(false, false), regions)
      modifies this`encodeFailures, this`hasEncoder, this`encoderIsVaapi, this`hasSurface, this`egfxActive
      modifies this`client, this`synced, this`sentFirstFrame, this`pending, this`deliveries, detector, shared`fullFrame
      ensures cont ==> Valid()
      ensures delivered ==> cont && Delivered(old(deliveries), data)
      ensures !delivered ==> client == old(client) && synced == old(synced) && deliveries == old(deliveries)
      ensures Explained(data, o, cont, delivered, old(Now(startsOver, force || shared.fullFrame)))
      ensures Working(o) && old(egfxActive && hasEncoder) ==> delivered && Last().route.H264?
    {
      ShapeIsValid();
      ghost var found := Now(startsOver, force || shared.fullFrame);
      hide PicturesValid, Delivered, Repaints, SparseUpdate, SelectCodec, Explained, ShownInstead, Excused, EventNoticeable, Whole, Encoded;
      var blocked, sent := false, false;
      if egfxActive {
        blocked, sent := SendEgfx(data, regions, force, o);
      }
      if sent {
        H264Explained(data, regions, o, found);
        return true, true;
      }
      if blocked {
        SilentExplained(data, o, found);
        return true, false;
      }
      cont, delivered := FallBack(data, o, found);
    }

    /** Nothing went out by EGFX: a bitmap may take its place. */
    method FallBack(data: seq<u8>, o: Outcome, ghost b: Before) returns (cont: bool, delivered: bool)
      requires Valid() && latest == Some(data) && shared != null && (shared.ready ==> shared.avcEnabled)
      requires pending == b.pending && (sentFirstFrame ==> b.sent) && (shared.fullFrame ==> b.requested)
      requires egfxActive && hasEncoder && hasSurface ==> !Encoded(o)
      requires shared.ready && b.requested ==> o.refreshReady
      requires b.requested && !shared.fullFrame ==> shared.ready && !(egfxActive && hasEncoder && hasSurface)
      modifies this`client, this`synced, this`sentFirstFrame, this`pending, this`deliveries, detector
      ensures cont ==> Valid()
      ensures delivered ==> cont && Delivered(old(deliveries), data)
      ensures !delivered ==> client == old(client) && synced == old(synced) && deliveries == old(deliveries)
      ensures Explained(data, o, cont, delivered, b)
    {
      ShapeIsValid();
      hide PicturesValid, Delivered, Explained;
      var runtimeAvailable := egfxActive && hasEncoder && hasSurface;
      var sendBitmap := if !shared.ready then o.bitmapDue else !shared.avcEnabled || !runtimeAvailable;
      if sendBitmap {
        cont := SendBitmap(data, o);
        if cont {
          BitmapExplained(data, o, b);
        } else {
          EndExplained(data, o, b);
        }
        return cont, cont;
      }
      SilentExplained(data, o, b);
      return true, false;
    }

    /** The active channel: a surface, room for a frame, and an encoder.  `blocked` means there is no room. */
    method SendEgfx(data: seq<u8>, regions: seq<Region>, force: bool, o: Outcome) returns (blocked: bool, sent: bool)
      requires Valid() && latest == Some(data) && shared != null && egfxActive && Repaints(data, regions)
      modifies this`encodeFailures, this`hasEncoder, this`encoderIsVaapi, this`hasSurface, this`egfxActive
      modifies this`client, this`synced, this`sentFirstFrame, this`pending, this`deliveries, detector, shared`fullFrame
      ensures Valid()
      ensures sent ==> Delivered(old(deliveries), data) && Encoded(o) && o.frameReady && !blocked && old(hasEncoder)
      ensures sent ==> deliveries == old(deliveries) + [Delivery(data, regions, ShownInstead(o), o.healed, H264(UsedCodec()))]
      ensures !sent ==> client == old(client) && synced == old(synced) && pending == old(pending)
      ensures !sent ==> sentFirstFrame == old(sentFirstFrame) && deliveries == old(deliveries)
      ensures blocked ==> egfxActive && hasSurface && !o.frameReady
      ensures sent ==> old(hasSurface) || o.surfaceReady
      ensures !blocked && !sent && egfxActive && hasEncoder && hasSurface ==> !Encoded(o) && (force ==> shared.fullFrame)
      ensures shared.fullFrame ==> old(shared.fullFrame) || force
      ensures old(shared.fullFrame) ==> shared.fullFrame
      ensures Working(o) && old(hasEncoder) ==> sent
    {
      hide PicturesValid, Delivered, Repaints;
      if !hasSurface && hasHandle && hasSender && o.surfaceReady {
        hasSurface := true;
      }
      if !hasSurface {
        return false, false;
      }
      if hasHandle && !o.frameReady {
        return true, false;
      }
      sent := EncodeAndSend(data, regions, force, o);
      blocked := false;
    }

    ghost predicate AvcHealthy(o: Outcome) {
      && o.handleAvailable && o.senderAvailable && o.refreshReady && o.frameReady && o.surfaceReady
      && o.encode == Sendable && o.sendAccepted && o.updatesOpen
    }

    /** Without a channel that is ready, a bitmap update is due. */
    ghost predicate BitmapHealthy(o: Outcome) {
      o.bitmapDue && o.updatesOpen
    }

    /** Whatever way a frame takes, the answers on that way are favourable. */
    ghost predicate Favourable(o: Outcome)
      reads shared
    {
      if shared == null then o.updatesOpen else FavourableOn(o, shared.ready, shared.avcEnabled)
    }

    ghost predicate FavourableOn(o: Outcome, ready: bool, avc: bool) {
      if !ready then BitmapHealthy(o) else if avc then AvcHealthy(o) else ClearHealthy(o)
    }

    ghost predicate Healthy(o: Outcome)
      reads this, shared
    {
      && !pendingInitialResize && Favourable(o)
      && (shared != null && !shared.ready ==> synced || FullRepaintDue())
    }

    /** With favourable answers there is no excuse. */
    lemma FavourableDelivers(data: seq<u8>, o: Outcome, cont: bool, delivered: bool, b: Before, before: seq<Delivery>, wasSynced: bool)
      requires (cont ==> Valid()) && latest == Some(data) && Favourable(o) && Explained(data, o, cont, delivered, b)
      requires if delivered then Delivered(before, data) else (shared == null ==> !cont) && synced == wasSynced
      requires shared != null && !shared.ready ==> wasSynced || b.startsOver
      ensures cont && synced && pending == [] && Fits(data, shape)
      ensures b.startsOver ==> Shows(client, data, shape)
    {
      hide PicturesValid, SamePicture, SparseUpdate, Shows;
      assert cont;
      ShapeIsValid();
      if delivered && b.startsOver {
        WholeIsShown(data, before);
      }
    }

    /** The log entry of a whole AVC444v2 frame that lost its chroma. */
    lemma LossIsLogged(data: seq<u8>, o: Outcome, b: Before, before: seq<Delivery>)
      requires shared != null && shared.ready && shared.avcEnabled && Avc444Negotiated() && o.encode.SendableLuma? && b.startsOver
      requires Explained(data, o, true, true, b) && Delivered(before, data) && Last().route.H264? && shape.Valid()
      ensures deliveries == before + [Delivery(data, [shape.Full()], Some(o.lumaShown), o.healed, H264(Avc444))]
    {
      assert deliveries == before + [Last()];
    }

    /**
     One captured frame.  Whatever the transport and the encoder answer, a delivery is logged with what
     it painted, and anything less leaves the client alone.  When they all answer favourably and the
     processor is not quiet, nothing stays pending; and if everything was due to be repainted, the client
     shows this frame.  A quiet processor does not look at the channel.
     */
    method ProcessAt(data: seq<u8>, o: Outcome) returns (cont: bool, delivered: bool)
      requires Valid() && latest == Some(data)
      modifies this, detector, Channel()`fullFrame
      ensures latest == old(latest)
      ensures cont ==> Valid()
      ensures delivered ==> cont && Delivered(old(deliveries), data)
      ensures !delivered ==> client == old(client) && synced == old(synced) && deliveries == old(deliveries)
      ensures old(Quiet()) ==> cont && !delivered && Quiet()
      ensures old(Healthy(o)) && !old(Quiet()) ==> cont && synced && pending == []
      ensures old(Healthy(o)) && !old(Quiet()) && old(FullRepaintDue()) ==> Shows(client, data, shape)
      ensures !old(Quiet() || ResizeDue()) ==>
                Explained(data, o, cont, delivered, old(Now(StartsOver(), shared != null && shared.fullFrame)))
      ensures old(ResizeDue() && !Quiet()) ==>
                !cont && !delivered && !pendingInitialResize && pending == old(pending) && sentFirstFrame == old(sentFirstFrame)
      ensures !old(pendingInitialResize) ==> !pendingInitialResize
      ensures shared != null && shared.ready && shared.avcEnabled && Working(o) && o.encoderCreated &&
              old(!pendingInitialResize && !Quiet() && shared.generation != egfxGeneration) ==>
                delivered && Last().route.H264?
    {
      ghost var found := Now(StartsOver(), shared != null && shared.fullFrame);
      ghost var before, wasSynced := deliveries, synced;
      ghost var healthy := Healthy(o) && !Quiet();
      assert FullRepaintDue() ==> found.startsOver;
      assert healthy ==> Favourable(o) && !pendingInitialResize && (shared != null && !shared.ready ==> wasSynced || found.startsOver);
      hide PicturesValid, Explained, Delivered, StartsOver, Now, FavourableOn, Healthy, FullRepaintDue, Working, Shows;
      cont, delivered := Attempt(data, o);
      if healthy {
        FavourableDelivers(data, o, cont, delivered, found, before, wasSynced);
      }
    }

    /** The early ends, and then whichever way the frame takes. */
    method Attempt(data: seq<u8>, o: Outcome) returns (cont: bool, delivered: bool)
      requires Valid() && latest == Some(data)
      modifies this, detector, Channel()`fullFrame
      ensures latest == old(latest)
      ensures cont ==> Valid()
      ensures delivered ==> cont && Delivered(old(deliveries), data)
      ensures !delivered ==> client == old(client) && synced == old(synced) && deliveries == old(deliveries)
      ensures old(Quiet()) ==> cont && !delivered && Quiet()
      ensures shared == null && !old(Quiet() || ResizeDue()) ==> delivered == cont
      ensures !old(Quiet() || ResizeDue()) ==>
                Explained(data, o, cont, delivered, old(Now(StartsOver(), shared != null && shared.fullFrame)))
      ensures old(ResizeDue() && !Quiet()) ==>
                !cont && !delivered && !pendingInitialResize && pending == old(pending) && sentFirstFrame == old(sentFirstFrame)
      ensures !old(pendingInitialResize) ==> !pendingInitialResize
      ensures shared != null && shared.ready && shared.avcEnabled && Working(o) && o.encoderCreated &&
              old(!pendingInitialResize && !Quiet() && shared.generation != egfxGeneration) ==>
                delivered && Last().route.H264?
    {
      ghost var found := Now(StartsOver(), shared != null && shared.fullFrame);
      hide PicturesValid, Explained, Delivered, StartsOver, Now, Favourable, Working;
      if sentFirstFrame && pending == [] && !(shared != null && shared.fullFrame) {
        return true, false;
      }
      if pendingInitialResize && (shared == null || shared.ready) {
        pendingInitialResize := false;
        return false, false;
      }
      cont, delivered := Dispatch(data, o);
    }

    /** The way a frame takes: ClearCodec, H.264 or no channel that is ready, no channel at all. */
    method Dispatch(data: seq<u8>, o: Outcome) returns (cont: bool, delivered: bool)
      requires Valid() && latest == Some(data)
      modifies this, detector, Channel()`fullFrame
      ensures latest == old(latest) && pendingInitialResize == old(pendingInitialResize)
      ensures cont ==> Valid()
      ensures delivered ==> cont && Delivered(old(deliveries), data)
      ensures !delivered ==> client == old(client) && synced == old(synced) && deliveries == old(deliveries)
      ensures Explained(data, o, cont, delivered, old(Now(StartsOver(), shared != null && shared.fullFrame)))
      ensures shared != null && shared.ready && shared.avcEnabled && Working(o) && o.encoderCreated && old(shared.generation != egfxGeneration) ==>
                delivered && Last().route.H264?
      ensures shared == null ==> delivered == cont
    {
      hide PicturesValid, SelectCodec, Explained, Delivered, StartsOver;
      if shared != null && shared.ready && !shared.avcEnabled {
        cont, delivered := ProcessClearcodec(data, o);
      } else if shared != null {
        cont, delivered := ProcessAvc(data, o);
      } else {
        cont := ProcessBitmap(data, o);
        delivered := cont;
      }
    }

    /** Without a graphics channel every frame is a bitmap. */
    method ProcessBitmap(data: seq<u8>, o: Outcome) returns (cont: bool)
      requires Valid() && latest == Some(data) && shared == null
      modifies this`sentFirstFrame, this`pending, this`client, this`synced, this`deliveries, detector
      ensures cont == o.updatesOpen
      ensures cont ==> Valid() && Delivered(old(deliveries), data)
      ensures Explained(data, o, cont, cont, old(Now(StartsOver(), false)))
      ensures !cont ==> client == old(client) && synced == old(synced) && deliveries == old(deliveries)
    {
      ShapeIsValid();
      hide PicturesValid;
      cont := SendBitmap(data, o);
    }

    // ----- channel events; each makes what the client shows unknown

    /** Capabilities were negotiated; a repeated negotiation asks for a full frame first. */
    method ChannelReady(avc: bool, avc444: bool, ghost picture: Picture)
      requires Valid() && shared != null
      modifies shared, this`client, this`synced
      ensures Valid() && client == picture && !synced
      ensures shared.ready && shared.avcEnabled == avc && shared.avc444Enabled == avc444
      ensures shared.generation == old(shared.generation) + 1
      ensures shared.fullFrame == (old(shared.fullFrame) || old(shared.ready))
    {
      if shared.ready {
        shared.fullFrame := true;
      }
      shared.avcEnabled, shared.avc444Enabled := avc, avc444;
      shared.generation := shared.generation + 1;
      shared.ready := true;
      client, synced := picture, false;
    }

    method ChannelClosed(ghost picture: Picture)
      requires Valid() && shared != null
      modifies shared`ready, this`client, this`synced
      ensures Valid() && client == picture && !synced && !shared.ready
    {
      shared.ready := false;
      client, synced := picture, false;
    }

    /** Surfaces are deleted and recreated at another size, with a new generation. */
    method ChannelResized(ghost picture: Picture)
      requires Valid() && shared != null
      modifies shared`generation, this`client, this`synced
      ensures Valid() && client == picture && !synced && shared.generation == old(shared.generation) + 1
    {
      shared.generation := shared.generation + 1;
      client, synced := picture, false;
    }

    /** Another client connects: nothing is negotiated and nothing is requested. */
    method ClientReplaced(ghost picture: Picture)
      requires Valid() && shared != null
      modifies shared, this`client, this`synced
      ensures Valid() && client == picture && !synced
      ensures !shared.ready && !shared.avcEnabled && !shared.avc444Enabled && !shared.fullFrame
      ensures shared.generation == old(shared.generation)
    {
      shared.ready, shared.avcEnabled, shared.avc444Enabled, shared.fullFrame := false, false, false, false;
      client, synced := picture, false;
    }
  }

  /** None of the regions has a pixel in the frame. */
  ghost predicate NoneInFrame(s: Shape, regions: seq<Region>) {
    forall k :: 0 <= k < |regions| ==> ClampDamageRegion(regions[k], s.width, s.height).None?
  }

  lemma SomeInFrame(s: Shape, regions: seq<Region>)
    requires s.Valid()
    ensures !NoneInFrame(s, regions) <==> exists px: int, py: int :: s.HasPixel(px, py) && Covers(regions, px, py)
  {
    if !NoneInFrame(s, regions) {
      var k :| 0 <= k < |regions| && ClampDamageRegion(regions[k], s.width, s.height).Some?;
      var c := ClampDamageRegion(regions[k], s.width, s.height).value;
      assert c.Has(c.x, c.y) && regions[k].Has(c.x, c.y) && s.HasPixel(c.x, c.y);
    }
  }

  /** One report, cut to the frame, was merged into the list. */
  ghost predicate MergedOnce(s: Shape, before: seq<Region>, report: Region, out: seq<Region>)
    requires s.Valid()
  {
    var clamped := ClampDamageRegion(report, s.width, s.height);
    if clamped.None? then out == before
    else MergedInto(before, clamped.value, DAMAGE_MERGE_DISTANCE, s.width, s.height, out)
  }

  /** The reports were merged into the list in turn, and nothing else happened to it. */
  ghost predicate Merged(s: Shape, pending: seq<Region>, damage: seq<Region>, out: seq<Region>)
    requires s.Valid()
    decreases |damage|
  {
    if damage == [] then out == pending
    else
      var earlier, report := damage[..|damage| - 1], damage[|damage| - 1];
      exists before: seq<Region> :: Merged(s, pending, earlier, before) && MergedOnce(s, before, report, out)
  }

  lemma MergedStep(s: Shape, pending: seq<Region>, damage: seq<Region>, report: Region, before: seq<Region>, out: seq<Region>)
    requires s.Valid() && Merged(s, pending, damage, before) && MergedOnce(s, before, report, out)
    ensures Merged(s, pending, damage + [report], out)
  {
    hide MergedOnce;
    var more := damage + [report];
    assert more[..|more| - 1] == damage && more[|more| - 1] == report;
    assert Merged(s, pending, more[..|more| - 1], before) && MergedOnce(s, before, more[|more| - 1], out);
  }

  /** One turn of the loop of `queue_damage`. */
  method MergeReport(s: Shape, pending: seq<Region>, report: Region) returns (out: seq<Region>)
    requires s.Valid() && AllInFrame(pending, s.width, s.height)
    ensures AllInFrame(out, s.width, s.height) && MergedOnce(s, pending, report, out)
    ensures ClampDamageRegion(report, s.width, s.height).None? ==> out == pending
    ensures forall px: int, py: int :: s.HasPixel(px, py) && (Covers(pending, px, py) || report.Has(px, py)) ==> Covers(out, px, py)
  {
    hide Covers, MergeState, FarFromAll, KeptApart, MergedInto;
    out := pending;
    var clamped := ClampDamageRegion(report, s.width, s.height);
    if clamped.Some? {
      ghost var absorbed;
      out, absorbed := MergeNearby(out, clamped.value, DAMAGE_MERGE_DISTANCE, s.width, s.height);
    }
  }

  /** The loop of `queue_damage`. */
  method MergeAll(s: Shape, pending: seq<Region>, damage: seq<Region>) returns (out: seq<Region>)
    requires s.Valid() && AllInFrame(pending, s.width, s.height)
    ensures AllInFrame(out, s.width, s.height)
    ensures forall px: int, py: int :: s.HasPixel(px, py) && (Covers(pending, px, py) || Covers(damage, px, py)) ==> Covers(out, px, py)
    ensures NoneInFrame(s, damage) ==> out == pending
    ensures Merged(s, pending, damage, out)
  {
    hide Covers, MergedOnce, Merged, ClampDamageRegion, AllInFrame;
    out := pending;
    var k := 0;
    assert damage[..0] == [];
    NothingMerged(s, pending);
    while k < |damage|
      invariant 0 <= k <= |damage|
      invariant AllInFrame(out, s.width, s.height)
      invariant NoneInFrame(s, damage) ==> out == pending
      invariant Merged(s, pending, damage[..k], out)
      invariant forall px: int, py: int :: s.HasPixel(px, py) && (Covers(pending, px, py) || Covers(damage[..k], px, py))
                                 ==> Covers(out, px, py)
    {
      ghost var before := out;
      out := MergeReport(s, out, damage[k]);
      CoversOneMore(s, pending, damage, k, before, out);
      MergedStep(s, pending, damage[..k], damage[k], before, out);
      assert damage[..k + 1] == damage[..k] + [damage[k]];
      k := k + 1;
    }
    assert damage[..k] == damage;
  }

  lemma NothingMerged(s: Shape, pending: seq<Region>)
    requires s.Valid()
    ensures Merged(s, pending, [], pending) && forall px: int, py: int :: !Covers([], px, py)
  {
  }

  lemma CoversOneMore(s: Shape, pending: seq<Region>, damage: seq<Region>, k: nat, before: seq<Region>, out: seq<Region>)
    requires s.Valid() && k < |damage|
    requires forall px: int, py: int :: s.HasPixel(px, py) && (Covers(pending, px, py) || Covers(damage[..k], px, py)) ==> Covers(before, px, py)
    requires forall px: int, py: int :: s.HasPixel(px, py) && (Covers(before, px, py) || damage[k].Has(px, py)) ==> Covers(out, px, py)
    ensures forall px: int, py: int :: s.HasPixel(px, py) && (Covers(pending, px, py) || Covers(damage[..k + 1], px, py)) ==> Covers(out, px, py)
  {
    assert damage[..k + 1] == damage[..k] + [damage[k]];
    forall px: int, py: int | s.HasPixel(px, py) && (Covers(pending, px, py) || Covers(damage[..k + 1], px, py))
      ensures Covers(out, px, py)
    {
      CoversAppend(damage[..k], damage[k], px, py);
    }
  }
}

/**
 Whole runs of the frame processor: captures, processing attempts with any outcome and
 channel events, in any order.
 */
module FrameRuns {
  import opened Regions
  import opened Damage
  import opened FrameDelivery
  import G = Geometry
  import Scaling
  import Avc444Layout

  datatype Event =
    | Captured(frame: seq<u8>, damage: seq<Region>)
    | Attempted(o: Outcome)
    | Negotiated(avc: bool, avc444: bool, picture: Picture)
    | Closed(picture: Picture)
    | Resized(picture: Picture)
    | Replaced(picture: Picture)
  {
    /** The event makes what the client shows unknown. */
    predicate Disturbs() { Negotiated? || Closed? || Resized? || Replaced? }
  }

  /** The frame captured last among the first `n` events. */
  ghost function LastFrame(events: seq<Event>, n: nat): Option<seq<u8>>
    requires n <= |events|
  {
    if n == 0 then None
    else if events[n - 1].Captured? then Some(events[n - 1].frame)
    else LastFrame(events, n - 1)
  }

  /** Frames have the right size, and damage covers the difference to the previous frame. */
  ghost predicate HonestRun(s: Shape, events: seq<Event>) {
    forall i :: 0 <= i < |events| && events[i].Captured? ==>
      Fits(events[i].frame, s) &&
      (LastFrame(events, i).Some? ==>
         Fits(LastFrame(events, i).value, s) &&
         Honest(LastFrame(events, i).value, events[i].frame, s, events[i].damage))
  }

  /** Nothing disturbed the client between its last delivery and event `n`. */
  ghost predicate Undisturbed(events: seq<Event>, deliveredAt: seq<nat>, n: nat)
    requires n <= |events|
  {
    |deliveredAt| > 0 && forall j :: deliveredAt[|deliveredAt| - 1] < j < n ==> !events[j].Disturbs()
  }

  /**
   The last delivery of the log was of the frame captured last before event `at`, and left the client
   showing it exactly if no pixel was missing anything then.
   */
  ghost predicate FaithfulAt(s: Shape, events: seq<Event>, at: nat, log: seq<Delivery>, shown: Picture) {
    && at < |events| && log != [] && DeliveriesFit(log, s)
    && LastFrame(events, at) == Some(log[|log| - 1].frame)
    && (Shows(shown, log[|log| - 1].frame, s) <==> AllCarried(log, s))
  }

  ghost predicate DeliveredFaithfully(s: Shape, events: seq<Event>, deliveredAt: seq<nat>, log: seq<Delivery>, shown: seq<Picture>) {
    && |log| == |shown| == |deliveredAt|
    && forall k :: 0 <= k < |deliveredAt| ==> FaithfulAt(s, events, deliveredAt[k], log[..k + 1], shown[k])
  }

  /** No delivery dropped chroma since the whole frame was last delivered, or none ever did. */
  ghost predicate NothingDroppedLately(log: seq<Delivery>, s: Shape)
    requires s.Valid()
  {
    exists from :: 0 <= from <= |log| && NothingDroppedFrom(log, s, from)
  }

  ghost predicate NothingDroppedFrom(log: seq<Delivery>, s: Shape, from: nat)
    requires s.Valid() && from <= |log|
  {
    && (from == 0 || (from < |log| && log[from].regions == [s.Full()]))
    && forall j :: from <= j < |log| ==> log[j].shown.None?
  }

  lemma NothingDroppedCarriesAll(log: seq<Delivery>, s: Shape)
    requires s.Valid() && DeliveriesFit(log, s) && NothingDroppedLately(log, s)
    ensures AllCarried(log, s)
  {
    var from :| 0 <= from <= |log| && NothingDroppedFrom(log, s, from);
    if from == 0 {
      WholeDeliveriesCarryAll(log, s);
    } else {
      NothingDroppedSinceWholeFrame(log, s, from);
    }
  }

  /** Every answer of the transport, the encoder and the clock is favourable. */
  ghost predicate AllWell(o: Outcome, s: Shape) {
    && o.handleAvailable && o.senderAvailable && !o.senderClosed && o.refreshReady && o.frameReady && o.surfaceReady
    && o.encode == Sendable && o.sendAccepted && o.clear == Queued && o.bitmapDue && o.updatesOpen
    && s.width <= 0xffff && s.height <= 0xffff
  }

  /** Then the session goes on and nothing stays pending. */
  lemma AllWellDelivers(p: FrameProcessor, data: seq<u8>, o: Outcome, cont: bool, delivered: bool, b: Before, before: seq<Delivery>)
    requires AllWell(o, p.shape) && p.Explained(data, o, cont, delivered, b)
    requires delivered ==> p.Delivered(before, data)
    ensures cont && p.pending == []
  {
  }

  /** The capture loops leave an idle processor alone (src/capture/wayland/ext.rs, src/capture/wayland/wlr.rs). */
  method Offer(p: FrameProcessor, frame: seq<u8>, o: Outcome) returns (cont: bool, delivered: bool)
    requires p.Valid() && p.latest == Some(frame)
    modifies p, p.detector, p.Channel()`fullFrame
    ensures cont ==> p.Valid()
    ensures p.latest == old(p.latest)
    ensures old(p.Idle()) ==> cont && !delivered && p.Idle()
    ensures delivered ==> cont && p.Delivered(old(p.deliveries), frame)
    ensures !delivered ==> p.client == old(p.client) && p.synced == old(p.synced) && p.deliveries == old(p.deliveries)
    ensures !old(p.Idle() || p.ResizeDue()) ==>
              p.Explained(frame, o, cont, delivered, old(p.Now(p.StartsOver(), p.shared != null && p.shared.fullFrame)))
    ensures !old(p.pendingInitialResize) ==> !p.pendingInitialResize
    ensures AllWell(o, p.shape) && !old(p.pendingInitialResize) ==> cont && p.pending == []
    ensures old(p.Healthy(o) && !p.Idle()) ==> cont && p.synced && p.pending == []
    ensures old(p.Healthy(o) && !p.Idle() && p.FullRepaintDue()) ==> Shows(p.client, frame, p.shape)
    ensures p.shared != null && p.shared.ready && p.shared.avcEnabled && p.Working(o) && o.encoderCreated &&
            old(!p.pendingInitialResize && !p.Idle() && p.shared.generation != p.egfxGeneration) ==>
              delivered && p.Last().route.H264?
  {
    hide Shows, FrameProcessor.PicturesValid, FrameProcessor.Explained, FrameProcessor.Delivered, FrameProcessor.Healthy,
         FrameProcessor.Working, FrameProcessor.FullRepaintDue, FrameProcessor.StartsOver, FrameProcessor.Now;
    if p.sentFirstFrame && p.pending == [] {
      return true, false;
    }
    ghost var due, found, before := p.ResizeDue(), p.Now(p.StartsOver(), p.shared != null && p.shared.fullFrame), p.deliveries;
    cont, delivered := p.ProcessAt(frame, o);
    if AllWell(o, p.shape) && !due {
      AllWellDelivers(p, frame, o, cont, delivered, found, before);
    }
  }

  /** One event, applied to a processor whose capture loop holds the frame `held`. */
  method Apply(p: FrameProcessor, e: Event, held: Option<seq<u8>>) returns (cont: bool, delivered: bool)
    requires p.Valid() && p.latest == held
    requires e.Captured? ==> Fits(e.frame, p.shape) && (held.Some? ==> Honest(held.value, e.frame, p.shape, e.damage))
    modifies p, p.detector, p.shared
    ensures cont ==> p.Valid()
    ensures p.latest == if e.Captured? then Some(e.frame) else held
    ensures delivered ==> cont && e.Attempted? && held.Some? && p.Delivered(old(p.deliveries), held.value)
    ensures !delivered ==> p.deliveries == old(p.deliveries)
    ensures old(p.synced) && !e.Disturbs() ==> p.synced
    ensures !old(p.pendingInitialResize) ==> !p.pendingInitialResize
    ensures e.Attempted? && AllWell(e.o, p.shape) && held.Some? && !old(p.pendingInitialResize) ==> cont && p.pending == []
  {
    hide AllWell;
    cont, delivered := true, false;
    match e
    case Captured(frame, damage) =>
      p.QueueDamage(damage, frame);
    case Attempted(o) =>
      if held.Some? {
        cont, delivered := Offer(p, held.value, o);
      }
    case Negotiated(avc, avc444, picture) =>
      if p.shared != null { p.ChannelReady(avc, avc444, picture); }
    case Closed(picture) =>
      if p.shared != null { p.ChannelClosed(picture); }
    case Resized(picture) =>
      if p.shared != null { p.ChannelResized(picture); }
    case Replaced(picture) =>
      if p.shared != null { p.ClientReplaced(picture); }
  }

  /** The log grew by the delivery that was just made. */
  lemma DeliveredNow(s: Shape, events: seq<Event>, deliveredAt: seq<nat>, before: seq<Delivery>, shown: seq<Picture>, done: nat,
                     log: seq<Delivery>, client: Picture)
    requires DeliveredFaithfully(s, events, deliveredAt, before, shown)
    requires log != [] && log[..|log| - 1] == before && FaithfulAt(s, events, done, log, client)
    ensures DeliveredFaithfully(s, events, deliveredAt + [done], log, shown + [client])
  {
    hide FaithfulAt;
    var at, pictures := deliveredAt + [done], shown + [client];
    forall k | 0 <= k < |at|
      ensures FaithfulAt(s, events, at[k], log[..k + 1], pictures[k])
    {
      if k < |before| {
        assert log[..k + 1] == before[..k + 1];
      } else {
        assert log[..k + 1] == log;
      }
    }
  }

  lemma HonestAt(s: Shape, events: seq<Event>, i: nat)
    requires HonestRun(s, events) && i < |events| && events[i].Captured?
    ensures Fits(events[i].frame, s)
    ensures LastFrame(events, i).Some? ==>
              Fits(LastFrame(events, i).value, s) && Honest(LastFrame(events, i).value, events[i].frame, s, events[i].damage)
  {
  }

  lemma StillUndisturbed(events: seq<Event>, deliveredAt: seq<nat>, n: nat)
    requires n < |events| && (forall k :: 0 <= k < |deliveredAt| ==> deliveredAt[k] < n) && Undisturbed(events, deliveredAt, n + 1)
    ensures Undisturbed(events, deliveredAt, n) && !events[n].Disturbs()
  {
  }

  /** The processor has handled the first `done` events, and what it delivered is on record. */
  ghost predicate Recorded(p: FrameProcessor, s: Shape, events: seq<Event>, done: nat, live: bool, deliveredAt: seq<nat>,
                           log: seq<Delivery>, shown: seq<Picture>)
    requires done <= |events|
    reads p, p.detector, p.shared
  {
    && (live ==> p.Valid() && p.latest == LastFrame(events, done) && log == p.deliveries && !p.pendingInitialResize)
    && DeliveredFaithfully(s, events, deliveredAt, log, shown)
    && (forall k :: 0 <= k < |deliveredAt| ==> deliveredAt[k] < done)
    && (live && Undisturbed(events, deliveredAt, done) ==> p.synced)
  }

  /** The last of the first `n` events is an offer of a captured frame with favourable answers. */
  ghost predicate JustWell(s: Shape, events: seq<Event>, n: nat)
    requires n <= |events|
  {
    n > 0 && events[n - 1].Attempted? && AllWell(events[n - 1].o, s) && LastFrame(events, n).Some?
  }

  /** One event of the run is handled and recorded. */
  method Record(p: FrameProcessor, s: Shape, events: seq<Event>, done: nat, held: Option<seq<u8>>, deliveredAt: seq<nat>,
                ghost log: seq<Delivery>, ghost shown: seq<Picture>)
    returns (live: bool, deliveredAt': seq<nat>, ghost log': seq<Delivery>, ghost shown': seq<Picture>)
    requires s.Valid() && HonestRun(s, events) && done < |events| && p.shape == s && held == LastFrame(events, done)
    requires Recorded(p, s, events, done, true, deliveredAt, log, shown)
    modifies p, p.detector, p.shared
    ensures Recorded(p, s, events, done + 1, live, deliveredAt', log', shown')
    ensures JustWell(s, events, done + 1) ==> live && p.pending == []
  {
    hide AllWell, Mirrors, AllCarried, Shows, Honest, DeliveredFaithfully, HonestRun, Undisturbed;
    deliveredAt', log', shown' := deliveredAt, log, shown;
    var e := events[done];
    if e.Captured? {
      HonestAt(s, events, done);
    }
    var delivered;
    live, delivered := Apply(p, e, held);
    if delivered {
      p.NothingPendingDecides();
      DeliveredNow(s, events, deliveredAt, log, shown, done, p.deliveries, p.client);
      deliveredAt', log', shown' := deliveredAt + [done], p.deliveries, shown + [p.client];
    } else if Undisturbed(events, deliveredAt, done + 1) {
      StillUndisturbed(events, deliveredAt, done);
    }
  }

  /**
   Any run, from a fresh processor.  `done` events were handled before the session ended.  The log says
   what was sent.  As long as no channel event followed the last delivery, the client differs from the
   frame captured last exactly where damage is pending or the log says that dropped chroma is missing.
   So with nothing pending it shows that frame if and only if nothing is missing, and that is so
   whenever no delivery dropped chroma since the whole frame was last delivered.  Nothing is pending, and
   the session goes on, when the last event was an offer that met with favourable answers.
   */
  method Run(s: Shape, configured: bool, b: Backend, events: seq<Event>, ghost picture: Picture)
    returns (done: nat, live: bool, pending: seq<Region>, deliveredAt: seq<nat>,
             ghost log: seq<Delivery>, ghost shown: seq<Picture>, ghost client: Picture)
    requires s.Valid() && HonestRun(s, events)
    ensures done <= |events| && (live ==> done == |events|)
    ensures DeliveredFaithfully(s, events, deliveredAt, log, shown)
    ensures live && Undisturbed(events, deliveredAt, done) ==>
              && LastFrame(events, done).Some?
              && Fits(LastFrame(events, done).value, s) && DeliveriesFit(log, s)
              && Mirrors(client, LastFrame(events, done).value, s, log, pending)
              && (pending == [] ==> (Shows(client, LastFrame(events, done).value, s) <==> AllCarried(log, s)))
              && (pending == [] && NothingDroppedLately(log, s) ==> Shows(client, LastFrame(events, done).value, s))
    ensures JustWell(s, events, done) ==> live && pending == []
  {
    var egfx: EgfxShared? := null;
    if configured {
      egfx := new EgfxShared();
    }
    var p := new FrameProcessor(s, egfx, b, picture);
    var held: Option<seq<u8>> := None;
    done, live, deliveredAt := 0, true, [];
    shown, log := [], [];
    while done < |events| && live
      invariant done <= |events| && fresh(p) && fresh(p.detector) && p.shared == egfx && (egfx != null ==> fresh(egfx)) && p.shape == s
      invariant held == LastFrame(events, done) && Recorded(p, s, events, done, live, deliveredAt, log, shown)
      invariant JustWell(s, events, done) ==> live && p.pending == []
      decreases |events| - done
    {
      hide Recorded, HonestRun, JustWell;
      live, deliveredAt, log, shown := Record(p, s, events, done, held, deliveredAt, log, shown);
      if events[done].Captured? {
        held := Some(events[done].frame);
      }
      done := done + 1;
    }
    pending := p.pending;
    client := p.client;
    hide Mirrors, AllCarried, Shows, Honest, DeliveredFaithfully, Undisturbed;
    if live && Undisturbed(events, deliveredAt, done) && pending == [] {
      p.NothingPendingDecides();
      if NothingDroppedLately(log, s) {
        NothingDroppedCarriesAll(log, s);
      }
    }
  }

  // ----- where empty pending damage does not mean an up-to-date client

  /**
   A client opens a graphics channel, or repeats its capabilities, and shows a fresh surface; then a
   frame is captured and offered on a channel where everything answers favourably.  The client shows it
   exactly if the fresh surface did, the processor was not idle, or the capture reported damage in the
   frame: the negotiation itself, even one that asks for a full frame, wakes nobody.
   */
  method NegotiationThenCapture(p: FrameProcessor, before: seq<u8>, frame: seq<u8>, damage: seq<Region>, avc: bool, avc444: bool,
                                o: Outcome, ghost blank: Picture)
    returns (cont: bool, delivered: bool)
    requires p.Valid() && p.latest == Some(before) && p.shared != null && !p.pendingInitialResize
    requires Fits(before, p.shape) && Fits(frame, p.shape) && Honest(before, frame, p.shape, damage)
    requires if avc then p.AvcHealthy(o) else p.ClearHealthy(o)
    modifies p, p.detector, p.shared
    ensures Shows(p.client, frame, p.shape) <==>
            Shows(blank, frame, p.shape) || !old(p.Idle()) || !NoneInFrame(p.shape, damage)
  {
    p.ChannelReady(avc, avc444, blank);
    p.QueueDamage(damage, frame);
    SomeInFrame(p.shape, damage);
    hide Shows, Honest, NoneInFrame;
    cont, delivered := Offer(p, frame, o);
  }

  /** While the screen is still and no damage is reported, no number of offers reaches the client. */
  method StillScreen(p: FrameProcessor, frame: seq<u8>, offers: seq<Outcome>)
    requires p.Valid() && p.latest == Some(frame) && p.Idle()
    modifies p, p.detector, p.shared
    ensures p.Valid() && p.Idle() && p.latest == Some(frame)
    ensures p.client == old(p.client) && p.synced == old(p.synced) && p.deliveries == old(p.deliveries)
  {
    for k := 0 to |offers|
      invariant p.Valid() && p.latest == Some(frame) && p.Idle()
      invariant p.client == old(p.client) && p.synced == old(p.synced) && p.deliveries == old(p.deliveries)
    {
      p.QueueDamage([], frame);
      var cont, delivered := Offer(p, frame, offers[k]);
    }
  }

  /**
   From the start of a session: the first frame goes out as a bitmap, the graphics channel opens, and
   the client keeps its blank surface for as long as the screen is still, with nothing pending.
   */
  method BlankAfterNegotiation(s: Shape, b: Backend, frame: seq<u8>, damage: seq<Region>, first: Outcome, avc: bool, avc444: bool,
                               offers: seq<Outcome>, ghost start: Picture, ghost blank: Picture)
    returns (pending: seq<Region>, ghost client: Picture)
    requires s.Valid() && Fits(frame, s) && first.bitmapDue && first.updatesOpen
    ensures pending == [] && client == blank
  {
    var shared := new EgfxShared();
    var p := new FrameProcessor(s, shared, b, start);
    p.QueueDamage(damage, frame);
    var cont, delivered := Offer(p, frame, first);
    p.ChannelReady(avc, avc444, blank);
    StillScreen(p, frame, offers);
    pending, client := p.pending, p.client;
  }

  /**
   From the start of a session: the channel is negotiated with AVC444v2, and the chroma payload of the
   first frame comes out empty.  The frame counts as delivered and nothing stays pending, but a pixel
   whose chroma shows stays wrong for as long as the screen is still.
   */
  method WrongAfterDroppedChroma(s: Shape, b: Backend, frame: seq<u8>, damage: seq<Region>, first: Outcome, offers: seq<Outcome>,
                                 ghost start: Picture, ghost blank: Picture, ghost px: int, ghost py: int)
    returns (pending: seq<Region>, ghost log: seq<Delivery>, ghost client: Picture)
    requires s.Valid() && Fits(frame, s) && Avc444Layout.DimensionsSupported(s.width, s.height)
    requires first.handleAvailable && first.senderAvailable && first.refreshReady && first.frameReady && first.surfaceReady
    requires first.encoderCreated && first.encode == SendableLuma && first.sendAccepted
    requires s.HasPixel(px, py) && first.lumaShown(px, py) != Pixel(frame, s, px, py)
    ensures pending == [] && log == [Delivery(frame, [s.Full()], Some(first.lumaShown), first.healed, H264(Avc444))]
    ensures client(px, py) != Pixel(frame, s, px, py) && !Shows(client, frame, s)
  {
    var shared := new EgfxShared();
    var p := new FrameProcessor(s, shared, b, start);
    OpenAndDrop(p, frame, damage, first, blank);
    StillScreen(p, frame, offers);
    pending, log, client := p.pending, p.deliveries, p.client;
    DroppedIsWrong(p, Delivery(frame, [s.Full()], Some(first.lumaShown), first.healed, H264(Avc444)), px, py);
  }

  /** The channel opens with AVC444v2 and the first frame loses its chroma. */
  method OpenAndDrop(p: FrameProcessor, frame: seq<u8>, damage: seq<Region>, first: Outcome, ghost blank: Picture)
    requires p.Valid() && p.latest == None && p.deliveries == [] && !p.sentFirstFrame && !p.pendingInitialResize
    requires p.shared != null && p.shared.generation == p.egfxGeneration && Fits(frame, p.shape)
    requires Avc444Layout.DimensionsSupported(p.shape.width, p.shape.height)
    requires first.handleAvailable && first.senderAvailable && first.refreshReady && first.frameReady && first.surfaceReady
    requires first.encoderCreated && first.encode == SendableLuma && first.sendAccepted
    modifies p, p.detector, p.shared
    ensures p.Valid() && p.synced && p.Idle() && p.latest == Some(frame)
    ensures p.deliveries == [Delivery(frame, [p.shape.Full()], Some(first.lumaShown), first.healed, H264(Avc444))]
  {
    hide Shows, Honest, Mirrors, FrameProcessor.PicturesValid, FrameProcessor.Explained;
    p.ChannelReady(true, true, blank);
    p.QueueDamage(damage, frame);
    ghost var found := p.Now(p.StartsOver(), p.shared.fullFrame);
    var cont, delivered := Offer(p, frame, first);
    p.ShapeIsValid();
    p.LossIsLogged(frame, first, found, []);
  }

  /** A processor whose only delivery dropped chroma shows the wrong pixel. */
  lemma DroppedIsWrong(p: FrameProcessor, d: Delivery, px: int, py: int)
    requires p.Valid() && p.synced && p.pending == [] && p.latest.Some? && p.deliveries == [d]
    requires p.shape.HasPixel(px, py) && d.regions == [p.shape.Full()] && d.shown.Some?
    requires Fits(d.frame, p.shape) && d.shown.value(px, py) != Pixel(d.frame, p.shape, px, py)
    ensures Fits(p.latest.value, p.shape)
    ensures p.client(px, py) != Pixel(p.latest.value, p.shape, px, py) && !Shows(p.client, p.latest.value, p.shape)
  {
    assert [p.shape.Full()][0].Has(px, py);
    DroppedUntilRepainted([d], p.shape, 0, px, py);
    p.StillPainted(px, py);
  }

  /**
   A session that starts before the graphics channel is negotiated: as long as no bitmap is due, nothing goes
   out, whatever else the transport would answer, and the first frame still waits with its damage.
   */
  method WaitForChannel(p: FrameProcessor, frame: seq<u8>, offers: seq<Outcome>)
    requires p.Valid() && p.latest == Some(frame) && p.shared != null && !p.shared.ready && !p.sentFirstFrame
    requires forall k :: 0 <= k < |offers| ==> !offers[k].bitmapDue
    modifies p, p.detector, p.shared
    ensures p.Valid() && p.latest == Some(frame) && !p.sentFirstFrame
    ensures p.deliveries == old(p.deliveries) && p.client == old(p.client) && p.pending == old(p.pending)
  {
    for k := 0 to |offers|
      invariant p.Valid() && p.latest == Some(frame) && !p.shared.ready && !p.sentFirstFrame
      invariant p.deliveries == old(p.deliveries) && p.client == old(p.client) && p.pending == old(p.pending)
    {
      var cont, delivered := Offer(p, frame, offers[k]);
    }
  }

  /** A VA-API encoder that fails five times in a row is out of use, whatever the mode. */
  method FailingEncoder(p: FrameProcessor, frame: seq<u8>, regions: seq<Region>, force: bool, failures: seq<Outcome>) returns (tried: nat)
    requires p.Valid() && p.latest == Some(frame) && p.shared != null && p.egfxActive && p.hasSurface && p.Repaints(frame, regions)
    requires p.hasEncoder && p.encoderIsVaapi && |failures| >= 5
    requires forall k :: 0 <= k < |failures| ==> failures[k].encode.Invalid? || failures[k].encode.Failed?
    modifies p, p.detector, p.shared
    ensures tried <= 5
    ensures !(p.hasEncoder && p.encoderIsVaapi)
    ensures p.hasEncoder && !p.encoderIsVaapi ==> p.backend == Auto
  {
    tried := 0;
    while tried < |failures| && p.hasEncoder && p.encoderIsVaapi
      invariant tried <= 5
      invariant p.Valid() && p.latest == Some(frame)
      invariant p.hasEncoder && p.encoderIsVaapi ==>
                  p.egfxActive && p.hasSurface && p.Repaints(frame, regions) && tried <= p.encodeFailures && tried < 5
      invariant p.hasEncoder && !p.encoderIsVaapi ==> p.backend == Auto
    {
      var sent := p.EncodeAndSend(frame, regions, force, failures[tried]);
      tried := tried + 1;
    }
  }

  /**
   Scaling keeps damage honest: if the captured damage covers every difference between two source
   frames, the mapped damage covers every difference between the frames presented to the processor.
   */
  lemma PresentedDamageIsHonest(before: Scaling.PreparedFrame, after: Scaling.PreparedFrame, a: seq<u8>, b: seq<u8>, s: Shape,
                                g: G.PresentationGeometry, format: PixelFormat, damage: seq<Region>)
    requires Scaling.SourceOf(s, g) && Fits(a, s) && Fits(b, s)
    requires g.presentation.width <= I32_MAX && g.presentation.height <= I32_MAX
    requires Scaling.Presents(before, a, s, g, format) && Scaling.Presents(after, b, s, g, format) && before.shape == after.shape
    requires Honest(a, b, s, damage)
    ensures Honest(before.data, after.data, after.shape, g.MapSourceDamage(damage))
  {
    forall px: int, py: int | after.shape.HasPixel(px, py) && !Covers(g.MapSourceDamage(damage), px, py)
      ensures SamePixel(before.data, after.data, after.shape, px, py)
    {
      Scaling.ScalingRespectsDamage(a, b, s, g, format, damage, px, py);
    }
  }
}

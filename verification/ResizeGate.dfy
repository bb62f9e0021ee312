/**
 Resizing, restoring and shutting down a display (src/capture/mod.rs).

 Requests run concurrently.  A gate orders them and a lock guards the display's fields; an initial
 resize gives up the lock while its worker talks to the compositor, and the request may be cancelled
 while the worker goes on.  A world holds everything that interleaves; a step is one atomic action.
 */
module ResizeGate {
  import opened Regions
  import opened SizePolicy

  /** The fields that outlive a request. */
  datatype Display = Display(
    physical: bool, fixed: bool, idle: Option<Dimensions>,
    resolution: Dimensions, closed: bool, unconfirmed: bool, pendingInitial: Option<Dimensions>)

  /** `reconcile_resize_decision`: an unconfirmed managed output is resized even to its own size. */
  function Reconcile(d: Display, decision: Option<ResizeDecision>): Option<ResizeDecision> {
    if decision.Some? then decision
    else if !d.physical && d.unconfirmed then
      Some(ResizeDecision(ManagedHeadlessOutput, d.resolution.0, d.resolution.1))
    else None
  }

  /** `apply_presentation_state_with` once the layout was refreshed. */
  function Committed(d: Display, decision: ResizeDecision): Display {
    d.(unconfirmed := false, resolution := (decision.width, decision.height))
  }

  /** The object itself, with the sizes it reports in 16 bits. */
  class HyprDisplayInner {
    const physical: bool
    const fixed: bool
    const idle: Option<Dimensions>
    var width: nat
    var height: nat
    var resolution: Dimensions
    var closed: bool
    var outputSizeUnconfirmed: bool
    var pendingInitialResize: Option<Dimensions>

    constructor (physical: bool, fixed: bool, resolution: Dimensions)
      ensures View() == Display(physical, fixed, if physical then None else Some(resolution), resolution, false, false, None)
      ensures SizesAgree()
    {
      this.physical, this.fixed := physical, fixed;
      idle := if physical then None else Some(resolution);
      this.resolution := resolution;
      width, height := resolution.0 % 0x1_0000, resolution.1 % 0x1_0000;
      closed, outputSizeUnconfirmed, pendingInitialResize := false, false, None;
    }

    function View(): Display
      reads this
    {
      Display(physical, fixed, idle, resolution, closed, outputSizeUnconfirmed, pendingInitialResize)
    }

    ghost predicate SizesAgree()
      reads this
    {
      width == resolution.0 % 0x1_0000 && height == resolution.1 % 0x1_0000
    }

    method ApplyPresentationState(decision: ResizeDecision, refreshed: bool) returns (applied: Option<Dimensions>)
      requires SizesAgree()
      modifies this`outputSizeUnconfirmed, this`resolution, this`width, this`height
      ensures SizesAgree()
      ensures View() == if refreshed then Committed(old(View()), decision) else old(View())
      ensures applied == if refreshed then Some((width, height)) else None
    {
      if !refreshed {
        return None;
      }
      outputSizeUnconfirmed := false;
      resolution := (decision.width, decision.height);
      width, height := decision.width % 0x1_0000, decision.height % 0x1_0000;
      return Some((width, height));
    }

    /** The compositor answers whether it resized; then the layout answers whether it refreshed. */
    method ApplyResizeDecision(decision: ResizeDecision, resized: bool, refreshed: bool) returns (applied: Option<Dimensions>)
      requires SizesAgree()
      modifies this`outputSizeUnconfirmed, this`resolution, this`width, this`height
      ensures SizesAgree()
      ensures View() ==
              if decision.target.ManagedHeadlessOutput? then FinishManaged(BeginManaged(old(View())), decision, resized, refreshed)
              else if refreshed then Committed(old(View()), decision) else old(View())
      ensures applied.Some? <==> refreshed && (decision.target.ManagedHeadlessOutput? ==> resized)
    {
      match decision.target
      case ManagedHeadlessOutput =>
        outputSizeUnconfirmed := true;
        if !resized {
          return None;
        }
        applied := ApplyPresentationState(decision, refreshed);
      case PhysicalPresentation =>
        applied := ApplyPresentationState(decision, refreshed);
    }
  }

  /** From here until a commit the compositor's size is not known for sure. */
  function BeginManaged(d: Display): Display { d.(unconfirmed := true) }

  function FinishManaged(d: Display, decision: ResizeDecision, resized: bool, refreshed: bool): Display {
    if resized && refreshed then Committed(d, decision) else d
  }

  // ----- concurrent jobs

  datatype Job =
    | Initial(session: nat, client: Dimensions, cancelled: bool)
    | Layout(session: nat, monitors: seq<Monitor>)
    | Restore(ended: nat)
    | Shutdown

  datatype Phase =
    | Starting
    | AwaitingGate
    | Admitted                               // holds the gate
    | Checking(decision: ResizeDecision)     // worker, holds the gate
    | Resizing(decision: ResizeDecision)     // worker, compositor call in flight
    | Preparing(decision: ResizeDecision)    // worker, output has the size
    | Returned(decision: ResizeDecision)     // worker finished, request may commit
    | LockedResizing(decision: ResizeDecision)  // holds gate and lock, compositor call in flight
    | Refreshing(decision: ResizeDecision)   // holds gate and lock, output has the size
    | Finished
  {
    predicate HoldsGate() { !Starting? && !AwaitingGate? && !Finished? }
    predicate HoldsLock() { LockedResizing? || Refreshing? }
    predicate CompositorBusy() { Resizing? || LockedResizing? }
    /** The compositor reported the decided size. */
    predicate Reached() { Preparing? || Returned? || Refreshing? }
    predicate HasDecision() { Checking? || CompositorBusy() || Reached() }
  }

  datatype Task = Task(job: Job, phase: Phase)

  datatype World = World(
    display: Display, epoch: nat, tasks: seq<Task>, gate: Option<nat>, lock: Option<nat>,
    compositor: Dimensions, outputPresent: bool, committer: nat)

  datatype Step =
    | SessionStarts
    | Spawn(job: Job)
    | Enter(i: nat)
    | Acquire(i: nat)
    | Decide(i: nat, source: Option<Dimensions>, rounding: Rounding)
    | Check(i: nat)
    | CompositorAnswers(i: nat, resized: bool, size: Dimensions)
    | LayoutAnswers(i: nat, ok: bool)
    | Commit(i: nat)
    | Cancel(i: nat)
    | Remove(i: nat)

  function SetPhase(w: World, i: nat, p: Phase): World
    requires i < |w.tasks|
  {
    w.(tasks := w.tasks[i := w.tasks[i].(phase := p)])
  }

  /** The job ends and gives up what it holds. */
  function Finish(w: World, i: nat): World
    requires i < |w.tasks|
  {
    SetPhase(w, i, Finished).(
      gate := if w.gate == Some(i) then None else w.gate,
      lock := if w.lock == Some(i) then None else w.lock)
  }

  /** The session a request belongs to started before the request; a restore is for a past or current one. */
  predicate JobPossible(w: World, job: Job) {
    match job
    case Initial(session, _, cancelled) => session <= w.epoch && !cancelled
    case Layout(session, monitors) => session <= w.epoch && monitors != []
    case Restore(ended) => ended <= w.epoch
    case Shutdown => true
  }

  predicate Enabled(w: World, step: Step) {
    match step
    case SessionStarts => true
    case Spawn(job) => JobPossible(w, job)
    case Enter(i) => i < |w.tasks| && w.tasks[i].phase.Starting? && (w.tasks[i].job.Shutdown? ==> w.lock == None)
    case Acquire(i) => i < |w.tasks| && w.tasks[i].phase.AwaitingGate? && w.gate == None
    case Decide(i, _, _) => i < |w.tasks| && w.tasks[i].phase.Admitted? && !w.tasks[i].job.Shutdown? && w.lock == None
    case Check(i) => i < |w.tasks| && w.tasks[i].phase.Checking? && w.lock == None
    case CompositorAnswers(i, _, _) => i < |w.tasks| && w.tasks[i].phase.CompositorBusy()
    case LayoutAnswers(i, _) => i < |w.tasks| && (w.tasks[i].phase.Preparing? || w.tasks[i].phase.Refreshing?)
    case Commit(i) => i < |w.tasks| && w.tasks[i].phase.Returned? && w.lock == None
    case Cancel(i) => i < |w.tasks| && w.tasks[i].job.Initial? && !w.tasks[i].phase.Finished?
    case Remove(i) => i < |w.tasks| && w.tasks[i].phase.Admitted? && w.tasks[i].job.Shutdown? && w.lock == None
  }

  /** What the job wants, once it may look at the display. */
  function Wanted(w: World, job: Job, source: Option<Dimensions>, rounding: Rounding): Option<ResizeDecision> {
    var d := w.display;
    match job
    case Initial(_, client, _) =>
      Reconcile(d, InitialSizeDecision(d.physical, d.fixed, d.resolution, client, source, rounding))
    case Layout(_, monitors) =>
      Reconcile(d, DisplayControlDecision(monitors, d.physical, d.fixed, d.resolution, source, rounding))
    case Restore(ended) =>
      if w.epoch != ended || d.idle.None? || (d.resolution == d.idle.value && !d.unconfirmed) then None
      else Some(ResizeDecision(ManagedHeadlessOutput, d.idle.value.0, d.idle.value.1))
    case Shutdown => None
  }

  function DecideStep(w: World, i: nat, source: Option<Dimensions>, rounding: Rounding): World
    requires i < |w.tasks|
  {
    var wanted := Wanted(w, w.tasks[i].job, source, rounding);
    if w.display.closed || wanted.None? then Finish(w, i)
    else
      var managed := wanted.value.target.ManagedHeadlessOutput?;
      var begun := if managed then w.(display := BeginManaged(w.display)) else w;
      if w.tasks[i].job.Initial? then SetPhase(begun, i, Checking(wanted.value))
      else SetPhase(begun, i, if managed then LockedResizing(wanted.value) else Refreshing(wanted.value)).(lock := Some(i))
  }

  /** A job that commits leaves its mark; a restore also drops a resize that was waiting to be sent. */
  function CommitDisplay(w: World, i: nat, decision: ResizeDecision): World
    requires i < |w.tasks|
  {
    var d := Committed(w.display, decision);
    match w.tasks[i].job
    case Initial(session, _, _) => w.(display := d.(pendingInitial := Some(d.resolution)), committer := session)
    case Layout(session, _) => w.(display := d, committer := session)
    case Restore(_) => w.(display := d.(pendingInitial := None))
    case Shutdown => w
  }

  function Apply(w: World, step: Step): World
    requires Enabled(w, step)
  {
    match step
    case SessionStarts => w.(epoch := w.epoch + 1)
    case Spawn(job) => w.(tasks := w.tasks + [Task(job, Starting)])
    case Enter(i) =>
      SetPhase(if w.tasks[i].job.Shutdown? then w.(display := w.display.(closed := true)) else w, i, AwaitingGate)
    case Acquire(i) => SetPhase(w, i, Admitted).(gate := Some(i))
    case Decide(i, source, rounding) => DecideStep(w, i, source, rounding)
    case Check(i) =>
      var decision := w.tasks[i].phase.decision;
      if w.display.closed then Finish(w, i)
      else SetPhase(w, i, if decision.target.ManagedHeadlessOutput? then Resizing(decision) else Preparing(decision))
    case CompositorAnswers(i, resized, size) =>
      // A failure or a panic may leave any size behind.
      var decision := w.tasks[i].phase.decision;
      var after := w.(compositor := if resized then (decision.width, decision.height) else size);
      if !resized then Finish(after, i)
      else SetPhase(after, i, if w.tasks[i].phase.Resizing? then Preparing(decision) else Refreshing(decision))
    case LayoutAnswers(i, ok) =>
      var decision := w.tasks[i].phase.decision;
      if !ok then Finish(w, i)
      else if w.tasks[i].phase.Refreshing? then Finish(CommitDisplay(w, i, decision), i)
      else if w.tasks[i].job.Initial? && w.tasks[i].job.cancelled then Finish(w, i)
      else SetPhase(w, i, Returned(decision))
    case Commit(i) =>
      if w.display.closed then Finish(w, i) else Finish(CommitDisplay(w, i, w.tasks[i].phase.decision), i)
    case Cancel(i) =>
      var p := w.tasks[i].phase;
      if p.Checking? || p.Resizing? || p.Preparing? then w.(tasks := w.tasks[i := w.tasks[i].(job := w.tasks[i].job.(cancelled := true))])
      else Finish(w, i)
    case Remove(i) => Finish(w.(outputPresent := false), i)
  }

  // ----- what every step keeps

  /** Gate and lock are held by whom the phase says so; phases are only entered by the jobs that reach them. */
  ghost predicate HoldsWhatItSays(w: World, i: nat)
    requires i < |w.tasks|
  {
    var t := w.tasks[i];
    && (t.phase.HoldsGate() <==> w.gate == Some(i))
    && (t.phase.HoldsLock() <==> w.lock == Some(i))
    && (t.phase.HasDecision() && !t.phase.HoldsLock() ==> t.job.Initial?)
    && (t.phase.HoldsLock() ==> t.job.Layout? || t.job.Restore?)
    && JobFromThePast(t.job, w.epoch)
  }

  predicate JobFromThePast(job: Job, epoch: nat) {
    match job
    case Initial(session, _, _) => session <= epoch
    case Layout(session, _) => session <= epoch
    case Restore(ended) => ended <= epoch
    case Shutdown => true
  }

  /** What a task in the middle of a resize relies on. */
  ghost predicate ResizeInOrder(w: World, i: nat)
    requires i < |w.tasks|
  {
    var t := w.tasks[i];
    && (t.phase.HasDecision() ==> (t.phase.decision.target.ManagedHeadlessOutput? <==> !w.display.physical))
    && (t.phase.HasDecision() && !w.display.physical ==> w.display.unconfirmed)
    && (t.phase.Reached() && !w.display.physical ==> w.compositor == (t.phase.decision.width, t.phase.decision.height))
    && (t.phase.CompositorBusy() ==> !w.display.physical && w.outputPresent)
    && (t.phase.HoldsLock() ==> !w.display.closed)
    && (t.phase.HoldsLock() && t.job.Restore? ==>
          w.committer <= t.job.ended && w.display.idle == Some((t.phase.decision.width, t.phase.decision.height)))
    && (t.job.Shutdown? && !t.phase.Starting? ==> w.display.closed)
  }

  ghost predicate TasksInOrder(w: World) {
    forall i :: 0 <= i < |w.tasks| ==> HoldsWhatItSays(w, i) && ResizeInOrder(w, i)
  }

  /** A size that is not marked unconfirmed is the compositor's size. */
  ghost predicate SizeConfirmed(w: World) {
    !w.display.physical && !w.display.unconfirmed ==> w.compositor == w.display.resolution
  }

  ghost predicate Inv(w: World) {
    && TasksInOrder(w)
    && SizeConfirmed(w)
    && (w.gate.Some? ==> w.gate.value < |w.tasks|)
    && (w.lock.Some? ==> w.lock.value < |w.tasks|)
    && (w.display.physical ==> w.display.idle == None)
    && (!w.outputPresent ==> w.display.closed)
    && w.committer <= w.epoch
  }

  /** A display as `HyprDisplay::new` leaves it: the compositor has the configured size. */
  ghost predicate Fresh(w: World) {
    && w.tasks == [] && w.gate == None && w.lock == None
    && !w.display.closed && !w.display.unconfirmed && w.outputPresent && w.committer <= w.epoch
    && (w.display.physical ==> w.display.idle == None)
    && (!w.display.physical ==> w.compositor == w.display.resolution)
  }

  lemma FreshIsInOrder(w: World)
    requires Fresh(w)
    ensures Inv(w)
  {
  }

  /** Everything a step by task `i` leaves as it was for the other tasks. */
  lemma OthersWait(w: World, i: nat, k: nat)
    requires Inv(w) && i < |w.tasks| && k < |w.tasks| && k != i && w.tasks[i].phase.HoldsGate()
    ensures !w.tasks[k].phase.HoldsGate() && !w.tasks[k].phase.HasDecision()
  {
    assert HoldsWhatItSays(w, i) && HoldsWhatItSays(w, k);
  }

  /** A step by the holder of the gate keeps order if the holder itself stays in order. */
  lemma HolderKeepsOrder(w: World, w': World, i: nat)
    requires Inv(w) && i < |w.tasks| && w.tasks[i].phase.HoldsGate()
    requires |w'.tasks| == |w.tasks| && (forall k :: 0 <= k < |w.tasks| && k != i ==> w'.tasks[k] == w.tasks[k])
    requires w'.epoch == w.epoch && w'.display.physical == w.display.physical && w'.display.idle == w.display.idle
    requires HoldsWhatItSays(w', i) && ResizeInOrder(w', i)
    requires w.display.closed ==> w'.display.closed
    requires w'.gate == None || w'.gate == Some(i)
    requires w'.lock == (if w.lock == Some(i) then None else w.lock) || w'.lock == w.lock || (w.lock == None && w'.lock == Some(i))
    requires w'.lock == Some(i) ==> w'.tasks[i].phase.HoldsLock()
    requires SizeConfirmed(w') && (!w'.outputPresent ==> w'.display.closed) && w'.committer <= w'.epoch
    ensures Inv(w')
  {
    forall k | 0 <= k < |w'.tasks|
      ensures HoldsWhatItSays(w', k) && ResizeInOrder(w', k)
    {
      assert HoldsWhatItSays(w, k) && ResizeInOrder(w, k);
      if k != i {
        OthersWait(w, i, k);
      }
    }
  }

  /** A decision names the target that the kind of output calls for. */
  lemma WantedTarget(w: World, job: Job, source: Option<Dimensions>, rounding: Rounding)
    requires w.display.physical ==> w.display.idle == None
    ensures Wanted(w, job, source, rounding).Some? ==>
              (Wanted(w, job, source, rounding).value.target.ManagedHeadlessOutput? <==> !w.display.physical)
  {
  }

  lemma DecideKeepsOrder(w: World, i: nat, source: Option<Dimensions>, rounding: Rounding)
    requires Inv(w) && Enabled(w, Decide(i, source, rounding))
    ensures Inv(Apply(w, Decide(i, source, rounding)))
  {
    assert HoldsWhatItSays(w, i) && ResizeInOrder(w, i);
    WantedTarget(w, w.tasks[i].job, source, rounding);
    hide Reconcile, InitialSizeDecision, DisplayControlDecision;
    HolderKeepsOrder(w, DecideStep(w, i, source, rounding), i);
  }

  lemma CheckKeepsOrder(w: World, i: nat)
    requires Inv(w) && Enabled(w, Check(i))
    ensures Inv(Apply(w, Check(i)))
  {
    assert HoldsWhatItSays(w, i) && ResizeInOrder(w, i);
    HolderKeepsOrder(w, Apply(w, Check(i)), i);
  }

  lemma CompositorKeepsOrder(w: World, i: nat, resized: bool, size: Dimensions)
    requires Inv(w) && Enabled(w, CompositorAnswers(i, resized, size))
    ensures Inv(Apply(w, CompositorAnswers(i, resized, size)))
  {
    assert HoldsWhatItSays(w, i) && ResizeInOrder(w, i);
    HolderKeepsOrder(w, Apply(w, CompositorAnswers(i, resized, size)), i);
  }

  lemma LayoutKeepsOrder(w: World, i: nat, ok: bool)
    requires Inv(w) && Enabled(w, LayoutAnswers(i, ok))
    ensures Inv(Apply(w, LayoutAnswers(i, ok)))
  {
    assert HoldsWhatItSays(w, i) && ResizeInOrder(w, i);
    HolderKeepsOrder(w, Apply(w, LayoutAnswers(i, ok)), i);
  }

  lemma CommitKeepsOrder(w: World, i: nat)
    requires Inv(w) && Enabled(w, Commit(i))
    ensures Inv(Apply(w, Commit(i)))
  {
    assert HoldsWhatItSays(w, i) && ResizeInOrder(w, i);
    HolderKeepsOrder(w, Apply(w, Commit(i)), i);
  }

  /** Removing the output finds no compositor call in flight: the gate is the remover's. */
  lemma RemoveKeepsOrder(w: World, i: nat)
    requires Inv(w) && Enabled(w, Remove(i))
    ensures Inv(Apply(w, Remove(i)))
    ensures forall k :: 0 <= k < |w.tasks| ==> !w.tasks[k].phase.CompositorBusy()
  {
    assert HoldsWhatItSays(w, i) && ResizeInOrder(w, i);
    forall k | 0 <= k < |w.tasks|
      ensures !w.tasks[k].phase.CompositorBusy()
    {
      if k != i {
        OthersWait(w, i, k);
      }
    }
    HolderKeepsOrder(w, Apply(w, Remove(i)), i);
  }

  lemma CancelKeepsOrder(w: World, i: nat)
    requires Inv(w) && Enabled(w, Cancel(i))
    ensures Inv(Apply(w, Cancel(i)))
  {
    assert HoldsWhatItSays(w, i) && ResizeInOrder(w, i);
    if w.tasks[i].phase.HoldsGate() {
      HolderKeepsOrder(w, Apply(w, Cancel(i)), i);
    } else {
      WaitingMoves(w, Apply(w, Cancel(i)), i);
    }
  }

  /** A task without the gate changes only its own phase, and perhaps closes the display. */
  lemma WaitingMoves(w: World, w': World, i: nat)
    requires Inv(w) && i < |w.tasks| && !w.tasks[i].phase.HoldsGate()
    requires |w'.tasks| == |w.tasks| && (forall k :: 0 <= k < |w.tasks| && k != i ==> w'.tasks[k] == w.tasks[k])
    requires w'.tasks[i].job == w.tasks[i].job && !w'.tasks[i].phase.HoldsGate() && w'.tasks[i].phase != Starting
    requires w' == w.(tasks := w'.tasks, display := w'.display) && w.gate != Some(i)
    requires w'.display == if w.tasks[i].job.Shutdown? then w.display.(closed := true) else w.display
    requires w.tasks[i].job.Shutdown? && w.tasks[i].phase.Starting? ==> w.lock == None
    requires w.tasks[i].job.Shutdown? && !w.tasks[i].phase.Starting? ==> w.display.closed
    ensures Inv(w')
  {
    forall k | 0 <= k < |w'.tasks|
      ensures HoldsWhatItSays(w', k) && ResizeInOrder(w', k)
    {
      assert HoldsWhatItSays(w, k) && ResizeInOrder(w, k);
      assert HoldsWhatItSays(w, i) && ResizeInOrder(w, i);
    }
  }

  lemma EnterKeepsOrder(w: World, i: nat)
    requires Inv(w) && Enabled(w, Enter(i))
    ensures Inv(Apply(w, Enter(i)))
  {
    assert HoldsWhatItSays(w, i) && ResizeInOrder(w, i);
    WaitingMoves(w, Apply(w, Enter(i)), i);
  }

  lemma AcquireKeepsOrder(w: World, i: nat)
    requires Inv(w) && Enabled(w, Acquire(i))
    ensures Inv(Apply(w, Acquire(i)))
  {
    var w' := Apply(w, Acquire(i));
    forall k | 0 <= k < |w'.tasks|
      ensures HoldsWhatItSays(w', k) && ResizeInOrder(w', k)
    {
      assert HoldsWhatItSays(w, k) && ResizeInOrder(w, k);
    }
  }

  lemma ArrivalKeepsOrder(w: World, step: Step)
    requires Inv(w) && Enabled(w, step) && (step.SessionStarts? || step.Spawn?)
    ensures Inv(Apply(w, step))
  {
    var w' := Apply(w, step);
    forall k | 0 <= k < |w'.tasks|
      ensures HoldsWhatItSays(w', k) && ResizeInOrder(w', k)
    {
      if k < |w.tasks| {
        assert HoldsWhatItSays(w, k) && ResizeInOrder(w, k);
      }
    }
  }

  lemma StepKeepsOrder(w: World, step: Step)
    requires Inv(w) && Enabled(w, step)
    ensures Inv(Apply(w, step))
  {
    match step
    case SessionStarts => ArrivalKeepsOrder(w, step);
    case Spawn(_) => ArrivalKeepsOrder(w, step);
    case Enter(i) => EnterKeepsOrder(w, i);
    case Acquire(i) => AcquireKeepsOrder(w, i);
    case Decide(i, source, rounding) => DecideKeepsOrder(w, i, source, rounding);
    case Check(i) => CheckKeepsOrder(w, i);
    case CompositorAnswers(i, resized, size) => CompositorKeepsOrder(w, i, resized, size);
    case LayoutAnswers(i, ok) => LayoutKeepsOrder(w, i, ok);
    case Commit(i) => CommitKeepsOrder(w, i);
    case Cancel(i) => CancelKeepsOrder(w, i);
    case Remove(i) => RemoveKeepsOrder(w, i);
  }

  // ----- whole runs

  ghost predicate Possible(w: World, steps: seq<Step>)
    decreases |steps|
  {
    steps == [] || (Enabled(w, steps[0]) && Possible(Apply(w, steps[0]), steps[1..]))
  }

  ghost function After(w: World, steps: seq<Step>): World
    requires Possible(w, steps)
    decreases |steps|
  {
    if steps == [] then w else After(Apply(w, steps[0]), steps[1..])
  }

  lemma {:induction false} RunKeepsOrder(w: World, steps: seq<Step>)
    requires Inv(w) && Possible(w, steps)
    ensures Inv(After(w, steps)) && |w.tasks| <= |After(w, steps).tasks|
    decreases |steps|
  {
    hide Apply, Enabled, Inv;
    if steps == [] {
    } else {
      StepKeepsOrder(w, steps[0]);
      TasksStay(w, steps[0]);
      RunKeepsOrder(Apply(w, steps[0]), steps[1..]);
    }
  }

  lemma TasksStay(w: World, step: Step)
    requires Enabled(w, step)
    ensures |w.tasks| <= |Apply(w, step).tasks|
  {
  }

  /**
   From a new display on, in every interleaving of requests, restores, cancellations, failures, panics and
   shutdown on a managed output: unless the size is marked unconfirmed, the compositor has the published
   size.
   */
  lemma EveryRunKeepsSizeConfirmed(w: World, steps: seq<Step>)
    requires Fresh(w) && Possible(w, steps)
    ensures Inv(After(w, steps)) && SizeConfirmed(After(w, steps))
  {
    FreshIsInOrder(w);
    RunKeepsOrder(w, steps);
  }

  /**
   While the size is unconfirmed, the next request that gets to decide on an open managed output starts
   a resize, even one that asks for the size already published or for none at all.
   */
  lemma UnconfirmedIsDecided(w: World, i: nat, source: Option<Dimensions>, rounding: Rounding)
    requires Inv(w) && Enabled(w, Decide(i, source, rounding))
    requires !w.display.physical && w.display.unconfirmed && !w.display.closed
    requires w.tasks[i].job.Restore? ==> w.tasks[i].job.ended == w.epoch && w.display.idle.Some?
    ensures var p := Apply(w, Decide(i, source, rounding)).tasks[i].phase;
            (p.Checking? || p.LockedResizing?) && p.decision.target.ManagedHeadlessOutput?
  {
    assert HoldsWhatItSays(w, i) && ResizeInOrder(w, i);
  }

  /** The worker that follows then does call the compositor, unless the display was closed meanwhile. */
  lemma CheckedWorkerResizes(w: World, i: nat)
    requires Inv(w) && Enabled(w, Check(i)) && w.tasks[i].phase.decision.target.ManagedHeadlessOutput? && !w.display.closed
    ensures Apply(w, Check(i)).tasks[i].phase == Resizing(w.tasks[i].phase.decision)
  {
  }

  /** Task `i` was admitted while the size is unconfirmed, and the compositor has not answered it yet. */
  ghost predicate Repairing(w: World, i: nat) {
    && i < |w.tasks| && !w.display.physical && w.display.unconfirmed && !w.tasks[i].job.Shutdown?
    && (w.tasks[i].job.Restore? ==> w.tasks[i].job.ended == w.epoch && w.display.idle.Some?)
    && (w.tasks[i].phase.Admitted? || w.tasks[i].phase.Checking? || w.tasks[i].phase.CompositorBusy())
  }

  /** What excuses a request: the compositor answered, it was cancelled, or a newer session began. */
  predicate Excuses(step: Step, job: Job, i: nat) {
    || (step.CompositorAnswers? && step.i == i)
    || step == Cancel(i)
    || (job.Restore? && step.SessionStarts?)
  }

  lemma RepairGoesOn(w: World, step: Step, i: nat)
    requires Inv(w) && Enabled(w, step) && Repairing(w, i) && !w.display.closed
    requires !Excuses(step, w.tasks[i].job, i)
    ensures Repairing(Apply(w, step), i) && Apply(w, step).tasks[i].job == w.tasks[i].job
  {
    assert HoldsWhatItSays(w, i) && ResizeInOrder(w, i);
    if step == Check(i) {
      CheckedWorkerResizes(w, i);
    } else if step.Decide? && step.i == i {
      UnconfirmedIsDecided(w, i, step.source, step.rounding);
    } else {
      OthersKeepRepair(w, step, i);
    }
  }

  /** No other task can decide or commit meanwhile. */
  lemma OthersKeepRepair(w: World, step: Step, i: nat)
    requires Inv(w) && Enabled(w, step) && Repairing(w, i) && !Excuses(step, w.tasks[i].job, i)
    requires step != Check(i) && !(step.Decide? && step.i == i)
    ensures Repairing(Apply(w, step), i) && Apply(w, step).tasks[i].job == w.tasks[i].job
  {
    assert HoldsWhatItSays(w, i);
    if !step.SessionStarts? && !step.Spawn? && step.i != i {
      OthersWait(w, i, step.i);
    }
  }

  /**
   A request that is admitted while the size is unconfirmed does not give up the gate without a compositor
   call, in any run, unless the display was closed, the request was cancelled, or it is a restore and a newer
   session began.
   */
  lemma {:induction false} UnconfirmedIsRepaired(w: World, steps: seq<Step>, i: nat)
    requires Inv(w) && Possible(w, steps) && Repairing(w, i)
    ensures i < |After(w, steps).tasks|
    ensures After(w, steps).tasks[i].phase.HoldsGate() || After(w, steps).display.closed ||
            exists k :: 0 <= k < |steps| && Excuses(steps[k], w.tasks[i].job, i)
    decreases |steps|
  {
    RunKeepsOrder(w, steps);
    hide Apply, Enabled, Inv;
    if steps == [] {
    } else if w.display.closed {
      ClosedRunCommitsNothing(w, steps);
    } else if !Excuses(steps[0], w.tasks[i].job, i) {
      var w' := Apply(w, steps[0]);
      StepKeepsOrder(w, steps[0]);
      RepairGoesOn(w, steps[0], i);
      UnconfirmedIsRepaired(w', steps[1..], i);
      if !After(w, steps).tasks[i].phase.HoldsGate() && !After(w, steps).display.closed {
        var k :| 0 <= k < |steps[1..]| && Excuses(steps[1..][k], w.tasks[i].job, i);
        assert steps[k + 1] == steps[1..][k];
      }
    }
  }

  // ----- requests take effect

  /** The display has the decided size, confirmed, and bears the mark of the job that brought it there. */
  ghost predicate Effective(w: World, job: Job, d: ResizeDecision) {
    && w.display.resolution == (d.width, d.height) && !w.display.unconfirmed
    && (!w.display.physical ==> w.compositor == (d.width, d.height))
    && match job
       case Initial(session, _, _) => w.display.pendingInitial == Some((d.width, d.height)) && w.committer == session
       case Layout(session, _) => w.committer == session
       case Restore(_) => w.display.pendingInitial == None
       case Shutdown => false
  }

  /** A commit on an open display publishes the decided size, and frees the gate. */
  lemma CommitTakesEffect(w: World, i: nat)
    requires Inv(w) && Enabled(w, Commit(i)) && !w.display.closed
    ensures var w' := Apply(w, Commit(i));
            Effective(w', w.tasks[i].job, w.tasks[i].phase.decision) && w'.gate == None && w'.tasks[i].phase == Finished
  {
    assert HoldsWhatItSays(w, i) && ResizeInOrder(w, i);
  }

  /** So does a refreshed layout of a layout request or a restore, which holds the lock. */
  lemma RefreshTakesEffect(w: World, i: nat)
    requires Inv(w) && Enabled(w, LayoutAnswers(i, true)) && w.tasks[i].phase.Refreshing?
    ensures var w' := Apply(w, LayoutAnswers(i, true));
            && Effective(w', w.tasks[i].job, w.tasks[i].phase.decision)
            && w'.gate == None && w'.lock == None && w'.tasks[i].phase == Finished
  {
    assert HoldsWhatItSays(w, i) && ResizeInOrder(w, i);
  }

  /** No other step publishes a size. */
  lemma OnlyCommitsPublish(w: World, step: Step)
    requires Inv(w) && Enabled(w, step)
    requires Apply(w, step).display.resolution != w.display.resolution
    ensures step.Commit? || (step.LayoutAnswers? && step.ok && w.tasks[step.i].phase.Refreshing?)
    ensures !w.display.closed && Effective(Apply(w, step), w.tasks[step.i].job, w.tasks[step.i].phase.decision)
  {
    if step.Commit? {
      CommitTakesEffect(w, step.i);
    } else if step.LayoutAnswers? && step.ok && w.tasks[step.i].phase.Refreshing? {
      assert ResizeInOrder(w, step.i);
      RefreshTakesEffect(w, step.i);
    } else {
      NothingPublished(w, step);
    }
  }

  lemma NothingPublished(w: World, step: Step)
    requires Enabled(w, step) && !step.Commit? && !(step.LayoutAnswers? && step.ok && w.tasks[step.i].phase.Refreshing?)
    ensures Apply(w, step).display.resolution == w.display.resolution
  {
    hide Wanted, CommitDisplay;
  }

  /** No answer to task `i` fails, and it is not cancelled. */
  predicate Favours(step: Step, i: nat) {
    && !(step.CompositorAnswers? && step.i == i && !step.resized)
    && !(step.LayoutAnswers? && step.i == i && !step.ok)
    && step != Cancel(i)
  }

  /** At some point of the run the job's decision has taken effect. */
  ghost predicate Sometime(w: World, steps: seq<Step>, job: Job, d: ResizeDecision)
    requires Possible(w, steps)
    decreases |steps|
  {
    steps != [] && (Effective(Apply(w, steps[0]), job, d) || Sometime(Apply(w, steps[0]), steps[1..], job, d))
  }

  /** What task `i` wants when it first gets to decide. */
  ghost function Choice(w: World, steps: seq<Step>, i: nat): Option<Option<ResizeDecision>>
    requires Possible(w, steps)
    decreases |steps|
  {
    if steps == [] then None
    else if steps[0].Decide? && steps[0].i == i then Some(Wanted(w, w.tasks[i].job, steps[0].source, steps[0].rounding))
    else Choice(Apply(w, steps[0]), steps[1..], i)
  }

  ghost predicate Ongoing(w: World, i: nat) {
    && i < |w.tasks| && !w.tasks[i].job.Shutdown? && w.tasks[i].phase.HoldsGate()
    && (w.tasks[i].job.Initial? ==> !w.tasks[i].job.cancelled)
  }

  /** A step of another task leaves a task that holds the gate as it is. */
  lemma OthersLeaveIt(w: World, step: Step, i: nat)
    requires Inv(w) && Enabled(w, step) && Ongoing(w, i)
    requires step.SessionStarts? || step.Spawn? || step.i != i
    ensures i < |Apply(w, step).tasks| && Apply(w, step).tasks[i] == w.tasks[i]
  {
    hide Wanted, Inv, DecideStep, CommitDisplay;
    match step
    case Decide(j, source, rounding) => DecideLeavesOthers(w, j, source, rounding);
    case LayoutAnswers(j, _) => CommitLeavesTasks(w, j, w.tasks[j].phase.decision);
    case Commit(j) => CommitLeavesTasks(w, j, w.tasks[j].phase.decision);
    case _ =>
  }

  lemma DecideLeavesOthers(w: World, j: nat, source: Option<Dimensions>, rounding: Rounding)
    requires j < |w.tasks|
    ensures var tasks := DecideStep(w, j, source, rounding).tasks;
            |tasks| == |w.tasks| && forall i :: 0 <= i < |tasks| && i != j ==> tasks[i] == w.tasks[i]
  {
    hide Wanted;
  }

  lemma CommitLeavesTasks(w: World, j: nat, decision: ResizeDecision)
    requires j < |w.tasks|
    ensures CommitDisplay(w, j, decision).tasks == w.tasks
  {
  }

  /** A step of a decided task itself either goes on or takes effect, if it is favourable and the display open. */
  lemma DecidedGoesOn(w: World, step: Step, i: nat)
    requires Inv(w) && Enabled(w, step) && Ongoing(w, i) && w.tasks[i].phase.HasDecision() && !w.display.closed
    requires !step.SessionStarts? && !step.Spawn? && step.i == i && Favours(step, i)
    ensures var w' := Apply(w, step);
            && w'.tasks[i].job == w.tasks[i].job
            && if w'.tasks[i].phase.HasDecision() then w'.tasks[i].phase.decision == w.tasks[i].phase.decision
               else w'.tasks[i].phase == Finished && Effective(w', w.tasks[i].job, w.tasks[i].phase.decision)
  {
    assert HoldsWhatItSays(w, i) && ResizeInOrder(w, i);
    if step.Commit? {
      CommitTakesEffect(w, i);
    } else if step.LayoutAnswers? && w.tasks[i].phase.Refreshing? {
      RefreshTakesEffect(w, i);
    }
  }

  lemma {:induction false} DecidedTakesEffect(w: World, steps: seq<Step>, i: nat)
    requires Inv(w) && Possible(w, steps) && Ongoing(w, i) && w.tasks[i].phase.HasDecision()
    requires forall k :: 0 <= k < |steps| ==> Favours(steps[k], i)
    requires !After(w, steps).display.closed
    ensures i < |After(w, steps).tasks|
    ensures After(w, steps).tasks[i].phase.Finished? ==> Sometime(w, steps, w.tasks[i].job, w.tasks[i].phase.decision)
    decreases |steps|
  {
    RunKeepsOrder(w, steps);
    StaysOpen(w, steps);
    hide Apply, Enabled, Inv, Effective;
    if steps == [] {
    } else {
      var w' := Apply(w, steps[0]);
      StepKeepsOrder(w, steps[0]);
      if steps[0].SessionStarts? || steps[0].Spawn? || steps[0].i != i {
        OthersLeaveIt(w, steps[0], i);
        DecidedTakesEffect(w', steps[1..], i);
      } else {
        assert Favours(steps[0], i);
        DecidedGoesOn(w, steps[0], i);
        if w'.tasks[i].phase.HasDecision() {
          DecidedTakesEffect(w', steps[1..], i);
        }
      }
    }
  }

  lemma StaysOpen(w: World, steps: seq<Step>)
    requires Inv(w) && Possible(w, steps) && !After(w, steps).display.closed
    ensures !w.display.closed
  {
    if w.display.closed {
      ClosedRunCommitsNothing(w, steps);
    }
  }

  /**
   Requests take effect: in every run, a request that was admitted and has finished, was not cancelled and met
   with no failure on a display that is still open, has decided; and if it wanted a size, that size was
   published, confirmed by the compositor and marked as its own.
   */
  lemma {:induction false} RequestTakesEffect(w: World, steps: seq<Step>, i: nat)
    requires Inv(w) && Possible(w, steps) && Ongoing(w, i) && w.tasks[i].phase.Admitted?
    requires forall k :: 0 <= k < |steps| ==> Favours(steps[k], i)
    requires !After(w, steps).display.closed
    ensures i < |After(w, steps).tasks|
    ensures After(w, steps).tasks[i].phase.Finished? ==>
              && Choice(w, steps, i).Some?
              && (Choice(w, steps, i).value.Some? ==> Sometime(w, steps, w.tasks[i].job, Choice(w, steps, i).value.value))
    decreases |steps|
  {
    RunKeepsOrder(w, steps);
    StaysOpen(w, steps);
    if steps == [] {
    } else {
      var w' := Apply(w, steps[0]);
      StepKeepsOrder(w, steps[0]);
      if steps[0].SessionStarts? || steps[0].Spawn? || steps[0].i != i {
        OthersLeaveIt(w, steps[0], i);
        RequestTakesEffect(w', steps[1..], i);
      } else {
        assert Favours(steps[0], i);
        AdmittedDecides(w, steps[0], i);
        if Wanted(w, w.tasks[i].job, steps[0].source, steps[0].rounding).Some? {
          DecidedTakesEffect(w', steps[1..], i);
        }
      }
    }
  }

  /** The size a request asks for. */
  ghost predicate Asks(job: Job, size: Dimensions) {
    match job
    case Initial(_, client, _) => client == size
    case Layout(_, monitors) => exists k: nat :: Leads(monitors, k) && (monitors[k].width, monitors[k].height) == size
    case _ => false
  }

  /** On an output that may change, a size it can have is wanted, unless the output has it already, confirmed. */
  lemma AskedIsWanted(w: World, job: Job, size: Dimensions, source: Option<Dimensions>, rounding: Rounding)
    requires !w.display.physical && !w.display.fixed && Asks(job, size) && Showable(size)
    ensures Wanted(w, job, source, rounding) ==
            if size != w.display.resolution || w.display.unconfirmed then Some(ResizeDecision(ManagedHeadlessOutput, size.0, size.1)) else None
  {
    var current := w.display.resolution;
    if job.Initial? {
      ManagedGetsWhatFits(false, current, size, source, rounding);
    } else {
      var k: nat :| Leads(job.monitors, k) && (job.monitors[k].width, job.monitors[k].height) == size;
      LayoutFollowsPrimary(job.monitors, k, false, current, source, rounding);
    }
    hide InitialSizeDecision, DisplayControlDecision, Showable;
  }

  /** At some point of the run the output has this size, the compositor's, and it is confirmed. */
  ghost predicate Shown(w: World, steps: seq<Step>, size: Dimensions)
    requires Possible(w, steps)
    decreases |steps|
  {
    || (w.display.resolution == size && !w.display.unconfirmed && w.compositor == size)
    || (steps != [] && Shown(Apply(w, steps[0]), steps[1..], size))
  }

  lemma {:induction false} EffectIsShown(w: World, steps: seq<Step>, job: Job, d: ResizeDecision)
    requires Possible(w, steps) && Sometime(w, steps, job, d) && !w.display.physical
    ensures Shown(w, steps, (d.width, d.height))
    decreases |steps|
  {
    SameOutput(w, steps[0]);
    hide Apply;
    if !Effective(Apply(w, steps[0]), job, d) {
      EffectIsShown(Apply(w, steps[0]), steps[1..], job, d);
    } else {
      assert Shown(Apply(w, steps[0]), steps[1..], (d.width, d.height));
    }
  }

  /** No step turns the output into another. */
  lemma SameOutput(w: World, step: Step)
    requires Enabled(w, step)
    ensures SameKind(Apply(w, step), w)
  {
    hide Wanted, DecideStep, CommitDisplay;
    match step
    case Decide(i, source, rounding) => DecideSameOutput(w, i, source, rounding);
    case LayoutAnswers(i, ok) => CommitSameOutput(w, i, w.tasks[i].phase.decision);
    case Commit(i) => CommitSameOutput(w, i, w.tasks[i].phase.decision);
    case _ =>
  }

  ghost predicate SameKind(a: World, b: World) {
    a.display.physical == b.display.physical && a.display.fixed == b.display.fixed
  }

  lemma DecideSameOutput(w: World, i: nat, source: Option<Dimensions>, rounding: Rounding)
    requires i < |w.tasks|
    ensures SameKind(DecideStep(w, i, source, rounding), w)
  {
    hide Wanted;
  }

  lemma CommitSameOutput(w: World, i: nat, decision: ResizeDecision)
    requires i < |w.tasks|
    ensures SameKind(CommitDisplay(w, i, decision), w)
  {
  }

  /**
   A client gets the size it asks for: in every run, when a request for a size that the managed output can
   have was admitted and has finished, was not cancelled and met with no failure on a display that is still
   open, the output has had that size, whoever else asked for another one meanwhile.
   */
  lemma {:induction false} AskedSizeIsShown(w: World, steps: seq<Step>, i: nat, size: Dimensions)
    requires Inv(w) && Possible(w, steps) && Ongoing(w, i) && w.tasks[i].phase.Admitted?
    requires !w.display.physical && !w.display.fixed && Asks(w.tasks[i].job, size) && Showable(size)
    requires forall k :: 0 <= k < |steps| ==> Favours(steps[k], i)
    requires !After(w, steps).display.closed
    ensures i < |After(w, steps).tasks|
    ensures After(w, steps).tasks[i].phase.Finished? ==> Shown(w, steps, size)
    decreases |steps|
  {
    RunKeepsOrder(w, steps);
    StaysOpen(w, steps);
    hide Asks, Showable, Wanted, Effective;
    if steps == [] {
    } else {
      var w' := Apply(w, steps[0]);
      StepKeepsOrder(w, steps[0]);
      SameOutput(w, steps[0]);
      if steps[0].SessionStarts? || steps[0].Spawn? || steps[0].i != i {
        OthersLeaveIt(w, steps[0], i);
        hide Apply, Inv;
        AskedSizeIsShown(w', steps[1..], i, size);
      } else {
        assert Favours(steps[0], i);
        AdmittedDecides(w, steps[0], i);
        AskedIsWanted(w, w.tasks[i].job, size, steps[0].source, steps[0].rounding);
        if size != w.display.resolution || w.display.unconfirmed {
          DecidedTakesEffect(w', steps[1..], i);
          if After(w, steps).tasks[i].phase.Finished? {
            EffectIsShown(w', steps[1..], w.tasks[i].job, ResizeDecision(ManagedHeadlessOutput, size.0, size.1));
          }
        }
      }
    }
  }

  lemma AdmittedDecides(w: World, step: Step, i: nat)
    requires Inv(w) && Enabled(w, step) && Ongoing(w, i) && w.tasks[i].phase.Admitted? && !w.display.closed
    requires !step.SessionStarts? && !step.Spawn? && step.i == i && Favours(step, i)
    ensures step.Decide?
    ensures var wanted := Wanted(w, w.tasks[i].job, step.source, step.rounding);
            var w' := Apply(w, step);
            && w'.tasks[i].job == w.tasks[i].job
            && if wanted.None? then w'.tasks[i].phase == Finished
               else w'.tasks[i].phase.HasDecision() && w'.tasks[i].phase.decision == wanted.value
  {
    hide Wanted;
  }

  // ----- closing

  /** On a closed display no step commits: the published size stays, and an unconfirmed one stays so. */
  lemma ClosedStepCommitsNothing(w: World, step: Step)
    requires Inv(w) && Enabled(w, step) && w.display.closed
    ensures Apply(w, step).display.closed
    ensures Apply(w, step).display.resolution == w.display.resolution
    ensures Apply(w, step).display.pendingInitial == w.display.pendingInitial
    ensures w.display.unconfirmed ==> Apply(w, step).display.unconfirmed
    ensures !w.outputPresent ==> !Apply(w, step).outputPresent
  {
    if step.LayoutAnswers? {
      assert ResizeInOrder(w, step.i);
    }
  }

  lemma {:induction false} ClosedRunCommitsNothing(w: World, steps: seq<Step>)
    requires Inv(w) && Possible(w, steps) && w.display.closed
    ensures After(w, steps).display.closed && After(w, steps).display.resolution == w.display.resolution
    ensures w.display.unconfirmed ==> After(w, steps).display.unconfirmed
    ensures !w.outputPresent ==> !After(w, steps).outputPresent
    decreases |steps|
  {
    if steps == [] {
    } else {
      StepKeepsOrder(w, steps[0]);
      ClosedStepCommitsNothing(w, steps[0]);
      ClosedRunCommitsNothing(Apply(w, steps[0]), steps[1..]);
    }
  }

  /** Once the output is removed, no compositor call is in flight and none is started, in any run. */
  lemma RemovedOutputIsLeftAlone(w: World, steps: seq<Step>, k: nat)
    requires Inv(w) && Possible(w, steps) && !w.outputPresent
    requires k < |After(w, steps).tasks|
    ensures !After(w, steps).tasks[k].phase.CompositorBusy()
  {
    RunKeepsOrder(w, steps);
    ClosedRunCommitsNothing(w, steps);
    assert ResizeInOrder(After(w, steps), k);
  }

  // ----- restoring after a session

  /**
   A restore commits only a size that no newer session replaced: whenever it publishes the idle size,
   whatever was committed last came from the session that ended or from an older one.
   */
  lemma RestoreYieldsToNewerSessions(w: World, i: nat, ok: bool)
    requires Inv(w) && Enabled(w, LayoutAnswers(i, ok)) && w.tasks[i].job.Restore?
    ensures w.committer <= w.tasks[i].job.ended
    ensures Apply(w, LayoutAnswers(i, ok)).committer == w.committer
  {
    assert HoldsWhatItSays(w, i) && ResizeInOrder(w, i);
  }

  /** Task `i` is a restore for a session that a newer one has followed, and has not begun. */
  ghost predicate StaleRestore(w: World, i: nat) {
    && i < |w.tasks| && w.tasks[i].job.Restore? && w.tasks[i].job.ended < w.epoch
    && !w.tasks[i].phase.HasDecision()
  }

  /** Such a restore never decides on a size, calls the compositor or commits, in any run. */
  lemma {:induction false} StaleRestoreDoesNothing(w: World, steps: seq<Step>, i: nat)
    requires Possible(w, steps) && StaleRestore(w, i)
    ensures StaleRestore(After(w, steps), i)
    decreases |steps|
  {
    if steps == [] {
    } else {
      StaleRestoreWaits(w, steps[0], i);
      StaleRestoreDoesNothing(Apply(w, steps[0]), steps[1..], i);
    }
  }

  lemma StaleRestoreWaits(w: World, step: Step, i: nat)
    requires Enabled(w, step) && StaleRestore(w, i)
    ensures StaleRestore(Apply(w, step), i)
  {
    if step.Decide? && step.i == i {
      StaleRestoreWantsNothing(w, step.source, step.rounding, i);
    }
    hide Wanted;
  }

  lemma StaleRestoreWantsNothing(w: World, source: Option<Dimensions>, rounding: Rounding, i: nat)
    requires StaleRestore(w, i)
    ensures Wanted(w, w.tasks[i].job, source, rounding) == None
  {
    hide Reconcile, InitialSizeDecision, DisplayControlDecision;
  }

  /** A restore that runs through leaves a managed output at its idle size, confirmed. */
  lemma RestoreReachesIdle(w: World, i: nat)
    requires Inv(w) && Enabled(w, LayoutAnswers(i, true)) && w.tasks[i].job.Restore? && !w.display.physical
    ensures var w' := Apply(w, LayoutAnswers(i, true));
            && !w'.display.unconfirmed && w'.compositor == w'.display.resolution && w'.gate == None && w'.lock == None
            && w.display.idle == Some(w'.display.resolution)
  {
    assert HoldsWhatItSays(w, i) && ResizeInOrder(w, i);
  }
}

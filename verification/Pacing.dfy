/**
 The capture frame pacer (src/capture/frame.rs).

 Times are integers (nanoseconds).  At the base rate or faster the pacer keeps absolute
 deadlines; when it is throttled below the base rate it spaces frames from the last one sent.
 Either way a frame may go out a tenth of an interval early; `early` stands for that tenth,
 however it was rounded.
 */
module Pacing {
  import opened Regions

  /** One rate: the interval between frames and how early a frame may be. */
  datatype Rate = Rate(interval: nat, early: nat) {
    /** A zero interval, which only a rate above two billion frames a second rounds to, is excluded. */
    predicate Valid() {
      0 < interval && early <= interval
    }
  }

  class FramePacer {
    const baseInterval: nat
    var frameInterval: nat
    var nextSendAt: Option<int>
    var lastSendAt: Option<int>

    constructor (base: nat, now: int)
      ensures baseInterval == base && frameInterval == base && nextSendAt == Some(now) && lastSendAt == None
    {
      baseInterval, frameInterval, nextSendAt, lastSendAt := base, base, Some(now), None;
    }

    /**
     `should_send`.  A refusal changes neither deadline.  A throttled frame restarts the deadline;
     an unthrottled one moves the deadline by whole intervals, and no further than past `now`.
     */
    method ShouldSend(now: int, sentFirstFrame: bool, hasDamage: bool, rate: Rate) returns (send: bool)
      requires rate.Valid()
      modifies `frameInterval, `nextSendAt, `lastSendAt
      ensures frameInterval == rate.interval
      ensures !sentFirstFrame ==> send && nextSendAt == Some(now + rate.interval)
      ensures sentFirstFrame && !hasDamage ==> !send
      ensures sentFirstFrame && hasDamage ==>
                (send <==> now + rate.early >= Deadline(rate.interval > baseInterval, old(nextSendAt), old(lastSendAt), rate, now))
      ensures send ==> lastSendAt == Some(now)
      ensures !send ==> nextSendAt == old(nextSendAt) && lastSendAt == old(lastSendAt)
      ensures send && sentFirstFrame && rate.interval > baseInterval ==> nextSendAt == Some(now + rate.interval)
      ensures send && sentFirstFrame && rate.interval <= baseInterval ==>
                nextSendAt.Some? && NextDeadline(Deadline(false, old(nextSendAt), old(lastSendAt), rate, now), now, rate.interval, nextSendAt.value)
    {
      frameInterval := rate.interval;
      if !sentFirstFrame {
        nextSendAt := Some(now + frameInterval);
        lastSendAt := Some(now);
        return true;
      }
      if !hasDamage {
        return false;
      }
      if frameInterval > baseInterval {
        var deadline := if lastSendAt.Some? then lastSendAt.value + frameInterval else now;
        if now + rate.early < deadline {
          return false;
        }
        lastSendAt := Some(now);
        nextSendAt := Some(now + frameInterval);
        return true;
      }
      var deadline := if nextSendAt.Some? then nextSendAt.value else now;
      if now + rate.early < deadline {
        return false;
      }
      var next := deadline + frameInterval;
      ghost var steps := 1;
      MulOne(rate.interval);
      while next <= now
        invariant 1 <= steps && next == deadline + Times(steps, rate.interval)
        invariant steps == 1 || next - rate.interval <= now
        invariant frameInterval == rate.interval
        decreases now - next
      {
        TimesStep(steps, rate.interval);
        next := next + frameInterval;
        steps := steps + 1;
      }
      nextSendAt := Some(next);
      lastSendAt := Some(now);
      send := true;
    }
  }

  /** The time a frame is due. */
  function Deadline(throttled: bool, next: Option<int>, last: Option<int>, rate: Rate, now: int): int {
    if throttled then (if last.Some? then last.value + rate.interval else now)
    else if next.Some? then next.value else now
  }

  function Times(n: nat, interval: nat): nat { n * interval }

  lemma MulOne(interval: nat)
    ensures Times(1, interval) == interval && Times(0, interval) == 0
  {
  }

  lemma TimesStep(n: nat, interval: nat)
    ensures Times(n + 1, interval) == Times(n, interval) + interval
  {
  }

  /** The first deadline a whole number of intervals (at least one) later that is after `now`. */
  ghost predicate NextDeadline(deadline: int, now: int, interval: nat, next: int) {
    && next > now
    && exists steps: nat :: 1 <= steps && next == deadline + Times(steps, interval) && (steps == 1 || next - interval <= now)
  }

  // ----- whole runs

  datatype Call = Call(now: int, hasDamage: bool)

  /** `sends` lists the first frame and then the times frames went out. */
  ghost predicate Spread(sends: seq<int>, rate: Rate) {
    forall j, k :: 0 <= j < k < |sends| ==> sends[k] - sends[j] > Times(k - j - 1, rate.interval) - rate.early
  }

  /** The pending deadline lies beyond what the frames sent so far allow. */
  ghost predicate DeadlineAhead(sends: seq<int>, next: int, rate: Rate) {
    forall j :: 0 <= j < |sends| ==> next > sends[j] + Times(|sends| - 1 - j, rate.interval)
  }

  lemma OneMoreSend(sends: seq<int>, deadline: int, now: int, next: int, rate: Rate)
    requires rate.Valid() && Spread(sends, rate) && DeadlineAhead(sends, deadline, rate)
    requires now + rate.early >= deadline && NextDeadline(deadline, now, rate.interval, next)
    ensures Spread(sends + [now], rate) && DeadlineAhead(sends + [now], next, rate)
  {
    MulOne(rate.interval);
    var steps: nat :| 1 <= steps && next == deadline + Times(steps, rate.interval);
    TimesStep(steps - 1, rate.interval);
    forall j | 0 <= j < |sends| + 1
      ensures next > (sends + [now])[j] + Times(|sends| - j, rate.interval)
    {
      if j < |sends| {
        TimesStep(|sends| - 1 - j, rate.interval);
      }
    }
    forall j, k | 0 <= j < k < |sends| + 1
      ensures (sends + [now])[k] - (sends + [now])[j] > Times(k - j - 1, rate.interval) - rate.early
    {
      if k == |sends| {
        assert deadline > sends[j] + Times(|sends| - 1 - j, rate.interval);
      }
    }
  }

  /** The first frame, and the times of those of the first `n` calls that `sent` says went out. */
  ghost function Sends(start: int, calls: seq<Call>, sent: seq<bool>, n: nat): (sends: seq<int>)
    requires n <= |calls| == |sent|
    ensures sends != []
  {
    if n == 0 then [start] else Sends(start, calls, sent, n - 1) + if sent[n - 1] then [calls[n - 1].now] else []
  }

  /** Only damage is sent, and damage offered a whole interval after the last frame always is. */
  ghost predicate Responsive(start: int, calls: seq<Call>, sent: seq<bool>, rate: Rate)
    requires |calls| == |sent|
  {
    forall k :: 0 <= k < |calls| ==>
      var before := Sends(start, calls, sent, k);
      && (sent[k] ==> calls[k].hasDamage)
      && (calls[k].hasDamage && calls[k].now >= before[|before| - 1] + rate.interval ==> sent[k])
  }

  lemma {:induction false} SendsOfFewer(start: int, calls: seq<Call>, sent: seq<bool>, call: Call, more: bool, n: nat)
    requires n <= |calls| == |sent|
    ensures Sends(start, calls + [call], sent + [more], n) == Sends(start, calls, sent, n)
    decreases n
  {
    if n > 0 {
      SendsOfFewer(start, calls, sent, call, more, n - 1);
    }
  }

  lemma OneMoreCall(start: int, calls: seq<Call>, sent: seq<bool>, call: Call, more: bool, rate: Rate)
    requires |calls| == |sent| && Responsive(start, calls, sent, rate)
    requires var before := Sends(start, calls, sent, |calls|);
             (more ==> call.hasDamage) && (call.hasDamage && call.now >= before[|before| - 1] + rate.interval ==> more)
    ensures Responsive(start, calls + [call], sent + [more], rate)
    ensures Sends(start, calls + [call], sent + [more], |calls| + 1) ==
            Sends(start, calls, sent, |calls|) + if more then [call.now] else []
  {
    SendsOfFewer(start, calls, sent, call, more, |calls|);
    forall k | 0 <= k < |calls|
      ensures Sends(start, calls + [call], sent + [more], k) == Sends(start, calls, sent, k)
    {
      SendsOfFewer(start, calls, sent, call, more, k);
    }
  }

  /** The state of a pacer after these frames. */
  ghost predicate InRun(pacer: FramePacer, rate: Rate, sends: seq<int>)
    reads pacer
  {
    && rate.interval <= pacer.baseInterval && Prompt(pacer, rate)
    && sends != [] && pacer.lastSendAt == Some(sends[|sends| - 1])
    && Spread(sends, rate) && DeadlineAhead(sends, pacer.nextSendAt.value, rate)
  }

  method OfferAtBaseRate(pacer: FramePacer, call: Call, rate: Rate, ghost sends: seq<int>) returns (send: bool)
    requires rate.Valid() && InRun(pacer, rate, sends)
    modifies pacer
    ensures InRun(pacer, rate, sends + if send then [call.now] else [])
    ensures (send ==> call.hasDamage) && (call.hasDamage && call.now >= sends[|sends| - 1] + rate.interval ==> send)
  {
    ghost var deadline := pacer.nextSendAt.value;
    send := pacer.ShouldSend(call.now, true, call.hasDamage, rate);
    hide Spread, DeadlineAhead, NextDeadline;
    if send {
      OneMoreSend(sends, deadline, call.now, pacer.nextSendAt.value, rate);
      NextIsPrompt(deadline, call.now, rate, pacer.nextSendAt.value);
    } else {
      assert sends + [] == sends;
    }
  }

  /** The first frame goes out at once. */
  method StartRun(base: nat, rate: Rate, start: int) returns (pacer: FramePacer)
    requires rate.Valid() && rate.interval <= base
    ensures fresh(pacer) && InRun(pacer, rate, [start])
  {
    pacer := new FramePacer(base, start);
    var first := pacer.ShouldSend(start, false, true, rate);
    MulOne(rate.interval);
  }

  /**
   At a fixed rate no slower than the base rate, any n frames in a row span more than n - 2
   intervals minus the early allowance, however late or irregular the calls are.  Yet no damage is refused
   that is offered a whole interval after the last frame.
   */
  method RunAtBaseRate(base: nat, rate: Rate, start: int, calls: seq<Call>) returns (sent: seq<bool>)
    requires rate.Valid() && rate.interval <= base
    ensures |sent| == |calls| && Responsive(start, calls, sent, rate)
    ensures Spread(Sends(start, calls, sent, |calls|), rate)
  {
    hide InRun, Responsive, Sends, Spread;
    var pacer := StartRun(base, rate, start);
    sent := [];
    NothingOffered(start, rate);
    var k := 0;
    while k < |calls|
      invariant k <= |calls| && |sent| == k && fresh(pacer)
      invariant Responsive(start, calls[..k], sent, rate) && InRun(pacer, rate, Sends(start, calls[..k], sent, k))
    {
      var send := OfferAtBaseRate(pacer, calls[k], rate, Sends(start, calls[..k], sent, k));
      OneMoreCall(start, calls[..k], sent, calls[k], send, rate);
      assert calls[..k + 1] == calls[..k] + [calls[k]];
      sent := sent + [send];
      k := k + 1;
    }
    assert calls[..k] == calls;
    InRunIsSpread(pacer, rate, Sends(start, calls, sent, |calls|));
  }

  lemma NothingOffered(start: int, rate: Rate)
    ensures Responsive(start, [], [], rate) && Sends(start, [], [], 0) == [start]
  {
  }

  lemma InRunIsSpread(pacer: FramePacer, rate: Rate, sends: seq<int>)
    requires InRun(pacer, rate, sends)
    ensures Spread(sends, rate)
  {
  }

  datatype RatedCall = RatedCall(now: int, hasDamage: bool, rate: Rate)

  /** A frame that went out, and the rate it was paced by. */
  datatype Sent = Sent(at: int, rate: Rate)

  /** Every throttled frame is an interval, minus the early allowance, after the frame before it. */
  ghost predicate ThrottledGaps(sends: seq<Sent>, base: nat) {
    forall k :: 1 <= k < |sends| && sends[k].rate.interval > base ==>
      sends[k].at >= sends[k - 1].at + sends[k].rate.interval - sends[k].rate.early
  }

  /** The first frame, and those of the first `n` calls that `sent` says went out. */
  ghost function RatedSends(first: Sent, calls: seq<RatedCall>, sent: seq<bool>, n: nat): (sends: seq<Sent>)
    requires n <= |calls| == |sent|
    ensures sends != []
  {
    if n == 0 then [first]
    else RatedSends(first, calls, sent, n - 1) + if sent[n - 1] then [Sent(calls[n - 1].now, calls[n - 1].rate)] else []
  }

  /** Throttled damage goes out exactly from an interval minus the allowance after the last frame. */
  ghost predicate Throttled(call: RatedCall, base: nat, last: Sent, send: bool) {
    && (send ==> call.hasDamage)
    && (call.rate.interval > base && call.hasDamage ==> (send <==> call.now >= last.at + call.rate.interval - call.rate.early))
  }

  ghost predicate ThrottledAlways(first: Sent, calls: seq<RatedCall>, base: nat, sent: seq<bool>, n: nat)
    requires n <= |calls| == |sent|
  {
    forall k :: 0 <= k < n ==>
      Throttled(calls[k], base, LastOf(first, calls, sent, k), sent[k])
  }

  lemma {:induction false} RatedSendsOfFewer(first: Sent, calls: seq<RatedCall>, a: seq<bool>, b: seq<bool>, n: nat)
    requires n <= |calls| == |a| == |b| && a[..n] == b[..n]
    ensures RatedSends(first, calls, a, n) == RatedSends(first, calls, b, n)
    decreases n
  {
    if n > 0 {
      assert a[n - 1] == a[..n][n - 1] == b[n - 1];
      assert a[..n - 1] == a[..n][..n - 1] == b[..n - 1];
      RatedSendsOfFewer(first, calls, a, b, n - 1);
    }
  }

  ghost function LastOf(first: Sent, calls: seq<RatedCall>, sent: seq<bool>, n: nat): Sent
    requires n <= |calls| == |sent|
  {
    RatedSends(first, calls, sent, n)[|RatedSends(first, calls, sent, n)| - 1]
  }

  lemma OneMoreGap(sends: seq<Sent>, next: Sent, base: nat)
    requires sends != [] && ThrottledGaps(sends, base)
    requires next.rate.interval > base ==> next.at >= sends[|sends| - 1].at + next.rate.interval - next.rate.early
    ensures ThrottledGaps(sends + [next], base)
  {
  }

  lemma {:induction false} ThrottledSpread(first: Sent, calls: seq<RatedCall>, base: nat, sent: seq<bool>, n: nat)
    requires n <= |calls| == |sent| && ThrottledAlways(first, calls, base, sent, n)
    ensures ThrottledGaps(RatedSends(first, calls, sent, n), base)
    decreases n
  {
    hide ThrottledGaps;
    if n > 0 {
      ThrottledSpread(first, calls, base, sent, n - 1);
      assert Throttled(calls[n - 1], base, LastOf(first, calls, sent, n - 1), sent[n - 1]);
      if sent[n - 1] {
        OneMoreGap(RatedSends(first, calls, sent, n - 1), Sent(calls[n - 1].now, calls[n - 1].rate), base);
      } else {
        assert RatedSends(first, calls, sent, n) == RatedSends(first, calls, sent, n - 1);
      }
    } else {
      OnlyOne(first, base);
    }
  }

  lemma OnlyOne(first: Sent, base: nat)
    ensures ThrottledGaps([first], base)
  {
  }

  lemma SameLast(first: Sent, calls: seq<RatedCall>, a: seq<bool>, b: seq<bool>, n: nat)
    requires n <= |calls| == |a| == |b| && a[..n] == b[..n]
    ensures LastOf(first, calls, a, n) == LastOf(first, calls, b, n)
  {
    RatedSendsOfFewer(first, calls, a, b, n);
  }

  lemma LastAfter(first: Sent, calls: seq<RatedCall>, sent: seq<bool>, k: nat)
    requires k < |calls| == |sent|
    ensures LastOf(first, calls, sent, k + 1) == if sent[k] then Sent(calls[k].now, calls[k].rate) else LastOf(first, calls, sent, k)
  {
  }

  /** One more decision. */
  lemma AnotherCall(first: Sent, calls: seq<RatedCall>, base: nat, sent: seq<bool>, k: nat, send: bool)
    requires k < |calls| == |sent| && ThrottledAlways(first, calls, base, sent, k)
    requires Throttled(calls[k], base, LastOf(first, calls, sent, k), send)
    ensures ThrottledAlways(first, calls, base, sent[k := send], k + 1)
    ensures LastOf(first, calls, sent[k := send], k + 1) ==
            if send then Sent(calls[k].now, calls[k].rate) else LastOf(first, calls, sent, k)
  {
    hide Throttled, LastOf, RatedSends;
    var after := sent[k := send];
    forall j | 0 <= j <= k
      ensures LastOf(first, calls, sent, j) == LastOf(first, calls, after, j)
    {
      SameLast(first, calls, sent, after, j);
    }
    LastAfter(first, calls, after, k);
  }

  method StartAnyRun(base: nat, rate: Rate, start: int, ghost calls: seq<RatedCall>, ghost sent: seq<bool>) returns (pacer: FramePacer)
    requires rate.Valid() && |calls| == |sent|
    ensures fresh(pacer) && pacer.baseInterval == base && pacer.lastSendAt == Some(LastOf(Sent(start, rate), calls, sent, 0).at)
    ensures ThrottledAlways(Sent(start, rate), calls, base, sent, 0)
  {
    pacer := new FramePacer(base, start);
    var first := pacer.ShouldSend(start, false, true, rate);
  }

  /** Whatever rates a run mixes, throttled damage waits for its interval, and no longer. */
  method RunAtAnyRate(base: nat, rate: Rate, start: int, calls: seq<RatedCall>) returns (sent: seq<bool>)
    requires rate.Valid() && forall k :: 0 <= k < |calls| ==> calls[k].rate.Valid()
    ensures |sent| == |calls| && ThrottledAlways(Sent(start, rate), calls, base, sent, |calls|)
    ensures ThrottledGaps(RatedSends(Sent(start, rate), calls, sent, |calls|), base)
  {
    hide ThrottledAlways, LastOf, RatedSends, ThrottledGaps, NextDeadline;
    sent := seq(|calls|, _ => false);
    var pacer := StartAnyRun(base, rate, start, calls, sent);
    var k := 0;
    while k < |calls|
      invariant k <= |calls| == |sent| && fresh(pacer) && pacer.baseInterval == base
      invariant ThrottledAlways(Sent(start, rate), calls, base, sent, k)
      invariant pacer.lastSendAt == Some(LastOf(Sent(start, rate), calls, sent, k).at)
    {
      var send := pacer.ShouldSend(calls[k].now, true, calls[k].hasDamage, calls[k].rate);
      AnotherCall(Sent(start, rate), calls, base, sent, k, send);
      sent := sent[k := send];
      k := k + 1;
    }
    ThrottledSpread(Sent(start, rate), calls, base, sent, |calls|);
  }

  /** The deadline is at most an interval, and the early allowance, after the last frame. */
  ghost predicate Prompt(pacer: FramePacer, rate: Rate)
    reads pacer
  {
    && pacer.lastSendAt.Some? && pacer.nextSendAt.Some?
    && pacer.nextSendAt.value <= pacer.lastSendAt.value + rate.interval + rate.early
  }

  lemma NextIsPrompt(deadline: int, now: int, rate: Rate, next: int)
    requires now + rate.early >= deadline && NextDeadline(deadline, now, rate.interval, next)
    ensures next <= now + rate.interval + rate.early
  {
    MulOne(rate.interval);
  }

  /**
   At a fixed rate the deadline never runs away, even across the catch-up loop: damage that is
   offered a whole interval after the last frame is sent.
   */
  method OfferDamage(pacer: FramePacer, call: Call, rate: Rate) returns (send: bool)
    requires rate.Valid() && Prompt(pacer, rate)
    modifies pacer
    ensures Prompt(pacer, rate)
    ensures call.hasDamage && call.now >= old(pacer.lastSendAt).value + rate.interval ==> send
  {
    ghost var deadline := pacer.nextSendAt.value;
    send := pacer.ShouldSend(call.now, true, call.hasDamage, rate);
    if send && rate.interval <= pacer.baseInterval {
      NextIsPrompt(deadline, call.now, rate, pacer.nextSendAt.value);
    }
  }
}

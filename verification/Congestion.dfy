/** Congestion signals of the bridge lanes: when the sending chain is told to stop and when to go on. */
module Congestion {
  import opened Wrappers

  type LaneId(==, !new, 00)
  type Location(==, !new, 00)

  const OUTBOUND_LANE_CONGESTED_THRESHOLD: nat := 8192
  const OUTBOUND_LANE_UNCONGESTED_THRESHOLD: nat := 1024

  datatype Signal = Congested | Uncongested

  datatype SenderAndLane = SenderAndLane(location: Location, lane: LaneId)

  /** Which of the two messages are configured, and the lanes of this chain. */
  datatype Hauler = Hauler(hasCongestedMessage: bool, hasUncongestedMessage: bool, lanes: seq<SenderAndLane>)

  predicate SupportsCongestionDetection(h: Hauler) {
    h.hasCongestedMessage || h.hasUncongestedMessage
  }

  type Flags = map<LaneId, bool>

  predicate IsCongestedSignalSent(flags: Flags, lane: LaneId) {
    lane in flags && flags[lane]
  }

  function Opposite(s: Signal): Signal {
    if s.Congested? then Uncongested else Congested
  }

  // ----- One call -----

  /** The signal that pushing a message onto the lane leads to. */
  function OnEnqueued(h: Hauler, flags: Flags, lane: LaneId, enqueuedMessages: nat, sendOk: bool): Option<Signal> {
    if h.hasCongestedMessage && sendOk && !IsCongestedSignalSent(flags, lane)
       && enqueuedMessages > OUTBOUND_LANE_CONGESTED_THRESHOLD then Some(Congested) else None
  }

  /** The signal that a delivery confirmation leads to. */
  function OnDelivered(h: Hauler, flags: Flags, lane: LaneId, enqueuedMessages: nat, sendOk: bool): Option<Signal> {
    if h.hasUncongestedMessage && sendOk && IsCongestedSignalSent(flags, lane)
       && enqueuedMessages <= OUTBOUND_LANE_UNCONGESTED_THRESHOLD then Some(Uncongested) else None
  }

  predicate IsOurLane(h: Hauler, lane: LaneId) {
    exists l <- h.lanes :: l.lane == lane
  }

  function Apply(flags: Flags, lane: LaneId, signal: Option<Signal>): Flags {
    match signal
    case None => flags
    case Some(Congested) => flags[lane := true]
    case Some(Uncongested) => flags - {lane}
  }

  /** The queue manager. Whether an XCM message could be sent is up to the transport (`sendOk`). */
  class LocalXcmQueueManager {
    const hauler: Hauler
    var outboundLanesCongestedSignals: Flags

    constructor (hauler: Hauler)
      ensures this.hauler == hauler && outboundLanesCongestedSignals == map[]
    {
      this.hauler := hauler;
      outboundLanesCongestedSignals := map[];
    }

    /** Must be called whenever a message is pushed to the bridge lane. */
    method OnBridgeMessageEnqueued(sender: SenderAndLane, enqueuedMessages: nat, sendOk: bool)
      returns (sent: Option<Signal>)
      modifies this
      ensures sent == OnEnqueued(hauler, old(outboundLanesCongestedSignals), sender.lane, enqueuedMessages, sendOk)
      ensures sent == Some(Congested) <==>
              && hauler.hasCongestedMessage && sendOk && enqueuedMessages > 8192
              && !IsCongestedSignalSent(old(outboundLanesCongestedSignals), sender.lane)
      ensures sent.Some? ==> IsCongestedSignalSent(outboundLanesCongestedSignals, sender.lane)
      ensures outboundLanesCongestedSignals == Apply(old(outboundLanesCongestedSignals), sender.lane, sent)
    {
      sent := None;
      if !SupportsCongestionDetection(hauler) {
        return;
      }
      if IsCongestedSignalSent(outboundLanesCongestedSignals, sender.lane) {
        return;
      }
      var isCongested := enqueuedMessages > OUTBOUND_LANE_CONGESTED_THRESHOLD;
      if !isCongested {
        return;
      }
      if hauler.hasCongestedMessage && sendOk {
        outboundLanesCongestedSignals := outboundLanesCongestedSignals[sender.lane := true];
        sent := Some(Congested);
      }
    }

    /** Must be called whenever a message delivery confirmation is received. */
    method OnBridgeMessagesDelivered(sender: SenderAndLane, enqueuedMessages: nat, sendOk: bool)
      returns (sent: Option<Signal>)
      modifies this
      ensures sent == OnDelivered(hauler, old(outboundLanesCongestedSignals), sender.lane, enqueuedMessages, sendOk)
      ensures sent == Some(Uncongested) <==>
              && hauler.hasUncongestedMessage && sendOk && enqueuedMessages <= 1024
              && IsCongestedSignalSent(old(outboundLanesCongestedSignals), sender.lane)
      ensures sent.Some? ==> !IsCongestedSignalSent(outboundLanesCongestedSignals, sender.lane)
      ensures outboundLanesCongestedSignals == Apply(old(outboundLanesCongestedSignals), sender.lane, sent)
    {
      sent := None;
      if !SupportsCongestionDetection(hauler) {
        return;
      }
      if !IsCongestedSignalSent(outboundLanesCongestedSignals, sender.lane) {
        return;
      }
      var isCongested := enqueuedMessages > OUTBOUND_LANE_UNCONGESTED_THRESHOLD;
      if isCongested {
        return;
      }
      if hauler.hasUncongestedMessage && sendOk {
        outboundLanesCongestedSignals := outboundLanesCongestedSignals - {sender.lane};
        sent := Some(Uncongested);
      }
    }

    /** Find the first link of the lane and notify the manager; a lane without a link is ignored. */
    method OnMessagesDelivered(lane: LaneId, enqueuedMessages: nat, sendOk: bool) returns (sent: Option<Signal>)
      modifies this
      ensures sent == if IsOurLane(hauler, lane)
                      then OnDelivered(hauler, old(outboundLanesCongestedSignals), lane, enqueuedMessages, sendOk)
                      else None
      ensures outboundLanesCongestedSignals == Apply(old(outboundLanesCongestedSignals), lane, sent)
    {
      for i := 0 to |hauler.lanes|
        invariant forall k :: 0 <= k < i ==> hauler.lanes[k].lane != lane
        invariant outboundLanesCongestedSignals == old(outboundLanesCongestedSignals)
      {
        if hauler.lanes[i].lane == lane {
          sent := OnBridgeMessagesDelivered(hauler.lanes[i], enqueuedMessages, sendOk);
          return;
        }
      }
      sent := None;
    }
  }

  // ----- Whole runs -----

  /** A call, with the queue length that the caller passes (true or not). */
  datatype Event =
    | Enqueue(lane: LaneId, passed: nat, sendOk: bool)
    | Deliver(lane: LaneId, confirmed: nat, passed: nat, sendOk: bool)

  /** A sent signal, with how many messages were ever enqueued and confirmed on its lane at that time. */
  datatype Sent = Sent(lane: LaneId, signal: Signal, passed: nat, enqueued: nat, confirmed: nat)

  datatype Trace = Trace(flags: Flags, enqueued: map<LaneId, nat>, confirmed: map<LaneId, nat>, log: seq<Sent>)

  function Count(m: map<LaneId, nat>, lane: LaneId): nat {
    if lane in m then m[lane] else 0
  }

  function Noted(t: Trace, lane: LaneId, passed: nat, signal: Option<Signal>): Trace {
    t.(flags := Apply(t.flags, lane, signal),
       log := if signal.None? then t.log
              else t.log + [Sent(lane, signal.value, passed, Count(t.enqueued, lane), Count(t.confirmed, lane))])
  }

  function Step(h: Hauler, t: Trace, e: Event): Trace {
    match e
    case Enqueue(lane, passed, sendOk) =>
      Noted(t.(enqueued := t.enqueued[lane := Count(t.enqueued, lane) + 1]), lane, passed,
            OnEnqueued(h, t.flags, lane, passed, sendOk))
    case Deliver(lane, confirmed, passed, sendOk) =>
      Noted(t.(confirmed := t.confirmed[lane := Count(t.confirmed, lane) + confirmed]), lane, passed,
            if IsOurLane(h, lane) then OnDelivered(h, t.flags, lane, passed, sendOk) else None)
  }

  function Run(h: Hauler, events: seq<Event>): Trace
    decreases |events|
  {
    if events == [] then Trace(map[], map[], map[], [])
    else Step(h, Run(h, events[..|events| - 1]), events[|events| - 1])
  }

  /** The last signal sent for the lane. */
  function LastFor(log: seq<Sent>, lane: LaneId): Option<Sent> {
    if log == [] then None
    else
      var n := |log| - 1;
      if log[n].lane == lane then Some(log[n]) else LastFor(log[..n], lane)
  }

  /** The signal differs from the one before it on the same lane, and the first one says "congested"; its passed length
      is beyond the threshold for that signal; and the counters of the lane have not gone back. */
  ghost predicate Alternates(log: seq<Sent>, j: nat)
    requires j < |log|
  {
    var s, before := log[j], LastFor(log[..j], log[j].lane);
    && (if s.signal.Congested? then s.passed > OUTBOUND_LANE_CONGESTED_THRESHOLD
        else s.passed <= OUTBOUND_LANE_UNCONGESTED_THRESHOLD)
    && match before
       case None => s.signal == Congested
       case Some(b) => s.signal == Opposite(b.signal) && b.enqueued <= s.enqueued && b.confirmed <= s.confirmed
                       && (if b.signal.Congested? then b.passed > OUTBOUND_LANE_CONGESTED_THRESHOLD
                           else b.passed <= OUTBOUND_LANE_UNCONGESTED_THRESHOLD)
  }

  ghost predicate Inv(t: Trace) {
    && (forall j: nat :: j < |t.log| ==> Alternates(t.log, j))
    && (forall lane :: LaneInv(t, lane))
  }

  /** The flag tells the last signal of the lane, and the counters only grow. */
  ghost predicate LaneInv(t: Trace, lane: LaneId) {
    match LastFor(t.log, lane)
    case None => !IsCongestedSignalSent(t.flags, lane)
    case Some(s) =>
      && (IsCongestedSignalSent(t.flags, lane) <==> s.signal == Congested)
      && s.enqueued <= Count(t.enqueued, lane) && s.confirmed <= Count(t.confirmed, lane)
      && (if s.signal.Congested? then s.passed > OUTBOUND_LANE_CONGESTED_THRESHOLD
          else s.passed <= OUTBOUND_LANE_UNCONGESTED_THRESHOLD)
  }

  /** A call sends at most one signal, and sends it for its own lane. */
  lemma LogGrows(h: Hauler, t: Trace, e: Event)
    ensures var log := Step(h, t, e).log;
            || log == t.log
            || (|log| == |t.log| + 1 && log[..|t.log|] == t.log && log[|t.log|].lane == e.lane)
  {
  }

  /** A call for one lane leaves the other lanes alone. */
  lemma OtherLanesUntouched(h: Hauler, t: Trace, e: Event, lane: LaneId)
    requires lane != e.lane
    ensures IsCongestedSignalSent(Step(h, t, e).flags, lane) <==> IsCongestedSignalSent(t.flags, lane)
    ensures LastFor(Step(h, t, e).log, lane) == LastFor(t.log, lane)
  {
    LogGrows(h, t, e);
  }

  lemma OtherLaneKeeps(h: Hauler, t: Trace, e: Event, lane: LaneId)
    requires lane != e.lane && LaneInv(t, lane)
    ensures LaneInv(Step(h, t, e), lane)
  {
    OtherLanesUntouched(h, t, e, lane);
  }

  lemma OwnLaneKeeps(h: Hauler, t: Trace, e: Event)
    requires LaneInv(t, e.lane)
    ensures LaneInv(Step(h, t, e), e.lane)
  {
  }

  lemma NewSignalAlternates(h: Hauler, t: Trace, e: Event)
    requires LaneInv(t, e.lane)
    requires |Step(h, t, e).log| > |t.log|
    ensures Alternates(Step(h, t, e).log, |t.log|)
  {
    LogGrows(h, t, e);
  }

  lemma OldSignalAlternates(log: seq<Sent>, log': seq<Sent>, j: nat)
    requires j < |log| <= |log'| && log'[..|log|] == log
    requires Alternates(log, j)
    ensures Alternates(log', j)
  {
    assert log'[..j] == log[..j] && log'[j] == log[j];
  }

  lemma LogKeeps(h: Hauler, t: Trace, e: Event)
    requires Inv(t)
    ensures var log := Step(h, t, e).log;
            forall j: nat :: j < |log| ==> Alternates(log, j)
  {
    var log := Step(h, t, e).log;
    LogGrows(h, t, e);
    assert LaneInv(t, e.lane);
    forall j: nat | j < |log| ensures Alternates(log, j) {
      if j < |t.log| { OldSignalAlternates(t.log, log, j); } else { NewSignalAlternates(h, t, e); }
    }
  }

  lemma StepKeeps(h: Hauler, t: Trace, e: Event)
    requires Inv(t)
    ensures Inv(Step(h, t, e))
  {
    LogKeeps(h, t, e);
    forall lane ensures LaneInv(Step(h, t, e), lane) {
      assert LaneInv(t, lane);
      if lane == e.lane { OwnLaneKeeps(h, t, e); } else { OtherLaneKeeps(h, t, e, lane); }
    }
  }

  /** On each lane the sent signals strictly alternate, starting with "congested", for every combination of configured
      messages, passed lengths and send failures. */
  lemma {:induction false} SignalsAlternate(h: Hauler, events: seq<Event>)
    ensures Inv(Run(h, events))
    decreases |events|
  {
    if events != [] {
      SignalsAlternate(h, events[..|events| - 1]);
      StepKeeps(h, Run(h, events[..|events| - 1]), events[|events| - 1]);
    }
  }

  /** "Congested" was the last signal sent for the lane. */
  predicate LastSaidCongested(log: seq<Sent>, lane: LaneId) {
    LastFor(log, lane).Some? && LastFor(log, lane).value.signal == Congested
  }

  /** The call has to send a signal, as far as the signals sent before tell. */
  predicate MustSignal(h: Hauler, log: seq<Sent>, e: Event) {
    && e.sendOk
    && match e
       case Enqueue(lane, passed, _) => h.hasCongestedMessage && !LastSaidCongested(log, lane) && passed > 8192
       case Deliver(lane, _, passed, _) =>
         && h.hasUncongestedMessage && LastSaidCongested(log, lane) && passed <= 1024
         && exists l <- h.lanes :: l.lane == lane
  }

  /** In every run a call sends a signal exactly when it has to: a push onto a lane not called congested, beyond 8192
      messages, or a confirmation on a lane called congested, down to 1024 messages; in both cases if that signal is
      configured and can be sent. */
  lemma SignalSentExactly(h: Hauler, events: seq<Event>, e: Event)
    ensures var t := Run(h, events);
            var t' := Step(h, t, e);
            if MustSignal(h, t.log, e) then
              && |t'.log| == |t.log| + 1 && t'.log[..|t.log|] == t.log
              && t'.log[|t.log|].lane == e.lane && t'.log[|t.log|].passed == e.passed
              && t'.log[|t.log|].signal == (if e.Enqueue? then Congested else Uncongested)
            else t'.log == t.log && t'.flags == t.flags
  {
    SignalsAlternate(h, events);
    assert LaneInv(Run(h, events), e.lane);
  }

  /** The passed length was the true one. */
  predicate Truthful(s: Sent) {
    s.passed + s.confirmed == s.enqueued
  }

  /** Hysteresis: between two consecutive signals of a lane that saw its true length, at least 7169 messages are
      confirmed before "uncongested", and at least 7169 are enqueued before the next "congested". */
  lemma Hysteresis(h: Hauler, events: seq<Event>, j: nat)
    requires j < |Run(h, events).log|
    ensures var log := Run(h, events).log;
            match LastFor(log[..j], log[j].lane)
            case None => log[j].signal == Congested
            case Some(before) =>
              Truthful(before) && Truthful(log[j]) ==>
                if log[j].signal.Uncongested?
                then before.signal == Congested && log[j].confirmed - before.confirmed >= 7169
                else before.signal == Uncongested && log[j].enqueued - before.enqueued >= 7169
  {
    SignalsAlternate(h, events);
    assert Alternates(Run(h, events).log, j);
  }
}

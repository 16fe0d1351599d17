/** Runs of a lane that reach the largest nonce. Both exceptions of the lane protocol do occur there: the last message
    is paid for twice, and a true proof of the target state is rejected. One message later the nonces start again.
  */
module LargestNonce {
  import opened Wrappers
  import opened MessageLanes
  import opened RelayerQueue
  import opened LaneProtocol

  lemma RunStep(limits: LaneLimits, events: seq<Event>, e: Event)
    ensures Run(limits, events + [e]) == Step(limits, Run(limits, events), e)
    ensures Sends(events + [e]) == Sends(events) + if e.Send? then 1 else 0
  {
    assert (events + [e])[..|events|] == events;
  }

  // ----- Rounds of sending, delivering and confirming one message -----

  /** `n` messages were sent, and all of them are delivered and confirmed. */
  ghost predicate CaughtUp(limits: LaneLimits, b: Bridge, n: nat) {
    && Inv(limits, b) && Recorded(b)
    && |b.sent| == |b.dispatched| == b.source.data.latestReceivedNonce == n
    && b.repeated == 0
  }

  /** The last of `n` messages waits in the queue for its reward. */
  predicate LastUnrewarded(b: Bridge, r: Relayer, n: nat) {
    n > 0 && b.target == InboundLaneData([UnrewardedRelayer(r, DeliveredMessages(n, n))], n - 1)
  }

  lemma SentOne(limits: LaneLimits, b: Bridge, payload: Payload, n: nat)
    requires CaughtUp(limits, b, n) && n < U64_MAX
    ensures var b' := Step(limits, b, Send(payload));
            && Inv(limits, b') && Recorded(b')
            && b'.source.data.latestReceivedNonce == |b'.dispatched| == n && |b'.sent| == n + 1 && b'.repeated == 0
  {
    StepKeeps(limits, b, Send(payload));
  }

  lemma DeliveredOne(limits: LaneLimits, b: Bridge, r: Relayer, n: nat)
    requires limits.maxUnrewardedRelayerEntries >= 1 && limits.maxUnconfirmedMessages >= 1
    requires Inv(limits, b) && Recorded(b)
    requires b.source.data.latestReceivedNonce == |b.dispatched| == n && |b.sent| == n + 1 && b.repeated == 0
    ensures var b' := DeliverCurrent(limits, b, r);
            && Inv(limits, b') && Recorded(b') && LastUnrewarded(b', r, n + 1)
            && b'.source.data.latestReceivedNonce == n && |b'.sent| == |b'.dispatched| == n + 1 && b'.repeated == 0
  {
    DeliverCurrentNext(limits, b, r);
    StepKeeps(limits, b, Deliver(r, |b.sourceStates| - 1, true, [n + 1]));
  }

  lemma ConfirmedOne(limits: LaneLimits, b: Bridge, r: Relayer, n: nat)
    requires Inv(limits, b) && Recorded(b) && LastUnrewarded(b, r, n + 1)
    requires b.source.data.latestReceivedNonce == n && |b.sent| == |b.dispatched| == n + 1 && b.repeated == 0
    ensures var b' := ConfirmCurrent(limits, b);
            CaughtUp(limits, b', n + 1) && LastUnrewarded(b', r, n + 1)
  {
    ConfirmCatchesUp(limits, b);
  }

  ghost function Round(limits: LaneLimits, b: Bridge, payload: Payload, r: Relayer): Bridge {
    ConfirmCurrent(limits, DeliverCurrent(limits, Step(limits, b, Send(payload)), r))
  }

  lemma RoundCatchesUp(limits: LaneLimits, b: Bridge, payload: Payload, r: Relayer, n: nat)
    requires limits.maxUnrewardedRelayerEntries >= 1 && limits.maxUnconfirmedMessages >= 1
    requires CaughtUp(limits, b, n) && n < U64_MAX
    ensures CaughtUp(limits, Round(limits, b, payload, r), n + 1)
    ensures LastUnrewarded(Round(limits, b, payload, r), r, n + 1)
  {
    var b1 := Step(limits, b, Send(payload));
    SentOne(limits, b, payload, n);
    DeliveredOne(limits, b1, r, n);
    ConfirmedOne(limits, DeliverCurrent(limits, b1, r), r, n);
  }

  /** The events of a round. */
  lemma RunRound(limits: LaneLimits, before: seq<Event>, payload: Payload, r: Relayer) returns (events: seq<Event>)
    ensures Run(limits, events) == Round(limits, Run(limits, before), payload, r)
    ensures Sends(events) == Sends(before) + 1
  {
    var b1 := Step(limits, Run(limits, before), Send(payload));
    var b2 := DeliverCurrent(limits, b1, r);
    var deliver := Deliver(r, |b1.sourceStates| - 1, true, [|b1.dispatched| + 1]);
    var confirm := ConfirmProven(|b2.targetStates| - 1);
    RunStep(limits, before, Send(payload));
    RunStep(limits, before + [Send(payload)], deliver);
    RunStep(limits, before + [Send(payload)] + [deliver], confirm);
    events := before + [Send(payload)] + [deliver] + [confirm];
  }

  /** Every number of messages, up to the largest nonce, is sent, delivered and confirmed in some run. */
  lemma {:induction false} Reach(limits: LaneLimits, payload: Payload, r: Relayer, n: nat)
    returns (events: seq<Event>)
    requires limits.maxUnrewardedRelayerEntries >= 1 && limits.maxUnconfirmedMessages >= 1
    requires n <= U64_MAX
    ensures CaughtUp(limits, Run(limits, events), n) && Sends(events) == n
    ensures n > 0 ==> LastUnrewarded(Run(limits, events), r, n)
    decreases n
  {
    events := [];
    if n == 0 {
      EveryRun(limits, []);
    } else {
      var before := Reach(limits, payload, r, n - 1);
      RoundCatchesUp(limits, Run(limits, before), payload, r, n - 1);
      events := RunRound(limits, before, payload, r);
    }
  }

  // ----- The two exceptions -----

  /** Confirming the largest nonce again pays its relayer again. */
  lemma ConfirmedTwice(limits: LaneLimits, b: Bridge, r: Relayer)
    requires CaughtUp(limits, b, U64_MAX) && LastUnrewarded(b, r, U64_MAX)
    ensures var b' := ConfirmCurrent(limits, b);
            && b'.source.data == b.source.data && b'.deliveredBy == b.deliveredBy
            && b'.paid(r) == b.paid(r) + 1
  {
    ConfirmOutcome(limits, b, b.target);
    RepeatedConfirmationPays(limits, b, b.target, r);
    assert EntryAttributed(b.target.relayers[0], b.deliveredBy);
    assert DeliveredBy(b.deliveredBy, U64_MAX, r);
  }

  /** For any relayer there is a run in which it has been paid exactly what it earned, and in which one more
      confirmation, with the same proof, pays it for the last message again. */
  lemma PaidTwice(limits: LaneLimits, payload: Payload, r: Relayer) returns (events: seq<Event>, again: Event)
    requires limits.maxUnrewardedRelayerEntries >= 1 && limits.maxUnconfirmedMessages >= 1
    ensures Sends(events) == U64_MAX && again.ConfirmProven?
    ensures var b, b' := Run(limits, events), Run(limits, events + [again]);
            && b.source.data.latestReceivedNonce <= |b.deliveredBy|
            && b'.source.data == b.source.data && b'.deliveredBy == b.deliveredBy
            && b.paid(r) == Earned(b, r) && b'.paid(r) == Earned(b', r) + 1
  {
    events := Reach(limits, payload, r, U64_MAX);
    var b := Run(limits, events);
    again := ConfirmProven(|b.targetStates| - 1);
    RunStep(limits, events, again);
    ConfirmedTwice(limits, b, r);
  }

  /** Once the confirmation of the largest nonce has reached the target chain, the queue is empty and its proof is
      rejected. */
  lemma EmptiedRejected(limits: LaneLimits, b: Bridge, r: Relayer)
    requires CaughtUp(limits, b, U64_MAX)
    ensures var b' := Step(limits, b, Deliver(r, |b.sourceStates| - 1, true, []));
            && Recorded(b')
            && ConfirmWith(b'.source, b'.target) == (b'.source.data, Err(TryingToConfirmMoreMessagesThanExpected))
  {
    var e := Deliver(r, |b.sourceStates| - 1, true, []);
    StateUpdateEmpties(limits, b);
    StepKeeps(limits, b, e);
    var b' := Step(limits, b, e);
    assert b'.target == InboundLaneData([], U64_MAX) && b'.source == b.source;
    ConfirmOutcome(limits, b', b'.target);
  }

  /** There is a run after which a confirmation with a proof of the current target state is rejected. */
  lemma TrueProofRejected(limits: LaneLimits, payload: Payload, r: Relayer) returns (events: seq<Event>)
    requires limits.maxUnrewardedRelayerEntries >= 1 && limits.maxUnconfirmedMessages >= 1
    ensures Sends(events) == U64_MAX
    ensures var b := Run(limits, events);
            && Recorded(b)
            && ConfirmWith(b.source, b.target) == (b.source.data, Err(TryingToConfirmMoreMessagesThanExpected))
  {
    events := Reach(limits, payload, r, U64_MAX);
    var b := Run(limits, events);
    var e := Deliver(r, |b.sourceStates| - 1, true, []);
    EmptiedRejected(limits, b, r);
    RunStep(limits, events, e);
    events := events + [e];
  }

  // ----- One message more -----

  /** The bound on the number of messages is exact: with one message more than there are nonces, the generated nonce is
      back at zero, below what was confirmed and delivered. */
  lemma OneTooMany(limits: LaneLimits, payload: Payload, r: Relayer) returns (events: seq<Event>)
    requires limits.maxUnrewardedRelayerEntries >= 1 && limits.maxUnconfirmedMessages >= 1
    ensures Sends(events) == U64_MAX + 1
    ensures var b := Run(limits, events);
            b.source.data.latestGeneratedNonce == 0 < b.source.data.latestReceivedNonce == |b.dispatched| < |b.sent|
  {
    events := Reach(limits, payload, r, U64_MAX);
    RunStep(limits, events, Send(payload));
    events := events + [Send(payload)];
  }
}

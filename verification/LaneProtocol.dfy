/** One message lane across two chains. Each chain sees the other only through proofs of some earlier state, in any
    order and as often as relayers like. This module shows what survives that while the nonces last: every message is
    dispatched once and in order, every confirmation is accepted, and every delivery is rewarded once. The largest nonce
    is the one exception, and the module says exactly what happens there.
  */
module LaneProtocol {
  import opened Wrappers
  import opened MessageLanes
  import opened RelayerQueue
  import opened RingWindow

  /** Storage of the outbound lane. */
  datatype Outbound = Outbound(data: OutboundLaneData, messages: map<nat, Payload>)

  /** Both chains, with the history neither can see: what was sent, what was dispatched and by whom it was delivered,
      what was paid, how often the largest nonce was confirmed again, and all earlier states (a proof may show any). */
  datatype Bridge = Bridge(
    source: Outbound,
    target: InboundLaneData,
    sent: seq<Payload>,
    dispatched: seq<Payload>,
    deliveredBy: seq<Relayer>,
    paid: Relayer -> nat,
    repeated: nat,
    sourceStates: seq<Outbound>,
    targetStates: seq<InboundLaneData>)

  const EMPTY_SOURCE := Outbound(OutboundLaneData(1, 0, 0), map[])
  const EMPTY_TARGET := InboundLaneData([], 0)

  ghost function Start(): Bridge {
    Bridge(EMPTY_SOURCE, EMPTY_TARGET, [], [], [], (_: Relayer) => 0, 0, [EMPTY_SOURCE], [EMPTY_TARGET])
  }

  datatype Event =
    | Send(payload: Payload)
    | PruneConfirmed(writeWeight: Weight, givenWeight: Weight)
      // messages (by nonce) and possibly the lane state, proven from an earlier source state
    | Deliver(relayer: Relayer, proven: nat, bringsState: bool, nonces: seq<nat>)
      // the inbound lane data, proven from an earlier target state
    | ConfirmProven(proven: nat)

  // ----- The steps -----

  ghost function SendStep(b: Bridge, payload: Payload): Bridge {
    var nonce := WrappingSucc(b.source.data.latestGeneratedNonce);
    b.(source := Outbound(b.source.data.(latestGeneratedNonce := nonce), b.source.messages[nonce := payload]),
       sent := b.sent + [payload])
  }

  ghost function PruneStep(b: Bridge, writeWeight: Weight, givenWeight: Weight): Bridge {
    if !PruningEnds(b.source.data, writeWeight) then b
    else
      var (data, messages) := Pruned(b.source.data, b.source.messages, writeWeight, givenWeight);
      b.(source := Outbound(data, messages))
  }

  /** One proven message reaches the inbound lane. */
  ghost function ReceiveStep(limits: LaneLimits, b: Bridge, relayer: Relayer, nonce: nat, payload: Payload): Bridge {
    var (target, r) := Receive(limits, b.target, relayer, nonce);
    if r.Dispatched? then
      b.(target := target, dispatched := b.dispatched + [payload], deliveredBy := b.deliveredBy + [relayer])
    else b
  }

  ghost function ReceiveAll(limits: LaneLimits, b: Bridge, relayer: Relayer, messages: map<nat, Payload>,
                            nonces: seq<nat>): Bridge
    requires forall n <- nonces :: n in messages
  {
    if nonces == [] then b
    else
      var k := |nonces| - 1;
      var b' := ReceiveAll(limits, b, relayer, messages, nonces[..k]);
      ReceiveStep(limits, b', relayer, nonces[k], messages[nonces[k]])
  }

  /** A call whose proof shows something no source state ever held is rejected. */
  ghost function DeliverStep(limits: LaneLimits, b: Bridge, e: Event): Bridge
    requires e.Deliver?
  {
    if e.proven >= |b.sourceStates| || exists n <- e.nonces :: n !in b.sourceStates[e.proven].messages then b
    else
      var source := b.sourceStates[e.proven];
      var b' := if e.bringsState then b.(target := StateUpdate(b.target, source.data).0) else b;
      ReceiveAll(limits, b', e.relayer, source.messages, e.nonces)
  }

  /** The confirmation that a proof of the target state `d` makes. The relayer has to state the number of messages in
      the proven queue. */
  function ConfirmWith(source: Outbound, d: InboundLaneData)
    : (OutboundLaneData, Result<Option<DeliveredMessages>, ConfirmationError>)
  {
    Confirm(source.data, TotalUnrewardedMessages(d), LastDeliveredNonce(d), d.relayers)
  }

  /** The largest nonce is confirmed already, and the proven queue still holds it. */
  predicate ConfirmsAgain(source: Outbound, d: InboundLaneData) {
    source.data.latestReceivedNonce == LastDeliveredNonce(d) == U64_MAX && d.relayers != []
  }

  /** The largest nonce is confirmed already, and so it is in the proven queue, which is empty. */
  predicate ConfirmsEmptied(source: Outbound, d: InboundLaneData) {
    source.data.latestReceivedNonce == LastDeliveredNonce(d) == U64_MAX && d.relayers == []
  }

  ghost function ConfirmStep(b: Bridge, proven: nat): Bridge {
    if proven >= |b.targetStates| then b
    else
      var d := b.targetStates[proven];
      var (data, r) := ConfirmWith(b.source, d);
      match r
      case Ok(Some(received)) =>
        b.(source := b.source.(data := data), paid := (q: Relayer) => b.paid(q) + RewardFor(d.relayers, q, received),
           repeated := b.repeated + if ConfirmsAgain(b.source, d) then 1 else 0)
      case _ => b
  }

  /** What an event does to the two chains. */
  ghost function Move(limits: LaneLimits, b: Bridge, e: Event): Bridge {
    match e
    case Send(payload) => SendStep(b, payload)
    case PruneConfirmed(writeWeight, givenWeight) => PruneStep(b, writeWeight, givenWeight)
    case Deliver(_, _, _, _) => DeliverStep(limits, b, e)
    case ConfirmProven(proven) => ConfirmStep(b, proven)
  }

  /** The current states become part of the history. */
  ghost function Record(b: Bridge): Bridge {
    b.(sourceStates := b.sourceStates + [b.source], targetStates := b.targetStates + [b.target])
  }

  ghost function Step(limits: LaneLimits, b: Bridge, e: Event): Bridge {
    Record(Move(limits, b, e))
  }

  ghost function Run(limits: LaneLimits, events: seq<Event>): Bridge
    decreases |events|
  {
    if events == [] then Start()
    else Step(limits, Run(limits, events[..|events| - 1]), events[|events| - 1])
  }

  /** How many messages the run sends. */
  function Sends(events: seq<Event>): nat {
    if events == [] then 0
    else Sends(events[..|events| - 1]) + if events[|events| - 1].Send? then 1 else 0
  }

  // ----- What every reachable state satisfies -----

  ghost predicate MessagesAreSent(messages: map<nat, Payload>, sent: seq<Payload>) {
    forall n <- messages :: 1 <= n <= |sent| && messages[n] == sent[n - 1]
  }

  /** A source state, now or earlier: it is behind the current confirmations and holds only what was sent. */
  ghost predicate SourceFits(b: Bridge, s: Outbound) {
    && s.data.latestReceivedNonce <= b.source.data.latestReceivedNonce
    && MessagesAreSent(s.messages, b.sent)
  }

  /** A target state, now or earlier: its queue covers exactly its unconfirmed nonces and names who delivered them. */
  ghost predicate TargetFits(limits: LaneLimits, b: Bridge, d: InboundLaneData) {
    && Covers(d.relayers, d.lastConfirmedNonce, LastDeliveredNonce(d))
    && Attributed(d.relayers, b.deliveredBy)
    && LastDeliveredNonce(d) <= |b.deliveredBy|
    && d.lastConfirmedNonce <= b.source.data.latestReceivedNonce
    && |d.relayers| <= limits.maxUnrewardedRelayerEntries
    && LastDeliveredNonce(d) - d.lastConfirmedNonce <= limits.maxUnconfirmedMessages
  }

  /** The nonces of both chains in order, and what was dispatched. */
  ghost predicate InOrder(b: Bridge) {
    && b.source.data.latestGeneratedNonce == |b.sent| <= U64_MAX
    && |b.dispatched| == |b.deliveredBy| == LastDeliveredNonce(b.target)
    && b.target.lastConfirmedNonce <= b.source.data.latestReceivedNonce <= |b.dispatched|
    && b.dispatched <= b.sent
  }

  ghost predicate StatesFit(limits: LaneLimits, b: Bridge) {
    && TargetFits(limits, b, b.target) && SourceFits(b, b.source)
    && (forall i :: 0 <= i < |b.sourceStates| ==> SourceFits(b, b.sourceStates[i]))
    && (forall i :: 0 <= i < |b.targetStates| ==> TargetFits(limits, b, b.targetStates[i]))
  }

  /** Each relayer was paid for exactly the confirmed messages it delivered, and the relayer of the largest nonce once
      more for each time that nonce was confirmed again. */
  ghost predicate PaidFor(b: Bridge)
    requires b.source.data.latestReceivedNonce <= |b.deliveredBy|
  {
    && (b.repeated > 0 ==> b.source.data.latestReceivedNonce == U64_MAX)
    && forall r :: b.paid(r) == CountFor(b.deliveredBy, r, 0, b.source.data.latestReceivedNonce)
                                + if DeliveredBy(b.deliveredBy, U64_MAX, r) then b.repeated else 0
  }

  /** Only confirmed messages are pruned. */
  ghost predicate UnconfirmedStored(b: Bridge) {
    forall n: nat :: b.source.data.latestReceivedNonce < n <= |b.sent| ==> Stored(b.source, n)
  }

  predicate Stored(s: Outbound, n: nat) {
    n in s.messages
  }

  /** The current states are the last ones of the history. */
  ghost predicate Recorded(b: Bridge) {
    && b.sourceStates != [] && b.sourceStates[|b.sourceStates| - 1] == b.source
    && b.targetStates != [] && b.targetStates[|b.targetStates| - 1] == b.target
  }

  ghost predicate Inv(limits: LaneLimits, b: Bridge) {
    InOrder(b) && UnconfirmedStored(b) && StatesFit(limits, b) && PaidFor(b)
  }

  // ----- Every step keeps it -----

  /** States that fit keep fitting while sent messages, deliveries and confirmations only grow. */
  lemma StatesKeepFitting(limits: LaneLimits, b: Bridge, b': Bridge)
    requires b.sent <= b'.sent && b.deliveredBy <= b'.deliveredBy
    requires b.source.data.latestReceivedNonce <= b'.source.data.latestReceivedNonce
    ensures forall s :: SourceFits(b, s) ==> SourceFits(b', s)
    ensures forall d :: TargetFits(limits, b, d) ==> TargetFits(limits, b', d)
  {
    forall d | TargetFits(limits, b, d) ensures TargetFits(limits, b', d) {
      AttributedExtends(d.relayers, b.deliveredBy, b'.deliveredBy);
    }
  }

  lemma SendKeeps(limits: LaneLimits, b: Bridge, payload: Payload)
    requires Inv(limits, b) && |b.sent| < U64_MAX
    ensures Inv(limits, SendStep(b, payload))
  {
    var b' := SendStep(b, payload);
    StatesKeepFitting(limits, b, b');
    forall n: nat | b'.source.data.latestReceivedNonce < n <= |b'.sent| ensures Stored(b'.source, n) {
      if n <= |b.sent| { assert Stored(b.source, n); }
    }
  }

  lemma {:induction false} PruneShape(o: OutboundLaneData, messages: map<nat, Payload>, writeWeight: Weight,
                                      givenWeight: Weight)
    requires PruningEnds(o, writeWeight)
    ensures var (o', messages', left) := PruneWithin(o, messages, writeWeight, givenWeight);
            && o'.latestReceivedNonce == o.latestReceivedNonce && o'.latestGeneratedNonce == o.latestGeneratedNonce
            && (forall n <- messages' :: n in messages && messages'[n] == messages[n])
            && (forall n <- messages :: n > o.latestReceivedNonce ==> n in messages')
    decreases PruneMeasure(o, writeWeight, givenWeight)
  {
    if MayPrune(o, writeWeight, givenWeight) {
      NextPruning(o, messages, writeWeight, givenWeight);
      PruneShape(NextOldest(o), messages - {o.oldestUnprunedNonce}, writeWeight, SubWeight(givenWeight, writeWeight));
    }
  }

  lemma PruneKeeps(limits: LaneLimits, b: Bridge, writeWeight: Weight, givenWeight: Weight)
    requires Inv(limits, b)
    ensures Inv(limits, PruneStep(b, writeWeight, givenWeight))
  {
    if PruningEnds(b.source.data, writeWeight) {
      PruneShape(b.source.data, b.source.messages, writeWeight, givenWeight);
      var b' := PruneStep(b, writeWeight, givenWeight);
      StatesKeepFitting(limits, b, b');
      forall n: nat | b'.source.data.latestReceivedNonce < n <= |b'.sent| ensures Stored(b'.source, n) {
        assert Stored(b.source, n);
      }
    }
  }

  lemma StateUpdateKeeps(limits: LaneLimits, b: Bridge, s: Outbound)
    requires Inv(limits, b) && SourceFits(b, s)
    ensures Inv(limits, b.(target := StateUpdate(b.target, s.data).0))
    ensures s.data.latestReceivedNonce <= LastDeliveredNonce(b.target)
  {
    var d := StateUpdate(b.target, s.data).0;
    var hi, confirmed := LastDeliveredNonce(b.target), s.data.latestReceivedNonce;
    if confirmed > b.target.lastConfirmedNonce {
      ConfirmedCovers(b.target.relayers, b.target.lastConfirmedNonce, hi, confirmed);
      ConfirmedAttributed(b.target.relayers, b.deliveredBy, confirmed);
    }
    StatesKeepFitting(limits, b, b.(target := d));
  }

  /** The target state after a dispatched message fits the longer log. */
  lemma ReceivedFits(limits: LaneLimits, b: Bridge, relayer: Relayer, nonce: nat, payload: Payload)
    requires Inv(limits, b)
    requires Receive(limits, b.target, relayer, nonce).1.Dispatched?
    ensures var b' := ReceiveStep(limits, b, relayer, nonce, payload);
            && LastDeliveredNonce(b'.target) == LastDeliveredNonce(b.target) + 1 == nonce
            && TargetFits(limits, b', b'.target)
  {
    ReceivedCovers(limits, b.target, relayer, nonce);
    ReceivedAttributed(limits, b.target, relayer, nonce, b.deliveredBy);
  }

  lemma DeliveryKeepsPaid(b: Bridge, b': Bridge)
    requires b.source.data.latestReceivedNonce <= |b.deliveredBy| < U64_MAX && PaidFor(b)
    requires b.deliveredBy <= b'.deliveredBy && b'.source == b.source
    requires b'.paid == b.paid && b'.repeated == b.repeated
    ensures PaidFor(b')
  {
    forall r ensures b'.paid(r) == CountFor(b'.deliveredBy, r, 0, b'.source.data.latestReceivedNonce) {
      CountExtends(b.deliveredBy, b'.deliveredBy, r, 0, b.source.data.latestReceivedNonce);
    }
  }

  lemma ReceiveKeeps(limits: LaneLimits, b: Bridge, relayer: Relayer, nonce: nat, payload: Payload)
    requires Inv(limits, b)
    requires 1 <= nonce <= |b.sent| && payload == b.sent[nonce - 1]
    ensures var b' := ReceiveStep(limits, b, relayer, nonce, payload);
            && Inv(limits, b') && b'.sent == b.sent && b'.source == b.source
            && b'.sourceStates == b.sourceStates && b'.targetStates == b.targetStates
  {
    var b' := ReceiveStep(limits, b, relayer, nonce, payload);
    if Receive(limits, b.target, relayer, nonce).1.Dispatched? {
      ReceivedFits(limits, b, relayer, nonce, payload);
      StatesKeepFitting(limits, b, b');
      DeliveryKeepsPaid(b, b');
      assert InOrder(b');
      assert UnconfirmedStored(b');
    }
  }

  lemma {:induction false} ReceiveAllKeeps(limits: LaneLimits, b: Bridge, relayer: Relayer,
                                           messages: map<nat, Payload>, nonces: seq<nat>)
    requires Inv(limits, b)
    requires MessagesAreSent(messages, b.sent)
    requires forall n <- nonces :: n in messages
    ensures var b' := ReceiveAll(limits, b, relayer, messages, nonces);
            && Inv(limits, b') && b'.sent == b.sent && b'.source == b.source
            && b'.sourceStates == b.sourceStates && b'.targetStates == b.targetStates
  {
    if nonces != [] {
      var k := |nonces| - 1;
      ReceiveAllKeeps(limits, b, relayer, messages, nonces[..k]);
      var b' := ReceiveAll(limits, b, relayer, messages, nonces[..k]);
      ReceiveKeeps(limits, b', relayer, nonces[k], messages[nonces[k]]);
    }
  }

  lemma DeliverKeeps(limits: LaneLimits, b: Bridge, e: Event)
    requires Inv(limits, b) && e.Deliver?
    ensures Inv(limits, DeliverStep(limits, b, e))
  {
    if e.proven < |b.sourceStates| && forall n <- e.nonces :: n in b.sourceStates[e.proven].messages {
      var source := b.sourceStates[e.proven];
      StateUpdateKeeps(limits, b, source);
      var b' := if e.bringsState then b.(target := StateUpdate(b.target, source.data).0) else b;
      ReceiveAllKeeps(limits, b', e.relayer, source.messages, e.nonces);
    }
  }

  /** The exact outcome of a confirmation with a proof of an earlier target state. */
  lemma ConfirmOutcome(limits: LaneLimits, b: Bridge, d: InboundLaneData)
    requires Inv(limits, b) && TargetFits(limits, b, d)
    ensures var o, last := b.source.data, LastDeliveredNonce(d);
            ConfirmWith(b.source, d) ==
              if ConfirmsEmptied(b.source, d) then (o, Err(TryingToConfirmMoreMessagesThanExpected))
              else if ConfirmsAgain(b.source, d) then (o, Ok(Some(DeliveredMessages(U64_MAX, U64_MAX))))
              else if last <= o.latestReceivedNonce then (o, Ok(None))
              else (o.(latestReceivedNonce := last), Ok(Some(DeliveredMessages(o.latestReceivedNonce + 1, last))))
  {
    CoveringQueueAccepted(d);
    forall r: Relayer | LastDeliveredNonce(d) <= b.source.data.latestReceivedNonce {
      ConfirmedAgainExactly(b.source.data, d, r);
    }
  }

  /** Confirming new messages pays for exactly those. */
  lemma NewConfirmationPays(limits: LaneLimits, b: Bridge, d: InboundLaneData, r: Relayer)
    requires Inv(limits, b) && TargetFits(limits, b, d)
    requires b.source.data.latestReceivedNonce < LastDeliveredNonce(d)
    ensures var received, last := b.source.data.latestReceivedNonce, LastDeliveredNonce(d);
            b.paid(r) + RewardFor(d.relayers, r, DeliveredMessages(received + 1, last))
            == CountFor(b.deliveredBy, r, 0, last)
  {
    var received, last := b.source.data.latestReceivedNonce, LastDeliveredNonce(d);
    RewardsMatchLog(d.relayers, d.lastConfirmedNonce, last, b.deliveredBy, r, received, last);
    CountSplit(b.deliveredBy, r, 0, received, last);
  }

  /** Confirming the largest nonce again pays its relayer once more. */
  lemma RepeatedConfirmationPays(limits: LaneLimits, b: Bridge, d: InboundLaneData, r: Relayer)
    requires Inv(limits, b) && TargetFits(limits, b, d)
    requires ConfirmsAgain(b.source, d)
    ensures RewardFor(d.relayers, r, DeliveredMessages(U64_MAX, U64_MAX))
            == if DeliveredBy(b.deliveredBy, U64_MAX, r) then 1 else 0
  {
    ConfirmedAgainExactly(b.source.data, d, r);
    var entry := d.relayers[|d.relayers| - 1];
    assert EntryAttributed(entry, b.deliveredBy) && entry.messages.begin <= U64_MAX <= entry.messages.end;
    assert DeliveredBy(b.deliveredBy, U64_MAX, entry.relayer);
  }

  lemma ConfirmPays(limits: LaneLimits, b: Bridge, d: InboundLaneData, b': Bridge, received: DeliveredMessages)
    requires Inv(limits, b) && TargetFits(limits, b, d)
    requires ConfirmWith(b.source, d) == (b'.source.data, Ok(Some(received)))
    requires b'.deliveredBy == b.deliveredBy
    requires forall r :: b'.paid(r) == b.paid(r) + RewardFor(d.relayers, r, received)
    requires b'.repeated == b.repeated + if ConfirmsAgain(b.source, d) then 1 else 0
    ensures b'.source.data.latestReceivedNonce <= |b'.deliveredBy| && PaidFor(b')
  {
    ConfirmOutcome(limits, b, d);
    forall r ensures b'.paid(r) == CountFor(b'.deliveredBy, r, 0, b'.source.data.latestReceivedNonce)
                                   + if DeliveredBy(b'.deliveredBy, U64_MAX, r) then b'.repeated else 0
    {
      if ConfirmsAgain(b.source, d) {
        RepeatedConfirmationPays(limits, b, d, r);
      } else {
        NewConfirmationPays(limits, b, d, r);
      }
    }
  }

  lemma ConfirmKeeps(limits: LaneLimits, b: Bridge, proven: nat)
    requires Inv(limits, b)
    ensures Inv(limits, ConfirmStep(b, proven))
  {
    if proven < |b.targetStates| {
      var d := b.targetStates[proven];
      var r := ConfirmWith(b.source, d).1;
      ConfirmOutcome(limits, b, d);
      if r.Ok? && r.value.Some? {
        var b' := ConfirmStep(b, proven);
        ConfirmPays(limits, b, d, b', r.value.value);
        StatesKeepFitting(limits, b, b');
        assert forall n :: Stored(b'.source, n) <==> Stored(b.source, n);
      }
    }
  }

  lemma MoveKeeps(limits: LaneLimits, b: Bridge, e: Event)
    requires Inv(limits, b) && (e.Send? ==> |b.sent| < U64_MAX)
    ensures Inv(limits, Move(limits, b, e))
  {
    match e
    case Send(payload) => SendKeeps(limits, b, payload);
    case PruneConfirmed(writeWeight, givenWeight) => PruneKeeps(limits, b, writeWeight, givenWeight);
    case Deliver(_, _, _, _) => DeliverKeeps(limits, b, e);
    case ConfirmProven(proven) => ConfirmKeeps(limits, b, proven);
  }

  lemma RecordKeeps(limits: LaneLimits, b: Bridge)
    requires Inv(limits, b)
    ensures Inv(limits, Record(b)) && Recorded(Record(b))
  {
    StatesKeepFitting(limits, b, Record(b));
  }

  lemma StepKeeps(limits: LaneLimits, b: Bridge, e: Event)
    requires Inv(limits, b) && (e.Send? ==> |b.sent| < U64_MAX)
    ensures Inv(limits, Step(limits, b, e)) && Recorded(Step(limits, b, e))
  {
    MoveKeeps(limits, b, e);
    RecordKeeps(limits, Move(limits, b, e));
  }

  /** Receiving messages sends none, and leaves the history alone. */
  lemma {:induction false} ReceiveAllSends(limits: LaneLimits, b: Bridge, relayer: Relayer,
                                           messages: map<nat, Payload>, nonces: seq<nat>)
    requires forall n <- nonces :: n in messages
    ensures ReceiveAll(limits, b, relayer, messages, nonces).sent == b.sent
    ensures ReceiveAll(limits, b, relayer, messages, nonces).source == b.source
    ensures ReceiveAll(limits, b, relayer, messages, nonces).sourceStates == b.sourceStates
    ensures ReceiveAll(limits, b, relayer, messages, nonces).targetStates == b.targetStates
  {
    if nonces != [] {
      ReceiveAllSends(limits, b, relayer, messages, nonces[..|nonces| - 1]);
    }
  }

  lemma MoveSends(limits: LaneLimits, b: Bridge, e: Event)
    ensures var b' := Move(limits, b, e);
            var was, now := b.source.data.latestGeneratedNonce, b'.source.data.latestGeneratedNonce;
            && |b'.sent| == |b.sent| + (if e.Send? then 1 else 0)
            && now == if e.Send? then WrappingSucc(was) else was
  {
    match e
    case Send(_) =>
    case PruneConfirmed(writeWeight, givenWeight) =>
      if PruningEnds(b.source.data, writeWeight) {
        PruneShape(b.source.data, b.source.messages, writeWeight, givenWeight);
      }
    case ConfirmProven(_) =>
    case Deliver(relayer, proven, bringsState, nonces) =>
      if proven < |b.sourceStates| && forall n <- nonces :: n in b.sourceStates[proven].messages {
        var source := b.sourceStates[proven];
        var b' := if bringsState then b.(target := StateUpdate(b.target, source.data).0) else b;
        ReceiveAllSends(limits, b', relayer, source.messages, nonces);
      }
  }

  lemma CountsOn(sends: nat, generated: nat)
    requires generated == sends % (U64_MAX + 1)
    ensures WrappingSucc(generated) == (sends + 1) % (U64_MAX + 1)
  {
    NextModulo(sends, generated, U64_MAX + 1);
    ModuloFacts(generated + 1, U64_MAX + 1);
    ModuloFacts(0, U64_MAX + 1);
  }

  lemma WrapsExactly(sends: nat)
    ensures sends % (U64_MAX + 1) == sends <==> sends <= U64_MAX
  {
    ModuloFacts(sends, U64_MAX + 1);
  }

  lemma {:induction false} GeneratedIsSends(limits: LaneLimits, events: seq<Event>)
    ensures |Run(limits, events).sent| == Sends(events)
    ensures Run(limits, events).source.data.latestGeneratedNonce == Sends(events) % (U64_MAX + 1)
    decreases |events|
  {
    if events == [] {
      ModuloFacts(0, U64_MAX + 1);
    } else {
      var p, e := events[..|events| - 1], events[|events| - 1];
      var b := Run(limits, p);
      GeneratedIsSends(limits, p);
      MoveSends(limits, b, e);
      CountsOn(Sends(p), b.source.data.latestGeneratedNonce);
    }
  }

  /** In every run, however long, the latest generated nonce is the number of messages sent modulo 2^64; so the two
      agree exactly while no more than 2^64 - 1 messages are sent. */
  lemma GeneratedNonce(limits: LaneLimits, events: seq<Event>)
    ensures var b := Run(limits, events);
            && |b.sent| == Sends(events)
            && b.source.data.latestGeneratedNonce == Sends(events) % (U64_MAX + 1)
            && (b.source.data.latestGeneratedNonce == |b.sent| <==> Sends(events) <= U64_MAX)
  {
    GeneratedIsSends(limits, events);
    WrapsExactly(Sends(events));
  }

  /** In every run that sends no more messages than there are nonces, the invariant holds. */
  lemma {:induction false} EveryRun(limits: LaneLimits, events: seq<Event>)
    requires Sends(events) <= U64_MAX
    ensures Inv(limits, Run(limits, events)) && Recorded(Run(limits, events))
    decreases |events|
  {
    if events != [] {
      var p, e := events[..|events| - 1], events[|events| - 1];
      EveryRun(limits, p);
      GeneratedNonce(limits, p);
      StepKeeps(limits, Run(limits, p), e);
    }
  }

  // ----- What follows for the users of the lane -----

  /** In every such run the dispatched messages are the first of the sent ones, each once and in the order sent, and no
      message is pruned before its delivery is confirmed. */
  lemma DispatchedOnceInOrder(limits: LaneLimits, events: seq<Event>)
    requires Sends(events) <= U64_MAX
    ensures var b := Run(limits, events);
            && b.dispatched <= b.sent
            && |b.dispatched| == LastDeliveredNonce(b.target)
            && b.target.lastConfirmedNonce <= b.source.data.latestReceivedNonce <= LastDeliveredNonce(b.target)
                 <= b.source.data.latestGeneratedNonce
            && forall n: nat :: b.source.data.latestReceivedNonce < n <= |b.sent| ==>
                 Stored(b.source, n) && b.source.messages[n] == b.sent[n - 1]
  {
    EveryRun(limits, events);
    var b := Run(limits, events);
    assert InOrder(b) && UnconfirmedStored(b) && SourceFits(b, b.source);
  }

  /** In every such run a proven source state is never ahead of what was delivered, and a confirmation with a proof of
      an earlier target state is accepted, with one exception: the largest nonce is confirmed on both chains. */
  lemma ProofsAcceptedExactly(limits: LaneLimits, events: seq<Event>, i: nat)
    requires Sends(events) <= U64_MAX
    requires i < |Run(limits, events).targetStates| && i < |Run(limits, events).sourceStates|
    ensures var b := Run(limits, events);
            && (ConfirmWith(b.source, b.targetStates[i]).1.Ok? <==> !ConfirmsEmptied(b.source, b.targetStates[i]))
            && (Sends(events) < U64_MAX ==> ConfirmWith(b.source, b.targetStates[i]).1.Ok?)
            && b.sourceStates[i].data.latestReceivedNonce <= LastDeliveredNonce(b.target)
  {
    EveryRun(limits, events);
    GeneratedNonce(limits, events);
    var b := Run(limits, events);
    ConfirmOutcome(limits, b, b.targetStates[i]);
    StateUpdateKeeps(limits, b, b.sourceStates[i]);
  }

  /** What a relayer should have been paid: once for each confirmed message it delivered. */
  ghost function Earned(b: Bridge, r: Relayer): nat
    requires b.source.data.latestReceivedNonce <= |b.deliveredBy|
  {
    CountFor(b.deliveredBy, r, 0, b.source.data.latestReceivedNonce)
  }

  /** In every such run each relayer was paid once for each confirmed message it delivered, however often and from
      whatever states the confirmations were proven, except that the relayer of the largest nonce was paid once more for
      each time that nonce was confirmed again. So everybody was paid exactly once if and only if it never was, and it
      never is in a run that stops short of the largest nonce. */
  lemma PaidOnceExactly(limits: LaneLimits, events: seq<Event>)
    requires Sends(events) <= U64_MAX
    ensures var b := Run(limits, events);
            && b.source.data.latestReceivedNonce <= |b.deliveredBy|
            && (forall r :: b.paid(r) ==
                  Earned(b, r) + if DeliveredBy(b.deliveredBy, U64_MAX, r) then b.repeated else 0)
            && ((forall r :: b.paid(r) == Earned(b, r)) <==> b.repeated == 0)
            && (Sends(events) < U64_MAX ==> b.repeated == 0)
  {
    EveryRun(limits, events);
    GeneratedNonce(limits, events);
    var b := Run(limits, events);
    if b.repeated > 0 {
      var r := b.deliveredBy[U64_MAX - 1];
      assert DeliveredBy(b.deliveredBy, U64_MAX, r);
      assert b.paid(r) != Earned(b, r);
    }
  }

  /** A queue that covers nothing is empty. */
  lemma CoversNothing(relayers: seq<UnrewardedRelayer>, hi: nat)
    requires Covers(relayers, hi, hi)
    ensures relayers == []
  {
    CoversFront(relayers, hi, hi);
  }

  /** Bringing the current source state to a target whose deliveries are all confirmed empties the queue. */
  lemma StateUpdateEmpties(limits: LaneLimits, b: Bridge)
    requires Inv(limits, b)
    requires b.source.data.latestReceivedNonce == |b.dispatched|
    ensures StateUpdate(b.target, b.source.data).0 == InboundLaneData([], |b.dispatched|)
  {
    StateUpdateKeeps(limits, b, b.source);
    CoversNothing(StateUpdate(b.target, b.source.data).0.relayers, |b.dispatched|);
  }

  /** Bringing a single message. */
  lemma ReceiveOne(limits: LaneLimits, b: Bridge, r: Relayer, messages: map<nat, Payload>, n: nat)
    requires n in messages
    ensures ReceiveAll(limits, b, r, messages, [n]) == ReceiveStep(limits, b, r, n, messages[n])
  {
    assert [n][..0] == [];
  }

  /** A lane whose deliveries are all confirmed accepts the next message together with its current state. */
  lemma DeliverNext(limits: LaneLimits, b: Bridge, r: Relayer)
    requires limits.maxUnrewardedRelayerEntries >= 1 && limits.maxUnconfirmedMessages >= 1
    requires Inv(limits, b) && Recorded(b)
    requires b.source.data.latestReceivedNonce == |b.dispatched| < |b.sent|
    ensures var n := |b.dispatched|;
            var b' := DeliverStep(limits, b, Deliver(r, |b.sourceStates| - 1, true, [n + 1]));
            && b'.dispatched == b.dispatched + [b.sent[n]]
            && b'.target == InboundLaneData([UnrewardedRelayer(r, DeliveredMessages(n + 1, n + 1))], n)
            && b'.source == b.source && b'.sent == b.sent && b'.repeated == b.repeated
  {
    var n := |b.dispatched|;
    assert Stored(b.source, n + 1) && b.source.messages[n + 1] == b.sent[n];
    StateUpdateEmpties(limits, b);
    ReceiveOne(limits, b.(target := InboundLaneData([], n)), r, b.source.messages, n + 1);
  }

  /** Confirm the current target state. */
  ghost function ConfirmCurrent(limits: LaneLimits, b: Bridge): Bridge
    requires b.targetStates != []
  {
    Step(limits, b, ConfirmProven(|b.targetStates| - 1))
  }

  /** Bring the current source state and the next message. */
  ghost function DeliverCurrent(limits: LaneLimits, b: Bridge, r: Relayer): Bridge
    requires b.sourceStates != []
  {
    Step(limits, b, Deliver(r, |b.sourceStates| - 1, true, [|b.dispatched| + 1]))
  }

  /** Confirming the current target state confirms everything delivered. */
  lemma ConfirmCatchesUp(limits: LaneLimits, b: Bridge)
    requires Inv(limits, b) && Recorded(b)
    ensures var b' := ConfirmCurrent(limits, b);
            && Inv(limits, b') && Recorded(b')
            && b'.source.data.latestReceivedNonce == |b'.dispatched|
            && b'.dispatched == b.dispatched && b'.sent == b.sent && b'.target == b.target
            && (b.source.data.latestReceivedNonce < |b.dispatched| ==> b'.repeated == b.repeated)
  {
    ConfirmOutcome(limits, b, b.target);
    StepKeeps(limits, b, ConfirmProven(|b.targetStates| - 1));
  }

  lemma DeliverCurrentNext(limits: LaneLimits, b: Bridge, r: Relayer)
    requires limits.maxUnrewardedRelayerEntries >= 1 && limits.maxUnconfirmedMessages >= 1
    requires Inv(limits, b) && Recorded(b)
    requires b.source.data.latestReceivedNonce == |b.dispatched| < |b.sent|
    ensures var b', n := DeliverCurrent(limits, b, r), |b.dispatched|;
            && b'.dispatched == b.dispatched + [b.sent[n]]
            && b'.target == InboundLaneData([UnrewardedRelayer(r, DeliveredMessages(n + 1, n + 1))], n)
            && b'.source == b.source && b'.sent == b.sent && b'.repeated == b.repeated
  {
    DeliverNext(limits, b, r);
  }

  /** The lane is never stuck: after every such run, confirming the current target state and then bringing the current
      source state together with the next message dispatches that message. */
  lemma NeverStuck(limits: LaneLimits, events: seq<Event>, r: Relayer)
    requires limits.maxUnrewardedRelayerEntries >= 1 && limits.maxUnconfirmedMessages >= 1
    requires Sends(events) <= U64_MAX
    requires |Run(limits, events).dispatched| < |Run(limits, events).sent|
    ensures var b := Run(limits, events);
            && b.targetStates != [] && ConfirmCurrent(limits, b).sourceStates != []
            && DeliverCurrent(limits, ConfirmCurrent(limits, b), r).dispatched
               == b.dispatched + [b.sent[|b.dispatched|]]
  {
    EveryRun(limits, events);
    var b := Run(limits, events);
    ConfirmCatchesUp(limits, b);
    DeliverCurrentNext(limits, ConfirmCurrent(limits, b), r);
  }
}

/** The two ends of a bridge message lane: the outbound lane at the source chain and the inbound lane at the target
    chain, with the queue of relayers that still wait for their reward.
  */
module MessageLanes {
  import opened Wrappers

  type Relayer(==, !new, 00)
  type Payload(==, !new, 00)

  const U64_MAX: nat := 0xFFFF_FFFF_FFFF_FFFF

  datatype DeliveredMessages = DeliveredMessages(begin: nat, end: nat)

  datatype UnrewardedRelayer = UnrewardedRelayer(relayer: Relayer, messages: DeliveredMessages)

  datatype InboundLaneData = InboundLaneData(relayers: seq<UnrewardedRelayer>, lastConfirmedNonce: nat)

  datatype OutboundLaneData = OutboundLaneData(
    oldestUnprunedNonce: nat, latestReceivedNonce: nat, latestGeneratedNonce: nat)

  datatype LaneLimits = LaneLimits(maxUnrewardedRelayerEntries: nat, maxUnconfirmedMessages: nat)

  function SaturatingAdd(a: nat, b: nat): nat {
    if a + b > U64_MAX then U64_MAX else a + b
  }

  function SaturatingSub(a: nat, b: nat): nat {
    if a < b then 0 else a - b
  }

  /** The next value of a 64-bit counter, which wraps around. */
  function WrappingSucc(a: nat): nat {
    if a >= U64_MAX then 0 else a + 1
  }

  /** Length of the inclusive range, saturating. */
  function SaturatingLen(begin: nat, end: nat): nat {
    if end < begin then 0 else SaturatingAdd(end - begin, 1)
  }

  function LastDeliveredNonce(d: InboundLaneData): nat {
    if d.relayers == [] then d.lastConfirmedNonce else d.relayers[|d.relayers| - 1].messages.end
  }

  function TotalUnrewardedMessages(d: InboundLaneData): nat {
    if d.relayers == [] then 0
    else SaturatingLen(d.relayers[0].messages.begin, d.relayers[|d.relayers| - 1].messages.end)
  }

  // ----- Inbound lane -----

  /** Drop the front entries that are confirmed as a whole. */
  function DropConfirmed(relayers: seq<UnrewardedRelayer>, confirmed: nat): seq<UnrewardedRelayer> {
    if relayers != [] && relayers[0].messages.end <= confirmed then DropConfirmed(relayers[1..], confirmed)
    else relayers
  }

  /** Let the front entry begin behind the confirmed nonce. */
  function TrimFront(relayers: seq<UnrewardedRelayer>, confirmed: nat): seq<UnrewardedRelayer> {
    if relayers != [] && relayers[0].messages.begin <= confirmed then
      [UnrewardedRelayer(relayers[0].relayer, DeliveredMessages(confirmed + 1, relayers[0].messages.end))]
      + relayers[1..]
    else relayers
  }

  function StateUpdate(d: InboundLaneData, outbound: OutboundLaneData): (InboundLaneData, Option<nat>) {
    var confirmed := outbound.latestReceivedNonce;
    if confirmed > LastDeliveredNonce(d) || confirmed <= d.lastConfirmedNonce then (d, None)
    else (InboundLaneData(TrimFront(DropConfirmed(d.relayers, confirmed), confirmed), confirmed), Some(confirmed))
  }

  datatype ReceptionResult = Dispatched | InvalidNonce | TooManyUnrewardedRelayers | TooManyUnconfirmedMessages

  /** Note a message that `relayer` has just brought. */
  function NoteDispatched(relayers: seq<UnrewardedRelayer>, relayer: Relayer, nonce: nat): seq<UnrewardedRelayer> {
    var n := |relayers|;
    if relayers != [] && relayers[n - 1].relayer == relayer then
      var messages := relayers[n - 1].messages;
      relayers[..n - 1] + [UnrewardedRelayer(relayer, DeliveredMessages(messages.begin, messages.end + 1))]
    else
      relayers + [UnrewardedRelayer(relayer, DeliveredMessages(nonce, nonce))]
  }

  function Receive(limits: LaneLimits, d: InboundLaneData, relayer: Relayer, nonce: nat)
    : (InboundLaneData, ReceptionResult)
  {
    if LastDeliveredNonce(d) >= U64_MAX || nonce != LastDeliveredNonce(d) + 1 then (d, InvalidNonce)
    else if |d.relayers| >= limits.maxUnrewardedRelayerEntries then (d, TooManyUnrewardedRelayers)
    else if SaturatingSub(nonce, d.lastConfirmedNonce) > limits.maxUnconfirmedMessages then
      (d, TooManyUnconfirmedMessages)
    else (d.(relayers := NoteDispatched(d.relayers, relayer, nonce)), Dispatched)
  }

  class InboundLane {
    const limits: LaneLimits
    var data: InboundLaneData

    constructor (limits: LaneLimits)
      ensures this.limits == limits && data == InboundLaneData([], 0)
    {
      this.limits := limits;
      data := InboundLaneData([], 0);
    }

    /** Receive state of the corresponding outbound lane. */
    method ReceiveStateUpdate(outbound: OutboundLaneData) returns (r: Option<nat>)
      modifies this
      ensures (data, r) == StateUpdate(old(data), outbound)
    {
      var lastDeliveredNonce := LastDeliveredNonce(data);
      if outbound.latestReceivedNonce > lastDeliveredNonce {
        return None;
      }
      if outbound.latestReceivedNonce <= data.lastConfirmedNonce {
        return None;
      }
      var newConfirmedNonce := outbound.latestReceivedNonce;
      var relayers := data.relayers;
      while relayers != [] && relayers[0].messages.end <= newConfirmedNonce
        invariant DropConfirmed(relayers, newConfirmedNonce) == DropConfirmed(old(data).relayers, newConfirmedNonce)
        decreases |relayers|
      {
        relayers := relayers[1..];
      }
      if relayers != [] && relayers[0].messages.begin <= newConfirmedNonce {
        var entry := relayers[0];
        var trimmed := entry.(messages := entry.messages.(begin := newConfirmedNonce + 1));
        assert relayers[0 := trimmed] == [trimmed] + relayers[1..];
        relayers := relayers[0 := trimmed];
      }
      data := InboundLaneData(relayers, newConfirmedNonce);
      r := Some(outbound.latestReceivedNonce);
    }

    /** Receive new message. */
    method ReceiveMessage(relayer: Relayer, nonce: nat) returns (r: ReceptionResult)
      modifies this
      ensures (data, r) == Receive(limits, old(data), relayer, nonce)
    {
      var lastDeliveredNonce := LastDeliveredNonce(data);
      if lastDeliveredNonce >= U64_MAX || nonce != lastDeliveredNonce + 1 {
        return InvalidNonce;
      }
      if |data.relayers| >= limits.maxUnrewardedRelayerEntries {
        return TooManyUnrewardedRelayers;
      }
      var unconfirmedMessages := SaturatingSub(nonce, data.lastConfirmedNonce);
      if unconfirmedMessages > limits.maxUnconfirmedMessages {
        return TooManyUnconfirmedMessages;
      }
      var relayers := data.relayers;
      var n := |relayers|;
      if n > 0 && relayers[n - 1].relayer == relayer {
        var entry := relayers[n - 1];
        var extended := entry.(messages := entry.messages.(end := entry.messages.end + 1));
        assert relayers[n - 1 := extended] == relayers[..n - 1] + [extended];
        relayers := relayers[n - 1 := extended];
      } else {
        relayers := relayers + [UnrewardedRelayer(relayer, DeliveredMessages(nonce, nonce))];
      }
      data := data.(relayers := relayers);
      r := Dispatched;
    }
  }

  // ----- Outbound lane -----

  datatype ConfirmationError =
    | FailedToConfirmFutureMessages
    | EmptyUnrewardedRelayerEntry
    | NonConsecutiveUnrewardedRelayerEntries
    | TryingToConfirmMoreMessagesThanExpected

  /** The nonce with which the entry after this one must begin. */
  function NextBegin(entry: UnrewardedRelayer): Option<nat> {
    if entry.messages.end == U64_MAX then None else Some(entry.messages.end + 1)
  }

  /** Entry `i` begins where the one before it ends. */
  predicate Consecutive(relayers: seq<UnrewardedRelayer>, i: int)
    requires 0 < i < |relayers|
  {
    relayers[i - 1].messages.end != U64_MAX && relayers[i].messages.begin == relayers[i - 1].messages.end + 1
  }

  /** The entries are not empty, follow each other and do not pass `latest`. */
  ghost predicate WellFormedQueue(latest: nat, relayers: seq<UnrewardedRelayer>) {
    && (forall i :: 0 <= i < |relayers| ==> relayers[i].messages.begin <= relayers[i].messages.end <= latest)
    && (forall i :: 0 < i < |relayers| ==> Consecutive(relayers, i))
  }

  /** The entries from `i` on, where `expected` is the nonce the next one must begin with. */
  function CheckRelayersFrom(latest: nat, relayers: seq<UnrewardedRelayer>, i: nat, expected: Option<nat>)
    : Result<(), ConfirmationError>
    requires i <= |relayers|
    decreases |relayers| - i
  {
    if i == |relayers| then Ok(())
    else
      var DeliveredMessages(begin, end) := relayers[i].messages;
      if end < begin then Err(EmptyUnrewardedRelayerEntry)
      else if expected != Some(begin) then Err(NonConsecutiveUnrewardedRelayerEntries)
      else if end > latest then Err(FailedToConfirmFutureMessages)
      else CheckRelayersFrom(latest, relayers, i + 1, NextBegin(relayers[i]))
  }

  function CheckRelayers(latest: nat, relayers: seq<UnrewardedRelayer>): Result<(), ConfirmationError> {
    CheckRelayersFrom(latest, relayers, 0, if relayers == [] then None else Some(relayers[0].messages.begin))
  }

  function Confirm(o: OutboundLaneData, maxAllowedMessages: nat, latestDelivered: nat, relayers: seq<UnrewardedRelayer>)
    : (OutboundLaneData, Result<Option<DeliveredMessages>, ConfirmationError>)
  {
    var confirmed := DeliveredMessages(SaturatingAdd(o.latestReceivedNonce, 1), latestDelivered);
    var total := SaturatingLen(confirmed.begin, confirmed.end);
    if total == 0 then (o, Ok(None))
    else if confirmed.end > o.latestGeneratedNonce then (o, Err(FailedToConfirmFutureMessages))
    else if total > maxAllowedMessages then (o, Err(TryingToConfirmMoreMessagesThanExpected))
    else
      match CheckRelayers(confirmed.end, relayers)
      case Err(e) => (o, Err(e))
      case Ok(_) => (o.(latestReceivedNonce := confirmed.end), Ok(Some(confirmed)))
  }

  /** Verify the queue of unrewarded relayers, entry by entry. */
  method EnsureUnrewardedRelayersAreCorrect(latest: nat, relayers: seq<UnrewardedRelayer>)
    returns (r: Result<(), ConfirmationError>)
    ensures r == CheckRelayers(latest, relayers)
    ensures r.Ok? <==> WellFormedQueue(latest, relayers)
  {
    var expectedEntryBegin: Option<nat> := if relayers == [] then None else Some(relayers[0].messages.begin);
    var i := 0;
    while i < |relayers|
      invariant 0 <= i <= |relayers|
      invariant CheckRelayers(latest, relayers) == CheckRelayersFrom(latest, relayers, i, expectedEntryBegin)
      invariant i == 0 ==> expectedEntryBegin == if relayers == [] then None else Some(relayers[0].messages.begin)
      invariant i > 0 ==> expectedEntryBegin == NextBegin(relayers[i - 1])
      invariant forall k :: 0 <= k < i ==> relayers[k].messages.begin <= relayers[k].messages.end <= latest
      invariant forall k :: 0 < k < i ==> Consecutive(relayers, k)
    {
      var entry := relayers[i];
      if entry.messages.end < entry.messages.begin {
        return Err(EmptyUnrewardedRelayerEntry);
      }
      if expectedEntryBegin != Some(entry.messages.begin) {
        assert !Consecutive(relayers, i);
        return Err(NonConsecutiveUnrewardedRelayerEntries);
      }
      expectedEntryBegin := NextBegin(entry);
      if entry.messages.end > latest {
        return Err(FailedToConfirmFutureMessages);
      }
      i := i + 1;
    }
    r := Ok(());
  }

  class OutboundLane {
    var data: OutboundLaneData
    var messages: map<nat, Payload>

    constructor ()
      ensures data == OutboundLaneData(1, 0, 0) && messages == map[]
    {
      data := OutboundLaneData(1, 0, 0);
      messages := map[];
    }

    /** Send message over lane; returns its nonce, the next one unless the nonces are used up. */
    method SendMessage(payload: Payload) returns (nonce: nat)
      modifies this
      ensures nonce == WrappingSucc(old(data.latestGeneratedNonce))
      ensures data == old(data).(latestGeneratedNonce := nonce)
      ensures messages == old(messages)[nonce := payload]
    {
      nonce := WrappingSucc(data.latestGeneratedNonce);
      messages := messages[nonce := payload];
      data := data.(latestGeneratedNonce := nonce);
    }

    /** Confirm messages delivery. */
    method ConfirmDelivery(maxAllowedMessages: nat, latestDelivered: nat, relayers: seq<UnrewardedRelayer>)
      returns (r: Result<Option<DeliveredMessages>, ConfirmationError>)
      modifies this
      ensures messages == old(messages)
      ensures (data, r) == Confirm(old(data), maxAllowedMessages, latestDelivered, relayers)
    {
      var confirmedMessages := DeliveredMessages(SaturatingAdd(data.latestReceivedNonce, 1), latestDelivered);
      var total := SaturatingLen(confirmedMessages.begin, confirmedMessages.end);
      if total == 0 {
        return Ok(None);
      }
      if confirmedMessages.end > data.latestGeneratedNonce {
        return Err(FailedToConfirmFutureMessages);
      }
      if total > maxAllowedMessages {
        return Err(TryingToConfirmMoreMessagesThanExpected);
      }
      var correct := EnsureUnrewardedRelayersAreCorrect(confirmedMessages.end, relayers);
      if correct.Err? {
        return Err(correct.error);
      }
      data := data.(latestReceivedNonce := confirmedMessages.end);
      r := Ok(Some(confirmedMessages));
    }

    /** Prune confirmed messages, from the oldest on, as long as the weight suffices. Returns the weight spent: what the
        messages took, and one more write for the lane data, which is saved only if the messages took anything. */
    method PruneMessages(writeWeight: Weight, givenWeight: Weight) returns (spentWeight: Weight)
      requires PruningEnds(data, writeWeight)
      modifies this
      ensures (data, messages) == Pruned(old(data), old(messages), writeWeight, givenWeight)
      ensures var left := PruneWithin(old(data), old(messages), writeWeight, givenWeight).2;
              AddWeight(spentWeight, left) == if left == givenWeight then left else AddWeight(givenWeight, writeWeight)
      ensures AllGte(givenWeight, spentWeight)
    {
      var remainingWeight := givenWeight;
      var newData := data;
      spentWeight := ZERO_WEIGHT;
      while MayPrune(newData, writeWeight, remainingWeight)
        invariant PruningEnds(newData, writeWeight)
        invariant data == old(data)
        invariant Spent(writeWeight, givenWeight, spentWeight, remainingWeight)
        invariant PruneWithin(newData, messages, writeWeight, remainingWeight)
                  == PruneWithin(old(data), old(messages), writeWeight, givenWeight)
        decreases PruneMeasure(newData, writeWeight, remainingWeight)
      {
        NextPruning(newData, messages, writeWeight, remainingWeight);
        SpendOne(writeWeight, givenWeight, spentWeight, remainingWeight);
        messages := messages - {newData.oldestUnprunedNonce};
        spentWeight := AddWeight(spentWeight, writeWeight);
        remainingWeight := SubWeight(remainingWeight, writeWeight);
        newData := NextOldest(newData);
      }
      if spentWeight != ZERO_WEIGHT {
        spentWeight := AddWeight(spentWeight, writeWeight);
        data := newData;
      }
    }
  }

  lemma {:induction false} CheckRelayersFromExactly(latest: nat, relayers: seq<UnrewardedRelayer>, i: nat,
                                                    expected: Option<nat>)
    requires i <= |relayers|
    ensures CheckRelayersFrom(latest, relayers, i, expected).Ok? <==>
              && (i < |relayers| ==> expected == Some(relayers[i].messages.begin))
              && (forall k :: i <= k < |relayers| ==> relayers[k].messages.begin <= relayers[k].messages.end <= latest)
              && (forall k :: i < k < |relayers| ==> Consecutive(relayers, k))
    decreases |relayers| - i
  {
    if i < |relayers| {
      CheckRelayersFromExactly(latest, relayers, i + 1, NextBegin(relayers[i]));
      if i + 1 < |relayers| {
        assert Consecutive(relayers, i + 1) <==> NextBegin(relayers[i]) == Some(relayers[i + 1].messages.begin);
      }
    }
  }

  predicate EntryCorrect(latest: nat, relayers: seq<UnrewardedRelayer>, i: nat)
    requires i < |relayers|
  {
    relayers[i].messages.begin <= relayers[i].messages.end <= latest && (i > 0 ==> Consecutive(relayers, i))
  }

  /** The first entry that is not correct decides the error: empty, not consecutive or from the future, in this
      order. */
  lemma {:induction false} FirstWrongEntry(latest: nat, relayers: seq<UnrewardedRelayer>, i: nat, wrong: nat)
    requires i <= wrong < |relayers| && !EntryCorrect(latest, relayers, wrong)
    requires forall k :: i <= k < wrong ==> EntryCorrect(latest, relayers, k)
    ensures var expected := if i == 0 then Some(relayers[0].messages.begin) else NextBegin(relayers[i - 1]);
            CheckRelayersFrom(latest, relayers, i, expected)
            == Err(if relayers[wrong].messages.end < relayers[wrong].messages.begin then EmptyUnrewardedRelayerEntry
                   else if wrong > 0 && !Consecutive(relayers, wrong) then NonConsecutiveUnrewardedRelayerEntries
                   else FailedToConfirmFutureMessages)
    decreases wrong - i
  {
    if i < wrong {
      assert EntryCorrect(latest, relayers, i);
      FirstWrongEntry(latest, relayers, i + 1, wrong);
    }
  }

  /** A confirmation without new nonces changes nothing. One with new nonces, or with the largest nonce, succeeds
      exactly when they were generated, there are no more of them than declared, and the queue is well formed up to
      them; it then confirms exactly these nonces. */
  lemma ConfirmExactly(o: OutboundLaneData, declared: nat, latest: nat, relayers: seq<UnrewardedRelayer>)
    requires o.latestReceivedNonce <= U64_MAX && latest <= U64_MAX
    ensures var (o', r) := Confirm(o, declared, latest, relayers);
            var begin := if o.latestReceivedNonce < U64_MAX then o.latestReceivedNonce + 1 else U64_MAX;
            && (r == Ok(None) <==> latest < begin)
            && (r == Ok(Some(DeliveredMessages(begin, latest))) <==>
                  && begin <= latest <= o.latestGeneratedNonce && latest - begin < declared
                  && WellFormedQueue(latest, relayers))
            && (r.Ok? ==> r.value == None || r.value == Some(DeliveredMessages(begin, latest)))
            && (begin <= latest && latest > o.latestGeneratedNonce ==> r == Err(FailedToConfirmFutureMessages))
            && (begin <= latest <= o.latestGeneratedNonce && latest - begin >= declared ==>
                  r == Err(TryingToConfirmMoreMessagesThanExpected))
            && o' == if r.Ok? && r.value.Some? then o.(latestReceivedNonce := latest) else o
  {
    CheckRelayersFromExactly(latest, relayers, 0, if relayers == [] then None else Some(relayers[0].messages.begin));
  }

  datatype Weight = Weight(refTime: nat, proofSize: nat)

  const ZERO_WEIGHT := Weight(0, 0)

  predicate AllGte(a: Weight, b: Weight) {
    a.refTime >= b.refTime && a.proofSize >= b.proofSize
  }

  function AddWeight(a: Weight, b: Weight): Weight {
    Weight(a.refTime + b.refTime, a.proofSize + b.proofSize)
  }

  function SubWeight(a: Weight, b: Weight): Weight
    requires AllGte(a, b)
  {
    Weight(a.refTime - b.refTime, a.proofSize - b.proofSize)
  }

  function Times(w: Weight, k: nat): Weight {
    Weight(w.refTime * k, w.proofSize * k)
  }

  function Twice(w: Weight): Weight {
    Weight(2 * w.refTime, 2 * w.proofSize)
  }

  function NextOldest(o: OutboundLaneData): OutboundLaneData {
    o.(oldestUnprunedNonce := WrappingSucc(o.oldestUnprunedNonce))
  }

  /** Another message is confirmed, and the weight allows to prune it and then to write the lane data. */
  predicate MayPrune(o: OutboundLaneData, writeWeight: Weight, remaining: Weight) {
    && AllGte(remaining, Twice(writeWeight))
    && o.oldestUnprunedNonce <= o.latestReceivedNonce
  }

  /** If writes weigh nothing, a lane whose largest nonce is confirmed would be pruned forever. */
  predicate PruningEnds(o: OutboundLaneData, writeWeight: Weight) {
    writeWeight != ZERO_WEIGHT || o.latestReceivedNonce < U64_MAX
  }

  function PruneMeasure(o: OutboundLaneData, writeWeight: Weight, remaining: Weight): nat {
    if writeWeight == ZERO_WEIGHT then SaturatingSub(o.latestReceivedNonce + 1, o.oldestUnprunedNonce)
    else remaining.refTime + remaining.proofSize
  }

  /** Prune within the weight; the last part of the result is the weight left. */
  function PruneWithin(o: OutboundLaneData, messages: map<nat, Payload>, writeWeight: Weight, remaining: Weight)
    : (OutboundLaneData, map<nat, Payload>, Weight)
    requires PruningEnds(o, writeWeight)
    decreases PruneMeasure(o, writeWeight, remaining)
  {
    if !MayPrune(o, writeWeight, remaining) then (o, messages, remaining)
    else
      PruneWithin(NextOldest(o), messages - {o.oldestUnprunedNonce}, writeWeight, SubWeight(remaining, writeWeight))
  }

  /** What pruning leaves: the lane data is saved only if the messages took any weight. */
  function Pruned(o: OutboundLaneData, messages: map<nat, Payload>, writeWeight: Weight, givenWeight: Weight)
    : (OutboundLaneData, map<nat, Payload>)
    requires PruningEnds(o, writeWeight)
  {
    var (o', messages', left) := PruneWithin(o, messages, writeWeight, givenWeight);
    (if left == givenWeight then o else o', messages')
  }

  lemma NextPruning(o: OutboundLaneData, messages: map<nat, Payload>, writeWeight: Weight, remaining: Weight)
    requires PruningEnds(o, writeWeight) && MayPrune(o, writeWeight, remaining)
    ensures PruningEnds(NextOldest(o), writeWeight)
    ensures var rest := SubWeight(remaining, writeWeight);
            && PruneMeasure(NextOldest(o), writeWeight, rest) < PruneMeasure(o, writeWeight, remaining)
            && PruneWithin(NextOldest(o), messages - {o.oldestUnprunedNonce}, writeWeight, rest)
               == PruneWithin(o, messages, writeWeight, remaining)
  {
  }

  /** What is spent and what remains make up what was given, and once anything is spent another write remains. */
  predicate Spent(writeWeight: Weight, givenWeight: Weight, spent: Weight, remaining: Weight) {
    && AddWeight(spent, remaining) == givenWeight
    && (spent != ZERO_WEIGHT ==> AllGte(remaining, writeWeight))
  }

  lemma SpendOne(writeWeight: Weight, givenWeight: Weight, spent: Weight, remaining: Weight)
    requires AllGte(remaining, Twice(writeWeight))
    requires Spent(writeWeight, givenWeight, spent, remaining)
    ensures Spent(writeWeight, givenWeight, AddWeight(spent, writeWeight), SubWeight(remaining, writeWeight))
  {
  }

  /** Below the largest nonce, pruning removes exactly the oldest confirmed messages up to some nonce, and moves the
      oldest nonce behind them. */
  lemma {:induction false} PrunesOldestConfirmed(o: OutboundLaneData, messages: map<nat, Payload>, writeWeight: Weight,
                                                 remaining: Weight)
    requires o.latestReceivedNonce < U64_MAX
    ensures var (o', messages', left) := PruneWithin(o, messages, writeWeight, remaining);
            var oldest, oldest' := o.oldestUnprunedNonce, o'.oldestUnprunedNonce;
            && o' == o.(oldestUnprunedNonce := oldest')
            && (oldest == oldest' || oldest < oldest' <= o.latestReceivedNonce + 1)
            && messages' == (map n <- messages | !(oldest <= n < oldest') :: messages[n])
    decreases PruneMeasure(o, writeWeight, remaining)
  {
    if MayPrune(o, writeWeight, remaining) {
      PrunesOldestConfirmed(NextOldest(o), messages - {o.oldestUnprunedNonce}, writeWeight,
                            SubWeight(remaining, writeWeight));
    }
  }

  lemma OneMore(w: Weight, k: nat)
    ensures Times(w, k + 1) == AddWeight(Times(w, k), w)
  {
  }

  /** Each message takes one write; and pruning stops only when nothing confirmed is left or when what is left does not
      cover another message and the lane data. */
  lemma {:induction false} PruningWeight(o: OutboundLaneData, messages: map<nat, Payload>, writeWeight: Weight,
                                         remaining: Weight)
    requires o.latestReceivedNonce < U64_MAX
    ensures var (o', messages', left) := PruneWithin(o, messages, writeWeight, remaining);
            && o'.oldestUnprunedNonce >= o.oldestUnprunedNonce
            && AddWeight(left, Times(writeWeight, o'.oldestUnprunedNonce - o.oldestUnprunedNonce)) == remaining
            && (o'.oldestUnprunedNonce > o.latestReceivedNonce || !AllGte(left, Twice(writeWeight)))
    decreases PruneMeasure(o, writeWeight, remaining)
  {
    if MayPrune(o, writeWeight, remaining) {
      var rest := SubWeight(remaining, writeWeight);
      PruningWeight(NextOldest(o), messages - {o.oldestUnprunedNonce}, writeWeight, rest);
      var o' := PruneWithin(o, messages, writeWeight, remaining).0;
      OneMore(writeWeight, o'.oldestUnprunedNonce - NextOldest(o).oldestUnprunedNonce);
    }
  }

  /** The lane data is saved unless writes weigh nothing. */
  lemma PrunedData(o: OutboundLaneData, messages: map<nat, Payload>, writeWeight: Weight, givenWeight: Weight)
    requires o.latestReceivedNonce < U64_MAX
    ensures var (o', messages', left) := PruneWithin(o, messages, writeWeight, givenWeight);
            Pruned(o, messages, writeWeight, givenWeight) == (if writeWeight == ZERO_WEIGHT then o else o', messages')
  {
    PrunesOldestConfirmed(o, messages, writeWeight, givenWeight);
    PruningWeight(o, messages, writeWeight, givenWeight);
    var o' := PruneWithin(o, messages, writeWeight, givenWeight).0;
    TimesZero(writeWeight, o'.oldestUnprunedNonce - o.oldestUnprunedNonce);
  }

  lemma TimesZero(w: Weight, k: nat)
    ensures Times(w, k) == ZERO_WEIGHT <==> w == ZERO_WEIGHT || k == 0
  {
  }

  // ----- Rewards -----

  /** How many nonces of the entry fall into the received range. */
  function EntryReward(entry: UnrewardedRelayer, received: DeliveredMessages): nat {
    var begin := if entry.messages.begin > received.begin then entry.messages.begin else received.begin;
    var end := if entry.messages.end < received.end then entry.messages.end else received.end;
    if end >= begin then end - begin + 1 else 0
  }

  /** What one relayer earns from the queue. */
  function RewardFor(relayers: seq<UnrewardedRelayer>, r: Relayer, received: DeliveredMessages): nat {
    if relayers == [] then 0
    else
      var n := |relayers| - 1;
      RewardFor(relayers[..n], r, received) + if relayers[n].relayer == r then EntryReward(relayers[n], received) else 0
  }

  function Balance(rewards: map<Relayer, nat>, r: Relayer): nat {
    if r in rewards then rewards[r] else 0
  }

  /** Calculate the number of messages that the relayers have delivered. */
  method CalcRelayersRewards(relayers: seq<UnrewardedRelayer>, received: DeliveredMessages)
    returns (rewards: map<Relayer, nat>)
    ensures forall r :: Balance(rewards, r) == RewardFor(relayers, r, received)
  {
    rewards := map[];
    var i := 0;
    while i < |relayers|
      invariant 0 <= i <= |relayers|
      invariant forall r :: Balance(rewards, r) == RewardFor(relayers[..i], r, received)
    {
      var entry := relayers[i];
      var nonceBegin := if entry.messages.begin > received.begin then entry.messages.begin else received.begin;
      var nonceEnd := if entry.messages.end < received.end then entry.messages.end else received.end;
      assert relayers[..i + 1][..i] == relayers[..i];
      if nonceEnd >= nonceBegin {
        rewards := rewards[entry.relayer := Balance(rewards, entry.relayer) + (nonceEnd - nonceBegin + 1)];
      }
      i := i + 1;
    }
    assert relayers[..i] == relayers;
  }
}

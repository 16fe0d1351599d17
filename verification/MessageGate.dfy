/** The transaction gate in front of the message lanes: which delivery and confirmation calls it lets through, and what
    that means for the lanes behind it.
  */
module MessageGate {
  import opened Wrappers
  import opened MessageLanes
  import opened RelayerQueue

  /** An inclusive range of nonces. */
  datatype NonceRange = NonceRange(start: nat, end: nat)

  predicate IsEmpty(r: NonceRange) {
    r.start > r.end
  }

  datatype BaseMessagesProofInfo = BaseMessagesProofInfo(bundledRange: NonceRange, bestStoredNonce: nat)

  datatype Occupation = Occupation(freeRelayerSlots: nat, freeMessageSlots: nat)

  datatype CallInfo =
    | ReceiveMessagesProof(base: BaseMessagesProofInfo, unrewardedRelayers: Occupation)
    | ReceiveMessagesDeliveryProof(base: BaseMessagesProofInfo)

  predicate AppendsToStoredNonce(b: BaseMessagesProofInfo) {
    b.bestStoredNonce < U64_MAX && b.bundledRange.start == b.bestStoredNonce + 1
  }

  predicate IsObsoleteDelivery(info: CallInfo, isDispatcherActive: bool)
    requires info.ReceiveMessagesProof?
  {
    if !isDispatcherActive then true
    else if IsEmpty(info.base.bundledRange) then
      !(info.unrewardedRelayers.freeRelayerSlots == 0 || info.unrewardedRelayers.freeMessageSlots == 0)
    else !AppendsToStoredNonce(info.base)
  }

  predicate IsObsoleteConfirmation(info: CallInfo)
    requires info.ReceiveMessagesDeliveryProof?
  {
    IsEmpty(info.base.bundledRange) || !AppendsToStoredNonce(info.base)
  }

  function OccupationOf(limits: LaneLimits, d: InboundLaneData): Occupation {
    Occupation(SaturatingSub(limits.maxUnrewardedRelayerEntries, |d.relayers|),
               SaturatingSub(limits.maxUnconfirmedMessages, SaturatingSub(LastDeliveredNonce(d), d.lastConfirmedNonce)))
  }

  function DeliveryInfo(limits: LaneLimits, d: InboundLaneData, nonces: NonceRange): CallInfo {
    ReceiveMessagesProof(BaseMessagesProofInfo(nonces, LastDeliveredNonce(d)), OccupationOf(limits, d))
  }

  function ConfirmationInfo(o: OutboundLaneData, lastDeliveredNonce: nat): CallInfo {
    var range := NonceRange(WrappingSucc(o.latestReceivedNonce), lastDeliveredNonce);
    ReceiveMessagesDeliveryProof(BaseMessagesProofInfo(range, o.latestReceivedNonce))
  }

  datatype Validity = ValidCall | BadCall | StaleCall

  function CheckObsoleteCall(isPalletHalted: bool, isDispatcherActive: bool, info: Option<CallInfo>): Validity {
    match info
    case None => ValidCall
    case Some(i) =>
      if isPalletHalted then BadCall
      else if i.ReceiveMessagesProof? && IsObsoleteDelivery(i, isDispatcherActive) then StaleCall
      else if i.ReceiveMessagesDeliveryProof? && IsObsoleteConfirmation(i) then StaleCall
      else ValidCall
  }

  predicate WasSuccessful(limits: LaneLimits, info: CallInfo, inbound: InboundLaneData, outbound: OutboundLaneData) {
    match info
    case ReceiveMessagesProof(base, unrewardedRelayers) =>
      if IsEmpty(base.bundledRange)
      then OccupationOf(limits, inbound).freeMessageSlots > unrewardedRelayers.freeMessageSlots
      else LastDeliveredNonce(inbound) == base.bundledRange.end
    case ReceiveMessagesDeliveryProof(base) => outbound.latestReceivedNonce == base.bundledRange.end
  }

  // ----- The verdict -----

  /** Calls of other pallets pass. A delivery is stale exactly when the dispatcher is inactive, or it brings messages
      that do not follow the last delivered one, or it brings none while the lane has both a relayer slot and a message
      slot left. */
  lemma DeliveryVerdict(halted: bool, active: bool, limits: LaneLimits, d: InboundLaneData, range: NonceRange)
    ensures CheckObsoleteCall(halted, active, None) == ValidCall
    ensures var verdict := CheckObsoleteCall(halted, active, Some(DeliveryInfo(limits, d, range)));
            var next := range.start == LastDeliveredNonce(d) + 1 && LastDeliveredNonce(d) < U64_MAX;
            var blocked := || |d.relayers| >= limits.maxUnrewardedRelayerEntries
                           || LastDeliveredNonce(d) >= d.lastConfirmedNonce + limits.maxUnconfirmedMessages
                           || limits.maxUnconfirmedMessages == 0;
            && (verdict == BadCall <==> halted)
            && (verdict == ValidCall <==> !halted && active && if range.start <= range.end then next else blocked)
  {
  }

  /** A confirmation is stale exactly when it confirms nothing above the last confirmed nonce; the dispatcher does not
      matter. */
  lemma ConfirmationVerdict(halted: bool, active: bool, o: OutboundLaneData, lastDelivered: nat)
    requires lastDelivered <= U64_MAX
    ensures var verdict := CheckObsoleteCall(halted, active, Some(ConfirmationInfo(o, lastDelivered)));
            && (verdict == BadCall <==> halted)
            && (verdict == ValidCall <==> !halted && o.latestReceivedNonce < lastDelivered)
  {
  }

  // ----- Accepted and successful calls tile the nonce line -----

  /** The bundled range of a call that took a lane's nonce from `before` to `after`. */
  datatype Advance = Advance(before: nat, range: NonceRange, after: nat)

  /** A non-empty delivery that the gate let through and that was successful, whatever the lane did with it. */
  ghost predicate IsDelivery(limits: LaneLimits, a: Advance) {
    exists d: InboundLaneData, d': InboundLaneData, o: OutboundLaneData ::
      Delivers(limits, a, d, d', o)
  }

  predicate Delivers(limits: LaneLimits, a: Advance, d: InboundLaneData, d': InboundLaneData, o: OutboundLaneData) {
    var info := DeliveryInfo(limits, d, a.range);
    && !IsEmpty(a.range)
    && CheckObsoleteCall(false, true, Some(info)) == ValidCall
    && WasSuccessful(limits, info, d', o)
    && LastDeliveredNonce(d) == a.before && LastDeliveredNonce(d') == a.after
  }

  /** A confirmation that the gate let through and that was successful. */
  ghost predicate IsConfirmation(limits: LaneLimits, a: Advance) {
    exists o: OutboundLaneData, o': OutboundLaneData, d: InboundLaneData ::
      Confirms(limits, a, o, o', d)
  }

  predicate Confirms(limits: LaneLimits, a: Advance, o: OutboundLaneData, o': OutboundLaneData, d: InboundLaneData) {
    var info := ConfirmationInfo(o, a.range.end);
    && info.base.bundledRange == a.range
    && CheckObsoleteCall(false, true, Some(info)) == ValidCall
    && WasSuccessful(limits, info, d, o')
    && o.latestReceivedNonce == a.before && o'.latestReceivedNonce == a.after
  }

  /** A run of deliveries, or of confirmations, through which alone the lane's nonce changes. */
  ghost predicate IsLaneRun(limits: LaneLimits, run: seq<Advance>) {
    && (|| (forall i :: 0 <= i < |run| ==> IsDelivery(limits, run[i]))
        || (forall i :: 0 <= i < |run| ==> IsConfirmation(limits, run[i])))
    && (forall i, j :: 0 <= i && j == i + 1 && j < |run| ==> run[j].before == run[i].after)
  }

  predicate InRange(r: NonceRange, n: nat) {
    r.start <= n <= r.end
  }

  /** Every call of such a run extends the nonce by exactly its range. */
  lemma AdvancesByRange(limits: LaneLimits, a: Advance)
    requires IsDelivery(limits, a) || IsConfirmation(limits, a)
    ensures a.range.start == a.before + 1 && a.range.end == a.after && a.before < a.after
  {
  }

  /** Each call starts where the one before it ended. */
  ghost predicate Chained(run: seq<Advance>) {
    && (forall i :: 0 <= i < |run| ==> run[i].before < run[i].after)
    && (forall i :: 0 <= i < |run| ==> run[i].range == NonceRange(run[i].before + 1, run[i].after))
    && (forall i, j :: 0 <= i && j == i + 1 && j < |run| ==> run[j].before == run[i].after)
  }

  lemma {:induction false} LaterStartsBehind(run: seq<Advance>, i: nat, j: nat)
    requires Chained(run) && i < j < |run|
    ensures run[i].after <= run[j].before
    decreases j - i
  {
    if i + 1 < j {
      LaterStartsBehind(run, i, j - 1);
    }
  }

  lemma {:induction false} FindRange(run: seq<Advance>, k: nat, n: nat) returns (i: nat)
    requires Chained(run) && k < |run|
    requires run[0].before < n <= run[k].after
    ensures i <= k && InRange(run[i].range, n)
  {
    if run[k].before < n {
      i := k;
    } else {
      assert k > 0 && run[k].before == run[k - 1].after;
      i := FindRange(run, k - 1, n);
    }
  }

  /** The ranges of a run follow each other without gap or overlap: each nonce above the initial one and up to the last
      one is in exactly one range, and no other nonce is in any. */
  lemma RangesTile(limits: LaneLimits, run: seq<Advance>, n: nat)
    requires run != [] && IsLaneRun(limits, run)
    ensures run[0].before < n <= run[|run| - 1].after <==> exists i :: 0 <= i < |run| && InRange(run[i].range, n)
    ensures forall i, j :: 0 <= i < j < |run| && InRange(run[i].range, n) ==> !InRange(run[j].range, n)
  {
    assert Chained(run) by {
      forall i | 0 <= i < |run|
        ensures run[i].before < run[i].after && run[i].range == NonceRange(run[i].before + 1, run[i].after)
      {
        AdvancesByRange(limits, run[i]);
      }
    }
    var last := |run| - 1;
    if run[0].before < n <= run[last].after {
      var i := FindRange(run, last, n);
    }
    forall i | 0 <= i < |run| && InRange(run[i].range, n) ensures run[0].before < n <= run[last].after {
      if i > 0 { LaterStartsBehind(run, 0, i); }
      if i < last { LaterStartsBehind(run, i, last); }
    }
    forall i, j | 0 <= i < j < |run| && InRange(run[i].range, n) ensures !InRange(run[j].range, n) {
      LaterStartsBehind(run, i, j);
    }
  }

  // ----- The gate in front of the real inbound lane -----

  /** Bring the messages of the range to the lane, one by one; also counts how many were dispatched. */
  function ReceiveRange(limits: LaneLimits, d: InboundLaneData, relayer: Relayer, range: NonceRange)
    : (InboundLaneData, nat)
    decreases range.end
  {
    if IsEmpty(range) then (d, 0)
    else if range.end == 0 then (d, 0)
    else
      var (d1, count) := ReceiveRange(limits, d, relayer, NonceRange(range.start, range.end - 1));
      var (d2, r) := Receive(limits, d1, relayer, range.end);
      (d2, if r.Dispatched? then count + 1 else count)
  }

  /** Whether the relayer needs a new entry in the queue. */
  predicate NeedsEntry(d: InboundLaneData, relayer: Relayer) {
    d.relayers == [] || d.relayers[|d.relayers| - 1].relayer != relayer
  }

  /** The free slots of the lane admit all messages of a range: each message but the last must leave a relayer slot
      free, and the range must fit into the message slots. */
  predicate SlotsSuffice(o: Occupation, needsEntry: bool, count: nat) {
    && count <= o.freeMessageSlots
    && o.freeRelayerSlots >= 1
    && (count >= 2 && needsEntry ==> o.freeRelayerSlots >= 2)
  }

  /** What the lane looks like after the first `count` messages of a call it takes in full so far. */
  ghost predicate TookAll(d: InboundLaneData, d': InboundLaneData, relayer: Relayer, count: nat) {
    && LastDeliveredNonce(d') == LastDeliveredNonce(d) + count
    && d'.lastConfirmedNonce == d.lastConfirmedNonce
    && (count == 0 ==> d' == d)
    && (count > 0 ==> && d'.relayers != [] && !NeedsEntry(d', relayer)
                      && |d'.relayers| == |d.relayers| + if NeedsEntry(d, relayer) then 1 else 0)
  }

  /** A lane that took all messages so far takes the next one exactly when the slots suffice for that many. */
  lemma TakesNext(limits: LaneLimits, d: InboundLaneData, d1: InboundLaneData, relayer: Relayer, count: nat)
    requires count > 0 && TookAll(d, d1, relayer, count - 1)
    requires count == 1 || SlotsSuffice(OccupationOf(limits, d), NeedsEntry(d, relayer), count - 1)
    requires d.lastConfirmedNonce <= LastDeliveredNonce(d) && LastDeliveredNonce(d) + count <= U64_MAX
    requires LastDeliveredNonce(d) - d.lastConfirmedNonce <= limits.maxUnconfirmedMessages
    ensures var (d2, r) := Receive(limits, d1, relayer, LastDeliveredNonce(d) + count);
            && (r == Dispatched <==> SlotsSuffice(OccupationOf(limits, d), NeedsEntry(d, relayer), count))
            && (if r == Dispatched then TookAll(d, d2, relayer, count) else d2 == d1)
  {
  }

  /** With enough slots for the messages so far the lane takes them all; otherwise it ends below the range's end. */
  lemma {:induction false} ReceiveRangeExactly(limits: LaneLimits, d: InboundLaneData, relayer: Relayer,
                                               range: NonceRange, count: nat)
    requires range == NonceRange(LastDeliveredNonce(d) + 1, LastDeliveredNonce(d) + count)
    requires d.lastConfirmedNonce <= LastDeliveredNonce(d) && LastDeliveredNonce(d) + count <= U64_MAX
    requires LastDeliveredNonce(d) - d.lastConfirmedNonce <= limits.maxUnconfirmedMessages
    ensures var best := LastDeliveredNonce(d);
            var (d', n) := ReceiveRange(limits, d, relayer, range);
            && n <= count && LastDeliveredNonce(d') == best + n
            && (n == count <==> count == 0 || SlotsSuffice(OccupationOf(limits, d), NeedsEntry(d, relayer), count))
            && (n == count ==> TookAll(d, d', relayer, count))
    decreases count
  {
    if count > 0 {
      var shorter := NonceRange(range.start, range.end - 1);
      ReceiveRangeExactly(limits, d, relayer, shorter, count - 1);
      var (d1, n) := ReceiveRange(limits, d, relayer, shorter);
      if n == count - 1 {
        TakesNext(limits, d, d1, relayer, count);
      } else {
        assert Receive(limits, d1, relayer, range.end) == (d1, InvalidNonce);
      }
    }
  }

  lemma AcceptedAppends(limits: LaneLimits, d: InboundLaneData, range: NonceRange)
    requires !IsEmpty(range)
    requires CheckObsoleteCall(false, true, Some(DeliveryInfo(limits, d, range))) == ValidCall
    ensures range.start == LastDeliveredNonce(d) + 1
  {
  }

  /** The lane when the messages of a delivery reach it: a lane state that the call brings is applied first. */
  function BeforeMessages(d: InboundLaneData, state: Option<OutboundLaneData>): InboundLaneData {
    if state.Some? then StateUpdate(d, state.value).0 else d
  }

  /** A delivery that the gate accepts is successful exactly when the slots suffice that are free once the lane state
      it brings, if any, is applied; if they do not, a part of it is delivered and the rest is left for a later call. */
  lemma AcceptedDeliverySucceedsExactly(limits: LaneLimits, d: InboundLaneData, state: Option<OutboundLaneData>,
                                        relayer: Relayer, range: NonceRange, o: OutboundLaneData)
    requires Covers(d.relayers, d.lastConfirmedNonce, LastDeliveredNonce(d))
    requires LastDeliveredNonce(d) - d.lastConfirmedNonce <= limits.maxUnconfirmedMessages
    requires !IsEmpty(range) && range.end <= U64_MAX
    requires CheckObsoleteCall(false, true, Some(DeliveryInfo(limits, d, range))) == ValidCall
    ensures var d1 := BeforeMessages(d, state);
            var (d', n) := ReceiveRange(limits, d1, relayer, range);
            var count := range.end - range.start + 1;
            && (WasSuccessful(limits, DeliveryInfo(limits, d, range), d', o) <==>
                  SlotsSuffice(OccupationOf(limits, d1), NeedsEntry(d1, relayer), count))
            && LastDeliveredNonce(d') == LastDeliveredNonce(d) + n && n <= count
  {
    AcceptedAppends(limits, d, range);
    CoversFront(d.relayers, d.lastConfirmedNonce, LastDeliveredNonce(d));
    if state.Some? { UpdateShape(d, state.value); }
    ReceiveRangeExactly(limits, BeforeMessages(d, state), relayer, range, range.end - range.start + 1);
  }

  /** The slots that the gate itself reads decide only a delivery without a lane state: here the gate sees a full queue,
      yet the state that the call brings frees the entry and the message is delivered. */
  lemma StateFreesSlots(a: Relayer, b: Relayer, o: OutboundLaneData)
    requires a != b
    ensures var limits := LaneLimits(1, 10);
            var d := InboundLaneData([UnrewardedRelayer(a, DeliveredMessages(1, 1))], 0);
            var info := DeliveryInfo(limits, d, NonceRange(2, 2));
            var d1 := BeforeMessages(d, Some(OutboundLaneData(1, 1, 2)));
            && CheckObsoleteCall(false, true, Some(info)) == ValidCall
            && !SlotsSuffice(info.unrewardedRelayers, NeedsEntry(d, b), 1)
            && WasSuccessful(limits, info, ReceiveRange(limits, d1, b, NonceRange(2, 2)).0, o)
  {
    var limits := LaneLimits(1, 10);
    var d := InboundLaneData([UnrewardedRelayer(a, DeliveredMessages(1, 1))], 0);
    var d1 := BeforeMessages(d, Some(OutboundLaneData(1, 1, 2)));
    assert d.relayers[1..] == [];
    assert DropConfirmed(d.relayers, 1) == DropConfirmed([], 1) == [];
    assert d1 == InboundLaneData([], 1);
    assert ReceiveRange(limits, d1, b, NonceRange(2, 1)) == (d1, 0);
  }

  // ----- Deliveries without messages -----

  /** A delivery without messages is let through exactly when the lane is blocked: without a lane state, no relayer
      could bring it the next message. */
  lemma EmptyDeliveryAcceptedExactly(limits: LaneLimits, d: InboundLaneData, range: NonceRange, relayer: Relayer)
    requires Covers(d.relayers, d.lastConfirmedNonce, LastDeliveredNonce(d)) && LastDeliveredNonce(d) < U64_MAX
    requires IsEmpty(range)
    ensures CheckObsoleteCall(false, true, Some(DeliveryInfo(limits, d, range))) == ValidCall
            <==> !Receive(limits, d, relayer, LastDeliveredNonce(d) + 1).1.Dispatched?
  {
    CoversFront(d.relayers, d.lastConfirmedNonce, LastDeliveredNonce(d));
  }

  /** A delivery without messages succeeds exactly when the state it brings confirms something new. */
  lemma EmptyDeliverySucceedsExactly(limits: LaneLimits, d: InboundLaneData, proven: OutboundLaneData,
                                     range: NonceRange, o: OutboundLaneData)
    requires Covers(d.relayers, d.lastConfirmedNonce, LastDeliveredNonce(d))
    requires LastDeliveredNonce(d) - d.lastConfirmedNonce <= limits.maxUnconfirmedMessages
    requires IsEmpty(range)
    ensures var (d', r) := StateUpdate(d, proven);
            WasSuccessful(limits, DeliveryInfo(limits, d, range), d', o) <==> r.Some?
  {
    UpdateShape(d, proven);
  }

  lemma UpdateShape(d: InboundLaneData, proven: OutboundLaneData)
    requires Covers(d.relayers, d.lastConfirmedNonce, LastDeliveredNonce(d))
    ensures var (d', r) := StateUpdate(d, proven);
            && d.lastConfirmedNonce <= LastDeliveredNonce(d)
            && LastDeliveredNonce(d') == LastDeliveredNonce(d)
            && d'.lastConfirmedNonce <= LastDeliveredNonce(d)
            && (r.Some? <==> d'.lastConfirmedNonce > d.lastConfirmedNonce)
            && (r.None? ==> d' == d)
  {
    CoversFront(d.relayers, d.lastConfirmedNonce, LastDeliveredNonce(d));
    StateUpdateExactly(d, proven);
  }

  /** Looking at message slots only is enough: a state update that frees a relayer slot also frees message slots. */
  lemma RelayerSlotsFreeMessageSlots(limits: LaneLimits, d: InboundLaneData, proven: OutboundLaneData)
    requires Covers(d.relayers, d.lastConfirmedNonce, LastDeliveredNonce(d))
    requires LastDeliveredNonce(d) - d.lastConfirmedNonce <= limits.maxUnconfirmedMessages
    requires |d.relayers| <= limits.maxUnrewardedRelayerEntries
    ensures var before, after := OccupationOf(limits, d), OccupationOf(limits, StateUpdate(d, proven).0);
            after.freeRelayerSlots > before.freeRelayerSlots ==> after.freeMessageSlots > before.freeMessageSlots
  {
    UpdateShape(d, proven);
  }
}

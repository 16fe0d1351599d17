/** The queue of unrewarded relayers: which nonces it covers, and what the relayers earn from it. */
module RelayerQueue {
  import opened Wrappers
  import opened MessageLanes

  /** The entries are non-empty, follow each other, and together cover exactly the nonces in (lo, hi]. */
  ghost predicate Covers(relayers: seq<UnrewardedRelayer>, lo: nat, hi: nat) {
    if relayers == [] then lo == hi
    else
      var n := |relayers| - 1;
      && 1 <= relayers[n].messages.begin <= relayers[n].messages.end == hi
      && Covers(relayers[..n], lo, relayers[n].messages.begin - 1)
  }

  /** The same, seen from the front. */
  lemma {:induction false} CoversFront(relayers: seq<UnrewardedRelayer>, lo: nat, hi: nat)
    requires Covers(relayers, lo, hi)
    ensures lo <= hi
    ensures relayers != [] ==>
              && relayers[0].messages.begin == lo + 1 <= relayers[0].messages.end <= hi
              && Covers(relayers[1..], relayers[0].messages.end, hi)
  {
    if relayers != [] {
      var n := |relayers| - 1;
      CoversFront(relayers[..n], lo, relayers[n].messages.begin - 1);
      if n > 0 {
        assert relayers[1..][..n - 1] == relayers[..n][1..];
      }
    }
  }

  lemma {:induction false} CoversCons(entry: UnrewardedRelayer, relayers: seq<UnrewardedRelayer>, hi: nat)
    requires 1 <= entry.messages.begin <= entry.messages.end
    requires Covers(relayers, entry.messages.end, hi)
    ensures Covers([entry] + relayers, entry.messages.begin - 1, hi)
  {
    var all := [entry] + relayers;
    if relayers == [] {
      assert all[..0] == [];
    } else {
      var n := |relayers| - 1;
      CoversCons(entry, relayers[..n], relayers[n].messages.begin - 1);
      assert all[..n + 1] == [entry] + relayers[..n];
    }
  }

  // ----- Confirming a prefix -----

  /** Confirming up to `confirmed` leaves a queue for exactly the nonces above it. */
  lemma {:induction false} ConfirmedCovers(relayers: seq<UnrewardedRelayer>, lo: nat, hi: nat, confirmed: nat)
    requires Covers(relayers, lo, hi) && lo <= confirmed <= hi
    ensures Covers(TrimFront(DropConfirmed(relayers, confirmed), confirmed), confirmed, hi)
    ensures |TrimFront(DropConfirmed(relayers, confirmed), confirmed)| <= |relayers|
  {
    CoversFront(relayers, lo, hi);
    if relayers != [] {
      if relayers[0].messages.end <= confirmed {
        ConfirmedCovers(relayers[1..], relayers[0].messages.end, hi, confirmed);
      } else {
        var entry := UnrewardedRelayer(relayers[0].relayer, DeliveredMessages(confirmed + 1, relayers[0].messages.end));
        CoversCons(entry, relayers[1..], hi);
        if confirmed == lo { assert [relayers[0]] + relayers[1..] == relayers; }
      }
    }
  }

  /** Noting the next message extends the covered range by it. */
  lemma NotedCovers(relayers: seq<UnrewardedRelayer>, lo: nat, hi: nat, r: Relayer)
    requires Covers(relayers, lo, hi)
    ensures Covers(NoteDispatched(relayers, r, hi + 1), lo, hi + 1)
    ensures var noted := NoteDispatched(relayers, r, hi + 1);
            0 < |noted| <= |relayers| + 1 && noted[|noted| - 1].messages.end == hi + 1
  {
    var noted, n := NoteDispatched(relayers, r, hi + 1), |relayers|;
    if n > 0 && relayers[n - 1].relayer == r {
      assert noted[..n - 1] == relayers[..n - 1];
    } else {
      assert noted[..n] == relayers;
    }
  }

  // ----- Who delivered what -----

  /** The log holds who delivered nonce n at index n - 1. */
  predicate DeliveredBy(log: seq<Relayer>, n: int, r: Relayer) {
    1 <= n <= |log| && log[n - 1] == r
  }

  ghost predicate EntryAttributed(entry: UnrewardedRelayer, log: seq<Relayer>) {
    forall n :: entry.messages.begin <= n <= entry.messages.end ==> DeliveredBy(log, n, entry.relayer)
  }

  /** Every entry of the queue names the relayer that delivered its nonces. */
  ghost predicate Attributed(relayers: seq<UnrewardedRelayer>, log: seq<Relayer>) {
    forall i :: 0 <= i < |relayers| ==> EntryAttributed(relayers[i], log)
  }

  lemma {:induction false} ConfirmedAttributed(relayers: seq<UnrewardedRelayer>, log: seq<Relayer>, confirmed: nat)
    requires Attributed(relayers, log)
    ensures Attributed(TrimFront(DropConfirmed(relayers, confirmed), confirmed), log)
  {
    if relayers != [] {
      if relayers[0].messages.end <= confirmed {
        ConfirmedAttributed(relayers[1..], log, confirmed);
      } else {
        assert EntryAttributed(relayers[0], log);
      }
    }
  }

  lemma NotedAttributed(relayers: seq<UnrewardedRelayer>, lo: nat, log: seq<Relayer>, r: Relayer)
    requires Covers(relayers, lo, |log|) && Attributed(relayers, log)
    ensures Attributed(NoteDispatched(relayers, r, |log| + 1), log + [r])
  {
    AttributedExtends(relayers, log, log + [r]);
    assert DeliveredBy(log + [r], |log| + 1, r);
    if relayers != [] { assert EntryAttributed(relayers[|relayers| - 1], log + [r]); }
  }

  /** When a lane takes a message: it is the next one, within the limits, and is noted. */
  lemma ReceiveShape(limits: LaneLimits, d: InboundLaneData, r: Relayer, nonce: nat)
    requires d.lastConfirmedNonce <= LastDeliveredNonce(d)
    requires Receive(limits, d, r, nonce).1.Dispatched?
    ensures nonce == LastDeliveredNonce(d) + 1
    ensures |d.relayers| < limits.maxUnrewardedRelayerEntries
    ensures nonce - d.lastConfirmedNonce <= limits.maxUnconfirmedMessages
    ensures Receive(limits, d, r, nonce).0
            == InboundLaneData(NoteDispatched(d.relayers, r, nonce), d.lastConfirmedNonce)
  {
  }

  /** A lane that takes a message covers one nonce more, within its limits. */
  lemma ReceivedCovers(limits: LaneLimits, d: InboundLaneData, r: Relayer, nonce: nat)
    requires Covers(d.relayers, d.lastConfirmedNonce, LastDeliveredNonce(d))
    requires Receive(limits, d, r, nonce).1.Dispatched?
    ensures var d' := Receive(limits, d, r, nonce).0;
            && LastDeliveredNonce(d') == LastDeliveredNonce(d) + 1 == nonce
            && d'.lastConfirmedNonce == d.lastConfirmedNonce
            && Covers(d'.relayers, d'.lastConfirmedNonce, nonce)
            && |d'.relayers| <= limits.maxUnrewardedRelayerEntries
            && nonce - d'.lastConfirmedNonce <= limits.maxUnconfirmedMessages
  {
    var lo, hi := d.lastConfirmedNonce, LastDeliveredNonce(d);
    CoversFront(d.relayers, lo, hi);
    ReceiveShape(limits, d, r, nonce);
    NotedCovers(d.relayers, lo, hi, r);
  }

  /** And it names the relayer for it. */
  lemma ReceivedAttributed(limits: LaneLimits, d: InboundLaneData, r: Relayer, nonce: nat, log: seq<Relayer>)
    requires Covers(d.relayers, d.lastConfirmedNonce, LastDeliveredNonce(d)) && Attributed(d.relayers, log)
    requires LastDeliveredNonce(d) == |log|
    requires Receive(limits, d, r, nonce).1.Dispatched?
    ensures Attributed(Receive(limits, d, r, nonce).0.relayers, log + [r])
  {
    CoversFront(d.relayers, d.lastConfirmedNonce, |log|);
    ReceiveShape(limits, d, r, nonce);
    NotedAttributed(d.relayers, d.lastConfirmedNonce, log, r);
  }

  lemma AttributedExtends(relayers: seq<UnrewardedRelayer>, log: seq<Relayer>, log': seq<Relayer>)
    requires Attributed(relayers, log) && log <= log'
    ensures Attributed(relayers, log')
  {
    assert forall n, r :: DeliveredBy(log, n, r) ==> DeliveredBy(log', n, r);
  }

  // ----- The checks of the outbound lane -----

  lemma {:induction false} CoveringQueueChecks(relayers: seq<UnrewardedRelayer>, lo: nat, hi: nat, i: nat)
    requires i <= |relayers| && hi <= U64_MAX
    requires Covers(relayers[i..], lo, hi)
    ensures CheckRelayersFrom(hi, relayers, i, if lo == U64_MAX then None else Some(lo + 1)) == Ok(())
    decreases |relayers| - i
  {
    CoversFront(relayers[i..], lo, hi);
    if i < |relayers| {
      assert relayers[i..][1..] == relayers[i + 1..];
      CoveringQueueChecks(relayers, relayers[i].messages.end, hi, i + 1);
    }
  }

  /** A covering queue passes every check of the confirmation, and its length is what it covers. */
  lemma CoveringQueueAccepted(d: InboundLaneData)
    requires Covers(d.relayers, d.lastConfirmedNonce, LastDeliveredNonce(d)) && LastDeliveredNonce(d) <= U64_MAX
    ensures CheckRelayers(LastDeliveredNonce(d), d.relayers) == Ok(())
    ensures TotalUnrewardedMessages(d) == LastDeliveredNonce(d) - d.lastConfirmedNonce
  {
    CoversFront(d.relayers, d.lastConfirmedNonce, LastDeliveredNonce(d));
    assert d.relayers[0..] == d.relayers;
    CoveringQueueChecks(d.relayers, d.lastConfirmedNonce, LastDeliveredNonce(d), 0);
  }

  // ----- Rewards -----

  /** How many of the nonces in (a, b] the log attributes to `r`. */
  ghost function CountFor(log: seq<Relayer>, r: Relayer, a: nat, b: nat): nat
    requires b <= |log|
  {
    if b <= a then 0 else CountFor(log, r, a, b - 1) + if log[b - 1] == r then 1 else 0
  }

  lemma {:induction false} CountSplit(log: seq<Relayer>, r: Relayer, a: nat, m: nat, b: nat)
    requires a <= m <= b <= |log|
    ensures CountFor(log, r, a, b) == CountFor(log, r, a, m) + CountFor(log, r, m, b)
    decreases b
  {
    if m < b { CountSplit(log, r, a, m, b - 1); }
  }

  lemma {:induction false} CountExtends(log: seq<Relayer>, log': seq<Relayer>, r: Relayer, a: nat, b: nat)
    requires b <= |log| && log <= log'
    ensures CountFor(log', r, a, b) == CountFor(log, r, a, b)
    decreases b
  {
    if a < b { CountExtends(log, log', r, a, b - 1); }
  }

  lemma {:induction false} CountUniform(log: seq<Relayer>, r: Relayer, q: Relayer, a: nat, b: nat)
    requires a <= b <= |log|
    requires forall n :: a < n <= b ==> DeliveredBy(log, n, q)
    ensures CountFor(log, r, a, b) == if q == r then b - a else 0
    decreases b
  {
    if a < b {
      assert DeliveredBy(log, b, q);
      CountUniform(log, r, q, a, b - 1);
    }
  }

  /** What a relayer earns from a queue is the number of nonces it delivered above `from`. */
  lemma {:induction false} RewardsMatchLog(relayers: seq<UnrewardedRelayer>, lo: nat, hi: nat, log: seq<Relayer>,
                                           r: Relayer, from: nat, to: nat)
    requires Covers(relayers, lo, hi) && Attributed(relayers, log)
    requires lo <= from && hi <= to && hi <= |log|
    ensures RewardFor(relayers, r, DeliveredMessages(from + 1, to)) == CountFor(log, r, from, hi)
  {
    if relayers != [] {
      var n := |relayers| - 1;
      var entry := relayers[n];
      var begin := entry.messages.begin;
      assert EntryAttributed(entry, log);
      RewardsMatchLog(relayers[..n], lo, begin - 1, log, r, from, to);
      if from < begin {
        CountSplit(log, r, from, begin - 1, hi);
        CountUniform(log, r, entry.relayer, begin - 1, hi);
      } else if from < hi {
        CountUniform(log, r, entry.relayer, from, hi);
      }
    }
  }

  /** A queue below a range earns nothing from it. */
  lemma {:induction false} NothingBelow(relayers: seq<UnrewardedRelayer>, lo: nat, hi: nat, r: Relayer,
                                        received: DeliveredMessages)
    requires Covers(relayers, lo, hi) && hi < received.begin
    ensures RewardFor(relayers, r, received) == 0
  {
    if relayers != [] {
      var n := |relayers| - 1;
      NothingBelow(relayers[..n], lo, relayers[n].messages.begin - 1, r, received);
    }
  }

  // ----- The inbound lane, call by call -----

  /** A state update confirms something exactly when the source knows more than is confirmed here and no more than was
      delivered here; then the queue covers exactly the rest. Otherwise nothing changes. */
  lemma StateUpdateExactly(d: InboundLaneData, outbound: OutboundLaneData)
    requires Covers(d.relayers, d.lastConfirmedNonce, LastDeliveredNonce(d))
    ensures var (d', r) := StateUpdate(d, outbound);
            var received, last := outbound.latestReceivedNonce, LastDeliveredNonce(d);
            if d.lastConfirmedNonce < received <= last then
              && r == Some(received) && d'.lastConfirmedNonce == received && LastDeliveredNonce(d') == last
              && Covers(d'.relayers, received, last)
            else r == None && d' == d
  {
    var received, last := outbound.latestReceivedNonce, LastDeliveredNonce(d);
    if d.lastConfirmedNonce < received <= last {
      ConfirmedCovers(d.relayers, d.lastConfirmedNonce, last, received);
    }
  }

  /** A message is taken exactly when it is the next one and both a relayer slot and a message slot are free; a message
      that is not the next one is invalid, whatever is free. */
  lemma ReceiveExactly(limits: LaneLimits, d: InboundLaneData, r: Relayer, nonce: nat)
    requires d.lastConfirmedNonce <= LastDeliveredNonce(d)
    ensures var result := Receive(limits, d, r, nonce).1;
            var isNext := LastDeliveredNonce(d) < U64_MAX && nonce == LastDeliveredNonce(d) + 1;
            var slot := |d.relayers| < limits.maxUnrewardedRelayerEntries;
            && (result == InvalidNonce <==> !isNext)
            && (result == TooManyUnrewardedRelayers <==> isNext && !slot)
            && (result == TooManyUnconfirmedMessages <==>
                  isNext && slot && nonce > d.lastConfirmedNonce + limits.maxUnconfirmedMessages)
            && (result == Dispatched <==>
                  isNext && slot && nonce <= d.lastConfirmedNonce + limits.maxUnconfirmedMessages)
            && (result != Dispatched ==> Receive(limits, d, r, nonce).0 == d)
  {
  }

  // ----- Confirming again -----

  /** Confirming a queue whose messages are all confirmed already changes nothing exactly when its last nonce is below
      the largest one. At the largest nonce the saturated range is never empty: an emptied queue is rejected, and any
      other one has its last message confirmed again and pays the relayer of that message for it again. */
  lemma ConfirmedAgainExactly(o: OutboundLaneData, d: InboundLaneData, r: Relayer)
    requires Covers(d.relayers, d.lastConfirmedNonce, LastDeliveredNonce(d))
    requires LastDeliveredNonce(d) <= o.latestReceivedNonce <= o.latestGeneratedNonce <= U64_MAX
    ensures var last := LastDeliveredNonce(d);
            var result := Confirm(o, TotalUnrewardedMessages(d), last, d.relayers);
            && (result == (o, Ok(None)) <==> last < U64_MAX)
            && (last == U64_MAX && d.relayers == [] ==> result == (o, Err(TryingToConfirmMoreMessagesThanExpected)))
            && (last == U64_MAX && d.relayers != [] ==>
                  && result == (o, Ok(Some(DeliveredMessages(U64_MAX, U64_MAX))))
                  && RewardFor(d.relayers, r, DeliveredMessages(U64_MAX, U64_MAX))
                       == if d.relayers[|d.relayers| - 1].relayer == r then 1 else 0)
  {
    CoveringQueueAccepted(d);
    CoversFront(d.relayers, d.lastConfirmedNonce, LastDeliveredNonce(d));
    if d.relayers != [] && LastDeliveredNonce(d) == U64_MAX {
      var n := |d.relayers| - 1;
      NothingBelow(d.relayers[..n], d.lastConfirmedNonce, d.relayers[n].messages.begin - 1, r,
                   DeliveredMessages(U64_MAX, U64_MAX));
    }
  }
}

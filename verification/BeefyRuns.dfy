/** Whole runs of the BEEFY light client: the sliding window of commitments, the chain of trust, and the rate limit. */
module BeefyRuns {
  import opened Wrappers
  import opened RingWindow
  import opened BeefyQuorum
  import opened BeefyPallet

  datatype Event =
    | BlockStart
    | SubmitCall(signed: bool, submission: Submission)
    | InitializeCall(ownerOrRoot: bool, init: InitializationData)
    | SetOperatingMode(ownerOrRoot: bool, halted: bool)

  /** An accepted submission with the MMR root its commitment carries. */
  datatype Accepted = Accepted(submission: Submission, mmrRoot: MmrHash)

  /** The storage together with the history it cannot see. */
  datatype Trace = Trace(storage: Storage, init: Option<InitializationData>, accepted: seq<Accepted>)

  function Step(cfg: Config, t: Trace, e: Event): Trace
    requires cfg.commitmentsToKeep > 0
  {
    match e
    case BlockStart => t.(storage := BlockStarted(t.storage))
    case SubmitCall(signed, sub) =>
      var (s, r) := Submit(cfg, t.storage, signed, sub);
      if r.Ok? then t.(storage := s, accepted := t.accepted + [Accepted(sub, Check(cfg, t.storage, signed, sub).value)])
      else t.(storage := s)
    case InitializeCall(ownerOrRoot, init) =>
      var (s, r) := Initialize(t.storage, ownerOrRoot, init);
      if r.Ok? then t.(storage := s, init := Some(init)) else t.(storage := s)
    case SetOperatingMode(ownerOrRoot, halted) =>
      if ownerOrRoot then t.(storage := t.storage.(halted := halted)) else t
  }

  function Run(cfg: Config, events: seq<Event>): Trace
    requires cfg.commitmentsToKeep > 0
    decreases |events|
  {
    if events == [] then Trace(GENESIS_STORAGE, None, [])
    else Step(cfg, Run(cfg, events[..|events| - 1]), events[|events| - 1])
  }

  lemma RunStep(cfg: Config, events: seq<Event>, e: Event)
    requires cfg.commitmentsToKeep > 0
    ensures Run(cfg, events + [e]) == Step(cfg, Run(cfg, events), e)
  {
    assert (events + [e])[..|events|] == events;
  }

  lemma RunSubmit(cfg: Config, events: seq<Event>, signed: bool, sub: Submission)
    requires cfg.commitmentsToKeep > 0
    ensures Run(cfg, events + [SubmitCall(signed, sub)]).storage
            == Submit(cfg, Run(cfg, events).storage, signed, sub).0
  {
    RunStep(cfg, events, SubmitCall(signed, sub));
  }

  // ----- The window of commitments -----

  function BlockOf(a: Accepted): nat {
    BlockNumber(a.submission)
  }

  /** What a window of all accepted commitments holds: the parent block of each leaf, and the signed MMR root. */
  function Entries(accepted: seq<Accepted>): seq<(nat, ImportedCommitment)> {
    seq(|accepted|, i requires 0 <= i < |accepted| =>
      var leaf := accepted[i].submission.leaf;
      (BlockOf(accepted[i]), ImportedCommitment(leaf.parentNumber, leaf.parentHash, accepted[i].mmrRoot)))
  }

  /** The initial best block, then the accepted ones: each above the one before. */
  ghost predicate Increasing(t: Trace) {
    && (t.accepted != [] ==> t.init.Some?)
    && (forall i :: 0 <= i < |t.accepted| ==> t.init.value.bestBlockNumber < BlockOf(t.accepted[i]))
    && (forall i, j :: 0 <= i < j < |t.accepted| ==> BlockOf(t.accepted[i]) < BlockOf(t.accepted[j]))
  }

  function RingOf(s: Storage): Ring<nat, ImportedCommitment> {
    Ring(s.importedBlockNumbers, s.importedCommitments,
         if s.commitmentsInfo.Some? then s.commitmentsInfo.value.nextBlockNumberIndex else 0)
  }

  /** The stored best block is that of the last accepted commitment, or the initial one. */
  predicate BestIsLast(t: Trace) {
    && (t.storage.commitmentsInfo.Some? <==> t.init.Some?)
    && (t.init.None? ==> t.accepted == [])
    && (t.init.Some? ==>
          t.storage.commitmentsInfo.value.bestBlockNumber ==
            if t.accepted == [] then t.init.value.bestBlockNumber else BlockOf(t.accepted[|t.accepted| - 1]))
  }

  ghost predicate Windowed(cfg: Config, t: Trace)
    requires cfg.commitmentsToKeep > 0
  {
    && Increasing(t)
    && BestIsLast(t)
    && IsWindow(cfg.commitmentsToKeep, Entries(t.accepted), RingOf(t.storage))
  }

  lemma EntriesDistinct(t: Trace)
    requires Increasing(t)
    ensures DistinctKeys(Entries(t.accepted))
  {
  }

  lemma AcceptIncreases(t: Trace, a: Accepted)
    requires Increasing(t) && BestIsLast(t) && t.init.Some?
    requires BlockOf(a) > t.storage.commitmentsInfo.value.bestBlockNumber
    ensures Increasing(t.(accepted := t.accepted + [a]))
  {
    forall i | 0 <= i < |t.accepted| ensures BlockOf(t.accepted[i]) < BlockOf(a) {
      if i < |t.accepted| - 1 { assert BlockOf(t.accepted[i]) < BlockOf(t.accepted[|t.accepted| - 1]); }
    }
  }

  lemma AcceptSlides(cfg: Config, t: Trace, signed: bool, sub: Submission)
    requires cfg.commitmentsToKeep > 0
    requires Windowed(cfg, t)
    requires Check(cfg, t.storage, signed, sub).Ok?
    ensures Windowed(cfg, Step(cfg, t, SubmitCall(signed, sub)))
  {
    var t' := Step(cfg, t, SubmitCall(signed, sub));
    var a := Accepted(sub, Check(cfg, t.storage, signed, sub).value);
    var c := Stored(sub, a.mmrRoot);
    AcceptIncreases(t, a);
    assert Increasing(t');
    EntriesDistinct(t');
    assert Entries(t'.accepted) == Entries(t.accepted) + [(BlockNumber(sub), c)];
    assert RingOf(t'.storage) == Insert(cfg.commitmentsToKeep, RingOf(t.storage), BlockNumber(sub), c);
    InsertSlides(cfg.commitmentsToKeep, Entries(t.accepted), RingOf(t.storage), BlockNumber(sub), c);
  }

  lemma StepWindowed(cfg: Config, t: Trace, e: Event)
    requires cfg.commitmentsToKeep > 0
    requires Windowed(cfg, t)
    ensures Windowed(cfg, Step(cfg, t, e))
  {
    if e.SubmitCall? && Check(cfg, t.storage, e.signed, e.submission).Ok? {
      AcceptSlides(cfg, t, e.signed, e.submission);
    } else {
      assert RingOf(Step(cfg, t, e).storage) == RingOf(t.storage);
    }
  }

  /** In every run the stored commitments are exactly the last `commitmentsToKeep` accepted ones, keyed by strictly
      increasing block numbers, the next index is their number modulo `commitmentsToKeep`, and the best block is that
      of the last one. */
  lemma {:induction false} CommitmentsWindow(cfg: Config, events: seq<Event>)
    requires cfg.commitmentsToKeep > 0
    ensures Windowed(cfg, Run(cfg, events))
    decreases |events|
  {
    if events == [] {
      EmptyIsWindow<nat, ImportedCommitment>(cfg.commitmentsToKeep);
    } else {
      CommitmentsWindow(cfg, events[..|events| - 1]);
      StepWindowed(cfg, Run(cfg, events[..|events| - 1]), events[|events| - 1]);
    }
  }

  /** In every run the ring lists exactly the keys of the stored commitments, each once, there are as many as the bound
      allows, and the best block is stored once anything is accepted. */
  lemma CommitmentsListed(cfg: Config, events: seq<Event>)
    requires cfg.commitmentsToKeep > 0
    ensures var t := Run(cfg, events);
            var n := |t.accepted|;
            && ListsKeys(RingOf(t.storage))
            && |t.storage.importedCommitments| == (if n < cfg.commitmentsToKeep then n else cfg.commitmentsToKeep)
            && (n > 0 ==> t.storage.commitmentsInfo.Some?
                          && t.storage.commitmentsInfo.value.bestBlockNumber in t.storage.importedCommitments)
  {
    CommitmentsWindow(cfg, events);
    WindowListed(cfg, Run(cfg, events));
    if Run(cfg, events).accepted != [] { BestStored(cfg, Run(cfg, events)); }
  }

  lemma WindowListed(cfg: Config, t: Trace)
    requires cfg.commitmentsToKeep > 0 && Windowed(cfg, t)
    ensures ListsKeys(RingOf(t.storage))
    ensures |t.storage.importedCommitments| ==
            if |t.accepted| < cfg.commitmentsToKeep then |t.accepted| else cfg.commitmentsToKeep
  {
    var h, r := Entries(t.accepted), RingOf(t.storage);
    EntriesDistinct(t);
    WindowBound(cfg.commitmentsToKeep, h, r);
    WindowListsKeys(cfg.commitmentsToKeep, h, r);
  }

  lemma BestStored(cfg: Config, t: Trace)
    requires cfg.commitmentsToKeep > 0 && Windowed(cfg, t)
    requires t.accepted != []
    ensures t.storage.commitmentsInfo.Some?
    ensures t.storage.commitmentsInfo.value.bestBlockNumber in t.storage.importedCommitments
  {
    var n := |t.accepted|;
    assert Recent(cfg.commitmentsToKeep, |Entries(t.accepted)|, n - 1);
    assert Entries(t.accepted)[n - 1].0 in RingOf(t.storage).entries;
  }

  // ----- The chain of trust -----

  /** The set in charge after `accepted`: the initial one, replaced by each hand-off to a higher id in turn. */
  function TrustedSet(init: AuthoritySetInfo, accepted: seq<Accepted>): AuthoritySetInfo {
    if accepted == [] then init
    else
      var n := |accepted| - 1;
      var before, next := TrustedSet(init, accepted[..n]), accepted[n].submission.leaf.nextAuthoritySet;
      if next.id > before.id then next else before
  }

  /** Submission `i` was signed by a quorum of the set in charge at that time, and its leaf is proven under the root
      that quorum signed. */
  ghost predicate Trusted(cfg: Config, init: AuthoritySetInfo, accepted: seq<Accepted>, i: nat)
    requires i < |accepted|
  {
    var Accepted(sub, root) := accepted[i];
    && VerifyCommitment(cfg.crypto, sub.commitment, TrustedSet(init, accepted[..i]), sub.authorities) == Ok(root)
    && cfg.crypto.mmrVerifies(root, sub.leaf, sub.proof)
  }

  ghost predicate ChainOfTrust(cfg: Config, t: Trace) {
    && (t.init.Some? <==> t.storage.commitmentsInfo.Some?)
    && (t.init.None? ==> t.accepted == [] && t.storage.currentAuthoritySet.None?)
    && (t.init.Some? ==>
          && t.init.value.authoritySet.len > 0
          && t.storage.currentAuthoritySet == Some(TrustedSet(t.init.value.authoritySet, t.accepted))
          && forall i: nat :: i < |t.accepted| ==> Trusted(cfg, t.init.value.authoritySet, t.accepted, i))
  }

  lemma TrustedStays(cfg: Config, init: AuthoritySetInfo, accepted: seq<Accepted>, a: Accepted)
    requires forall i: nat :: i < |accepted| ==> Trusted(cfg, init, accepted, i)
    ensures forall i: nat :: i < |accepted| ==> Trusted(cfg, init, accepted + [a], i)
  {
    forall i: nat | i < |accepted| ensures Trusted(cfg, init, accepted + [a], i) {
      assert Trusted(cfg, init, accepted, i);
      assert (accepted + [a])[..i] == accepted[..i];
    }
  }

  lemma AcceptTrusted(cfg: Config, t: Trace, signed: bool, sub: Submission)
    requires cfg.commitmentsToKeep > 0
    requires ChainOfTrust(cfg, t)
    requires Check(cfg, t.storage, signed, sub).Ok?
    ensures ChainOfTrust(cfg, Step(cfg, t, SubmitCall(signed, sub)))
  {
    var a := Accepted(sub, Check(cfg, t.storage, signed, sub).value);
    var init := t.init.value.authoritySet;
    TrustedStays(cfg, init, t.accepted, a);
    assert (t.accepted + [a])[..|t.accepted|] == t.accepted;
    assert Trusted(cfg, init, t.accepted + [a], |t.accepted|);
  }

  lemma StepTrusted(cfg: Config, t: Trace, e: Event)
    requires cfg.commitmentsToKeep > 0
    requires ChainOfTrust(cfg, t)
    ensures ChainOfTrust(cfg, Step(cfg, t, e))
  {
    if e.SubmitCall? && Check(cfg, t.storage, e.signed, e.submission).Ok? {
      AcceptTrusted(cfg, t, e.signed, e.submission);
    } else {
      assert Step(cfg, t, e).accepted == t.accepted;
    }
  }

  /** In every run each accepted commitment was signed by a quorum of the set that the initial set and the hand-offs
      before it put in charge; so each later set came from a leaf proven under a root that its predecessor signed. */
  lemma {:induction false} EveryCommitmentTrusted(cfg: Config, events: seq<Event>)
    requires cfg.commitmentsToKeep > 0
    ensures ChainOfTrust(cfg, Run(cfg, events))
    decreases |events|
  {
    if events != [] {
      EveryCommitmentTrusted(cfg, events[..|events| - 1]);
      StepTrusted(cfg, Run(cfg, events[..|events| - 1]), events[|events| - 1]);
    }
  }

  /** The id of the set in charge never decreases, and a different set in charge has a higher id. */
  lemma {:induction false} SetIdsIncrease(init: AuthoritySetInfo, accepted: seq<Accepted>, i: nat, j: nat)
    requires i <= j <= |accepted|
    ensures var before, after := TrustedSet(init, accepted[..i]), TrustedSet(init, accepted[..j]);
            before == after || before.id < after.id
    decreases j - i
  {
    if i < j {
      SetIdsIncrease(init, accepted, i, j - 1);
      assert accepted[..j][..j - 1] == accepted[..j - 1];
    }
  }

  /** The set in charge after `i` accepted submissions, which is the one that submission `i` is checked against. */
  function InCharge(t: Trace, i: nat): AuthoritySetInfo
    requires t.init.Some? && i <= |t.accepted|
  {
    TrustedSet(t.init.value.authoritySet, t.accepted[..i])
  }

  /** In every run the set in charge starts as the initial one, changes only by hand-offs to a higher id, and the stored
      set is the last one in charge. */
  lemma StoredSetInCharge(cfg: Config, events: seq<Event>, i: nat)
    requires cfg.commitmentsToKeep > 0
    requires Run(cfg, events).init.Some? && i < |Run(cfg, events).accepted|
    ensures var t := Run(cfg, events);
            var next := t.accepted[i].submission.leaf.nextAuthoritySet;
            && InCharge(t, 0) == t.init.value.authoritySet
            && InCharge(t, i + 1) == (if next.id > InCharge(t, i).id then next else InCharge(t, i))
            && t.storage.currentAuthoritySet == Some(InCharge(t, |t.accepted|))
  {
    EveryCommitmentTrusted(cfg, events);
    var t := Run(cfg, events);
    InChargeNext(t, i);
    assert t.accepted[..|t.accepted|] == t.accepted;
  }

  // ----- Empty sets -----

  /** Submission `i` hands over to a set without validators. */
  predicate HandsOverToNobody(t: Trace, i: nat)
    requires t.init.Some? && i < |t.accepted|
  {
    var next := t.accepted[i].submission.leaf.nextAuthoritySet;
    next.id > InCharge(t, i).id && next.len == 0
  }

  ghost predicate NobodyHandedOver(t: Trace, n: nat)
    requires t.init.Some? && n <= |t.accepted|
  {
    forall i: nat :: i < n ==> !HandsOverToNobody(t, i)
  }

  /** The next set in charge is the one that the leaf names, id, length and keys, if its id is higher. */
  lemma InChargeNext(t: Trace, i: nat)
    requires t.init.Some? && i < |t.accepted|
    ensures var next := t.accepted[i].submission.leaf.nextAuthoritySet;
            InCharge(t, i + 1) == if next.id > InCharge(t, i).id then next else InCharge(t, i)
  {
    assert t.accepted[..i + 1][..i] == t.accepted[..i];
  }

  lemma {:induction false} InChargeNonEmpty(t: Trace, n: nat)
    requires t.init.Some? && n <= |t.accepted|
    requires t.init.value.authoritySet.len > 0 && NobodyHandedOver(t, n)
    ensures InCharge(t, n).len > 0
    decreases n
  {
    if n > 0 {
      InChargeNonEmpty(t, n - 1);
      InChargeNext(t, n - 1);
      assert !HandsOverToNobody(t, n - 1);
    }
  }

  /** Only the initial set is checked for emptiness. In every run, all sets that were ever in charge had validators if
      and only if no accepted submission handed over to a set without any. */
  lemma NonEmptyExactly(cfg: Config, events: seq<Event>)
    requires cfg.commitmentsToKeep > 0
    requires Run(cfg, events).init.Some?
    ensures var t := Run(cfg, events);
            && t.storage.currentAuthoritySet == Some(InCharge(t, |t.accepted|))
            && ((forall i: nat :: i <= |t.accepted| ==> InCharge(t, i).len > 0) <==> NobodyHandedOver(t, |t.accepted|))
  {
    EveryCommitmentTrusted(cfg, events);
    var t := Run(cfg, events);
    var n := |t.accepted|;
    assert t.accepted[..n] == t.accepted;
    if NobodyHandedOver(t, n) {
      forall i: nat | i <= n ensures InCharge(t, i).len > 0 {
        InChargeNonEmpty(t, i);
      }
    }
    if i: nat :| i < n && HandsOverToNobody(t, i) {
      InChargeNext(t, i);
      assert InCharge(t, i + 1).len == 0;
    }
  }

  /** The client is ready for this block: initialized, not halted, below its request limit, and behind the block. */
  predicate Admits(cfg: Config, s: Storage, signed: bool, sub: Submission) {
    && !s.halted && signed && s.requestCount < cfg.maxRequests
    && s.currentAuthoritySet.Some?
    && s.commitmentsInfo.Some? && s.commitmentsInfo.value.bestBlockNumber < BlockNumber(sub)
  }

  /** A submission is accepted exactly when the client admits its block, it names the set in charge, at most
      floor((n - 1) / 3) of the n positions miss a correct signature, and its leaf is proven under its root. */
  lemma SubmitAcceptedExactly(cfg: Config, s: Storage, signed: bool, sub: Submission)
    requires cfg.commitmentsToKeep > 0
    requires s.currentAuthoritySet.Some? ==> s.currentAuthoritySet.value.len >= 1
    ensures var root := cfg.crypto.mmrRootOf(sub.commitment.commitment.payload);
            Submit(cfg, s, signed, sub).1.Ok? <==>
              && Admits(cfg, s, signed, sub)
              && NamesSet(cfg.crypto, sub.commitment, s.currentAuthoritySet.value, sub.authorities)
              && |MissingAt(cfg.crypto, sub.commitment, sub.authorities.validators)|
                 <= (s.currentAuthoritySet.value.len - 1) / 3
              && root.Some? && cfg.crypto.mmrVerifies(root.value, sub.leaf, sub.proof)
  {
    var root := cfg.crypto.mmrRootOf(sub.commitment.commitment.payload);
    if s.currentAuthoritySet.Some? {
      var info := s.currentAuthoritySet.value;
      var verified := VerifyCommitment(cfg.crypto, sub.commitment, info, sub.authorities);
      if root.Some? { CommitmentAcceptedExactly(cfg.crypto, sub.commitment, info, sub.authorities, root.value); }
      if verified.Ok? {
        CommitmentAcceptedExactly(cfg.crypto, sub.commitment, info, sub.authorities, verified.value);
      }
    }
  }

  /** Which error a rejected submission fails with: the first of its checks that fails. */
  lemma SubmitErrors(cfg: Config, s: Storage, signed: bool, sub: Submission)
    requires cfg.commitmentsToKeep > 0
    ensures var r := Submit(cfg, s, signed, sub).1;
            var initialized := s.commitmentsInfo.Some? && s.currentAuthoritySet.Some?;
            && (r == Err(Halted) <==> s.halted)
            && (r == Err(BadOrigin) <==> !s.halted && !signed)
            && (r == Err(TooManyRequests) <==> !s.halted && signed && s.requestCount >= cfg.maxRequests)
            && (r == Err(NotInitialized) <==>
                  !s.halted && signed && s.requestCount < cfg.maxRequests && !initialized)
            && (r == Err(OldCommitment) <==>
                  && !s.halted && signed && s.requestCount < cfg.maxRequests && initialized
                  && BlockNumber(sub) <= s.commitmentsInfo.value.bestBlockNumber)
            && (r == Err(MmrProofVerificationFailed) <==>
                  && Admits(cfg, s, signed, sub)
                  && var info := s.currentAuthoritySet.value;
                     var c := VerifyCommitment(cfg.crypto, sub.commitment, info, sub.authorities);
                     c.Ok? && !cfg.crypto.mmrVerifies(c.value, sub.leaf, sub.proof))
  {
  }

  /** What an accepted submission writes: its block is the best one, its commitment is stored unless it was pruned at
      once, its leaf hands over to a set with a higher id, and it takes one request slot. */
  lemma SubmitWrites(cfg: Config, s: Storage, sub: Submission)
    requires cfg.commitmentsToKeep > 0
    requires Submit(cfg, s, true, sub).1.Ok?
    ensures var s' := Submit(cfg, s, true, sub).0;
            var next, root := sub.leaf.nextAuthoritySet, cfg.crypto.mmrRootOf(sub.commitment.commitment.payload);
            && s'.requestCount == s.requestCount + 1 && s'.halted == s.halted
            && s'.commitmentsInfo.Some? && s'.commitmentsInfo.value.bestBlockNumber == BlockNumber(sub)
            && s'.currentAuthoritySet
               == (if next.id > s.currentAuthoritySet.value.id then Some(next) else s.currentAuthoritySet)
            && (BlockNumber(sub) in s'.importedCommitments ==>
                  && root.Some?
                  && s'.importedCommitments[BlockNumber(sub)]
                     == ImportedCommitment(sub.leaf.parentNumber, sub.leaf.parentHash, root.value))
  {
  }

  /** Initialization succeeds exactly once, for the owner or root and with a non-empty set, and then stores all that it
      was given. */
  lemma InitializeExactly(s: Storage, ownerOrRoot: bool, init: InitializationData)
    ensures var (s', r) := Initialize(s, ownerOrRoot, init);
            && (r == Err(BadOrigin) <==> !ownerOrRoot)
            && (r == Err(AlreadyInitialized) <==> ownerOrRoot && s.commitmentsInfo.Some?)
            && (r.Ok? <==> ownerOrRoot && s.commitmentsInfo.None? && init.authoritySet.len > 0)
            && (r.Ok? ==>
                  && s'.currentAuthoritySet == Some(init.authoritySet) && s'.halted == init.halted
                  && s'.commitmentsInfo == Some(CommitmentsInfo(init.bestBlockNumber, 0))
                  && s'.requestCount == s.requestCount)
            && (r.Err? ==> s' == s)
  {
  }

  /** With no validators in charge nothing has to be signed: a call that the limiter and the block number admit is
      accepted exactly when it carries no signatures, names that set, and its leaf is proven. */
  lemma EmptySetNeedsNoSignature(cfg: Config, s: Storage, sub: Submission)
    requires cfg.commitmentsToKeep > 0
    requires !s.halted && s.requestCount < cfg.maxRequests
    requires s.currentAuthoritySet.Some? && s.currentAuthoritySet.value.len == 0
    requires s.commitmentsInfo.Some? && s.commitmentsInfo.value.bestBlockNumber < BlockNumber(sub)
    ensures var info, commitment := s.currentAuthoritySet.value, sub.commitment.commitment;
            Submit(cfg, s, true, sub).1.Ok? <==>
              && sub.commitment.signatures == [] && commitment.validatorSetId == info.id
              && sub.authorities == AuthoritySet(info.id, []) && cfg.crypto.merkleRoot([]) == info.keysetCommitment
              && cfg.crypto.mmrRootOf(commitment.payload).Some?
              && cfg.crypto.mmrVerifies(cfg.crypto.mmrRootOf(commitment.payload).value, sub.leaf, sub.proof)
  {
    if sub.authorities.validators == [] && sub.commitment.signatures == [] {
      assert HasQuorum(cfg.crypto, sub.commitment, sub.authorities.validators);
    }
  }

  // ----- Agreement between light clients -----

  /** Two light clients that accept commitments to the same block while the same set is in charge accepted the same
      commitment, as long as no more than the tolerated positions of that set are faulty. */
  lemma ClientsAgree(cfg: Config, cfg': Config, events: seq<Event>, events': seq<Event>, i: nat, j: nat,
                     issued: Issued, faulty: set<nat>)
    requires cfg.commitmentsToKeep > 0 && cfg'.commitmentsToKeep > 0 && cfg.crypto == cfg'.crypto
    requires var t, t' := Run(cfg, events), Run(cfg', events');
             && t.init.Some? && t'.init.Some? && i < |t.accepted| && j < |t'.accepted|
             && SameSetAndBlock(t, i, t', j)
             && |faulty| <= Tolerated(InCharge(t, i).len)
             && HonestSubmission(cfg.crypto, issued, t.accepted[i].submission, faulty)
             && HonestSubmission(cfg.crypto, issued, t'.accepted[j].submission, faulty)
             && NoRootCollision(cfg.crypto, t.accepted[i].submission.authorities, t'.accepted[j].submission.authorities)
    ensures Run(cfg, events).accepted[i].submission.commitment.commitment
            == Run(cfg', events').accepted[j].submission.commitment.commitment
  {
    EveryCommitmentTrusted(cfg, events);
    EveryCommitmentTrusted(cfg', events');
    var t, t' := Run(cfg, events), Run(cfg', events');
    assert Trusted(cfg, t.init.value.authoritySet, t.accepted, i);
    assert Trusted(cfg', t'.init.value.authoritySet, t'.accepted, j);
    NoConflictingCommitments(cfg.crypto, InCharge(t, i), issued, faulty,
                             t.accepted[i].submission.commitment, t.accepted[i].submission.authorities,
                             t'.accepted[j].submission.commitment, t'.accepted[j].submission.authorities);
  }

  predicate SameSetAndBlock(t: Trace, i: nat, t': Trace, j: nat)
    requires t.init.Some? && i < |t.accepted| && t'.init.Some? && j < |t'.accepted|
  {
    InCharge(t, i) == InCharge(t', j) && InCharge(t, i).len >= 1 && BlockOf(t.accepted[i]) == BlockOf(t'.accepted[j])
  }

  ghost predicate HonestSubmission(crypto: Crypto, issued: Issued, sub: Submission, faulty: set<nat>) {
    HonestBut(crypto, issued, sub.commitment, sub.authorities.validators, faulty)
  }

  // ----- The rate limit -----

  function BlockStarts(events: seq<Event>): nat {
    if events == [] then 0
    else BlockStarts(events[..|events| - 1]) + if events[|events| - 1].BlockStart? then 1 else 0
  }

  /** The request count never exceeds its maximum. */
  lemma {:induction false} RequestsBounded(cfg: Config, events: seq<Event>)
    requires cfg.commitmentsToKeep > 0
    ensures Run(cfg, events).storage.requestCount <= cfg.maxRequests
    decreases |events|
  {
    if events != [] {
      RequestsBounded(cfg, events[..|events| - 1]);
    }
  }

  /** What one call accepts is paid for by the request count or by a block start. */
  lemma StepRate(cfg: Config, t: Trace, e: Event)
    requires cfg.commitmentsToKeep > 0
    ensures var t' := Step(cfg, t, e);
            |t'.accepted| - |t.accepted|
            <= t'.storage.requestCount - t.storage.requestCount + if e.BlockStart? then 1 else 0
  {
  }

  /** Over any stretch of a run the accepted commitments are paid for by request slots that were free at its start and
      by the blocks that start in it. */
  lemma {:induction false} RateBound(cfg: Config, events: seq<Event>, more: seq<Event>)
    requires cfg.commitmentsToKeep > 0
    ensures var t, t' := Run(cfg, events), Run(cfg, events + more);
            && |t'.accepted| - |t.accepted| <= t'.storage.requestCount - t.storage.requestCount + BlockStarts(more)
            && |t'.accepted| - |t.accepted| <= cfg.maxRequests - t.storage.requestCount + BlockStarts(more)
    decreases |more|
  {
    RequestsBounded(cfg, events + more);
    if more == [] {
      assert events + more == events;
    } else {
      var n := |more| - 1;
      RateBound(cfg, events, more[..n]);
      StepRate(cfg, Run(cfg, events + more[..n]), more[n]);
      RunStep(cfg, events + more[..n], more[n]);
      assert events + more == events + more[..n] + [more[n]];
    }
  }

  /** The pallet always makes progress: right after a block start the limiter rejects nothing. */
  lemma BlockStartAdmits(cfg: Config, events: seq<Event>, signed: bool, sub: Submission)
    requires cfg.commitmentsToKeep > 0 && cfg.maxRequests >= 1
    ensures Check(cfg, Run(cfg, events + [BlockStart]).storage, signed, sub) != Err(TooManyRequests)
  {
    RequestsBounded(cfg, events);
    assert (events + [BlockStart])[..|events|] == events;
  }
}

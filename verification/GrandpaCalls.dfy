/** The calls of the GRANDPA light client, stated on their inputs alone: when each is accepted, with which error it
    fails otherwise, and what it writes.
  */
module GrandpaCalls {
  import opened Wrappers
  import opened GrandpaPallet
  import opened GrandpaRuns

  /** The header improves on the best one. */
  predicate Improves(s: Storage, number: nat) {
    s.bestFinalized.Some? && s.bestFinalized.value.number < number
  }

  /** A number is not obsolete exactly when it is above the best one and the named set, if any, is the stored one; the
      result is then the distance to the best one. */
  lemma CheckObsoleteExactly(s: Storage, target: nat, setId: Option<nat>)
    ensures var r := CheckObsolete(s, target, setId);
            && (r == Err(NotInitialized) <==> s.bestFinalized.None?)
            && (r == Err(OldHeader) <==> s.bestFinalized.Some? && target <= s.bestFinalized.value.number)
            && (r == Err(InvalidAuthoritySetId) <==>
                  Improves(s, target) && setId.Some? && setId.value != s.currentAuthoritySet.setId)
            && (r.Ok? <==> Improves(s, target) && (setId == None || setId == Some(s.currentAuthoritySet.setId)))
            && (r.Ok? ==> r.value > 0 && s.bestFinalized.value.number + r.value == target)
  {
  }

  /** The call may be made, and its header improves on the best one under the stored set. */
  predicate Timely(s: Storage, signed: bool, header: Header, setId: nat) {
    !s.halted && signed && Improves(s, header.number) && setId == s.currentAuthoritySet.setId
  }

  /** The stored set is usable and justifies the header. */
  predicate Justified(cfg: Config, s: Storage, header: Header, j: Justification) {
    && cfg.wellFormed(s.currentAuthoritySet)
    && cfg.justifies(j, HeaderId(header.number, cfg.hash(header)), s.currentAuthoritySet)
  }

  /** A finality proof is accepted exactly when it is timely and justified, its first GRANDPA log is not a forced
      change, and its first scheduled change, if any, has no delay and fits the limit. */
  lemma SubmitAcceptedExactly(cfg: Config, s: Storage, signed: bool, header: Header, j: Justification, setId: nat)
    requires cfg.headersToKeep > 0
    ensures Submit(cfg, s, signed, header, j, setId).1.Ok? <==>
              && Timely(s, signed, header, setId) && Justified(cfg, s, header, j)
              && !ForcedFirst(header.digest) && SupportedSchedule(cfg, header.digest)
  {
    ForcedChangeSeen(header.digest);
    ScheduleRead(cfg, header.digest);
  }

  /** Which error a rejected finality proof fails with. */
  lemma SubmitErrors(cfg: Config, s: Storage, signed: bool, header: Header, j: Justification, setId: nat)
    requires cfg.headersToKeep > 0
    ensures var r := Submit(cfg, s, signed, header, j, setId).1;
            var timely, justified := Timely(s, signed, header, setId), Justified(cfg, s, header, j);
            && (r == Err(Halted) <==> s.halted)
            && (r == Err(BadOrigin) <==> !s.halted && !signed)
            && (r == Err(NotInitialized) <==> !s.halted && signed && s.bestFinalized.None?)
            && (r == Err(OldHeader) <==>
                  !s.halted && signed && s.bestFinalized.Some? && header.number <= s.bestFinalized.value.number)
            && (r == Err(InvalidAuthoritySetId) <==>
                  !s.halted && signed && Improves(s, header.number) && setId != s.currentAuthoritySet.setId)
            && (r == Err(InvalidAuthoritySet) <==> timely && !cfg.wellFormed(s.currentAuthoritySet))
            && (r == Err(InvalidJustification) <==> timely && cfg.wellFormed(s.currentAuthoritySet) && !justified)
            && (r == Err(UnsupportedScheduledChange) <==>
                  timely && justified && (ForcedFirst(header.digest) || Delayed(header.digest)))
            && (r == Err(TooManyAuthoritiesInSet) <==>
                  && timely && justified && !ForcedFirst(header.digest) && !Delayed(header.digest)
                  && !SupportedSchedule(cfg, header.digest))
  {
    ForcedChangeSeen(header.digest);
    ScheduleRead(cfg, header.digest);
    NoScheduledChange(header.digest);
    forall i: nat | FirstScheduled(header.digest, i) { ScheduledChangeSeen(header.digest, i); }
  }

  /** The first scheduled change of the digest has a delay. */
  ghost predicate Delayed(digest: seq<DigestItem>) {
    exists i: nat :: FirstScheduled(digest, i) && digest[i].change.delay != 0
  }

  /** The call is refunded: a slot is free, the call fits the limits, and the header changes the authorities or is far
      enough above the best one. */
  ghost predicate Refunded(cfg: Config, s: Storage, header: Header, j: Justification) {
    && s.freeHeadersRemaining.Some? && s.freeHeadersRemaining.value > 0
    && cfg.fitsLimits(header, j)
    && (|| CarriesChange(header.digest)
        || (&& cfg.freeHeadersInterval.Some? && s.bestFinalized.Some?
            && s.bestFinalized.value.number + cfg.freeHeadersInterval.value <= header.number))
  }

  /** What an accepted finality proof writes: the header becomes the best one, its first scheduled change takes over
      with the next set id, and a refunded call takes one free slot. */
  lemma SubmitWrites(cfg: Config, s: Storage, header: Header, j: Justification, setId: nat)
    requires cfg.headersToKeep > 0
    requires Submit(cfg, s, true, header, j, setId).1.Ok?
    ensures var (s', r) := Submit(cfg, s, true, header, j, setId);
            && s'.bestFinalized == Some(HeaderId(header.number, cfg.hash(header)))
            && (forall i: nat :: FirstScheduled(header.digest, i) ==>
                  s'.currentAuthoritySet
                  == AuthoritySet(header.digest[i].change.nextAuthorities, (setId + 1) % U64_MODULUS))
            && (!CarriesChange(header.digest) ==> s'.currentAuthoritySet == s.currentAuthoritySet)
            && (r.value == PaysNo <==> Refunded(cfg, s, header, j))
            && s'.freeHeadersRemaining == (if Refunded(cfg, s, header, j) then Some(s.freeHeadersRemaining.value - 1)
                                           else s.freeHeadersRemaining)
            && s'.halted == s.halted && s'.initialHash == s.initialHash
  {
    ScheduleRead(cfg, header.digest);
    NoScheduledChange(header.digest);
    forall i: nat | FirstScheduled(header.digest, i) { ScheduledChangeSeen(header.digest, i); }
  }

  /** Initialization succeeds exactly once, for the owner or root and with a set that fits, and then stores all that it
      was given. */
  lemma InitializeExactly(cfg: Config, s: Storage, ownerOrRoot: bool, init: InitializationData)
    requires cfg.headersToKeep > 0
    ensures var (s', r) := Initialize(cfg, s, ownerOrRoot, init);
            var hash := cfg.hash(init.header);
            && (r == Err(BadOrigin) <==> !ownerOrRoot)
            && (r == Err(AlreadyInitialized) <==> ownerOrRoot && s.bestFinalized.Some?)
            && (r.Ok? <==>
                  ownerOrRoot && s.bestFinalized.None? && |init.authorityList| <= cfg.maxAuthorities)
            && (r.Ok? ==>
                  && s'.initialHash == Some(hash) && s'.bestFinalized == Some(HeaderId(init.header.number, hash))
                  && s'.currentAuthoritySet == AuthoritySet(init.authorityList, init.setId)
                  && s'.halted == init.halted && s'.freeHeadersRemaining == s.freeHeadersRemaining)
            && (r.Err? ==> s' == s)
  {
  }
}

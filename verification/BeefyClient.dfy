/** The BEEFY light client as it is used: a pallet whose storage items are updated in place. Its ghost history is the
    run that led to its storage, so everything proved of runs holds of every pallet.
  */
module BeefyClient {
  import opened Wrappers
  import opened BeefyQuorum
  import opened BeefyPallet
  import opened BeefyRuns

  class Pallet {
    const cfg: Config
    ghost var events: seq<Event>
    var halted: bool
    var requestCount: nat
    var commitmentsInfo: Option<CommitmentsInfo>
    var importedBlockNumbers: map<nat, nat>
    var importedCommitments: map<nat, ImportedCommitment>
    var currentAuthoritySet: Option<AuthoritySetInfo>

    function Contents(): Storage
      reads this
    {
      Storage(halted, requestCount, commitmentsInfo, importedBlockNumbers, importedCommitments, currentAuthoritySet)
    }

    /** The storage is what the calls so far have made it. */
    ghost predicate Valid()
      reads this
    {
      cfg.commitmentsToKeep > 0 && Run(cfg, events).storage == Contents()
    }

    constructor (cfg: Config)
      requires cfg.commitmentsToKeep > 0
      ensures this.cfg == cfg && events == [] && Valid()
    {
      this.cfg, events := cfg, [];
      halted, requestCount, commitmentsInfo := true, 0, None;
      importedBlockNumbers, importedCommitments, currentAuthoritySet := map[], map[], None;
    }

    method OnInitialize()
      requires Valid()
      modifies this`requestCount, this`events
      ensures Valid() && events == old(events) + [BlockStart]
      ensures Contents() == BlockStarted(old(Contents()))
    {
      RunStep(cfg, events, BlockStart);
      events := events + [BlockStart];
      if requestCount > 0 {
        requestCount := requestCount - 1;
      }
    }

    method SetOperatingMode(ownerOrRoot: bool, halted: bool) returns (r: Result<(), Error>)
      requires Valid()
      modifies this`halted, this`events
      ensures Valid() && events == old(events) + [Event.SetOperatingMode(ownerOrRoot, halted)]
      ensures r == if ownerOrRoot then Ok(()) else Err(BadOrigin)
      ensures this.halted == if ownerOrRoot then halted else old(this.halted)
    {
      RunStep(cfg, events, Event.SetOperatingMode(ownerOrRoot, halted));
      events := events + [Event.SetOperatingMode(ownerOrRoot, halted)];
      if !ownerOrRoot {
        return Err(BadOrigin);
      }
      this.halted := halted;
      r := Ok(());
    }

    method InitializePallet(ownerOrRoot: bool, init: InitializationData) returns (r: Result<(), Error>)
      requires Valid()
      modifies this
      ensures Valid() && events == old(events) + [InitializeCall(ownerOrRoot, init)]
      ensures (Contents(), r) == Initialize(old(Contents()), ownerOrRoot, init)
      ensures r.Err? ==> Contents() == old(Contents())
    {
      RunStep(cfg, events, InitializeCall(ownerOrRoot, init));
      events := events + [InitializeCall(ownerOrRoot, init)];
      if !ownerOrRoot {
        return Err(BadOrigin);
      }
      if commitmentsInfo.Some? {
        return Err(AlreadyInitialized);
      }
      if init.authoritySet.len == 0 {
        return Err(InvalidInitialAuthoritySet);
      }
      currentAuthoritySet := Some(init.authoritySet);
      halted := init.halted;
      commitmentsInfo := Some(CommitmentsInfo(init.bestBlockNumber, 0));
      r := Ok(());
    }

    /** Verify a commitment against the stored authority set, running the signature countdown. */
    method CheckCommitment(c: SignedCommitment, info: AuthoritySetInfo, authorities: AuthoritySet)
      returns (r: Result<MmrHash, Error>)
      ensures r == VerifyCommitment(cfg.crypto, c, info, authorities)
      ensures info.len >= 1 ==>
                (r.Ok? <==> && NamesSet(cfg.crypto, c, info, authorities)
                            && |MissingAt(cfg.crypto, c, authorities.validators)| <= (info.len - 1) / 3
                            && cfg.crypto.mmrRootOf(c.commitment.payload).Some?)
    {
      if info.len >= 1 { CommitmentErrors(cfg.crypto, c, info, authorities); }
      if c.commitment.validatorSetId != info.id {
        return Err(InvalidCommitmentValidatorSetId);
      }
      if |c.signatures| != info.len {
        return Err(InvalidCommitmentSignaturesLen);
      }
      var known := VerifyAuthoritySet(cfg.crypto, info, authorities);
      if known.Err? {
        return Err(known.error);
      }
      var signed := VerifySignatures(cfg.crypto, c, authorities);
      if signed.Err? {
        return Err(signed.error);
      }
      match cfg.crypto.mmrRootOf(c.commitment.payload)
      case None => r := Err(MmrRootMissingFromCommitment);
      case Some(root) => r := Ok(root);
    }

    /** All checks of a submission; the result is the MMR root of the commitment. */
    method CheckSubmission(signed: bool, sub: Submission) returns (r: Result<MmrHash, Error>)
      ensures r == Check(cfg, Contents(), signed, sub)
    {
      if halted {
        return Err(Halted);
      }
      if !signed {
        return Err(BadOrigin);
      }
      if requestCount >= cfg.maxRequests {
        return Err(TooManyRequests);
      }
      if commitmentsInfo.None? || currentAuthoritySet.None? {
        return Err(NotInitialized);
      }
      if BlockNumber(sub) <= commitmentsInfo.value.bestBlockNumber {
        return Err(OldCommitment);
      }

      // verify commitment and mmr leaf
      r := CheckCommitment(sub.commitment, currentAuthoritySet.value, sub.authorities);
      if r.Ok? && !cfg.crypto.mmrVerifies(r.value, sub.leaf, sub.proof) {
        return Err(MmrProofVerificationFailed);
      }
    }

    /** Write what an accepted submission brings; the oldest commitment makes room for the new one. */
    method ImportCommitment(sub: Submission, mmrRoot: MmrHash)
      requires cfg.commitmentsToKeep > 0
      requires commitmentsInfo.Some? && currentAuthoritySet.Some?
      modifies this
      ensures Contents() == Import(cfg, old(Contents()), sub, mmrRoot) && events == old(events)
      ensures var current, next := old(currentAuthoritySet).value, sub.leaf.nextAuthoritySet;
              currentAuthoritySet == Some(if next.id > current.id then next else current)
    {
      requestCount := requestCount + 1;
      if sub.leaf.nextAuthoritySet.id > currentAuthoritySet.value.id {
        currentAuthoritySet := Some(sub.leaf.nextAuthoritySet);
      }

      // import commitment
      var index: nat := commitmentsInfo.value.nextBlockNumberIndex;
      var toPrune := if index in importedBlockNumbers then Some(importedBlockNumbers[index]) else None;
      importedCommitments := importedCommitments[BlockNumber(sub) := Stored(sub, mmrRoot)];
      importedBlockNumbers := importedBlockNumbers[index := BlockNumber(sub)];
      commitmentsInfo := Some(CommitmentsInfo(BlockNumber(sub), (index + 1) % cfg.commitmentsToKeep));
      if toPrune.Some? {
        importedCommitments := importedCommitments - {toPrune.value};
      }
    }

    /** Submit a commitment. A failing call changes nothing. */
    method SubmitCommitment(signed: bool, sub: Submission) returns (r: Result<(), Error>)
      requires Valid()
      modifies this
      ensures Valid() && events == old(events) + [SubmitCall(signed, sub)]
      ensures (Contents(), r) == Submit(cfg, old(Contents()), signed, sub)
      ensures r.Err? ==> Contents() == old(Contents())
    {
      RunSubmit(cfg, events, signed, sub);
      events := events + [SubmitCall(signed, sub)];
      var checked := CheckSubmission(signed, sub);
      if checked.Err? {
        return Err(checked.error);
      }
      ImportCommitment(sub, checked.value);
      r := Ok(());
    }
  }
}

/** The GRANDPA light client as it is used: a pallet whose storage items are updated in place. Its ghost history is the
    run that led to its storage, so everything proved of runs holds of every pallet.
  */
module GrandpaClient {
  import opened Wrappers
  import opened RingWindow
  import opened GrandpaPallet
  import opened GrandpaRuns

  class Pallet {
    const cfg: Config
    ghost var events: seq<Event>
    var halted: bool
    var initialHash: Option<Hash>
    var bestFinalized: Option<HeaderId>
    var importedHashes: map<nat, Hash>
    var importedHashesPointer: nat
    var importedHeaders: map<Hash, StoredHeader>
    var currentAuthoritySet: AuthoritySet
    var freeHeadersRemaining: Option<nat>

    function Contents(): Storage
      reads this
    {
      Storage(halted, initialHash, bestFinalized, Ring(importedHashes, importedHeaders, importedHashesPointer),
              currentAuthoritySet, freeHeadersRemaining)
    }

    /** The storage is what the calls so far have made it. */
    ghost predicate Valid()
      reads this
    {
      cfg.headersToKeep > 0 && Run(cfg, events).storage == Contents()
    }

    constructor (cfg: Config)
      requires cfg.headersToKeep > 0
      ensures this.cfg == cfg && events == [] && Valid()
    {
      this.cfg, events := cfg, [];
      halted, initialHash, bestFinalized := true, None, None;
      importedHashes, importedHashesPointer, importedHeaders := map[], 0, map[];
      currentAuthoritySet, freeHeadersRemaining := AuthoritySet([], 0), None;
    }

    method OnInitialize()
      requires Valid()
      modifies this`freeHeadersRemaining, this`events
      ensures Valid() && events == old(events) + [BlockStart]
      ensures freeHeadersRemaining == Some(cfg.maxFreeHeadersPerBlock)
    {
      freeHeadersRemaining := Some(cfg.maxFreeHeadersPerBlock);
      RunStep(cfg, events, BlockStart);
      events := events + [BlockStart];
    }

    method OnFinalize()
      requires Valid()
      modifies this`freeHeadersRemaining, this`events
      ensures Valid() && events == old(events) + [BlockEnd]
      ensures freeHeadersRemaining == None
    {
      freeHeadersRemaining := None;
      RunStep(cfg, events, BlockEnd);
      events := events + [BlockEnd];
    }

    method SetOperatingMode(ownerOrRoot: bool, halted: bool) returns (r: Result<(), Error>)
      requires Valid()
      modifies this`halted, this`events
      ensures Valid() && events == old(events) + [Event.SetOperatingMode(ownerOrRoot, halted)]
      ensures r == if ownerOrRoot then Ok(()) else Err(BadOrigin)
      ensures this.halted == if ownerOrRoot then halted else old(this.halted)
    {
      RunStep(cfg, events, Event.SetOperatingMode(ownerOrRoot, halted));
      events := events + [Event.SetOperatingMode(ownerOrRoot, halted)];
      if !ownerOrRoot {
        return Err(BadOrigin);
      }
      this.halted := halted;
      r := Ok(());
    }

    /** Import a verified header to the storage and prune the oldest one. */
    method StoreHeader(header: Header, hash: Hash)
      requires cfg.headersToKeep > 0
      requires hash == cfg.hash(header)
      modifies this`bestFinalized, this`importedHashes, this`importedHashesPointer, this`importedHeaders
      ensures Contents() == InsertHeader(cfg, old(Contents()), header)
    {
      var index: nat := importedHashesPointer;
      var pruning := if index in importedHashes then Some(importedHashes[index]) else None;
      bestFinalized := Some(HeaderId(header.number, hash));
      importedHeaders := importedHeaders[hash := StoredHeader(header.number, header.stateRoot)];
      importedHashes := importedHashes[index := hash];
      importedHashesPointer := (index + 1) % cfg.headersToKeep;
      if pruning.Some? {
        importedHeaders := importedHeaders - {pruning.value};
      }
    }

    method EnactAuthorityChange(header: Header, currentSetId: nat) returns (r: Result<Option<AuthoritySet>, Error>)
      modifies this`currentAuthoritySet
      ensures var current := AuthoritySet(old(currentAuthoritySet).authorities, currentSetId);
              match TryEnactAuthorityChange(cfg, header, current)
              case Err(e) => r == Err(e) && currentAuthoritySet == old(currentAuthoritySet)
              case Ok(newSet) =>
                if IsMandatory(header) then r == Ok(Some(newSet)) && currentAuthoritySet == newSet
                else r == Ok(None) && currentAuthoritySet == old(currentAuthoritySet)
      ensures r.Ok? <==> !ForcedFirst(header.digest) && SupportedSchedule(cfg, header.digest)
      ensures r.Ok? ==> forall i: nat :: FirstScheduled(header.digest, i) ==>
                          currentAuthoritySet == AuthoritySet(header.digest[i].change.nextAuthorities,
                                                              (currentSetId + 1) % U64_MODULUS)
    {
      ForcedChangeSeen(header.digest);
      ScheduleRead(cfg, header.digest);
      forall i: nat | FirstScheduled(header.digest, i) { ScheduledChangeSeen(header.digest, i); }
      if FindForcedChange(header.digest).Some? {
        return Err(UnsupportedScheduledChange);
      }
      var maybeChange := FindScheduledChange(header.digest);
      if maybeChange.Some? {
        var change := maybeChange.value;
        if change.delay != 0 {
          return Err(UnsupportedScheduledChange);
        }
        if |change.nextAuthorities| > cfg.maxAuthorities {
          return Err(TooManyAuthoritiesInSet);
        }
        var nextAuthorities := AuthoritySet(change.nextAuthorities, (currentSetId + 1) % U64_MODULUS);
        currentAuthoritySet := nextAuthorities;
        return Ok(Some(nextAuthorities));
      }
      r := Ok(None);
    }

    /** Verify a header and its finality proof, and import the header. A failing call changes nothing. */
    method SubmitFinalityProofEx(signed: bool, header: Header, justification: Justification, currentSetId: nat)
      returns (r: Result<Pays, Error>)
      requires Valid()
      modifies this
      ensures Valid() && events == old(events) + [SubmitCall(signed, header, justification, Some(currentSetId))]
      ensures (Contents(), r) == Submit(cfg, old(Contents()), signed, header, justification, currentSetId)
      ensures r.Err? ==> Contents() == old(Contents())
    {
      RunStep(cfg, events, SubmitCall(signed, header, justification, Some(currentSetId)));
      events := events + [SubmitCall(signed, header, justification, Some(currentSetId))];
      if halted {
        return Err(Halted);
      }
      if !signed {
        return Err(BadOrigin);
      }
      var hash, number := cfg.hash(header), header.number;
      var obsolete := CheckObsolete(Contents(), number, Some(currentSetId));
      if obsolete.Err? {
        return Err(obsolete.error);
      }
      var improvedBy := obsolete.value;

      var authoritySet := currentAuthoritySet;
      var verified := VerifyJustification(cfg, justification, HeaderId(number, hash), authoritySet);
      if verified.Err? {
        return Err(verified.error);
      }

      var enacted := EnactAuthorityChange(header, authoritySet.setId);
      if enacted.Err? {
        return Err(enacted.error);
      }
      var mayRefund := MayRefundCallFee(cfg, Contents(), header, justification, improvedBy);
      if mayRefund && freeHeadersRemaining.Some? {
        var count := freeHeadersRemaining.value;
        freeHeadersRemaining := Some(if count == 0 then 0 else count - 1);
      }
      StoreHeader(header, hash);
      r := Ok(if mayRefund then PaysNo else PaysYes);
    }

    /** The deprecated call: the same without the check of the set id. */
    method SubmitFinalityProof(signed: bool, header: Header, justification: Justification)
      returns (r: Result<Pays, Error>)
      requires Valid()
      modifies this
      ensures Valid()
      ensures events ==
              old(events) + [SubmitCall(signed, header, justification, Some(old(currentAuthoritySet.setId)))]
      ensures (Contents(), r) ==
              Submit(cfg, old(Contents()), signed, header, justification, old(currentAuthoritySet.setId))
    {
      r := SubmitFinalityProofEx(signed, header, justification, currentAuthoritySet.setId);
    }

    method InitializePallet(ownerOrRoot: bool, init: InitializationData) returns (r: Result<(), Error>)
      requires Valid()
      modifies this
      ensures Valid() && events == old(events) + [InitializeCall(ownerOrRoot, init)]
      ensures (Contents(), r) == Initialize(cfg, old(Contents()), ownerOrRoot, init)
      ensures r.Err? ==> Contents() == old(Contents())
    {
      RunStep(cfg, events, InitializeCall(ownerOrRoot, init));
      events := events + [InitializeCall(ownerOrRoot, init)];
      if !ownerOrRoot {
        return Err(BadOrigin);
      }
      if bestFinalized.Some? {
        return Err(AlreadyInitialized);
      }
      if |init.authorityList| > cfg.maxAuthorities {
        return Err(TooManyAuthoritiesInSet);
      }
      initialHash := Some(cfg.hash(init.header));
      importedHashesPointer := 0;
      StoreHeader(init.header, cfg.hash(init.header));
      currentAuthoritySet := AuthoritySet(init.authorityList, init.setId);
      halted := init.halted;
      r := Ok(());
    }
  }
}

/** The transaction extension of the GRANDPA pallet, and how far its verdict agrees with the call it guards. */
module GrandpaExtension {
  import opened Wrappers
  import opened GrandpaPallet
  import opened GrandpaRuns

  datatype SubmitFinalityProofInfo = SubmitFinalityProofInfo(
    blockNumber: nat,
    currentSetId: Option<nat>,
    isMandatory: bool,
    isFreeExecutionExpected: bool,
    fitsLimits: bool)

  function InfoFromArgs(cfg: Config, header: Header, j: Justification, setId: Option<nat>, free: bool)
    : SubmitFinalityProofInfo
  {
    SubmitFinalityProofInfo(header.number, setId, IsMandatory(header), free, cfg.fitsLimits(header, j))
  }

  /** Outside of a block there is no counter, and the extension then lets free headers pass. */
  predicate HasFreeHeaderSlots(s: Storage) {
    s.freeHeadersRemaining.Some? ==> s.freeHeadersRemaining.value > 0
  }

  function CheckObsoleteFromExtension(cfg: Config, s: Storage, info: SubmitFinalityProofInfo): Result<nat, Error> {
    match CheckObsolete(s, info.blockNumber, info.currentSetId)
    case Err(e) => Err(e)
    case Ok(improvedBy) =>
      if !info.isFreeExecutionExpected then Ok(improvedBy)
      else if !HasFreeHeaderSlots(s) then Err(FreeHeadersLimitExceeded)
      else if !info.isMandatory && cfg.freeHeadersInterval.Some? && improvedBy < cfg.freeHeadersInterval.value then
        Err(BelowFreeHeaderInterval)
      else if !info.fitsLimits then Err(HeaderOverflowLimits)
      else Ok(improvedBy)
  }

  datatype Validity = ValidSubmission(improvedBy: nat) | Stale | BadCall

  /** The extension's verdict on a call; the deprecated call names no set id and never expects free execution. */
  function Validate(cfg: Config, s: Storage, header: Header, j: Justification, setId: Option<nat>, free: bool)
    : Validity
  {
    if s.halted then BadCall
    else
      match CheckObsoleteFromExtension(cfg, s, InfoFromArgs(cfg, header, j, setId, free))
      case Ok(improvedBy) => ValidSubmission(improvedBy)
      case Err(OldHeader) => Stale
      case Err(_) => BadCall
  }

  predicate WasSuccessful(s: Storage, finalityTarget: nat) {
    s.bestFinalized.Some? && s.bestFinalized.value.number == finalityTarget
  }

  /** The two places where the extension reads a missing value as permission and the call does not: no free-header
      counter (outside of a block), or no free-header interval for a header that is not mandatory. */
  predicate MissingValueDecides(cfg: Config, s: Storage, header: Header, improvedBy: nat) {
    if s.freeHeadersRemaining.None? then
      IsMandatory(header) || cfg.freeHeadersInterval.None? || improvedBy >= cfg.freeHeadersInterval.value
    else
      s.freeHeadersRemaining.value > 0 && !IsMandatory(header) && cfg.freeHeadersInterval.None?
  }

  /** For a call that asks for free execution, the extension accepts exactly when the call passes its own checks and
      would be refunded, or a missing value decides (and the call fits the limits). */
  lemma ExtensionAgreesExactly(cfg: Config, s: Storage, header: Header, j: Justification, setId: nat)
    requires !s.halted
    ensures var obsolete := CheckObsolete(s, header.number, Some(setId));
            Validate(cfg, s, header, j, Some(setId), true).ValidSubmission? <==>
              && obsolete.Ok?
              && (|| MayRefundCallFee(cfg, s, header, j, obsolete.value)
                  || (cfg.fitsLimits(header, j) && MissingValueDecides(cfg, s, header, obsolete.value)))
    ensures var obsolete := CheckObsolete(s, header.number, Some(setId));
            obsolete.Ok? && MissingValueDecides(cfg, s, header, obsolete.value) ==>
              !MayRefundCallFee(cfg, s, header, j, obsolete.value)
  {
  }

  /** With a counter and an interval in place, an accepted free call that succeeds is free; and an accepted call
      was successful, by the extension's later test, exactly when the call succeeded. */
  lemma AcceptedFreeCallIsFree(cfg: Config, s: Storage, header: Header, j: Justification, setId: nat)
    requires cfg.headersToKeep > 0
    requires s.freeHeadersRemaining.Some? && cfg.freeHeadersInterval.Some?
    requires Validate(cfg, s, header, j, Some(setId), true).ValidSubmission?
    ensures var (s', r) := Submit(cfg, s, true, header, j, setId);
            && (r.Ok? ==> r.value == PaysNo)
            && (r.Ok? ==> s'.freeHeadersRemaining == Some(s.freeHeadersRemaining.value - 1))
            && (WasSuccessful(s', header.number) <==> r.Ok?)
  {
    ExtensionAgreesExactly(cfg, s, header, j, setId);
  }

  /** In every run, inside a block and with an interval configured: a free call that the extension accepts and that
      succeeds uses one of the block's free slots. */
  lemma InBlockFreeCallIsFree(cfg: Config, events: seq<Event>, header: Header, j: Justification, setId: nat)
    requires cfg.headersToKeep > 0 && cfg.freeHeadersInterval.Some?
    requires Run(cfg, events).block.Some?
    requires Validate(cfg, Run(cfg, events).storage, header, j, Some(setId), true).ValidSubmission?
    ensures var t := Run(cfg, events);
            var t' := Step(cfg, t, SubmitCall(true, header, j, Some(setId)));
            t' != t ==> t'.block == Some(t.block.value + [Proven(header, j, PaysNo)])
                        && FreeImports(t.block.value) < cfg.maxFreeHeadersPerBlock
  {
    FreeHeadersAccounted(cfg, events);
    AcceptedFreeCallIsFree(cfg, Run(cfg, events).storage, header, j, setId);
  }

  /** The later test misjudges a call exactly when the call fails and the best header already has that number. */
  lemma SuccessTestExactly(cfg: Config, s: Storage, signed: bool, header: Header, j: Justification, setId: nat)
    requires cfg.headersToKeep > 0
    ensures var (s', r) := Submit(cfg, s, signed, header, j, setId);
            (WasSuccessful(s', header.number) <==> r.Ok?) <==>
            !(s.bestFinalized.Some? && s.bestFinalized.value.number == header.number)
  {
  }

  /** Either call is rejected as stale exactly when it brings no header above the best one. */
  lemma StaleExactly(cfg: Config, s: Storage, header: Header, j: Justification, setId: Option<nat>, free: bool)
    ensures Validate(cfg, s, header, j, setId, free).Stale? <==>
            !s.halted && s.bestFinalized.Some? && header.number <= s.bestFinalized.value.number
  {
  }

  /** An accepted call, of either kind, can then fail only because of its proof or its authority change. */
  lemma AcceptedCallFailures(cfg: Config, s: Storage, header: Header, j: Justification, setId: Option<nat>, free: bool)
    requires cfg.headersToKeep > 0
    requires Validate(cfg, s, header, j, setId, free).ValidSubmission?
    ensures var (s', r) := Submit(cfg, s, true, header, j, NamedSetId(s, setId));
            r.Ok? <==>
              && cfg.wellFormed(s.currentAuthoritySet)
              && cfg.justifies(j, HeaderId(header.number, cfg.hash(header)), s.currentAuthoritySet)
              && TryEnactAuthorityChange(cfg, header, s.currentAuthoritySet).Ok?
  {
  }

  /** A call that does not ask for free execution is accepted exactly when the pallet is not halted, the header is above
      the best one and the named set, if any, is the stored one. */
  lemma PaidCallAcceptedExactly(cfg: Config, s: Storage, header: Header, j: Justification, setId: Option<nat>)
    ensures var v := Validate(cfg, s, header, j, setId, false);
            && (v.ValidSubmission? <==>
                  && !s.halted && s.bestFinalized.Some? && s.bestFinalized.value.number < header.number
                  && (setId == None || setId == Some(s.currentAuthoritySet.setId)))
            && (v.ValidSubmission? ==> s.bestFinalized.value.number + v.improvedBy == header.number)
  {
  }
}

/** The on-chain GRANDPA light client: its storage, and what each call does to it. */
module GrandpaPallet {
  import opened Wrappers
  import opened RingWindow

  type Hash(==, !new, 00)
  type Authority(==, !new, 00)
  type Justification(==, !new, 00)

  const U64_MODULUS: nat := 0x1_0000_0000_0000_0000

  datatype ScheduledChange = ScheduledChange(nextAuthorities: seq<Authority>, delay: nat)

  /** An item of a header's digest, as the GRANDPA log reader sees it. */
  datatype DigestItem =
    | Scheduled(change: ScheduledChange)
    | Forced(medianLastFinalized: nat, change: ScheduledChange)
    | OtherGrandpaLog
    | ForeignItem

  datatype Header = Header(number: nat, stateRoot: Hash, parentHash: Hash, digest: seq<DigestItem>)

  datatype StoredHeader = StoredHeader(number: nat, stateRoot: Hash)

  datatype HeaderId = HeaderId(number: nat, hash: Hash)

  datatype AuthoritySet = AuthoritySet(authorities: seq<Authority>, setId: nat)

  /** The pallet's configuration, with the verification it takes from outside. */
  datatype Config = Config(
    hash: Header -> Hash,
    wellFormed: AuthoritySet -> bool,
    justifies: (Justification, HeaderId, AuthoritySet) -> bool,
    fitsLimits: (Header, Justification) -> bool,
    maxAuthorities: nat,
    headersToKeep: nat,
    maxFreeHeadersPerBlock: nat,
    freeHeadersInterval: Option<nat>)

  datatype Error =
    | Halted
    | BadOrigin
    | NotInitialized
    | AlreadyInitialized
    | OldHeader
    | InvalidAuthoritySetId
    | InvalidAuthoritySet
    | InvalidJustification
    | UnsupportedScheduledChange
    | TooManyAuthoritiesInSet
    | FreeHeadersLimitExceeded
    | BelowFreeHeaderInterval
    | HeaderOverflowLimits

  datatype Pays = PaysYes | PaysNo

  /** The pallet's storage. */
  datatype Storage = Storage(
    halted: bool,
    initialHash: Option<Hash>,
    bestFinalized: Option<HeaderId>,
    imported: Ring<Hash, StoredHeader>,
    currentAuthoritySet: AuthoritySet,
    freeHeadersRemaining: Option<nat>)

  /** Genesis without initialization data: nothing is stored and the pallet is halted. */
  const GENESIS_STORAGE := Storage(true, None, None, EmptyRing(), AuthoritySet([], 0), None)

  datatype InitializationData = InitializationData(
    header: Header, authorityList: seq<Authority>, setId: nat, halted: bool)

  // ----- Digest reading -----

  /** The first scheduled change in the digest. */
  function FindScheduledChange(digest: seq<DigestItem>): Option<ScheduledChange> {
    if digest == [] then None
    else if digest[0].Scheduled? then Some(digest[0].change)
    else FindScheduledChange(digest[1..])
  }

  /** The forced change, if the first GRANDPA log of the digest is one. */
  function FindForcedChange(digest: seq<DigestItem>): Option<(nat, ScheduledChange)> {
    if digest == [] then None
    else
      match digest[0]
      case ForeignItem => FindForcedChange(digest[1..])
      case Forced(median, change) => Some((median, change))
      case _ => None
  }

  /** Item `i` is the first scheduled change of the digest. */
  ghost predicate FirstScheduled(digest: seq<DigestItem>, i: nat) {
    i < |digest| && digest[i].Scheduled? && forall k :: 0 <= k < i ==> !digest[k].Scheduled?
  }

  /** The first GRANDPA log of the digest is a forced change. */
  ghost predicate ForcedFirst(digest: seq<DigestItem>) {
    exists i :: 0 <= i < |digest| && digest[i].Forced? && forall k :: 0 <= k < i ==> digest[k].ForeignItem?
  }

  /** The reader finds the first scheduled change wherever it stands in the digest. */
  lemma {:induction false} ScheduledChangeSeen(digest: seq<DigestItem>, i: nat)
    requires FirstScheduled(digest, i)
    ensures FindScheduledChange(digest) == Some(digest[i].change)
  {
    if i > 0 {
      assert forall k :: 0 <= k < i - 1 ==> digest[1..][k] == digest[k + 1];
      ScheduledChangeSeen(digest[1..], i - 1);
    }
  }

  /** And it finds none exactly when there is none. */
  lemma {:induction false} NoScheduledChange(digest: seq<DigestItem>)
    ensures FindScheduledChange(digest).None? <==> forall i :: 0 <= i < |digest| ==> !digest[i].Scheduled?
    ensures FindScheduledChange(digest).Some? <==> exists i: nat :: FirstScheduled(digest, i)
  {
    if digest != [] {
      var rest := digest[1..];
      NoScheduledChange(rest);
      assert forall k :: 0 < k < |digest| ==> digest[k] == rest[k - 1];
      if digest[0].Scheduled? {
        assert FirstScheduled(digest, 0);
      } else if i: nat :| FirstScheduled(rest, i) {
        assert FirstScheduled(digest, i + 1);
      }
    }
  }

  /** The reader sees a forced change exactly when it is the first GRANDPA log of the digest. */
  lemma {:induction false} ForcedChangeSeen(digest: seq<DigestItem>)
    ensures FindForcedChange(digest).Some? <==> ForcedFirst(digest)
  {
    if digest != [] {
      var rest := digest[1..];
      ForcedChangeSeen(rest);
      if digest[0].ForeignItem? {
        if FindForcedChange(rest).Some? {
          var i :| 0 <= i < |rest| && rest[i].Forced? && forall k :: 0 <= k < i ==> rest[k].ForeignItem?;
          assert digest[i + 1].Forced?;
          assert forall k :: 0 < k < i + 1 ==> digest[k] == rest[k - 1];
        }
        if i :| 0 <= i < |digest| && digest[i].Forced? && forall k :: 0 <= k < i ==> digest[k].ForeignItem? {
          assert rest[i - 1].Forced?;
          assert forall k :: 0 <= k < i - 1 ==> rest[k] == digest[k + 1];
        }
      } else if digest[0].Forced? {
        assert digest[0].Forced?;
      }
    }
  }

  // ----- Checks -----

  function CheckObsolete(s: Storage, finalityTarget: nat, currentSetId: Option<nat>): Result<nat, Error> {
    if s.bestFinalized.None? then Err(NotInitialized)
    else if finalityTarget <= s.bestFinalized.value.number then Err(OldHeader)
    else if currentSetId.Some? && currentSetId.value != s.currentAuthoritySet.setId then Err(InvalidAuthoritySetId)
    else Ok(finalityTarget - s.bestFinalized.value.number)
  }

  /** The set id that a call names; the deprecated call names none and stands for the stored one. */
  function NamedSetId(s: Storage, setId: Option<nat>): nat {
    if setId.Some? then setId.value else s.currentAuthoritySet.setId
  }

  function VerifyJustification(cfg: Config, j: Justification, id: HeaderId, set_: AuthoritySet): Result<(), Error> {
    if !cfg.wellFormed(set_) then Err(InvalidAuthoritySet)
    else if !cfg.justifies(j, id, set_) then Err(InvalidJustification)
    else Ok(())
  }

  function TryEnactAuthorityChange(cfg: Config, header: Header, current: AuthoritySet): Result<AuthoritySet, Error> {
    if FindForcedChange(header.digest).Some? then Err(UnsupportedScheduledChange)
    else
      match FindScheduledChange(header.digest)
      case None => Ok(current)
      case Some(change) =>
        if change.delay != 0 then Err(UnsupportedScheduledChange)
        else if |change.nextAuthorities| > cfg.maxAuthorities then Err(TooManyAuthoritiesInSet)
        else Ok(AuthoritySet(change.nextAuthorities, (current.setId + 1) % U64_MODULUS))
  }

  predicate IsMandatory(header: Header) {
    FindScheduledChange(header.digest).Some?
  }

  predicate MayRefundCallFee(cfg: Config, s: Storage, header: Header, j: Justification, improvedBy: nat) {
    && s.freeHeadersRemaining.Some? && s.freeHeadersRemaining.value > 0
    && cfg.fitsLimits(header, j)
    && (IsMandatory(header) ||
        (cfg.freeHeadersInterval.Some? && improvedBy >= cfg.freeHeadersInterval.value))
  }

  // ----- Updates -----

  function OnFreeHeaderImported(s: Storage): Storage {
    match s.freeHeadersRemaining
    case None => s
    case Some(count) => s.(freeHeadersRemaining := Some(if count == 0 then 0 else count - 1))
  }

  function InsertHeader(cfg: Config, s: Storage, header: Header): Storage
    requires cfg.headersToKeep > 0
  {
    var hash := cfg.hash(header);
    s.(bestFinalized := Some(HeaderId(header.number, hash)),
       imported := Insert(cfg.headersToKeep, s.imported, hash, StoredHeader(header.number, header.stateRoot)))
  }

  /** `submit_finality_proof_ex`. */
  function Submit(cfg: Config, s: Storage, signed: bool, header: Header, j: Justification, currentSetId: nat)
    : (Storage, Result<Pays, Error>)
    requires cfg.headersToKeep > 0
  {
    if s.halted then (s, Err(Halted))
    else if !signed then (s, Err(BadOrigin))
    else
      match CheckObsolete(s, header.number, Some(currentSetId))
      case Err(e) => (s, Err(e))
      case Ok(improvedBy) =>
        match VerifyJustification(cfg, j, HeaderId(header.number, cfg.hash(header)), s.currentAuthoritySet)
        case Err(e) => (s, Err(e))
        case Ok(_) =>
          match TryEnactAuthorityChange(cfg, header, s.currentAuthoritySet)
          case Err(e) => (s, Err(e))
          case Ok(newSet) =>
            var refund := MayRefundCallFee(cfg, s, header, j, improvedBy);
            var s1 := s.(currentAuthoritySet := newSet);
            var s2 := if refund then OnFreeHeaderImported(s1) else s1;
            (InsertHeader(cfg, s2, header), Ok(if refund then PaysNo else PaysYes))
  }

  /** `initialize`. */
  function Initialize(cfg: Config, s: Storage, ownerOrRoot: bool, init: InitializationData)
    : (Storage, Result<(), Error>)
    requires cfg.headersToKeep > 0
  {
    if !ownerOrRoot then (s, Err(BadOrigin))
    else if s.bestFinalized.Some? then (s, Err(AlreadyInitialized))
    else if |init.authorityList| > cfg.maxAuthorities then (s, Err(TooManyAuthoritiesInSet))
    else
      var s1 := s.(initialHash := Some(cfg.hash(init.header)), imported := s.imported.(next := 0));
      var s2 := InsertHeader(cfg, s1, init.header);
      (s2.(currentAuthoritySet := AuthoritySet(init.authorityList, init.setId), halted := init.halted), Ok(()))
  }
}

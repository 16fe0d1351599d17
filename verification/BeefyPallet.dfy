/** The on-chain BEEFY light client: its storage and what each call does to it. */
module BeefyPallet {
  import opened Wrappers
  import opened BeefyQuorum

  datatype Config = Config(crypto: Crypto, maxRequests: nat, commitmentsToKeep: nat)

  datatype ImportedCommitment = ImportedCommitment(parentNumber: nat, parentHash: BlockHash, mmrRoot: MmrHash)

  datatype CommitmentsInfo = CommitmentsInfo(bestBlockNumber: nat, nextBlockNumberIndex: nat)

  datatype Storage = Storage(
    halted: bool,
    requestCount: nat,
    commitmentsInfo: Option<CommitmentsInfo>,
    importedBlockNumbers: map<nat, nat>,
    importedCommitments: map<nat, ImportedCommitment>,
    currentAuthoritySet: Option<AuthoritySetInfo>)

  /** Genesis without initialization data. */
  const GENESIS_STORAGE := Storage(true, 0, None, map[], map[], None)

  datatype InitializationData = InitializationData(
    halted: bool, bestBlockNumber: nat, authoritySet: AuthoritySetInfo)

  datatype Submission = Submission(
    commitment: SignedCommitment, authorities: AuthoritySet, leaf: MmrLeaf, proof: MmrProof)

  function BlockNumber(sub: Submission): nat {
    sub.commitment.commitment.blockNumber
  }

  /** What the pallet stores of an accepted submission whose commitment holds the root `mmrRoot`. */
  function Stored(sub: Submission, mmrRoot: MmrHash): ImportedCommitment {
    ImportedCommitment(sub.leaf.parentNumber, sub.leaf.parentHash, mmrRoot)
  }

  function HandOff(current: AuthoritySetInfo, leaf: MmrLeaf): AuthoritySetInfo {
    if leaf.nextAuthoritySet.id > current.id then leaf.nextAuthoritySet else current
  }

  /** The checks of `submit_commitment`; the result is the MMR root of the commitment. */
  function Check(cfg: Config, s: Storage, signed: bool, sub: Submission): Result<MmrHash, Error> {
    if s.halted then Err(Halted)
    else if !signed then Err(BadOrigin)
    else if s.requestCount >= cfg.maxRequests then Err(TooManyRequests)
    else if s.commitmentsInfo.None? || s.currentAuthoritySet.None? then Err(NotInitialized)
    else if BlockNumber(sub) <= s.commitmentsInfo.value.bestBlockNumber then Err(OldCommitment)
    else
      match VerifyCommitment(cfg.crypto, sub.commitment, s.currentAuthoritySet.value, sub.authorities)
      case Err(e) => Err(e)
      case Ok(root) =>
        if !cfg.crypto.mmrVerifies(root, sub.leaf, sub.proof) then Err(MmrProofVerificationFailed) else Ok(root)
  }

  /** What `submit_commitment` writes once its checks have passed. */
  function Import(cfg: Config, s: Storage, sub: Submission, root: MmrHash): Storage
    requires cfg.commitmentsToKeep > 0
    requires s.commitmentsInfo.Some? && s.currentAuthoritySet.Some?
  {
    var index := s.commitmentsInfo.value.nextBlockNumberIndex;
    var inserted := s.importedCommitments[BlockNumber(sub) := Stored(sub, root)];
    var prunes := index in s.importedBlockNumbers;
    s.(requestCount := s.requestCount + 1,
       currentAuthoritySet := Some(HandOff(s.currentAuthoritySet.value, sub.leaf)),
       importedCommitments := if prunes then inserted - {s.importedBlockNumbers[index]} else inserted,
       importedBlockNumbers := s.importedBlockNumbers[index := BlockNumber(sub)],
       commitmentsInfo := Some(CommitmentsInfo(BlockNumber(sub), (index + 1) % cfg.commitmentsToKeep)))
  }

  function Submit(cfg: Config, s: Storage, signed: bool, sub: Submission): (Storage, Result<(), Error>)
    requires cfg.commitmentsToKeep > 0
  {
    match Check(cfg, s, signed, sub)
    case Err(e) => (s, Err(e))
    case Ok(root) => (Import(cfg, s, sub, root), Ok(()))
  }

  function Initialize(s: Storage, ownerOrRoot: bool, init: InitializationData): (Storage, Result<(), Error>) {
    if !ownerOrRoot then (s, Err(BadOrigin))
    else if s.commitmentsInfo.Some? then (s, Err(AlreadyInitialized))
    else if init.authoritySet.len == 0 then (s, Err(InvalidInitialAuthoritySet))
    else
      (s.(currentAuthoritySet := Some(init.authoritySet),
          halted := init.halted,
          commitmentsInfo := Some(CommitmentsInfo(init.bestBlockNumber, 0))),
       Ok(()))
  }

  function BlockStarted(s: Storage): Storage {
    s.(requestCount := if s.requestCount == 0 then 0 else s.requestCount - 1)
  }
}

/** How the BEEFY light client checks a signed commitment, and why two accepted commitments share honest signers. */
module BeefyQuorum {
  import opened Wrappers
  import opened SetFacts

  type Key(==, !new, 00)
  type Signature(==, !new, 00)
  type Payload(==, !new, 00)
  type MmrHash(==, !new, 00)
  type BlockHash(==, !new, 00)
  type MmrProof(==, !new, 00)

  datatype Commitment = Commitment(payload: Payload, blockNumber: nat, validatorSetId: nat)

  datatype SignedCommitment = SignedCommitment(commitment: Commitment, signatures: seq<Option<Signature>>)

  datatype AuthoritySetInfo = AuthoritySetInfo(id: nat, len: nat, keysetCommitment: MmrHash)

  datatype AuthoritySet = AuthoritySet(id: nat, validators: seq<Key>)

  datatype MmrLeaf = MmrLeaf(parentNumber: nat, parentHash: BlockHash, nextAuthoritySet: AuthoritySetInfo)

  /** Cryptography the pallet takes from outside. */
  datatype Crypto = Crypto(
    merkleRoot: seq<Key> -> MmrHash,
    verifies: (Key, Signature, Commitment) -> bool,
    mmrRootOf: Payload -> Option<MmrHash>,
    mmrVerifies: (MmrHash, MmrLeaf, MmrProof) -> bool)

  datatype Error =
    | Halted
    | BadOrigin
    | NotInitialized
    | AlreadyInitialized
    | InvalidInitialAuthoritySet
    | TooManyRequests
    | OldCommitment
    | InvalidCommitmentValidatorSetId
    | InvalidValidatorSetId
    | InvalidCommitmentSignaturesLen
    | InvalidValidatorSetLen
    | NotEnoughCorrectSignatures
    | MmrRootMissingFromCommitment
    | MmrProofVerificationFailed
    | InvalidValidatorSetRoot

  function VerifyAuthoritySet(crypto: Crypto, info: AuthoritySetInfo, authorities: AuthoritySet): Result<(), Error> {
    if authorities.id != info.id then Err(InvalidValidatorSetId)
    else if |authorities.validators| != info.len then Err(InvalidValidatorSetLen)
    else if crypto.merkleRoot(authorities.validators) != info.keysetCommitment then Err(InvalidValidatorSetRoot)
    else Ok(())
  }

  function SignaturesRequired(validatorsLen: nat): nat {
    validatorsLen - (if validatorsLen == 0 then 0 else validatorsLen - 1) / 3
  }

  /** The position carries a correct signature of its validator. */
  predicate SignedAt(crypto: Crypto, c: SignedCommitment, validators: seq<Key>, i: nat)
    requires i < |validators| == |c.signatures|
  {
    c.signatures[i].Some? && crypto.verifies(validators[i], c.signatures[i].value, c.commitment)
  }

  /** The correctly signed positions below `n`. */
  function SignedBelow(crypto: Crypto, c: SignedCommitment, validators: seq<Key>, n: nat): set<nat>
    requires n <= |validators| == |c.signatures|
  {
    set i: nat | i < n && SignedAt(crypto, c, validators, i)
  }

  /** Enough signatures: as many positions as required carry a correct one. */
  predicate HasQuorum(crypto: Crypto, c: SignedCommitment, validators: seq<Key>)
    requires |validators| == |c.signatures|
  {
    |SignedBelow(crypto, c, validators, |validators|)| >= SignaturesRequired(|validators|)
  }

  lemma SignedBelowStep(crypto: Crypto, c: SignedCommitment, validators: seq<Key>, n: nat)
    requires n < |validators| == |c.signatures|
    ensures |SignedBelow(crypto, c, validators, n + 1)| ==
            |SignedBelow(crypto, c, validators, n)| + if SignedAt(crypto, c, validators, n) then 1 else 0
  {
    assert SignedBelow(crypto, c, validators, n + 1) ==
           SignedBelow(crypto, c, validators, n) + if SignedAt(crypto, c, validators, n) then {n} else {};
  }

  /** Count down the missing signatures and stop at zero: accepts exactly on a quorum. */
  method VerifySignatures(crypto: Crypto, c: SignedCommitment, authorities: AuthoritySet) returns (r: Result<(), Error>)
    ensures |c.signatures| != |authorities.validators| ==> r == Err(InvalidCommitmentSignaturesLen)
    ensures |c.signatures| == |authorities.validators| ==>
              r == if HasQuorum(crypto, c, authorities.validators) then Ok(()) else Err(NotEnoughCorrectSignatures)
  {
    var validators := authorities.validators;
    if |c.signatures| != |validators| {
      return Err(InvalidCommitmentSignaturesLen);
    }
    var required := SignaturesRequired(|validators|);
    var missingSignatures: nat := required;
    var idx: nat := 0;
    while idx < |validators|
      invariant idx <= |validators|
      invariant missingSignatures + |SignedBelow(crypto, c, validators, idx)| == required
    {
      var maybeSig := c.signatures[idx];
      SignedBelowStep(crypto, c, validators, idx);
      if maybeSig.Some? {
        if crypto.verifies(validators[idx], maybeSig.value, c.commitment) {
          missingSignatures := if missingSignatures == 0 then 0 else missingSignatures - 1;
          if missingSignatures == 0 {
            SubsetSize(SignedBelow(crypto, c, validators, idx + 1), SignedBelow(crypto, c, validators, |validators|));
            break;
          }
        }
      }
      idx := idx + 1;
    }
    if missingSignatures != 0 {
      return Err(NotEnoughCorrectSignatures);
    }
    r := Ok(());
  }

  /** `verify_commitment`, with the signature count in place of the loop. */
  function VerifyCommitment(crypto: Crypto, c: SignedCommitment, info: AuthoritySetInfo, authorities: AuthoritySet)
    : Result<MmrHash, Error>
  {
    if c.commitment.validatorSetId != info.id then Err(InvalidCommitmentValidatorSetId)
    else if |c.signatures| != info.len then Err(InvalidCommitmentSignaturesLen)
    else
      match VerifyAuthoritySet(crypto, info, authorities)
      case Err(e) => Err(e)
      case Ok(_) =>
        if !HasQuorum(crypto, c, authorities.validators) then Err(NotEnoughCorrectSignatures)
        else
          match crypto.mmrRootOf(c.commitment.payload)
          case None => Err(MmrRootMissingFromCommitment)
          case Some(root) => Ok(root)
  }

  // ----- Quorum intersection -----

  /** The most positions that may be faulty. */
  function Tolerated(validatorsLen: nat): nat
    requires validatorsLen >= 1
  {
    (validatorsLen - 1) / 3
  }

  /** All positions below `n`. */
  function Positions(n: nat): (r: set<nat>)
    ensures forall i: nat :: i in r <==> i < n
    ensures |r| == n
  {
    if n == 0 then {} else Positions(n - 1) + {n - 1}
  }

  /** Two sets of positions below `n` overlap by what their sizes exceed `n`. */
  lemma Overlap(n: nat, x: set<nat>, y: set<nat>)
    requires x <= Positions(n) && y <= Positions(n)
    ensures |x * y| >= |x| + |y| - n
  {
    SubsetSize(x + y, Positions(n));
    assert |x + y| == |x| + |y| - |x * y|;
  }

  /** The two validator lists do not collide in their Merkle root. */
  predicate NoRootCollision(crypto: Crypto, authorities: AuthoritySet, authorities': AuthoritySet) {
    crypto.merkleRoot(authorities.validators) == crypto.merkleRoot(authorities'.validators) ==>
      authorities.validators == authorities'.validators
  }

  /** Any two commitments accepted under the same authority-set info were checked against the same validators, and
      more positions than may be faulty signed both. */
  lemma QuorumsIntersect(crypto: Crypto, info: AuthoritySetInfo,
                         c: SignedCommitment, authorities: AuthoritySet,
                         c': SignedCommitment, authorities': AuthoritySet)
    requires info.len >= 1
    requires NoRootCollision(crypto, authorities, authorities')
    requires VerifyCommitment(crypto, c, info, authorities).Ok?
    requires VerifyCommitment(crypto, c', info, authorities').Ok?
    ensures authorities == authorities' && |c.signatures| == |c'.signatures| == |authorities.validators| == info.len
    ensures var vs := authorities.validators;
            |SignedBelow(crypto, c, vs, info.len) * SignedBelow(crypto, c', vs, info.len)| >= Tolerated(info.len) + 1
  {
    var vs := authorities.validators;
    Overlap(info.len, SignedBelow(crypto, c, vs, info.len), SignedBelow(crypto, c', vs, info.len));
  }

  /** A commitment has a quorum exactly when no more positions than tolerated miss a correct signature; so the honest
      validators alone can always finalize. */
  lemma QuorumExactly(crypto: Crypto, c: SignedCommitment, validators: seq<Key>)
    requires |validators| == |c.signatures| >= 1
    ensures var unsigned := Positions(|validators|) - SignedBelow(crypto, c, validators, |validators|);
            HasQuorum(crypto, c, validators) <==> |unsigned| <= Tolerated(|validators|)
  {
    var n := |validators|;
    var signed := SignedBelow(crypto, c, validators, n);
    assert Positions(n) == signed + (Positions(n) - signed);
  }

  /** The positions without a correct signature of their validator. */
  function MissingAt(crypto: Crypto, c: SignedCommitment, validators: seq<Key>): set<nat>
    requires |validators| == |c.signatures|
  {
    set i: nat | i < |validators|
                 && (c.signatures[i].Some? ==> !crypto.verifies(validators[i], c.signatures[i].value, c.commitment))
  }

  /** The commitment and the authorities name the set in charge, with the right lengths and keys. */
  predicate NamesSet(crypto: Crypto, c: SignedCommitment, info: AuthoritySetInfo, authorities: AuthoritySet) {
    && c.commitment.validatorSetId == info.id && authorities.id == info.id
    && |c.signatures| == info.len && |authorities.validators| == info.len
    && crypto.merkleRoot(authorities.validators) == info.keysetCommitment
  }

  /** A commitment is accepted exactly when it names the set in charge, at most floor((n - 1) / 3) of the n positions
      miss a correct signature, and it carries an MMR root, which is the result. */
  lemma CommitmentAcceptedExactly(crypto: Crypto, c: SignedCommitment, info: AuthoritySetInfo,
                                  authorities: AuthoritySet, root: MmrHash)
    requires info.len >= 1
    ensures VerifyCommitment(crypto, c, info, authorities) == Ok(root) <==>
              && NamesSet(crypto, c, info, authorities)
              && |MissingAt(crypto, c, authorities.validators)| <= (info.len - 1) / 3
              && crypto.mmrRootOf(c.commitment.payload) == Some(root)
  {
    if NamesSet(crypto, c, info, authorities) {
      var n := info.len;
      QuorumExactly(crypto, c, authorities.validators);
      assert MissingAt(crypto, c, authorities.validators)
             == Positions(n) - SignedBelow(crypto, c, authorities.validators, n);
    }
  }

  /** Which error a rejected commitment fails with. */
  lemma CommitmentErrors(crypto: Crypto, c: SignedCommitment, info: AuthoritySetInfo, authorities: AuthoritySet)
    requires info.len >= 1
    ensures var r := VerifyCommitment(crypto, c, info, authorities);
            var idOk, lenOk := c.commitment.validatorSetId == info.id, |c.signatures| == info.len;
            && (r == Err(InvalidCommitmentValidatorSetId) <==> !idOk)
            && (r == Err(InvalidCommitmentSignaturesLen) <==> idOk && !lenOk)
            && (r == Err(InvalidValidatorSetId) <==> idOk && lenOk && authorities.id != info.id)
            && (r == Err(InvalidValidatorSetLen) <==>
                  idOk && lenOk && authorities.id == info.id && |authorities.validators| != info.len)
            && (r == Err(InvalidValidatorSetRoot) <==>
                  && idOk && lenOk && authorities.id == info.id && |authorities.validators| == info.len
                  && crypto.merkleRoot(authorities.validators) != info.keysetCommitment)
            && (r == Err(NotEnoughCorrectSignatures) <==>
                  && NamesSet(crypto, c, info, authorities)
                  && |MissingAt(crypto, c, authorities.validators)| > (info.len - 1) / 3)
            && (r == Err(MmrRootMissingFromCommitment) <==>
                  && NamesSet(crypto, c, info, authorities)
                  && |MissingAt(crypto, c, authorities.validators)| <= (info.len - 1) / 3
                  && crypto.mmrRootOf(c.commitment.payload) == None)
  {
    if NamesSet(crypto, c, info, authorities) {
      QuorumExactly(crypto, c, authorities.validators);
      assert MissingAt(crypto, c, authorities.validators)
             == Positions(info.len) - SignedBelow(crypto, c, authorities.validators, info.len);
    }
  }

  /** What the validators have signed, by their own account. */
  type Issued = (Key, Commitment) -> bool

  /** The validator signs at most one commitment to a block. */
  ghost predicate FollowsProtocol(issued: Issued, validator: Key) {
    forall c, c' :: issued(validator, c) && issued(validator, c') && c.blockNumber == c'.blockNumber ==> c == c'
  }

  /** Position `i` is honest in this commitment: its validator follows the protocol, and a correct signature at this
      position is one that the validator has issued. */
  ghost predicate HonestAt(crypto: Crypto, issued: Issued, c: SignedCommitment, validators: seq<Key>, i: nat)
    requires i < |validators| == |c.signatures|
  {
    && FollowsProtocol(issued, validators[i])
    && (SignedAt(crypto, c, validators, i) ==> issued(validators[i], c.commitment))
  }

  ghost predicate HonestBut(crypto: Crypto, issued: Issued, c: SignedCommitment, validators: seq<Key>,
                            faulty: set<nat>)
  {
    |validators| == |c.signatures| ==>
      forall i: nat :: i < |validators| && i !in faulty ==> HonestAt(crypto, issued, c, validators, i)
  }

  /** Agreement: while at most the tolerated number of positions are faulty, all commitments that any light client
      accepts for a block under the same authority-set info are the same commitment. */
  lemma NoConflictingCommitments(crypto: Crypto, info: AuthoritySetInfo, issued: Issued, faulty: set<nat>,
                                 c: SignedCommitment, authorities: AuthoritySet,
                                 c': SignedCommitment, authorities': AuthoritySet)
    requires info.len >= 1
    requires NoRootCollision(crypto, authorities, authorities')
    requires VerifyCommitment(crypto, c, info, authorities).Ok?
    requires VerifyCommitment(crypto, c', info, authorities').Ok?
    requires c.commitment.blockNumber == c'.commitment.blockNumber
    requires |faulty| <= Tolerated(info.len)
    requires HonestBut(crypto, issued, c, authorities.validators, faulty)
    requires HonestBut(crypto, issued, c', authorities'.validators, faulty)
    ensures c.commitment == c'.commitment
  {
    QuorumsIntersect(crypto, info, c, authorities, c', authorities');
    var vs := authorities.validators;
    var both := SignedBelow(crypto, c, vs, info.len) * SignedBelow(crypto, c', vs, info.len);
    if both <= faulty {
      SubsetSize(both, faulty);
    } else {
      var i: nat :| i in both && i !in faulty;
      assert HonestAt(crypto, issued, c, vs, i) && HonestAt(crypto, issued, c', vs, i);
    }
  }
}

/** The candidate-backing statement table: its data model, and the value-level meaning of importing one statement. */
module StatementTable {
  import opened Wrappers

  // The types and functions a `Context` supplies. A table is used with one fixed context.
  type AuthorityId(==, !new, 00)
  type Digest(==, !new, 00)
  type GroupId(==, !new, 00)
  type Signature(==, !new, 00)
  type Candidate(==, !new, 00)

  datatype Context = Context(
    candidateDigest: Candidate -> Digest,
    isMemberOf: (AuthorityId, GroupId) -> bool,
    groupSize: GroupId -> Option<nat>)

  datatype Config = Config(allowMultipleSeconded: bool)

  datatype Statement = Seconded(candidate: Candidate) | Valid(digest: Digest)

  datatype SignedStatement = SignedStatement(statement: Statement, signature: Signature, sender: AuthorityId)

  datatype Misbehavior =
    | IssuedAndValidity(issued: (Candidate, Signature), validity: (Digest, Signature))
    | MultipleCandidates(first: (Candidate, Signature), second: (Candidate, Signature))
    | UnauthorizedStatement(unauthorized: SignedStatement)
    | DoubleSignSeconded(candidate: Candidate, a: Signature, b: Signature)
    | DoubleSignValidity(digest: Digest, a: Signature, b: Signature)

  datatype ValidityVote = Issued(signature: Signature) | Explicit(signature: Signature)

  datatype Summary = Summary(candidate: Digest, groupId: GroupId, validityVotes: nat)

  datatype CandidateData = CandidateData(
    groupId: GroupId,
    candidate: Candidate,
    validityVotes: map<AuthorityId, ValidityVote>)

  type Proposals = seq<(Digest, Signature)>
  type AuthorityTable = map<AuthorityId, Proposals>
  type CandidateTable = map<Digest, CandidateData>
  type MisbehaviorTable = map<AuthorityId, seq<Misbehavior>>

  /** The three maps of a table. */
  datatype Tables = Tables(
    authorityData: AuthorityTable,
    detectedMisbehavior: MisbehaviorTable,
    candidateVotes: CandidateTable)

  const EMPTY_TABLES := Tables(map[], map[], map[])

  /** What an import does: it reports a summary (or nothing), blames the sender, or panics. */
  datatype ImportResult =
    | Accepted(summary: Option<Summary>)
    | Blamed(misbehavior: Misbehavior)
    | Panicked

  /** The digest a statement is about. */
  function About(ctx: Context, s: Statement): Digest {
    match s
    case Seconded(c) => ctx.candidateDigest(c)
    case Valid(d) => d
  }

  /** The vote a signed statement casts on the candidate it is about. */
  function VoteOf(s: SignedStatement): ValidityVote {
    if s.statement.Seconded? then Issued(s.signature) else Explicit(s.signature)
  }

  /** The misbehavior shown by two different votes of one authority on one candidate. */
  function DoubleVote(candidate: Candidate, digest: Digest, stored: ValidityVote, vote: ValidityVote): Misbehavior {
    match (stored, vote)
    case (Issued(iss), Explicit(good)) => IssuedAndValidity((candidate, iss), (digest, good))
    case (Explicit(good), Issued(iss)) => IssuedAndValidity((candidate, iss), (digest, good))
    case (Issued(a), Issued(b)) => DoubleSignSeconded(candidate, a, b)
    case (Explicit(a), Explicit(b)) => DoubleSignValidity(digest, a, b)
  }

  function SummaryOf(data: CandidateData, digest: Digest): Summary {
    Summary(digest, data.groupId, |data.validityVotes|)
  }

  /** Cast one vote on the candidate with the given digest. */
  function CastVote(ctx: Context, cv: CandidateTable, from: AuthorityId, digest: Digest, vote: ValidityVote)
    : (CandidateTable, ImportResult)
  {
    if digest !in cv then
      (cv, Accepted(None))
    else
      var data := cv[digest];
      if !ctx.isMemberOf(from, data.groupId) then
        (cv, if vote.Issued? then Panicked
             else Blamed(UnauthorizedStatement(SignedStatement(Valid(digest), vote.signature, from))))
      else if from in data.validityVotes then
        (cv, if data.validityVotes[from] == vote then Accepted(None)
             else Blamed(DoubleVote(data.candidate, digest, data.validityVotes[from], vote)))
      else
        var data' := data.(validityVotes := data.validityVotes[from := vote]);
        (cv[digest := data'], Accepted(Some(SummaryOf(data', digest))))
  }

  /** Whether the authority may not propose `digest` because it already proposed another candidate. */
  predicate ProposedAnother(cfg: Config, ad: AuthorityTable, authority: AuthorityId, digest: Digest) {
    && !cfg.allowMultipleSeconded
    && authority in ad
    && |ad[authority]| == 1
    && ad[authority][0].0 != digest
  }

  /** Whether the authority's proposal of `digest` is one the table has not noted yet. */
  predicate IsNewProposal(cfg: Config, ad: AuthorityTable, authority: AuthorityId, digest: Digest) {
    authority in ad ==>
      if cfg.allowMultipleSeconded then forall p <- ad[authority] :: p.0 != digest
      else |ad[authority]| != 1
  }

  function WithProposal(ad: AuthorityTable, authority: AuthorityId, digest: Digest, signature: Signature)
    : AuthorityTable
  {
    ad[authority := (if authority in ad then ad[authority] else []) + [(digest, signature)]]
  }

  function WithCandidate(cv: CandidateTable, digest: Digest, group: GroupId, candidate: Candidate): CandidateTable {
    if digest in cv then cv else cv[digest := CandidateData(group, candidate, map[])]
  }

  /** Import a `Seconded` statement. */
  function SecondCandidate(ctx: Context, cfg: Config, t: Tables, authority: AuthorityId, candidate: Candidate,
                           signature: Signature, group: GroupId): (Tables, ImportResult)
  {
    var digest := ctx.candidateDigest(candidate);
    if !ctx.isMemberOf(authority, group) then
      (t, Blamed(UnauthorizedStatement(SignedStatement(Seconded(candidate), signature, authority))))
    else if ProposedAnother(cfg, t.authorityData, authority, digest) then
      var (oldDigest, oldSignature) := t.authorityData[authority][0];
      if oldDigest !in t.candidateVotes then
        (t, Panicked)
      else
        (t, Blamed(MultipleCandidates((t.candidateVotes[oldDigest].candidate, oldSignature), (candidate, signature))))
    else
      var isNew := IsNewProposal(cfg, t.authorityData, authority, digest);
      var ad := if isNew then WithProposal(t.authorityData, authority, digest, signature) else t.authorityData;
      var cv := if isNew then WithCandidate(t.candidateVotes, digest, group, candidate) else t.candidateVotes;
      var (cv', r) := CastVote(ctx, cv, authority, digest, Issued(signature));
      (t.(authorityData := ad, candidateVotes := cv'), r)
  }

  function WithMisbehavior(dm: MisbehaviorTable, authority: AuthorityId, m: Misbehavior): MisbehaviorTable {
    dm[authority := (if authority in dm then dm[authority] else []) + [m]]
  }

  /** Import one signed statement; a blamed statement is also noted against its sender. */
  function Import(ctx: Context, cfg: Config, t: Tables, group: GroupId, s: SignedStatement): (Tables, ImportResult) {
    var (t', r) :=
      match s.statement
      case Seconded(c) => SecondCandidate(ctx, cfg, t, s.sender, c, s.signature, group)
      case Valid(d) =>
        var (cv, r) := CastVote(ctx, t.candidateVotes, s.sender, d, Explicit(s.signature));
        (t.(candidateVotes := cv), r);
    if r.Blamed? then
      (t'.(detectedMisbehavior := WithMisbehavior(t'.detectedMisbehavior, s.sender, r.misbehavior)), r)
    else
      (t', r)
  }
}

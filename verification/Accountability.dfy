/** Accountability: misbehavior is recorded against an authority exactly when it broke a rule, and each record is
    made of statements the authority really signed.
  */
module Accountability {
  import opened Wrappers
  import opened StatementTable
  import opened TableRuns

  /** Event `i` of the run records `m` against the sender of its statement. */
  ghost predicate Records(env: Env, events: seq<Event>, i: nat, m: Misbehavior) {
    && i < |events|
    && Run(env, events[..i]).Alive?
    && events[i].ImportStatement?
    && Step(env, Run(env, events[..i]).tables, events[i]).1 == Blamed(m)
  }

  ghost predicate RecordsAgainst(env: Env, events: seq<Event>, i: nat, m: Misbehavior, a: AuthorityId) {
    Records(env, events, i, m) && events[i].signed.sender == a
  }

  ghost predicate Accused(env: Env, events: seq<Event>, a: AuthorityId) {
    exists i: nat, m :: RecordsAgainst(env, events, i, m, a)
  }

  // ----- The rules, stated on the imported statements alone -----

  /** Statement `i` of `a` falls outside the group it is checked against: the group passed with a `Seconded`,
      the group of the first proposal for a `Valid`. */
  ghost predicate OutsideGroup(env: Env, events: seq<Event>, i: nat, a: AuthorityId) {
    && i < |events|
    && events[i].ImportStatement?
    && events[i].signed.sender == a
    && match events[i].signed.statement
       case Seconded(_) => !env.ctx.isMemberOf(a, events[i].group)
       case Valid(d) => exists k: nat :: k < i && FirstOpens(env, events, k, d)
                                         && !env.ctx.isMemberOf(a, events[k].group)
  }

  /** Statements `i` and `j` of `a` propose different candidates although only one is allowed. */
  ghost predicate TwoCandidates(env: Env, events: seq<Event>, i: nat, j: nat, a: AuthorityId) {
    && !env.cfg.allowMultipleSeconded
    && i < j
    && exists d, d' :: d != d' && SecondsInGroup(env, events, i, a, d) && SecondsInGroup(env, events, j, a, d')
  }

  /** Statements `i` and `j` of `a` cast different votes, or the same vote with different signatures, on a candidate
      known at both times. */
  ghost predicate TwoVotes(env: Env, events: seq<Event>, i: nat, j: nat, a: AuthorityId) {
    && i < j
    && exists d, v, v' :: v != v' && Casts(env, events, i, a, d, v) && Casts(env, events, j, a, d, v')
  }

  ghost predicate Offends(env: Env, events: seq<Event>, a: AuthorityId) {
    || (exists i: nat :: OutsideGroup(env, events, i, a))
    || (exists i: nat, j: nat :: TwoCandidates(env, events, i, j, a))
    || (exists i: nat, j: nat :: TwoVotes(env, events, i, j, a))
  }

  // ----- Soundness -----

  /** Among the imported candidates, equal digests mean equal candidates. */
  ghost predicate CollisionFree(env: Env, events: seq<Event>) {
    forall i, j :: 0 <= i < |events| && 0 <= j < |events|
                   && events[i].ImportStatement? && events[j].ImportStatement?
                   && events[i].signed.statement.Seconded? && events[j].signed.statement.Seconded?
                   && About(env.ctx, events[i].signed.statement) == About(env.ctx, events[j].signed.statement) ==>
      events[i].signed.statement == events[j].signed.statement
  }

  /** The signed statement is among the first `n` events. */
  ghost predicate Signed(events: seq<Event>, n: nat, s: SignedStatement) {
    exists k: nat :: k < n && k < |events| && events[k].ImportStatement? && events[k].signed == s
  }

  /** `m`, recorded by event `i`, is made of statements `a` really signed, and they break a rule. */
  ghost predicate Proves(env: Env, events: seq<Event>, i: nat, m: Misbehavior, a: AuthorityId)
    requires i < |events| && events[i].ImportStatement?
  {
    match m
    case IssuedAndValidity((c, s), (d, s')) =>
      && env.ctx.candidateDigest(c) == d
      && Signed(events, i + 1, SignedStatement(Seconded(c), s, a))
      && Signed(events, i + 1, SignedStatement(Valid(d), s', a))
    case MultipleCandidates((c, s), (c', s')) =>
      && !env.cfg.allowMultipleSeconded
      && env.ctx.candidateDigest(c) != env.ctx.candidateDigest(c')
      && Signed(events, i, SignedStatement(Seconded(c), s, a))
      && events[i].signed == SignedStatement(Seconded(c'), s', a)
    case DoubleSignSeconded(c, s, s') =>
      && s != s'
      && Signed(events, i, SignedStatement(Seconded(c), s, a))
      && events[i].signed == SignedStatement(Seconded(c), s', a)
    case DoubleSignValidity(d, s, s') =>
      && s != s'
      && Signed(events, i, SignedStatement(Valid(d), s, a))
      && events[i].signed == SignedStatement(Valid(d), s', a)
    case UnauthorizedStatement(u) =>
      && u == events[i].signed
      && OutsideGroup(env, events, i, a)
  }

  /** The stored candidate was imported. */
  lemma CandidateOrigin(env: Env, events: seq<Event>, p: seq<Event>, cv: CandidateTable, d: Digest) returns (j: nat)
    requires p <= events
    requires CandidatesSeen(env, p, cv) && d in cv
    ensures j < |p| && FirstOpens(env, p, j, d)
    ensures events[j].group == cv[d].groupId && events[j].signed.statement == Seconded(cv[d].candidate)
  {
    assert CandidateSeen(env, p, d, cv[d].groupId, cv[d].candidate);
    j :| FirstOpens(env, p, j, d) && p[j].group == cv[d].groupId && p[j].signed.statement == Seconded(cv[d].candidate);
  }

  /** A vote in the table is a statement the voter signed earlier. */
  lemma VoteWasSigned(env: Env, events: seq<Event>, p: seq<Event>, cv: CandidateTable, d: Digest, a: AuthorityId)
    requires p <= events
    requires CandidatesSeen(env, p, cv) && VotesSeen(env, p, cv) && HasVote(cv, d, a)
    requires CollisionFree(env, events)
    ensures env.ctx.candidateDigest(cv[d].candidate) == d
    ensures var v := cv[d].validityVotes[a];
            var statement := if v.Issued? then Seconded(cv[d].candidate) else Valid(d);
            Signed(events, |p|, SignedStatement(statement, v.signature, a))
  {
    var v := cv[d].validityVotes[a];
    var j := CandidateOrigin(env, events, p, cv, d);
    assert VoteSeen(env, p, a, d, v);
    var k: nat :| Casts(env, p, k, a, d, v);
    assert events[k] == p[k] && events[j] == p[j];
  }

  /** A recorded proposal is a statement the proposer signed earlier. */
  lemma ProposalWasSigned(env: Env, events: seq<Event>, p: seq<Event>, ad: AuthorityTable, cv: CandidateTable,
                          a: AuthorityId)
    requires p <= events
    requires Linked(env, p, ad, cv) && a in ad
    requires CollisionFree(env, events)
    ensures var (d, s) := ad[a][0];
            && d in cv
            && env.ctx.candidateDigest(cv[d].candidate) == d
            && Signed(events, |p|, SignedStatement(Seconded(cv[d].candidate), s, a))
  {
    var (d, s) := ad[a][0];
    assert HasVote(cv, d, a);
    var j := CandidateOrigin(env, events, p, cv, d);
    assert ProposalSeen(env, p, a, ad[a][0]);
    var k: nat :| Opens(env, p, k, d) && p[k].signed.sender == a && p[k].signed.signature == s;
    assert events[k] == p[k] && events[j] == p[j];
  }

  /** The group a `Valid` is checked against is that of the first proposal. */
  lemma UnauthorizedVote(env: Env, events: seq<Event>, p: seq<Event>, cv: CandidateTable, d: Digest)
    requires p <= events
    requires CandidatesSeen(env, p, cv) && d in cv
    ensures exists k: nat :: k < |p| && FirstOpens(env, events, k, d) && events[k].group == cv[d].groupId
  {
    Extend(env, p, events);
    var k := CandidateOrigin(env, events, p, cv, d);
    assert FirstOpens(env, events, k, d);
  }

  /** The four reasons for which an import blames the sender, with what it records for each. */
  ghost predicate BlameReason(env: Env, t: Tables, g: GroupId, s: SignedStatement, m: Misbehavior) {
    var a, d := s.sender, About(env.ctx, s.statement);
    var ad, cv := t.authorityData, t.candidateVotes;
    || (s.statement.Seconded? && !env.ctx.isMemberOf(a, g) && m == UnauthorizedStatement(s))
    || (s.statement.Valid? && d in cv && !env.ctx.isMemberOf(a, cv[d].groupId) && m == UnauthorizedStatement(s))
    || (s.statement.Seconded? && env.ctx.isMemberOf(a, g) && ProposedAnother(env.cfg, ad, a, d)
        && ad[a][0].0 in cv
        && m == MultipleCandidates((cv[ad[a][0].0].candidate, ad[a][0].1), (s.statement.candidate, s.signature)))
    || (HasVote(cv, d, a) && cv[d].validityVotes[a] != VoteOf(s)
        && m == DoubleVote(cv[d].candidate, d, cv[d].validityVotes[a], VoteOf(s)))
  }

  lemma BlameHasReason(env: Env, t: Tables, g: GroupId, s: SignedStatement)
    ensures var r := Import(env.ctx, env.cfg, t, g, s).1;
            r.Blamed? ==> BlameReason(env, t, g, s, r.misbehavior)
  {
  }

  /** A recorded double vote proves itself. */
  lemma DoubleVoteProves(env: Env, events: seq<Event>, i: nat, cv: CandidateTable, a: AuthorityId)
    requires CollisionFree(env, events)
    requires i < |events| && events[i].ImportStatement? && events[i].signed.sender == a
    requires CandidatesSeen(env, events[..i], cv) && VotesSeen(env, events[..i], cv)
    requires var d := About(env.ctx, events[i].signed.statement);
             HasVote(cv, d, a) && cv[d].validityVotes[a] != VoteOf(events[i].signed)
    ensures var d := About(env.ctx, events[i].signed.statement);
            Proves(env, events, i, DoubleVote(cv[d].candidate, d, cv[d].validityVotes[a], VoteOf(events[i].signed)), a)
  {
    VoteWasSigned(env, events, events[..i], cv, About(env.ctx, events[i].signed.statement), a);
    assert Signed(events, i + 1, events[i].signed);
    assert forall s' :: Signed(events, i, s') ==> Signed(events, i + 1, s');
  }

  /** Accountability is sound: every recorded misbehavior proves itself. */
  lemma RecordsProve(env: Env, events: seq<Event>, i: nat, m: Misbehavior, a: AuthorityId)
    requires CollisionFree(env, events)
    requires RecordsAgainst(env, events, i, m, a)
    ensures Proves(env, events, i, m, a)
  {
    var p, s := events[..i], events[i].signed;
    var d := About(env.ctx, s.statement);
    var t := Run(env, p).tables;
    var cv := t.candidateVotes;
    ReachableLinked(env, p);
    BlameHasReason(env, t, events[i].group, s);
    if m.MultipleCandidates? {
      ProposalWasSigned(env, events, p, t.authorityData, cv, a);
    } else if m.UnauthorizedStatement? {
      if s.statement.Valid? { UnauthorizedVote(env, events, p, cv, d); }
    } else {
      DoubleVoteProves(env, events, i, cv, a);
    }
  }

  /** A recorded misbehavior comes from a broken rule, collisions or not. */
  lemma RecordsOffend(env: Env, events: seq<Event>, i: nat, m: Misbehavior, a: AuthorityId)
    requires RecordsAgainst(env, events, i, m, a)
    ensures Offends(env, events, a)
  {
    var p, s := events[..i], events[i].signed;
    var d := About(env.ctx, s.statement);
    var t := Run(env, p).tables;
    var ad, cv := t.authorityData, t.candidateVotes;
    ReachableLinked(env, p);
    Extend(env, p, events);
    BlameHasReason(env, t, events[i].group, s);
    if HasVote(cv, d, a) && cv[d].validityVotes[a] != VoteOf(s) {
      assert VoteSeen(env, p, a, d, cv[d].validityVotes[a]);
      var k: nat :| Casts(env, p, k, a, d, cv[d].validityVotes[a]);
      assert CandidateSeen(env, p, d, cv[d].groupId, cv[d].candidate);
      assert Known(env, p, d);
      assert Casts(env, events, i, a, d, VoteOf(s));
      assert TwoVotes(env, events, k, i, a);
    } else if m.MultipleCandidates? {
      assert ProposalSeen(env, p, a, ad[a][0]);
      var k: nat :| Opens(env, p, k, ad[a][0].0) && p[k].signed.sender == a;
      assert SecondsInGroup(env, events, k, a, ad[a][0].0);
      assert SecondsInGroup(env, events, i, a, d);
      assert TwoCandidates(env, events, k, i, a);
    } else {
      if s.statement.Valid? { UnauthorizedVote(env, events, p, cv, d); }
      assert OutsideGroup(env, events, i, a);
    }
  }

  // ----- Completeness -----

  /** A run is alive at all of its prefixes. */
  lemma {:induction false} AliveBefore(env: Env, events: seq<Event>, i: nat)
    requires i <= |events|
    requires Run(env, events).Alive?
    ensures Run(env, events[..i]).Alive?
    decreases |events| - i
  {
    if i < |events| {
      AliveBefore(env, events, i + 1);
      RunPrefix(env, events, i);
    } else {
      assert events[..i] == events;
    }
  }

  /** The run, one event further. */
  lemma NextState(env: Env, events: seq<Event>, i: nat)
    requires i < |events|
    requires Run(env, events).Alive?
    ensures Run(env, events[..i]).Alive? && Run(env, events[..i + 1]).Alive?
    ensures Step(env, Run(env, events[..i]).tables, events[i]).0 == Run(env, events[..i + 1]).tables
    ensures !Step(env, Run(env, events[..i]).tables, events[i]).1.Panicked?
  {
    AliveBefore(env, events, i);
    AliveBefore(env, events, i + 1);
    RunPrefix(env, events, i);
  }

  /** Proposals only grow at the end. */
  ghost predicate KeepsProposals(ad: AuthorityTable, ad': AuthorityTable) {
    forall a <- ad :: a in ad' && ad[a] <= ad'[a]
  }

  /** Candidates and votes are write-once. */
  ghost predicate KeepsVotes(cv: CandidateTable, cv': CandidateTable) {
    && (forall d <- cv :: d in cv' && cv'[d].groupId == cv[d].groupId && cv'[d].candidate == cv[d].candidate)
    && (forall d, a :: HasVote(cv, d, a) ==> HasVote(cv', d, a) && cv'[d].validityVotes[a] == cv[d].validityVotes[a])
  }

  lemma KeepsVotesTransitive(x: CandidateTable, y: CandidateTable, z: CandidateTable)
    requires KeepsVotes(x, y) && KeepsVotes(y, z)
    ensures KeepsVotes(x, z)
  {
  }

  lemma CastKeepsVotes(ctx: Context, cv: CandidateTable, from: AuthorityId, d: Digest, vote: ValidityVote)
    ensures KeepsVotes(cv, CastVote(ctx, cv, from, d, vote).0)
  {
    CastVoteShape(ctx, cv, from, d, vote);
  }

  lemma OpenAndCastKeepsVotes(ctx: Context, cv: CandidateTable, g: GroupId, c: Candidate, from: AuthorityId, d: Digest,
                              vote: ValidityVote)
    ensures KeepsVotes(cv, CastVote(ctx, WithCandidate(cv, d, g, c), from, d, vote).0)
  {
    var cv' := WithCandidate(cv, d, g, c);
    CastKeepsVotes(ctx, cv', from, d, vote);
    KeepsVotesTransitive(cv, cv', CastVote(ctx, cv', from, d, vote).0);
  }

  /** The only ways a step changes candidates and proposals, and what it then returns. */
  lemma StepShape(env: Env, t: Tables, e: Event)
    ensures var (t', r) := Step(env, t, e);
            || (&& t'.authorityData == t.authorityData && t'.candidateVotes == t.candidateVotes
                && (r.Accepted? ==> r.summary.None?))
            || (e.ImportStatement? &&
                var s := e.signed;
                var d := About(env.ctx, s.statement);
                || (&& t'.authorityData == t.authorityData
                    && (t'.candidateVotes, r) == CastVote(env.ctx, t.candidateVotes, s.sender, d, VoteOf(s)))
                || (&& s.statement.Seconded?
                    && t'.authorityData == WithProposal(t.authorityData, s.sender, d, s.signature)
                    && var cv := WithCandidate(t.candidateVotes, d, e.group, s.statement.candidate);
                       (t'.candidateVotes, r) == CastVote(env.ctx, cv, s.sender, d, VoteOf(s))))
  {
  }

  lemma StepKeepsEntries(env: Env, t: Tables, e: Event)
    ensures KeepsProposals(t.authorityData, Step(env, t, e).0.authorityData)
    ensures KeepsVotes(t.candidateVotes, Step(env, t, e).0.candidateVotes)
  {
    StepShape(env, t, e);
    if e.ImportStatement? {
      var a, d, v := e.signed.sender, About(env.ctx, e.signed.statement), VoteOf(e.signed);
      CastKeepsVotes(env.ctx, t.candidateVotes, a, d, v);
      if e.signed.statement.Seconded? {
        OpenAndCastKeepsVotes(env.ctx, t.candidateVotes, e.group, e.signed.statement.candidate, a, d, v);
      }
    }
  }

  lemma KeepsProposalsTransitive(x: AuthorityTable, y: AuthorityTable, z: AuthorityTable)
    requires KeepsProposals(x, y) && KeepsProposals(y, z)
    ensures KeepsProposals(x, z)
  {
  }

  /** One state of a run keeps the entries of another. */
  ghost predicate KeepsEntries(s: RunState, s': RunState) {
    && s.Alive? && s'.Alive?
    && KeepsProposals(s.tables.authorityData, s'.tables.authorityData)
    && KeepsVotes(s.tables.candidateVotes, s'.tables.candidateVotes)
  }

  lemma KeepsEntriesTransitive(x: RunState, y: RunState, z: RunState)
    requires KeepsEntries(x, y) && KeepsEntries(y, z)
    ensures KeepsEntries(x, z)
  {
    KeepsProposalsTransitive(x.tables.authorityData, y.tables.authorityData, z.tables.authorityData);
    KeepsVotesTransitive(x.tables.candidateVotes, y.tables.candidateVotes, z.tables.candidateVotes);
  }

  lemma NextKeepsEntries(env: Env, events: seq<Event>, i: nat)
    requires i < |events|
    requires Run(env, events).Alive?
    ensures KeepsEntries(Run(env, events[..i]), Run(env, events[..i + 1]))
  {
    NextState(env, events, i);
    StepKeepsEntries(env, Run(env, events[..i]).tables, events[i]);
  }

  /** Over any stretch of a run, proposals only grow and candidates and votes stay. */
  lemma {:induction false} EntriesStay(env: Env, events: seq<Event>, i: nat, j: nat)
    requires i <= j <= |events|
    requires Run(env, events).Alive?
    ensures KeepsEntries(Run(env, events[..i]), Run(env, events[..j]))
    decreases j - i
  {
    if i == j {
      AliveBefore(env, events, i);
    } else {
      EntriesStay(env, events, i, j - 1);
      NextKeepsEntries(env, events, j - 1);
      KeepsEntriesTransitive(Run(env, events[..i]), Run(env, events[..j - 1]), Run(env, events[..j]));
    }
  }

  /** After `n` events the table holds the vote `v` of `a` on `d`. */
  ghost predicate VoteAfter(env: Env, events: seq<Event>, n: nat, a: AuthorityId, d: Digest, v: ValidityVote)
    requires n <= |events|
  {
    var s := Run(env, events[..n]);
    s.Alive? && HasVote(s.tables.candidateVotes, d, a) && s.tables.candidateVotes[d].validityVotes[a] == v
  }

  /** On one table: a vote that is taken up and blames nobody is the stored one afterwards. */
  lemma UnblamedVoteStored(env: Env, t: Tables, g: GroupId, s: SignedStatement)
    requires ProposalsVoted(t.authorityData, t.candidateVotes) && ProposalsDistinct(env, t.authorityData)
    requires s.statement.Seconded? || About(env.ctx, s.statement) in t.candidateVotes
    requires Import(env.ctx, env.cfg, t, g, s).1.Accepted?
    ensures var cv, d := Import(env.ctx, env.cfg, t, g, s).0.candidateVotes, About(env.ctx, s.statement);
            HasVote(cv, d, s.sender) && cv[d].validityVotes[s.sender] == VoteOf(s)
  {
    var d := About(env.ctx, s.statement);
    if s.statement.Seconded? && !IsNewProposal(env.cfg, t.authorityData, s.sender, d) {
      assert HasVote(t.candidateVotes, d, s.sender);
    }
  }

  /** Casting a vote either blames the voter or leaves exactly that vote in the table. */
  lemma CastLeavesVote(env: Env, events: seq<Event>, i: nat, a: AuthorityId, d: Digest, v: ValidityVote)
    requires Run(env, events).Alive?
    requires Casts(env, events, i, a, d, v)
    ensures Accused(env, events, a) || VoteAfter(env, events, i + 1, a, d, v)
  {
    NextState(env, events, i);
    ReachableLinked(env, events[..i]);
    var t := Run(env, events[..i]).tables;
    var r := Step(env, t, events[i]).1;
    if r.Blamed? {
      assert RecordsAgainst(env, events, i, r.misbehavior, a);
    } else {
      UnblamedVoteStored(env, t, events[i].group, events[i].signed);
    }
  }

  /** A vote in an earlier state is still there in a later one. */
  lemma VoteStays(env: Env, events: seq<Event>, i: nat, j: nat, a: AuthorityId, d: Digest, v: ValidityVote)
    requires i <= j <= |events|
    requires Run(env, events).Alive?
    requires VoteAfter(env, events, i, a, d, v)
    ensures VoteAfter(env, events, j, a, d, v)
  {
    EntriesStay(env, events, i, j);
  }

  lemma HasVoteStays(env: Env, events: seq<Event>, i: nat, a: AuthorityId, d: Digest)
    requires i <= |events|
    requires Run(env, events).Alive?
    requires Run(env, events[..i]).Alive? && HasVote(Run(env, events[..i]).tables.candidateVotes, d, a)
    ensures HasVote(Run(env, events).tables.candidateVotes, d, a)
  {
    VoteStays(env, events, i, |events|, a, d, Run(env, events[..i]).tables.candidateVotes[d].validityVotes[a]);
    assert events[..|events|] == events;
  }

  /** The stored vote of `a` on `d`. */
  function StoredVote(cv: CandidateTable, a: AuthorityId, d: Digest): Option<ValidityVote> {
    if HasVote(cv, d, a) then Some(cv[d].validityVotes[a]) else None
  }

  /** Casting a vote either blames the voter or leaves exactly that vote at the end of the run. */
  lemma VoteRemembered(env: Env, events: seq<Event>, i: nat, a: AuthorityId, d: Digest, v: ValidityVote)
    requires Run(env, events).Alive?
    requires Casts(env, events, i, a, d, v)
    ensures Accused(env, events, a) || StoredVote(Run(env, events).tables.candidateVotes, a, d) == Some(v)
  {
    CastLeavesVote(env, events, i, a, d, v);
    if VoteAfter(env, events, i + 1, a, d, v) {
      VoteStays(env, events, i + 1, |events|, a, d, v);
      assert events[..|events|] == events;
    }
  }

  lemma TwoVotesAccused(env: Env, events: seq<Event>, i: nat, j: nat, a: AuthorityId)
    requires Run(env, events).Alive?
    requires TwoVotes(env, events, i, j, a)
    ensures Accused(env, events, a)
  {
    var d, v, v' :| v != v' && Casts(env, events, i, a, d, v) && Casts(env, events, j, a, d, v');
    VoteRemembered(env, events, i, a, d, v);
    VoteRemembered(env, events, j, a, d, v');
  }

  /** The first noted proposal of `a`. */
  function FirstProposal(ad: AuthorityTable, a: AuthorityId): Option<Digest> {
    if a in ad && ad[a] != [] then Some(ad[a][0].0) else None
  }

  /** After `n` events the first noted proposal of `a` is of `d`. */
  ghost predicate ProposalAfter(env: Env, events: seq<Event>, n: nat, a: AuthorityId, d: Digest)
    requires n <= |events|
  {
    var s := Run(env, events[..n]);
    s.Alive? && FirstProposal(s.tables.authorityData, a) == Some(d)
  }

  /** When only one proposal is allowed, an in-group proposal either blames its sender or is the noted one. */
  lemma ProposalLeavesNote(env: Env, events: seq<Event>, i: nat, a: AuthorityId, d: Digest)
    requires Run(env, events).Alive? && !env.cfg.allowMultipleSeconded
    requires SecondsInGroup(env, events, i, a, d)
    ensures Accused(env, events, a) || ProposalAfter(env, events, i + 1, a, d)
  {
    NextState(env, events, i);
    ReachableLinked(env, events[..i]);
    var r := Step(env, Run(env, events[..i]).tables, events[i]).1;
    if r.Blamed? {
      assert RecordsAgainst(env, events, i, r.misbehavior, a);
    }
  }

  lemma ProposalStays(env: Env, events: seq<Event>, i: nat, j: nat, a: AuthorityId, d: Digest)
    requires i <= j <= |events|
    requires Run(env, events).Alive?
    requires ProposalAfter(env, events, i, a, d)
    ensures ProposalAfter(env, events, j, a, d)
  {
    EntriesStay(env, events, i, j);
  }

  /** So it either blames its sender or is the first noted one at the end of the run. */
  lemma ProposalRemembered(env: Env, events: seq<Event>, i: nat, a: AuthorityId, d: Digest)
    requires Run(env, events).Alive? && !env.cfg.allowMultipleSeconded
    requires SecondsInGroup(env, events, i, a, d)
    ensures Accused(env, events, a) || FirstProposal(Run(env, events).tables.authorityData, a) == Some(d)
  {
    ProposalLeavesNote(env, events, i, a, d);
    if ProposalAfter(env, events, i + 1, a, d) {
      ProposalStays(env, events, i + 1, |events|, a, d);
      assert events[..|events|] == events;
    }
  }

  lemma TwoCandidatesAccused(env: Env, events: seq<Event>, i: nat, j: nat, a: AuthorityId)
    requires Run(env, events).Alive?
    requires TwoCandidates(env, events, i, j, a)
    ensures Accused(env, events, a)
  {
    var d, d' :| d != d' && SecondsInGroup(env, events, i, a, d) && SecondsInGroup(env, events, j, a, d');
    ProposalRemembered(env, events, i, a, d);
    ProposalRemembered(env, events, j, a, d');
  }

  lemma OutsideGroupAccused(env: Env, events: seq<Event>, i: nat, a: AuthorityId)
    requires Run(env, events).Alive?
    requires OutsideGroup(env, events, i, a)
    ensures Accused(env, events, a)
  {
    NextState(env, events, i);
    ReachableLinked(env, events[..i]);
    var t := Run(env, events[..i]).tables;
    match events[i].signed.statement
    case Seconded(_) =>
      assert RecordsAgainst(env, events, i, Step(env, t, events[i]).1.misbehavior, a);
    case Valid(d) =>
      var k: nat :| k < i && FirstOpens(env, events, k, d) && !env.ctx.isMemberOf(a, events[k].group);
      Extend(env, events[..i], events);
      RecordedGroup(env, events[..i], t.candidateVotes, d, k);
      assert RecordsAgainst(env, events, i, Step(env, t, events[i]).1.misbehavior, a);
  }

  /** Accountability is exact: in every run, an authority is accused if and only if it broke a rule. */
  lemma AccusedExactly(env: Env, events: seq<Event>, a: AuthorityId)
    requires Run(env, events).Alive?
    ensures Accused(env, events, a) <==> Offends(env, events, a)
  {
    if Accused(env, events, a) {
      var i: nat, m :| RecordsAgainst(env, events, i, m, a);
      RecordsOffend(env, events, i, m, a);
    }
    if Offends(env, events, a) {
      if i: nat :| OutsideGroup(env, events, i, a) {
        OutsideGroupAccused(env, events, i, a);
      } else if i: nat, j: nat :| TwoCandidates(env, events, i, j, a) {
        TwoCandidatesAccused(env, events, i, j, a);
      } else {
        var i: nat, j: nat :| TwoVotes(env, events, i, j, a);
        TwoVotesAccused(env, events, i, j, a);
      }
    }
  }
}

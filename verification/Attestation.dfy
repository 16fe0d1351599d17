/** When a candidate counts as backed, and what its attestation says. */
module Attestation {
  import opened Wrappers
  import opened StatementTable
  import opened TableRuns
  import opened Accountability
  import opened SetFacts

  datatype ValidityAttestation = ImplicitVote(signature: Signature) | ExplicitVote(signature: Signature)

  datatype AttestedCandidate = AttestedCandidate(
    groupId: GroupId,
    candidate: Candidate,
    validityVotes: seq<(AuthorityId, ValidityAttestation)>)

  const USIZE_MAX: nat := 0xFFFF_FFFF_FFFF_FFFF

  /** The configured minimum, unless the whole group is smaller. */
  function EffectiveMinimumBackingVotes(groupLen: nat, configuredMinimum: nat): (r: nat)
    ensures r <= groupLen && r <= configuredMinimum && (r == groupLen || r == configuredMinimum)
  {
    if groupLen < configuredMinimum then groupLen else configuredMinimum
  }

  function Threshold(ctx: Context, group: GroupId, minimumBackingVotes: nat): nat {
    match ctx.groupSize(group)
    case None => USIZE_MAX
    case Some(len) => EffectiveMinimumBackingVotes(len, minimumBackingVotes)
  }

  /** `n` votes are what the group needs: the smaller of its size and the configured minimum, or, if the group is not
      known, more than there can be. */
  predicate VotesNeeded(ctx: Context, group: GroupId, minimumBackingVotes: nat, n: nat) {
    match ctx.groupSize(group)
    case None => n == 0xFFFF_FFFF_FFFF_FFFF
    case Some(len) => n <= len && n <= minimumBackingVotes && (n == len || n == minimumBackingVotes)
  }

  lemma ThresholdIsVotesNeeded(ctx: Context, group: GroupId, minimumBackingVotes: nat, n: nat)
    ensures VotesNeeded(ctx, group, minimumBackingVotes, n) <==> n == Threshold(ctx, group, minimumBackingVotes)
  {
  }

  function AttestationOf(vote: ValidityVote): ValidityAttestation {
    match vote
    case Issued(s) => ImplicitVote(s)
    case Explicit(s) => ExplicitVote(s)
  }

  /** Yield a full attestation if there are enough votes: it lists every voter once, in the map's own order,
      with the kind and signature of its vote. */
  method Attested(data: CandidateData, validityThreshold: nat) returns (r: Option<AttestedCandidate>)
    ensures r.Some? <==> |data.validityVotes| >= validityThreshold
    ensures r.Some? ==> r.value.groupId == data.groupId && r.value.candidate == data.candidate
    ensures r.Some? ==> |r.value.validityVotes| == |data.validityVotes|
    ensures r.Some? ==> forall i, j :: 0 <= i < j < |r.value.validityVotes| ==>
                          r.value.validityVotes[i].0 != r.value.validityVotes[j].0
    ensures r.Some? ==> forall a, v :: (a, v) in r.value.validityVotes <==>
                          a in data.validityVotes && v == AttestationOf(data.validityVotes[a])
  {
    if |data.validityVotes| < validityThreshold {
      return None;
    }
    var votes: seq<(AuthorityId, ValidityAttestation)> := [];
    var todo := data.validityVotes.Keys;
    while todo != {}
      invariant todo <= data.validityVotes.Keys
      invariant |votes| + |todo| == |data.validityVotes|
      invariant forall i :: 0 <= i < |votes| ==>
                  && votes[i].0 in data.validityVotes && votes[i].0 !in todo
                  && votes[i].1 == AttestationOf(data.validityVotes[votes[i].0])
      invariant forall i, j :: 0 <= i < j < |votes| ==> votes[i].0 != votes[j].0
      invariant forall a :: a in data.validityVotes && a !in todo ==> (a, AttestationOf(data.validityVotes[a])) in votes
      decreases todo
    {
      var a :| a in todo;
      votes := votes + [(a, AttestationOf(data.validityVotes[a]))];
      todo := todo - {a};
    }
    r := Some(AttestedCandidate(data.groupId, data.candidate, votes));
  }

  /** The candidate has enough votes. */
  predicate Backed(ctx: Context, cv: CandidateTable, d: Digest, minimumBackingVotes: nat) {
    d in cv && |cv[d].validityVotes| >= Threshold(ctx, cv[d].groupId, minimumBackingVotes)
  }

  // ----- Exactness -----

  /** Statement `j` is a vote of `a` that the table takes into account: a `Valid` for a known candidate, or a proposal
      that opens it. */
  ghost predicate Backs(env: Env, events: seq<Event>, j: nat, a: AuthorityId, d: Digest) {
    && j < |events|
    && events[j].ImportStatement?
    && events[j].signed.sender == a
    && About(env.ctx, events[j].signed.statement) == d
    && if events[j].signed.statement.Seconded? then Opens(env, events, j, d) else Known(env, events[..j], d)
  }

  ghost predicate IsBacker(env: Env, events: seq<Event>, a: AuthorityId, d: Digest) {
    exists j: nat :: Backs(env, events, j, a, d)
  }

  /** In every run, the stored voters of a candidate are exactly the members of the group of its first proposal
      that backed it. */
  lemma VotersExactly(env: Env, events: seq<Event>, d: Digest, k: nat, a: AuthorityId)
    requires Run(env, events).Alive?
    requires FirstOpens(env, events, k, d)
    ensures HasVote(Run(env, events).tables.candidateVotes, d, a)
            <==> env.ctx.isMemberOf(a, events[k].group) && IsBacker(env, events, a, d)
  {
    ReachableLinked(env, events);
    var t := Run(env, events).tables;
    var ad, cv := t.authorityData, t.candidateVotes;
    RecordedGroup(env, events, cv, d, k);
    if HasVote(cv, d, a) {
      var v := cv[d].validityVotes[a];
      assert VoteSeen(env, events, a, d, v);
      if v.Issued? {
        assert (d, v.signature) in ad[a];
        assert ProposalSeen(env, events, a, (d, v.signature));
        var j: nat :| Opens(env, events, j, d) && events[j].signed.sender == a;
        assert Backs(env, events, j, a, d);
      } else {
        var j: nat :| Casts(env, events, j, a, d, v);
        assert Backs(env, events, j, a, d);
      }
    }
    if j: nat :| Backs(env, events, j, a, d) && env.ctx.isMemberOf(a, events[k].group) {
      BackerVotes(env, events, j, a, d, k);
    }
  }

  /** The sender of a proposal that opens its candidate is not held to another one. */
  lemma OpenerUnbound(env: Env, events: seq<Event>, j: nat, d: Digest)
    requires Run(env, events).Alive?
    requires Opens(env, events, j, d)
    ensures Run(env, events[..j]).Alive?
    ensures !ProposedAnother(env.cfg, Run(env, events[..j]).tables.authorityData, events[j].signed.sender, d)
  {
    var p, a := events[..j], events[j].signed.sender;
    NextState(env, events, j);
    ReachableLinked(env, p);
    var ad := Run(env, p).tables.authorityData;
    if a in ad {
      assert ProposalSeen(env, p, a, ad[a][0]);
      Extend(env, p, events);
    }
  }

  /** A proposal that opens its candidate is voted on by its sender. */
  lemma OpenerVotes(env: Env, events: seq<Event>, j: nat, d: Digest)
    requires Run(env, events).Alive?
    requires Opens(env, events, j, d)
    ensures Run(env, events[..j + 1]).Alive?
    ensures HasVote(Run(env, events[..j + 1]).tables.candidateVotes, d, events[j].signed.sender)
  {
    NextState(env, events, j);
    ReachableLinked(env, events[..j]);
    OpenerUnbound(env, events, j, d);
  }

  /** So is a known candidate by a member of its group that says it is valid. */
  lemma ValidatorVotes(env: Env, events: seq<Event>, j: nat, a: AuthorityId, d: Digest, k: nat)
    requires Run(env, events).Alive?
    requires FirstOpens(env, events, k, d) && env.ctx.isMemberOf(a, events[k].group)
    requires Backs(env, events, j, a, d) && events[j].signed.statement.Valid?
    ensures Run(env, events[..j + 1]).Alive?
    ensures HasVote(Run(env, events[..j + 1]).tables.candidateVotes, d, a)
  {
    var p := events[..j];
    NextState(env, events, j);
    ReachableLinked(env, p);
    Extend(env, p, events);
    var i: nat :| Opens(env, p, i, d);
    assert k <= i;
    RecordedGroup(env, p, Run(env, p).tables.candidateVotes, d, k);
  }

  /** A group member that backs a candidate has a vote on it from then on. */
  lemma BackerVotes(env: Env, events: seq<Event>, j: nat, a: AuthorityId, d: Digest, k: nat)
    requires Run(env, events).Alive?
    requires FirstOpens(env, events, k, d) && env.ctx.isMemberOf(a, events[k].group)
    requires Backs(env, events, j, a, d)
    ensures HasVote(Run(env, events).tables.candidateVotes, d, a)
  {
    if events[j].signed.statement.Seconded? {
      OpenerVotes(env, events, j, d);
    } else {
      ValidatorVotes(env, events, j, a, d, k);
    }
    HasVoteStays(env, events, j + 1, a, d);
  }

  /** Some set of at least `n` members of the group have backed the candidate. */
  ghost predicate EnoughBackers(env: Env, events: seq<Event>, d: Digest, group: GroupId, n: nat) {
    exists backers: set<AuthorityId> :: |backers| >= n && AreBackers(env, events, d, group, backers)
  }

  ghost predicate AreBackers(env: Env, events: seq<Event>, d: Digest, group: GroupId, backers: set<AuthorityId>) {
    forall a <- backers :: env.ctx.isMemberOf(a, group) && IsBacker(env, events, a, d)
  }

  /** Attestation is exact: in every run a known candidate is backed exactly when as many distinct members of the group
      of its first proposal as the group needs have backed it. */
  lemma BackedExactly(env: Env, events: seq<Event>, d: Digest, k: nat, minimumBackingVotes: nat, n: nat)
    requires Run(env, events).Alive?
    requires FirstOpens(env, events, k, d)
    requires VotesNeeded(env.ctx, events[k].group, minimumBackingVotes, n)
    ensures Backed(env.ctx, Run(env, events).tables.candidateVotes, d, minimumBackingVotes)
            <==> EnoughBackers(env, events, d, events[k].group, n)
  {
    ThresholdIsVotesNeeded(env.ctx, events[k].group, minimumBackingVotes, n);
    ReachableLinked(env, events);
    var cv := Run(env, events).tables.candidateVotes;
    var g := events[k].group;
    RecordedGroup(env, events, cv, d, k);
    var all := cv[d].validityVotes.Keys;
    forall a ensures a in all <==> env.ctx.isMemberOf(a, g) && IsBacker(env, events, a, d) {
      VotersExactly(env, events, d, k, a);
    }
    assert AreBackers(env, events, d, g, all);
    forall backers: set<AuthorityId> | AreBackers(env, events, d, g, backers) ensures |backers| <= |all| {
      SubsetSize(backers, all);
    }
  }

  // ----- Stability -----

  /** Once backed, a candidate stays backed for the rest of the run. */
  lemma BackedStays(env: Env, events: seq<Event>, i: nat, j: nat, d: Digest, minimumBackingVotes: nat)
    requires i <= j <= |events|
    requires Run(env, events).Alive?
    ensures Run(env, events[..i]).Alive? && Run(env, events[..j]).Alive?
    ensures Backed(env.ctx, Run(env, events[..i]).tables.candidateVotes, d, minimumBackingVotes) ==>
            Backed(env.ctx, Run(env, events[..j]).tables.candidateVotes, d, minimumBackingVotes)
  {
    EntriesStay(env, events, i, j);
    var cv, cv' := Run(env, events[..i]).tables.candidateVotes, Run(env, events[..j]).tables.candidateVotes;
    if d in cv {
      forall a | a in cv[d].validityVotes.Keys ensures a in cv'[d].validityVotes.Keys {
        assert HasVote(cv, d, a);
      }
      SubsetSize(cv[d].validityVotes.Keys, cv'[d].validityVotes.Keys);
    }
  }

  // ----- Conservation -----

  /** All stored votes, as pairs of candidate and voter. */
  function VotePairs(cv: CandidateTable): set<(Digest, AuthorityId)> {
    set d <- cv, a <- cv[d].validityVotes :: (d, a)
  }

  /** How many imports of the run returned a summary. */
  ghost function Summaries(env: Env, events: seq<Event>): nat
    decreases |events|
  {
    if events == [] || Run(env, events).Crashed? then 0
    else
      var p, e := events[..|events| - 1], events[|events| - 1];
      var r := Step(env, Run(env, p).tables, e).1;
      Summaries(env, p) + if r.Accepted? && r.summary.Some? then 1 else 0
  }

  lemma CastAddsVote(ctx: Context, cv: CandidateTable, from: AuthorityId, d: Digest, vote: ValidityVote)
    ensures var (cv', r) := CastVote(ctx, cv, from, d, vote);
            if r.Accepted? && r.summary.Some? then
              && (d, from) !in VotePairs(cv)
              && VotePairs(cv') == VotePairs(cv) + {(d, from)}
              && r.summary.value.candidate == d && d in cv' && r.summary.value.groupId == cv'[d].groupId
              && r.summary.value.validityVotes == |cv'[d].validityVotes|
            else cv' == cv
  {
    var (cv', r) := CastVote(ctx, cv, from, d, vote);
    if r.Accepted? && r.summary.Some? {
      assert forall d', a :: (d', a) in VotePairs(cv) ==> (d', a) in VotePairs(cv');
    }
  }

  /** A step that returns a summary adds exactly one vote, the sender's on the candidate it speaks about, and reports
      the number of votes on that candidate; any other step adds none. */
  lemma StepAddsVote(env: Env, t: Tables, e: Event)
    ensures var (t', r) := Step(env, t, e);
            if r.Accepted? && r.summary.Some? then
              && e.ImportStatement?
              && var d := About(env.ctx, e.signed.statement);
              && (d, e.signed.sender) !in VotePairs(t.candidateVotes)
              && VotePairs(t'.candidateVotes) == VotePairs(t.candidateVotes) + {(d, e.signed.sender)}
              && r.summary.value.candidate == d && d in t'.candidateVotes
              && r.summary.value.groupId == t'.candidateVotes[d].groupId
              && r.summary.value.validityVotes == |t'.candidateVotes[d].validityVotes|
            else VotePairs(t'.candidateVotes) == VotePairs(t.candidateVotes)
  {
    StepShape(env, t, e);
    if e.ImportStatement? {
      var a, d, v := e.signed.sender, About(env.ctx, e.signed.statement), VoteOf(e.signed);
      CastAddsVote(env.ctx, t.candidateVotes, a, d, v);
      if e.signed.statement.Seconded? {
        var cv := WithCandidate(t.candidateVotes, d, e.group, e.signed.statement.candidate);
        assert VotePairs(cv) == VotePairs(t.candidateVotes);
        CastAddsVote(env.ctx, cv, a, d, v);
      }
    }
  }

  /** Votes are conserved: every stored vote was reported by exactly one summary. */
  lemma {:induction false} VotesConserved(env: Env, events: seq<Event>)
    requires Run(env, events).Alive?
    ensures |VotePairs(Run(env, events).tables.candidateVotes)| == Summaries(env, events)
    decreases |events|
  {
    if events != [] {
      var p, e := events[..|events| - 1], events[|events| - 1];
      VotesConserved(env, p);
      StepAddsVote(env, Run(env, p).tables, e);
    }
  }
}

/** Whole runs of a statement table, and the facts that tie the three maps of every
    reachable table to each other and to the statements imported so far.
  */
module TableRuns {
  import opened Wrappers
  import opened StatementTable

  datatype Env = Env(ctx: Context, cfg: Config)

  /** The calls that change a table. */
  datatype Event = ImportStatement(group: GroupId, signed: SignedStatement) | DrainMisbehaviors

  function Step(env: Env, t: Tables, e: Event): (Tables, ImportResult) {
    match e
    case ImportStatement(g, s) => Import(env.ctx, env.cfg, t, g, s)
    case DrainMisbehaviors => (t.(detectedMisbehavior := map[]), Accepted(None))
  }

  /** A run ends when a call panics. */
  datatype RunState = Alive(tables: Tables) | Crashed

  function Run(env: Env, events: seq<Event>): RunState
    decreases |events|
  {
    if events == [] then Alive(EMPTY_TABLES)
    else
      match Run(env, events[..|events| - 1])
      case Crashed => Crashed
      case Alive(t) =>
        var (t', r) := Step(env, t, events[|events| - 1]);
        if r.Panicked? then Crashed else Alive(t')
  }

  /** The run after event `i`, from the run before it. */
  lemma RunPrefix(env: Env, events: seq<Event>, i: nat)
    requires i < |events|
    ensures Run(env, events[..i + 1]) ==
            match Run(env, events[..i])
            case Crashed => Crashed
            case Alive(t) => if Step(env, t, events[i]).1.Panicked? then Crashed else Alive(Step(env, t, events[i]).0)
  {
    var q := events[..i + 1];
    assert q[..|q| - 1] == events[..i] && q[|q| - 1] == events[i];
  }

  // ----- What was imported -----

  /** Statement `k` of the run is a `Seconded` for `d` by `a`, checked against a group of `a`. */
  ghost predicate SecondsInGroup(env: Env, events: seq<Event>, k: nat, a: AuthorityId, d: Digest) {
    && k < |events|
    && events[k].ImportStatement?
    && events[k].signed.sender == a
    && events[k].signed.statement.Seconded?
    && About(env.ctx, events[k].signed.statement) == d
    && env.ctx.isMemberOf(a, events[k].group)
  }

  /** Statement `k` makes `d` a candidate of the table (or finds it there): its sender is in the group
      and, when only one proposal is allowed, has proposed nothing else before. */
  ghost predicate Opens(env: Env, events: seq<Event>, k: nat, d: Digest) {
    && k < |events|
    && events[k].ImportStatement?
    && SecondsInGroup(env, events, k, events[k].signed.sender, d)
    && (env.cfg.allowMultipleSeconded ||
        forall j: nat, d' :: j < k && SecondsInGroup(env, events, j, events[k].signed.sender, d') ==> d' == d)
  }

  /** The run has made `d` a candidate. */
  ghost predicate Known(env: Env, events: seq<Event>, d: Digest) {
    exists k: nat :: Opens(env, events, k, d)
  }

  ghost predicate FirstOpens(env: Env, events: seq<Event>, k: nat, d: Digest) {
    && Opens(env, events, k, d)
    && forall j: nat :: j < k ==> !Opens(env, events, j, d)
  }

  /** Statement `k` casts `vote` of `a` on the candidate `d`, at a time when `d` is known (or is made known by it). */
  ghost predicate Casts(env: Env, events: seq<Event>, k: nat, a: AuthorityId, d: Digest, vote: ValidityVote) {
    && k < |events|
    && events[k].ImportStatement?
    && events[k].signed.sender == a
    && About(env.ctx, events[k].signed.statement) == d
    && VoteOf(events[k].signed) == vote
    && (events[k].signed.statement.Seconded? || Known(env, events[..k], d))
  }

  // ----- The linkage of reachable tables -----

  ghost predicate ProposalSeen(env: Env, events: seq<Event>, a: AuthorityId, p: (Digest, Signature)) {
    exists k: nat :: Opens(env, events, k, p.0) && events[k].signed.sender == a && events[k].signed.signature == p.1
  }

  ghost predicate CandidateSeen(env: Env, events: seq<Event>, d: Digest, group: GroupId, candidate: Candidate) {
    exists k: nat :: FirstOpens(env, events, k, d)
                     && events[k].group == group && events[k].signed.statement == Seconded(candidate)
  }

  ghost predicate VoteSeen(env: Env, events: seq<Event>, a: AuthorityId, d: Digest, vote: ValidityVote) {
    exists k: nat :: Casts(env, events, k, a, d, vote)
  }

  /** Whether the candidate table holds a vote of `a` on `d`. */
  predicate HasVote(cv: CandidateTable, d: Digest, a: AuthorityId) {
    d in cv && a in cv[d].validityVotes
  }

  /** The proposals of an authority are of different candidates, and there is exactly one when only one is allowed. */
  ghost predicate ProposalsDistinct(env: Env, ad: AuthorityTable) {
    && (forall a <- ad :: |ad[a]| >= 1)
    && (forall a <- ad :: !env.cfg.allowMultipleSeconded ==> |ad[a]| == 1)
    && (forall a, i, j :: a in ad && 0 <= i < j < |ad[a]| ==> ad[a][i].0 != ad[a][j].0)
  }

  /** An authority that proposed a candidate has a vote on it. */
  ghost predicate ProposalsVoted(ad: AuthorityTable, cv: CandidateTable) {
    forall a, i :: a in ad && 0 <= i < |ad[a]| ==> HasVote(cv, ad[a][i].0, a)
  }

  /** The noted proposals were imported, and no in-group proposer is missing. */
  ghost predicate ProposalsSeen(env: Env, events: seq<Event>, ad: AuthorityTable) {
    && (forall a, i :: a in ad && 0 <= i < |ad[a]| ==> ProposalSeen(env, events, a, ad[a][i]))
    && (forall k: nat, a, d :: SecondsInGroup(env, events, k, a, d) ==> a in ad)
  }

  /** The candidates are those the run has made known, each with the group and body of its first proposal. */
  ghost predicate CandidatesSeen(env: Env, events: seq<Event>, cv: CandidateTable) {
    && (forall d <- cv :: CandidateSeen(env, events, d, cv[d].groupId, cv[d].candidate))
    && (forall d :: Known(env, events, d) ==> d in cv)
  }

  /** Every vote was cast by a member of the candidate's group. */
  ghost predicate VotesSeen(env: Env, events: seq<Event>, cv: CandidateTable) {
    forall d, a :: HasVote(cv, d, a) ==>
      env.ctx.isMemberOf(a, cv[d].groupId) && VoteSeen(env, events, a, d, cv[d].validityVotes[a])
  }

  /** An implicit vote belongs to a noted proposal. */
  ghost predicate IssuedLinked(ad: AuthorityTable, cv: CandidateTable) {
    forall d, a :: HasVote(cv, d, a) && cv[d].validityVotes[a].Issued? ==>
      a in ad && (d, cv[d].validityVotes[a].signature) in ad[a]
  }

  ghost predicate Imported(env: Env, events: seq<Event>, ad: AuthorityTable, cv: CandidateTable) {
    && ProposalsDistinct(env, ad)
    && ProposalsSeen(env, events, ad)
    && CandidatesSeen(env, events, cv)
    && VotesSeen(env, events, cv)
    && IssuedLinked(ad, cv)
  }

  ghost predicate Linked(env: Env, events: seq<Event>, ad: AuthorityTable, cv: CandidateTable) {
    Imported(env, events, ad, cv) && ProposalsVoted(ad, cv)
  }

  // ----- Prefixes -----

  /** Nothing said about the statements of a run changes when it goes on. */
  lemma Extend(env: Env, p: seq<Event>, q: seq<Event>)
    requires p <= q
    ensures forall k: nat, a, d :: k < |p| ==> (SecondsInGroup(env, p, k, a, d) <==> SecondsInGroup(env, q, k, a, d))
    ensures forall k: nat, d :: k < |p| ==> (Opens(env, p, k, d) <==> Opens(env, q, k, d))
    ensures forall k: nat, d :: k < |p| ==> (FirstOpens(env, p, k, d) <==> FirstOpens(env, q, k, d))
    ensures forall k: nat, a, d, v :: k < |p| ==> (Casts(env, p, k, a, d, v) <==> Casts(env, q, k, a, d, v))
  {
    forall k: nat, d | k < |p| ensures Opens(env, p, k, d) <==> Opens(env, q, k, d) {
      assert forall j: nat, a, d' :: j <= k ==>
               (SecondsInGroup(env, p, j, a, d') <==> SecondsInGroup(env, q, j, a, d'));
    }
    forall k: nat, a, d, v | k < |p| ensures Casts(env, p, k, a, d, v) <==> Casts(env, q, k, a, d, v) {
      assert p[..k] == q[..k];
    }
  }

  // ----- Every step keeps the linkage -----

  /** What was seen in a run stays seen when it goes on. */
  lemma SeenStays(env: Env, p: seq<Event>, e: Event)
    ensures forall a, q :: ProposalSeen(env, p, a, q) ==> ProposalSeen(env, p + [e], a, q)
    ensures forall d, g, c :: CandidateSeen(env, p, d, g, c) ==> CandidateSeen(env, p + [e], d, g, c)
    ensures forall a, d, v :: VoteSeen(env, p, a, d, v) ==> VoteSeen(env, p + [e], a, d, v)
    ensures forall d :: Known(env, p + [e], d) <==> Known(env, p, d) || Opens(env, p + [e], |p|, d)
  {
    Extend(env, p, p + [e]);
    forall a, q | ProposalSeen(env, p, a, q) ensures ProposalSeen(env, p + [e], a, q) {
      var k: nat :| Opens(env, p, k, q.0) && p[k].signed.sender == a && p[k].signed.signature == q.1;
      assert Opens(env, p + [e], k, q.0);
    }
    forall d, g, c | CandidateSeen(env, p, d, g, c) ensures CandidateSeen(env, p + [e], d, g, c) {
      var k: nat :| FirstOpens(env, p, k, d) && p[k].group == g && p[k].signed.statement == Seconded(c);
      assert FirstOpens(env, p + [e], k, d);
    }
    forall a, d, v | VoteSeen(env, p, a, d, v) ensures VoteSeen(env, p + [e], a, d, v) {
      var k: nat :| Casts(env, p, k, a, d, v);
      assert Casts(env, p + [e], k, a, d, v);
    }
    forall d ensures Known(env, p + [e], d) <==> Known(env, p, d) || Opens(env, p + [e], |p|, d) {
      if Known(env, p + [e], d) {
        var k: nat :| Opens(env, p + [e], k, d);
        if k < |p| { assert Opens(env, p, k, d); }
      }
      if Known(env, p, d) {
        var k: nat :| Opens(env, p, k, d);
        assert Opens(env, p + [e], k, d);
      }
    }
  }

  /** An event that opens no new candidate and is no new proposal keeps the linkage. */
  lemma UnchangedKeeps(env: Env, p: seq<Event>, e: Event, ad: AuthorityTable, cv: CandidateTable)
    requires Linked(env, p, ad, cv)
    requires forall d :: Opens(env, p + [e], |p|, d) ==> d in cv
    requires forall a, d :: SecondsInGroup(env, p + [e], |p|, a, d) ==> a in ad
    ensures Linked(env, p + [e], ad, cv)
  {
    Extend(env, p, p + [e]);
    SeenStays(env, p, e);
  }

  /** A new in-group proposal opens its candidate. */
  lemma NewProposalOpens(env: Env, p: seq<Event>, g: GroupId, s: SignedStatement, ad: AuthorityTable)
    requires ProposalsDistinct(env, ad) && ProposalsSeen(env, p, ad)
    requires s.statement.Seconded? && env.ctx.isMemberOf(s.sender, g)
    requires IsNewProposal(env.cfg, ad, s.sender, About(env.ctx, s.statement))
    ensures Opens(env, p + [ImportStatement(g, s)], |p|, About(env.ctx, s.statement))
  {
    var e := ImportStatement(g, s);
    Extend(env, p, p + [e]);
    assert SecondsInGroup(env, p + [e], |p|, s.sender, About(env.ctx, s.statement));
  }

  lemma NewProposalNoted(env: Env, p: seq<Event>, g: GroupId, s: SignedStatement,
                         ad: AuthorityTable, ad': AuthorityTable)
    requires ProposalsDistinct(env, ad) && ProposalsSeen(env, p, ad)
    requires s.statement.Seconded? && env.ctx.isMemberOf(s.sender, g)
    requires IsNewProposal(env.cfg, ad, s.sender, About(env.ctx, s.statement))
    requires ad' == WithProposal(ad, s.sender, About(env.ctx, s.statement), s.signature)
    ensures ProposalsDistinct(env, ad') && ProposalsSeen(env, p + [ImportStatement(g, s)], ad')
  {
    var e := ImportStatement(g, s);
    Extend(env, p, p + [e]);
    SeenStays(env, p, e);
    NewProposalOpens(env, p, g, s, ad);
    assert ProposalSeen(env, p + [e], s.sender, (About(env.ctx, s.statement), s.signature));
  }

  lemma NewCandidateNoted(env: Env, p: seq<Event>, g: GroupId, s: SignedStatement,
                          cv: CandidateTable, cv': CandidateTable)
    requires CandidatesSeen(env, p, cv) && VotesSeen(env, p, cv)
    requires s.statement.Seconded?
    requires Opens(env, p + [ImportStatement(g, s)], |p|, About(env.ctx, s.statement))
    requires cv' == WithCandidate(cv, About(env.ctx, s.statement), g, s.statement.candidate)
    ensures CandidatesSeen(env, p + [ImportStatement(g, s)], cv') && VotesSeen(env, p + [ImportStatement(g, s)], cv')
    ensures forall d, a :: HasVote(cv', d, a) <==> HasVote(cv, d, a)
    ensures forall d, a :: HasVote(cv', d, a) ==> cv'[d].validityVotes[a] == cv[d].validityVotes[a]
  {
    var e := ImportStatement(g, s);
    var d := About(env.ctx, s.statement);
    SeenStays(env, p, e);
    Extend(env, p, p + [e]);
    if d !in cv {
      assert forall j: nat :: j < |p| ==> !Opens(env, p, j, d);
      assert FirstOpens(env, p + [e], |p|, d);
      assert CandidateSeen(env, p + [e], d, g, s.statement.candidate);
    }
  }

  /** Casting a vote adds at most that one vote and changes nothing else. */
  lemma CastVoteShape(ctx: Context, cv: CandidateTable, from: AuthorityId, d: Digest, vote: ValidityVote)
    ensures var (cv', r) := CastVote(ctx, cv, from, d, vote);
            && cv'.Keys == cv.Keys
            && (forall d' <- cv :: cv'[d'].groupId == cv[d'].groupId && cv'[d'].candidate == cv[d'].candidate)
            && (forall d', a :: HasVote(cv, d', a) ==>
                  HasVote(cv', d', a) && cv'[d'].validityVotes[a] == cv[d'].validityVotes[a])
            && (forall d', a :: HasVote(cv', d', a) && !HasVote(cv, d', a) ==>
                  d' == d && a == from && cv'[d'].validityVotes[a] == vote && ctx.isMemberOf(a, cv[d].groupId))
  {
  }

  /** Casting a vote that some event makes keeps the linkage. */
  lemma CastVoteKeeps(env: Env, events: seq<Event>, ad: AuthorityTable, cv: CandidateTable,
                      k: nat, from: AuthorityId, d: Digest, vote: ValidityVote, cv': CandidateTable)
    requires Imported(env, events, ad, cv)
    requires Casts(env, events, k, from, d, vote)
    requires vote.Issued? && d in cv && from !in cv[d].validityVotes ==>
               from in ad && (d, vote.signature) in ad[from]
    requires cv' == CastVote(env.ctx, cv, from, d, vote).0
    ensures Imported(env, events, ad, cv')
    ensures forall d', a :: HasVote(cv, d', a) ==> HasVote(cv', d', a)
  {
    CastVoteShape(env.ctx, cv, from, d, vote);
    assert VoteSeen(env, events, from, d, vote);
    assert CandidatesSeen(env, events, cv');
    assert IssuedLinked(ad, cv') by {
      forall d', a | HasVote(cv', d', a) && cv'[d'].validityVotes[a].Issued?
        ensures a in ad && (d', cv'[d'].validityVotes[a].signature) in ad[a]
      {
        if HasVote(cv, d', a) { } else { }
      }
    }
  }

  lemma NewProposalIssued(ad: AuthorityTable, cv: CandidateTable, ad': AuthorityTable, cv': CandidateTable,
                          a: AuthorityId, d: Digest, s: Signature)
    requires IssuedLinked(ad, cv)
    requires ad' == WithProposal(ad, a, d, s)
    requires forall d', b :: HasVote(cv', d', b) ==>
               HasVote(cv, d', b) && cv'[d'].validityVotes[b] == cv[d'].validityVotes[b]
    ensures IssuedLinked(ad', cv')
  {
  }

  /** An accepted new proposal keeps the linkage. */
  lemma NewProposalKeeps(env: Env, p: seq<Event>, g: GroupId, s: SignedStatement,
                         ad: AuthorityTable, cv: CandidateTable)
    requires Linked(env, p, ad, cv)
    requires s.statement.Seconded? && env.ctx.isMemberOf(s.sender, g)
    requires IsNewProposal(env.cfg, ad, s.sender, About(env.ctx, s.statement))
    ensures var d := About(env.ctx, s.statement);
            var ad' := WithProposal(ad, s.sender, d, s.signature);
            var cv' := WithCandidate(cv, d, g, s.statement.candidate);
            var (cv'', r) := CastVote(env.ctx, cv', s.sender, d, Issued(s.signature));
            r.Panicked? || Linked(env, p + [ImportStatement(g, s)], ad', cv'')
  {
    var e := ImportStatement(g, s);
    var d := About(env.ctx, s.statement);
    var ad' := WithProposal(ad, s.sender, d, s.signature);
    var cv' := WithCandidate(cv, d, g, s.statement.candidate);
    var (cv'', r) := CastVote(env.ctx, cv', s.sender, d, Issued(s.signature));
    NewProposalOpens(env, p, g, s, ad);
    NewProposalNoted(env, p, g, s, ad, ad');
    NewCandidateNoted(env, p, g, s, cv, cv');
    NewProposalIssued(ad, cv, ad', cv', s.sender, d, s.signature);
    CastVoteKeeps(env, p + [e], ad', cv', |p|, s.sender, d, Issued(s.signature), cv'');
  }

  /** A `Seconded` statement keeps the linkage. */
  lemma SecondKeeps(env: Env, p: seq<Event>, t: Tables, g: GroupId, s: SignedStatement)
    requires Linked(env, p, t.authorityData, t.candidateVotes)
    requires s.statement.Seconded?
    ensures var (t', r) := SecondCandidate(env.ctx, env.cfg, t, s.sender, s.statement.candidate, s.signature, g);
            r.Panicked? || Linked(env, p + [ImportStatement(g, s)], t'.authorityData, t'.candidateVotes)
  {
    var e := ImportStatement(g, s);
    var d := About(env.ctx, s.statement);
    var ad, cv := t.authorityData, t.candidateVotes;
    if env.ctx.isMemberOf(s.sender, g) && !ProposedAnother(env.cfg, ad, s.sender, d) {
      if IsNewProposal(env.cfg, ad, s.sender, d) {
        NewProposalKeeps(env, p, g, s, ad, cv);
      } else {
        var cv' := CastVote(env.ctx, cv, s.sender, d, Issued(s.signature)).0;
        assert HasVote(cv, d, s.sender);
        UnchangedKeeps(env, p, e, ad, cv);
        CastVoteKeeps(env, p + [e], ad, cv, |p|, s.sender, d, Issued(s.signature), cv');
      }
    } else {
      if env.ctx.isMemberOf(s.sender, g) {
        assert ProposalSeen(env, p, s.sender, ad[s.sender][0]);
        Extend(env, p, p + [e]);
      }
      UnchangedKeeps(env, p, e, ad, cv);
    }
  }

  /** Every step that does not panic keeps the linkage. */
  lemma StepKeeps(env: Env, p: seq<Event>, t: Tables, e: Event)
    requires Linked(env, p, t.authorityData, t.candidateVotes)
    requires !Step(env, t, e).1.Panicked?
    ensures var t' := Step(env, t, e).0; Linked(env, p + [e], t'.authorityData, t'.candidateVotes)
  {
    match e
    case DrainMisbehaviors => UnchangedKeeps(env, p, e, t.authorityData, t.candidateVotes);
    case ImportStatement(g, s) =>
      match s.statement
      case Seconded(_) => SecondKeeps(env, p, t, g, s);
      case Valid(d) =>
        var cv' := CastVote(env.ctx, t.candidateVotes, s.sender, d, VoteOf(s)).0;
        UnchangedKeeps(env, p, e, t.authorityData, t.candidateVotes);
        if cv' != t.candidateVotes {
          assert CandidateSeen(env, p, d, t.candidateVotes[d].groupId, t.candidateVotes[d].candidate);
          assert Known(env, p, d);
          assert (p + [e])[..|p|] == p;
          CastVoteKeeps(env, p + [e], t.authorityData, t.candidateVotes, |p|, s.sender, d, VoteOf(s), cv');
        }
  }

  /** Every reachable table is linked. */
  lemma {:induction false} ReachableLinked(env: Env, events: seq<Event>)
    requires Run(env, events).Alive?
    ensures var t := Run(env, events).tables; Linked(env, events, t.authorityData, t.candidateVotes)
    decreases |events|
  {
    if events != [] {
      var p, e := events[..|events| - 1], events[|events| - 1];
      ReachableLinked(env, p);
      StepKeeps(env, p, Run(env, p).tables, e);
      assert p + [e] == events;
    }
  }

  // ----- When an import panics -----

  /** Importing `e` after `p` is the one case the table does not handle: an in-group `Seconded` for a candidate that
      is recorded under a group its sender does not belong to, by a sender without an earlier proposal in the way. */
  ghost predicate CrossesGroups(env: Env, p: seq<Event>, e: Event) {
    && e.ImportStatement?
    && e.signed.statement.Seconded?
    && env.ctx.isMemberOf(e.signed.sender, e.group)
    && (exists k: nat :: FirstOpens(env, p, k, About(env.ctx, e.signed.statement))
                         && !env.ctx.isMemberOf(e.signed.sender, p[k].group))
    && (env.cfg.allowMultipleSeconded || forall k: nat, d :: !SecondsInGroup(env, p, k, e.signed.sender, d))
  }

  /** The group recorded with a candidate is the group of the statement that opened it. */
  lemma RecordedGroup(env: Env, events: seq<Event>, cv: CandidateTable, d: Digest, k: nat)
    requires CandidatesSeen(env, events, cv)
    requires FirstOpens(env, events, k, d)
    ensures d in cv && cv[d].groupId == events[k].group && Seconded(cv[d].candidate) == events[k].signed.statement
  {
    assert Known(env, events, d);
    assert CandidateSeen(env, events, d, cv[d].groupId, cv[d].candidate);
    var j: nat :| FirstOpens(env, events, j, d) && events[j].group == cv[d].groupId
                  && events[j].signed.statement == Seconded(cv[d].candidate);
    assert j == k;
  }

  /** In a reachable table the lookup of the first proposal always succeeds, and the import panics exactly when
      it crosses groups. */
  lemma PanicsExactly(env: Env, p: seq<Event>, e: Event)
    requires Run(env, p).Alive?
    ensures Step(env, Run(env, p).tables, e).1.Panicked? <==> CrossesGroups(env, p, e)
  {
    ReachableLinked(env, p);
    var t := Run(env, p).tables;
    if e.ImportStatement? && e.signed.statement.Seconded? {
      var a, d := e.signed.sender, About(env.ctx, e.signed.statement);
      forall k: nat | FirstOpens(env, p, k, d)
        ensures d in t.candidateVotes && t.candidateVotes[d].groupId == p[k].group
      {
        RecordedGroup(env, p, t.candidateVotes, d, k);
      }
      if d in t.candidateVotes {
        assert CandidateSeen(env, p, d, t.candidateVotes[d].groupId, t.candidateVotes[d].candidate);
      }
      if a in t.authorityData {
        assert ProposalSeen(env, p, a, t.authorityData[a][0]);
      }
    }
  }

  /** Statement `i` of the run crosses groups. */
  ghost predicate CrossesAt(env: Env, events: seq<Event>, i: nat) {
    i < |events| && CrossesGroups(env, events[..i], events[i])
  }

  /** A run crashes exactly when one of its statements crosses groups. */
  lemma CrashesExactly(env: Env, events: seq<Event>)
    ensures Run(env, events).Crashed? <==> exists i: nat :: CrossesAt(env, events, i)
  {
    CrashedBy(env, events, |events|);
    assert events[..|events|] == events;
  }

  lemma CrashesNext(env: Env, events: seq<Event>, i: nat)
    requires i < |events| && Run(env, events[..i]).Alive?
    ensures Run(env, events[..i + 1]).Crashed? <==> CrossesAt(env, events, i)
  {
    RunPrefix(env, events, i);
    PanicsExactly(env, events[..i], events[i]);
  }

  lemma {:induction false} CrashedBy(env: Env, events: seq<Event>, n: nat)
    requires n <= |events|
    ensures Run(env, events[..n]).Crashed? <==> exists i: nat :: i < n && CrossesAt(env, events, i)
  {
    if n > 0 {
      CrashedBy(env, events, n - 1);
      RunPrefix(env, events, n - 1);
      if Run(env, events[..n - 1]).Alive? {
        CrashesNext(env, events, n - 1);
      }
    }
  }

  /** Every `Seconded` statement for a digest comes with the same group. */
  ghost predicate OneGroupPerDigest(env: Env, events: seq<Event>) {
    forall i, j :: 0 <= i < |events| && 0 <= j < |events|
                   && events[i].ImportStatement? && events[j].ImportStatement?
                   && events[i].signed.statement.Seconded? && events[j].signed.statement.Seconded?
                   && About(env.ctx, events[i].signed.statement) == About(env.ctx, events[j].signed.statement) ==>
      events[i].group == events[j].group
  }

  /** A caller that always passes the same group with a digest never makes the table panic. */
  lemma NeverPanics(env: Env, events: seq<Event>)
    requires OneGroupPerDigest(env, events)
    ensures Run(env, events).Alive?
  {
    CrashesExactly(env, events);
  }

  /** Without that discipline it can: two groups, one candidate, one proposer in each. */
  lemma TwoGroupsCrash(a: AuthorityId, b: AuthorityId, g: GroupId, h: GroupId, d: Digest, c: Candidate, s: Signature)
    requires a != b && g != h
    ensures var isMember := (x: AuthorityId, y: GroupId) => (x == a && y == g) || (x == b && y == h);
            var ctx := Context((_: Candidate) => d, isMember, (_: GroupId) => None);
            Run(Env(ctx, Config(false)),
                [ImportStatement(g, SignedStatement(Seconded(c), s, a)),
                 ImportStatement(h, SignedStatement(Seconded(c), s, b))]) == Crashed
  {
    var isMember := (x: AuthorityId, y: GroupId) => (x == a && y == g) || (x == b && y == h);
    var env := Env(Context((_: Candidate) => d, isMember, (_: GroupId) => None), Config(false));
    var e0 := ImportStatement(g, SignedStatement(Seconded(c), s, a));
    var e1 := ImportStatement(h, SignedStatement(Seconded(c), s, b));
    assert [e0, e1][..1] == [e0] && [e0][..0] == [];
    assert Run(env, []) == Alive(EMPTY_TABLES);
    assert Run(env, [e0]) == Alive(Step(env, EMPTY_TABLES, e0).0);
  }
}

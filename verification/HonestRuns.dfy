/** When everybody follows the rules, the order in which statements arrive does not matter. */
module HonestRuns {
  import opened StatementTable
  import opened TableRuns
  import opened Accountability

  /** `e` is a statement about `d`. */
  ghost predicate Speaks(env: Env, e: Event, d: Digest) {
    e.ImportStatement? && About(env.ctx, e.signed.statement) == d
  }

  ghost predicate SpeaksFor(env: Env, e: Event, a: AuthorityId, d: Digest) {
    Speaks(env, e, d) && e.signed.sender == a
  }

  ghost predicate Proposes(env: Env, e: Event, d: Digest) {
    Speaks(env, e, d) && e.signed.statement.Seconded?
  }

  /** Rules for two statements of a run, whatever their order. */
  ghost predicate Agree(env: Env, e: Event, f: Event) {
    // a digest comes with one candidate and one group
    && (forall d :: Proposes(env, e, d) && Proposes(env, f, d) ==>
          e.group == f.group && e.signed.statement == f.signed.statement)
    // an authority says one thing about a digest
    && (forall a, d :: SpeaksFor(env, e, a, d) && SpeaksFor(env, f, a, d) ==> e.signed == f.signed)
    // and seconds one candidate, unless more are allowed
    && (!env.cfg.allowMultipleSeconded ==>
          forall a, d, d' :: SpeaksFor(env, e, a, d) && SpeaksFor(env, f, a, d') ==>
            Proposes(env, e, d) && Proposes(env, f, d') ==> d == d')
    // whoever votes on a candidate is in its group
    && (forall d :: Proposes(env, e, d) && Speaks(env, f, d) ==> env.ctx.isMemberOf(f.signed.sender, e.group))
  }

  ghost predicate Honest(env: Env, events: seq<Event>) {
    && (forall i, j :: 0 <= i < |events| && 0 <= j < |events| ==> Agree(env, events[i], events[j]))
    && (forall j, d :: 0 <= j < |events| && Speaks(env, events[j], d) && events[j].signed.statement.Valid? ==>
          exists i :: 0 <= i < j && Proposes(env, events[i], d))
  }

  /** The reference: the candidate table read off a set of statements, with no order at all. */
  ghost predicate IsTally(env: Env, statements: set<Event>, cv: CandidateTable) {
    && (forall d :: d in cv <==> exists e :: e in statements && Proposes(env, e, d))
    && (forall e, d :: e in statements && Proposes(env, e, d) && d in cv ==>
          cv[d].groupId == e.group && Seconded(cv[d].candidate) == e.signed.statement)
    && (forall d, a :: HasVote(cv, d, a) <==> exists e :: e in statements && SpeaksFor(env, e, a, d))
    && (forall e, a, d :: e in statements && SpeaksFor(env, e, a, d) && HasVote(cv, d, a) ==>
          cv[d].validityVotes[a] == VoteOf(e.signed))
  }

  lemma TallyUnique(env: Env, statements: set<Event>, cv: CandidateTable, cv': CandidateTable)
    requires IsTally(env, statements, cv) && IsTally(env, statements, cv')
    ensures cv == cv'
  {
    assert cv.Keys == cv'.Keys;
    forall d | d in cv ensures cv[d] == cv'[d] {
      var e :| e in statements && Proposes(env, e, d);
      forall a ensures HasVote(cv, d, a) <==> HasVote(cv', d, a) { }
      assert cv[d].validityVotes.Keys == cv'[d].validityVotes.Keys by {
        forall a ensures a in cv[d].validityVotes <==> a in cv'[d].validityVotes {
          assert HasVote(cv, d, a) <==> HasVote(cv', d, a);
        }
      }
      forall a | a in cv[d].validityVotes ensures cv[d].validityVotes[a] == cv'[d].validityVotes[a] {
        assert HasVote(cv, d, a) && HasVote(cv', d, a);
        var f :| f in statements && SpeaksFor(env, f, a, d);
      }
    }
  }

  function Statements(events: seq<Event>): set<Event> {
    set e <- events | e.ImportStatement?
  }

  /** In an honest run every proposal opens its candidate. */
  lemma HonestOpens(env: Env, events: seq<Event>, k: nat, d: Digest)
    requires Honest(env, events)
    requires k < |events| && Proposes(env, events[k], d)
    ensures Opens(env, events, k, d)
  {
    var a := events[k].signed.sender;
    assert Agree(env, events[k], events[k]);
    assert SecondsInGroup(env, events, k, a, d);
    forall j: nat, d' | j < k && !env.cfg.allowMultipleSeconded && SecondsInGroup(env, events, j, a, d')
      ensures d' == d
    {
      assert Agree(env, events[j], events[k]);
      assert SpeaksFor(env, events[j], a, d') && SpeaksFor(env, events[k], a, d) && Proposes(env, events[j], d');
    }
  }

  lemma HonestCasts(env: Env, events: seq<Event>, k: nat, a: AuthorityId, d: Digest)
    requires Honest(env, events)
    requires k < |events| && SpeaksFor(env, events[k], a, d)
    ensures Casts(env, events, k, a, d, VoteOf(events[k].signed))
  {
    if events[k].signed.statement.Valid? {
      var i :| 0 <= i < k && Proposes(env, events[i], d);
      HonestOpens(env, events, i, d);
      Extend(env, events[..k], events);
      assert Opens(env, events[..k], i, d);
    }
  }

  lemma HonestAlive(env: Env, events: seq<Event>)
    requires Honest(env, events)
    ensures Run(env, events).Alive?
  {
    forall i, j | 0 <= i < |events| && 0 <= j < |events|
                  && events[i].ImportStatement? && events[j].ImportStatement?
                  && events[i].signed.statement.Seconded? && events[j].signed.statement.Seconded?
                  && About(env.ctx, events[i].signed.statement) == About(env.ctx, events[j].signed.statement)
      ensures events[i].group == events[j].group
    {
      var d := About(env.ctx, events[i].signed.statement);
      assert Agree(env, events[i], events[j]);
      assert Proposes(env, events[i], d) && Proposes(env, events[j], d);
    }
    NeverPanics(env, events);
  }

  /** A rule-following authority is never accused: here, nobody is. */
  lemma HonestNotAccused(env: Env, events: seq<Event>, a: AuthorityId)
    requires Honest(env, events)
    ensures Run(env, events).Alive? && !Accused(env, events, a)
  {
    HonestAlive(env, events);
    AccusedExactly(env, events, a);
    forall i: nat ensures !OutsideGroup(env, events, i, a) {
      if OutsideGroup(env, events, i, a) {
        var d := About(env.ctx, events[i].signed.statement);
        assert Speaks(env, events[i], d);
      }
    }
    forall i: nat, j: nat ensures !TwoCandidates(env, events, i, j, a) {
      if TwoCandidates(env, events, i, j, a) {
        var d, d' :| d != d' && SecondsInGroup(env, events, i, a, d) && SecondsInGroup(env, events, j, a, d');
        assert Agree(env, events[i], events[j]);
        assert SpeaksFor(env, events[i], a, d) && SpeaksFor(env, events[j], a, d');
        assert Proposes(env, events[i], d) && Proposes(env, events[j], d');
      }
    }
    forall i: nat, j: nat ensures !TwoVotes(env, events, i, j, a) {
      if TwoVotes(env, events, i, j, a) {
        var d, v, v' :| v != v' && Casts(env, events, i, a, d, v) && Casts(env, events, j, a, d, v');
        assert Agree(env, events[i], events[j]);
        assert SpeaksFor(env, events[i], a, d) && SpeaksFor(env, events[j], a, d);
      }
    }
  }

  /** A statement of an honest run ends up as the voter's vote. */
  lemma HonestVotes(env: Env, events: seq<Event>, k: nat, a: AuthorityId, d: Digest)
    requires Honest(env, events)
    requires k < |events| && SpeaksFor(env, events[k], a, d)
    ensures Run(env, events).Alive?
    ensures var cv := Run(env, events).tables.candidateVotes;
            HasVote(cv, d, a) && cv[d].validityVotes[a] == VoteOf(events[k].signed)
  {
    HonestNotAccused(env, events, a);
    HonestCasts(env, events, k, a, d);
    CastLeavesVote(env, events, k, a, d, VoteOf(events[k].signed));
    VoteStays(env, events, k + 1, |events|, a, d, VoteOf(events[k].signed));
    assert events[..|events|] == events;
  }

  /** An honest run ends in the tally of its statements. */
  lemma HonestTally(env: Env, events: seq<Event>)
    requires Honest(env, events)
    ensures Run(env, events).Alive?
    ensures IsTally(env, Statements(events), Run(env, events).tables.candidateVotes)
  {
    HonestAlive(env, events);
    ReachableLinked(env, events);
    var cv := Run(env, events).tables.candidateVotes;
    forall e, d | e in Statements(events) && Proposes(env, e, d)
      ensures d in cv && cv[d].groupId == e.group && Seconded(cv[d].candidate) == e.signed.statement
    {
      var k: nat :| k < |events| && events[k] == e;
      HonestOpens(env, events, k, d);
      assert Known(env, events, d);
      assert CandidateSeen(env, events, d, cv[d].groupId, cv[d].candidate);
      var j: nat :| FirstOpens(env, events, j, d) && events[j].group == cv[d].groupId
                    && events[j].signed.statement == Seconded(cv[d].candidate);
      assert Agree(env, events[j], events[k]) && Proposes(env, events[j], d);
    }
    forall d | d in cv ensures exists e :: e in Statements(events) && Proposes(env, e, d) {
      assert CandidateSeen(env, events, d, cv[d].groupId, cv[d].candidate);
      var j: nat :| FirstOpens(env, events, j, d) && events[j].group == cv[d].groupId
                    && events[j].signed.statement == Seconded(cv[d].candidate);
      assert Proposes(env, events[j], d) && events[j] in Statements(events);
    }
    forall e, a, d | e in Statements(events) && SpeaksFor(env, e, a, d)
      ensures HasVote(cv, d, a) && cv[d].validityVotes[a] == VoteOf(e.signed)
    {
      var k: nat :| k < |events| && events[k] == e;
      HonestVotes(env, events, k, a, d);
    }
    forall d, a | HasVote(cv, d, a) ensures exists e :: e in Statements(events) && SpeaksFor(env, e, a, d) {
      assert VoteSeen(env, events, a, d, cv[d].validityVotes[a]);
      var k: nat :| Casts(env, events, k, a, d, cv[d].validityVotes[a]);
      assert events[k] in Statements(events) && SpeaksFor(env, events[k], a, d);
    }
  }

  /** Any two honest orders of the same statements, with any repetitions and any drains in between, end with
      the same candidates and the same votes. */
  lemma OrderIrrelevant(env: Env, events: seq<Event>, events': seq<Event>)
    requires Honest(env, events) && Honest(env, events')
    requires Statements(events) == Statements(events')
    ensures Run(env, events).Alive? && Run(env, events').Alive?
    ensures Run(env, events).tables.candidateVotes == Run(env, events').tables.candidateVotes
  {
    HonestTally(env, events);
    HonestTally(env, events');
    TallyUnique(env, Statements(events),
                Run(env, events).tables.candidateVotes, Run(env, events').tables.candidateVotes);
  }
}

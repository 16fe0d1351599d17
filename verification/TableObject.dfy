/** The statement table as it is used: an object whose maps are updated in place. Its ghost history is the run that
    led to its contents, so everything proved of runs holds of every table.
  */
module TableObject {
  import opened Wrappers
  import opened StatementTable
  import opened TableRuns
  import opened Attestation
  import opened MisbehaviorDrain

  /** How a call ends. */
  datatype Outcome = Returned(summary: Option<Summary>) | Panic

  class Table {
    const ctx: Context
    const config: Config
    var authorityData: AuthorityTable
    var detectedMisbehavior: MisbehaviorTable
    var candidateVotes: CandidateTable
    ghost var history: seq<Event>

    ghost function Contents(): Tables
      reads this
    {
      Tables(authorityData, detectedMisbehavior, candidateVotes)
    }

    ghost predicate Valid()
      reads this
    {
      Run(Env(ctx, config), history) == Alive(Contents())
    }

    constructor (ctx: Context, config: Config)
      ensures Valid() && history == [] && this.ctx == ctx && this.config == config
    {
      this.ctx, this.config := ctx, config;
      authorityData, detectedMisbehavior, candidateVotes := map[], map[], map[];
      history := [];
    }

    /** Import a signed statement. */
    method ImportStatement(group: GroupId, statement: SignedStatement) returns (r: Outcome)
      requires Valid()
      modifies this
      ensures history == old(history) + [Event.ImportStatement(group, statement)]
      ensures r.Panic? <==> CrossesGroups(Env(ctx, config), old(history), Event.ImportStatement(group, statement))
      ensures r.Returned? ==> Valid()
      ensures var (t, result) := Import(ctx, config, old(Contents()), group, statement);
              Contents() == t &&
              r == match result
                   case Accepted(summary) => Returned(summary)
                   case Blamed(_) => Returned(None)
                   case Panicked => Panic
    {
      PanicsExactly(Env(ctx, config), history, Event.ImportStatement(group, statement));
      var res;
      match statement.statement {
        case Seconded(candidate) =>
          res := ImportCandidate(statement.sender, candidate, statement.signature, group);
        case Valid(digest) =>
          res := CastValidityVote(statement.sender, digest, Explicit(statement.signature));
      }
      match res {
        case Accepted(maybeSummary) =>
          r := Returned(maybeSummary);
        case Blamed(misbehavior) =>
          var list := if statement.sender in detectedMisbehavior then detectedMisbehavior[statement.sender] else [];
          detectedMisbehavior := detectedMisbehavior[statement.sender := list + [misbehavior]];
          r := Returned(None);
        case Panicked =>
          r := Panic;
      }
      history := history + [Event.ImportStatement(group, statement)];
      assert history[..|history| - 1] == old(history);
    }

    method ImportCandidate(authority: AuthorityId, candidate: Candidate, signature: Signature, group: GroupId)
      returns (r: ImportResult)
      modifies this`authorityData, this`candidateVotes
      ensures (Contents(), r) == SecondCandidate(ctx, config, old(Contents()), authority, candidate, signature, group)
    {
      if !ctx.isMemberOf(authority, group) {
        return Blamed(UnauthorizedStatement(SignedStatement(Seconded(candidate), signature, authority)));
      }

      // check that authority hasn't already specified another candidate
      var digest := ctx.candidateDigest(candidate);
      var newProposal: bool;
      if authority in authorityData {
        var existing := authorityData[authority];
        if !config.allowMultipleSeconded && |existing| == 1 {
          var (oldDigest, oldSignature) := existing[0];
          if oldDigest != digest {
            if oldDigest !in candidateVotes {
              return Panicked;
            }
            var oldCandidate := candidateVotes[oldDigest].candidate;
            return Blamed(MultipleCandidates((oldCandidate, oldSignature), (candidate, signature)));
          }
          newProposal := false;
        } else if config.allowMultipleSeconded && exists p <- existing :: p.0 == digest {
          newProposal := false;
        } else {
          authorityData := authorityData[authority := existing + [(digest, signature)]];
          newProposal := true;
        }
      } else {
        authorityData := authorityData[authority := [(digest, signature)]];
        newProposal := true;
      }

      if newProposal && digest !in candidateVotes {
        candidateVotes := candidateVotes[digest := CandidateData(group, candidate, map[])];
      }
      assert [] + [(digest, signature)] == [(digest, signature)];

      r := CastValidityVote(authority, digest, Issued(signature));
    }

    method CastValidityVote(from: AuthorityId, digest: Digest, vote: ValidityVote) returns (r: ImportResult)
      modifies this`candidateVotes
      ensures (candidateVotes, r) == CastVote(ctx, old(candidateVotes), from, digest, vote)
    {
      if digest !in candidateVotes {
        return Accepted(None);
      }
      var votes := candidateVotes[digest];

      // check that this authority actually can vote in this group
      if !ctx.isMemberOf(from, votes.groupId) {
        match vote
        case Issued(_) => return Panicked;
        case Explicit(s) => return Blamed(UnauthorizedStatement(SignedStatement(Statement.Valid(digest), s, from)));
      }

      // check for double votes
      if from in votes.validityVotes {
        var stored := votes.validityVotes[from];
        if stored == vote {
          return Accepted(None);
        }
        match (stored, vote)
        case (Issued(iss), Explicit(good)) => return Blamed(IssuedAndValidity((votes.candidate, iss), (digest, good)));
        case (Explicit(good), Issued(iss)) => return Blamed(IssuedAndValidity((votes.candidate, iss), (digest, good)));
        case (Issued(a), Issued(b)) => return Blamed(DoubleSignSeconded(votes.candidate, a, b));
        case (Explicit(a), Explicit(b)) => return Blamed(DoubleSignValidity(digest, a, b));
      }
      votes := votes.(validityVotes := votes.validityVotes[from := vote]);
      candidateVotes := candidateVotes[digest := votes];
      r := Accepted(Some(SummaryOf(votes, digest)));
    }

    /** Get the attested candidate for `digest`, if it exists and is includable. */
    method GetAttestedCandidate(digest: Digest, minimumBackingVotes: nat) returns (r: Option<AttestedCandidate>)
      requires Valid()
      ensures r.Some? <==> Backed(ctx, candidateVotes, digest, minimumBackingVotes)
      ensures forall k: nat, n: nat ::
                && FirstOpens(Env(ctx, config), history, k, digest)
                && VotesNeeded(ctx, history[k].group, minimumBackingVotes, n) ==>
                  (r.Some? <==> EnoughBackers(Env(ctx, config), history, digest, history[k].group, n))
      ensures r.Some? ==> exists k: nat ::
                && FirstOpens(Env(ctx, config), history, k, digest)
                && history[k].group == r.value.groupId && history[k].signed.statement == Seconded(r.value.candidate)
      ensures r.Some? ==> forall i, j :: 0 <= i < j < |r.value.validityVotes| ==>
                            r.value.validityVotes[i].0 != r.value.validityVotes[j].0
      ensures r.Some? ==> forall a, v :: (a, v) in r.value.validityVotes <==>
                HasVote(candidateVotes, digest, a) && v == AttestationOf(candidateVotes[digest].validityVotes[a])
      ensures r.Some? ==> forall a, v :: (a, v) in r.value.validityVotes ==>
                && ctx.isMemberOf(a, r.value.groupId)
                && VoteSeen(Env(ctx, config), history, a, digest,
                            if v.ImplicitVote? then Issued(v.signature) else Explicit(v.signature))
    {
      forall k: nat, n: nat | FirstOpens(Env(ctx, config), history, k, digest)
                              && VotesNeeded(ctx, history[k].group, minimumBackingVotes, n)
      {
        BackedExactly(Env(ctx, config), history, digest, k, minimumBackingVotes, n);
      }
      r := None;
      if digest in candidateVotes {
        var data := candidateVotes[digest];
        r := Attested(data, Threshold(ctx, data.groupId, minimumBackingVotes));
        ReachableLinked(Env(ctx, config), history);
        assert CandidateSeen(Env(ctx, config), history, digest, data.groupId, data.candidate);
        assert forall a <- data.validityVotes :: HasVote(candidateVotes, digest, a);
      }
    }

    /** Create a draining iterator of misbehaviors; the table forgets them at once. */
    method StartDrain() returns (it: Drain)
      requires Valid()
      modifies this
      ensures Valid() && history == old(history) + [DrainMisbehaviors]
      ensures detectedMisbehavior == map[]
      ensures authorityData == old(authorityData) && candidateVotes == old(candidateVotes)
      ensures fresh(it) && it.Valid() && NoneEmpty(it.drain)
      ensures forall a :: it.LeftFor(a) == Pending(old(detectedMisbehavior), a)
    {
      assert NoneEmpty(detectedMisbehavior) by {
        if a :| a in detectedMisbehavior { MisbehaviorConserved(Env(ctx, config), history, a); }
      }
      it := new Drain(detectedMisbehavior);
      detectedMisbehavior := map[];
      history := history + [DrainMisbehaviors];
      assert history[..|history| - 1] == old(history);
    }
  }
}

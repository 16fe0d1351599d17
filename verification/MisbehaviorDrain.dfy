/** Recorded misbehavior is never lost: what a run records is what it drained plus what is still pending, and the
    draining iterator yields everything it was given.
  */
module MisbehaviorDrain {
  import opened Wrappers
  import opened StatementTable
  import opened TableRuns
  import opened Accountability

  function Pending(dm: MisbehaviorTable, a: AuthorityId): seq<Misbehavior> {
    if a in dm then dm[a] else []
  }

  /** No stored list is empty. */
  ghost predicate NoneEmpty(dm: MisbehaviorTable) {
    forall a <- dm :: dm[a] != []
  }

  // ----- Conservation over a run -----

  /** All misbehavior the run records against `a`, in order. */
  ghost function RecordedFor(env: Env, events: seq<Event>, a: AuthorityId): seq<Misbehavior>
    decreases |events|
  {
    if events == [] || Run(env, events).Crashed? then []
    else
      var p, e := events[..|events| - 1], events[|events| - 1];
      var r := Step(env, Run(env, p).tables, e).1;
      RecordedFor(env, p, a) + if e.ImportStatement? && e.signed.sender == a && r.Blamed? then [r.misbehavior] else []
  }

  /** All misbehavior of `a` that the run hands out by draining, in order. */
  ghost function DrainedFor(env: Env, events: seq<Event>, a: AuthorityId): seq<Misbehavior>
    decreases |events|
  {
    if events == [] || Run(env, events).Crashed? then []
    else
      var p, e := events[..|events| - 1], events[|events| - 1];
      DrainedFor(env, p, a) + if e.DrainMisbehaviors? then Pending(Run(env, p).tables.detectedMisbehavior, a) else []
  }

  /** What one step does to the pending misbehavior of `a`. */
  lemma StepPending(env: Env, t: Tables, e: Event, a: AuthorityId)
    ensures var (t', r) := Step(env, t, e);
            Pending(t'.detectedMisbehavior, a) ==
              if e.DrainMisbehaviors? then []
              else Pending(t.detectedMisbehavior, a) + if e.signed.sender == a && r.Blamed? then [r.misbehavior] else []
    ensures NoneEmpty(t.detectedMisbehavior) ==> NoneEmpty(Step(env, t, e).0.detectedMisbehavior)
  {
  }

  /** Misbehavior is conserved: recorded is drained followed by pending, per authority and in order; and no list in a
      reachable table is empty. */
  lemma {:induction false} MisbehaviorConserved(env: Env, events: seq<Event>, a: AuthorityId)
    requires Run(env, events).Alive?
    ensures RecordedFor(env, events, a) ==
            DrainedFor(env, events, a) + Pending(Run(env, events).tables.detectedMisbehavior, a)
    ensures NoneEmpty(Run(env, events).tables.detectedMisbehavior)
    decreases |events|
  {
    if events != [] {
      var p, e := events[..|events| - 1], events[|events| - 1];
      MisbehaviorConserved(env, p, a);
      StepPending(env, Run(env, p).tables, e, a);
    }
  }

  lemma RecordsBefore(env: Env, events: seq<Event>, n: nat, i: nat, m: Misbehavior, a: AuthorityId)
    requires i < n <= |events|
    ensures RecordsAgainst(env, events[..n], i, m, a) <==> RecordsAgainst(env, events, i, m, a)
  {
    assert events[..n][..i] == events[..i];
  }

  ghost predicate RecordedAgainst(env: Env, events: seq<Event>, m: Misbehavior, a: AuthorityId) {
    exists i: nat :: RecordsAgainst(env, events, i, m, a)
  }

  lemma RecordedAgainstLast(env: Env, events: seq<Event>, n: nat, m: Misbehavior, a: AuthorityId)
    requires |events| == n + 1
    ensures RecordedAgainst(env, events, m, a) <==>
            RecordedAgainst(env, events[..n], m, a) || RecordsAgainst(env, events, n, m, a)
  {
    forall i: nat | i < n ensures RecordsAgainst(env, events[..n], i, m, a) <==> RecordsAgainst(env, events, i, m, a) {
      RecordsBefore(env, events, n, i, m, a);
    }
  }

  lemma RecordedLast(env: Env, events: seq<Event>, a: AuthorityId, m: Misbehavior)
    requires Run(env, events).Alive? && events != []
    ensures m in RecordedFor(env, events, a) <==>
            m in RecordedFor(env, events[..|events| - 1], a) || RecordsAgainst(env, events, |events| - 1, m, a)
  {
  }

  /** The ordered record holds exactly the misbehavior recorded at some event. */
  lemma {:induction false} RecordedExactly(env: Env, events: seq<Event>, a: AuthorityId, m: Misbehavior)
    requires Run(env, events).Alive?
    ensures m in RecordedFor(env, events, a) <==> RecordedAgainst(env, events, m, a)
    decreases |events|
  {
    if events != [] {
      RecordedExactly(env, events[..|events| - 1], a, m);
      RecordedLast(env, events, a, m);
      RecordedAgainstLast(env, events, |events| - 1, m, a);
    }
  }

  // ----- The draining iterator -----

  function Reversed<T>(s: seq<T>): seq<T> {
    if s == [] then [] else Reversed(s[1..]) + [s[0]]
  }

  /** Popping a reversed list takes the first element of the original. */
  lemma {:induction false} ReversedTwice<T>(s: seq<T>)
    ensures |Reversed(s)| == |s| && Reversed(Reversed(s)) == s
  {
    if s != [] {
      ReversedTwice(s[1..]);
      ReversedAppend(Reversed(s[1..]), s[0]);
    }
  }

  lemma {:induction false} ReversedAppend<T>(s: seq<T>, x: T)
    ensures Reversed(s + [x]) == [x] + Reversed(s)
  {
    if s != [] {
      assert (s + [x])[1..] == s[1..] + [x];
      ReversedAppend(s[1..], x);
    }
  }

  datatype MisbehaviorForAuthority = MisbehaviorForAuthority(id: AuthorityId, misbehaviors: seq<Misbehavior>)

  class Drain {
    var drain: MisbehaviorTable
    var inProgress: Option<MisbehaviorForAuthority>

    ghost predicate Valid()
      reads this
    {
      inProgress.Some? ==> inProgress.value.id !in drain
    }

    /** What is still to be yielded for `a`, in order. */
    ghost function LeftFor(a: AuthorityId): seq<Misbehavior>
      reads this
    {
      if inProgress.Some? && inProgress.value.id == a then Reversed(inProgress.value.misbehaviors)
      else Pending(drain, a)
    }

    constructor (drain: MisbehaviorTable)
      ensures Valid() && this.drain == drain
      ensures forall a :: LeftFor(a) == Pending(drain, a)
    {
      this.drain := drain;
      inProgress := None;
    }

    /** Pop the next item of the authority in progress. */
    method MaybeItem() returns (item: Option<(AuthorityId, Misbehavior)>)
      requires Valid()
      modifies this
      ensures Valid() && drain == old(drain)
      ensures item.Some? <==> old(inProgress.Some? && inProgress.value.misbehaviors != [])
      ensures item.None? ==> inProgress == old(inProgress)
      ensures item.Some? ==>
                && inProgress.Some? && inProgress.value.id == old(inProgress.value.id) == item.value.0
                && |inProgress.value.misbehaviors| < |old(inProgress.value.misbehaviors)|
                && old(LeftFor(item.value.0)) == [item.value.1] + LeftFor(item.value.0)
    {
      item := None;
      if inProgress.Some? && inProgress.value.misbehaviors != [] {
        var ms := inProgress.value.misbehaviors;
        var rest, m := ms[..|ms| - 1], ms[|ms| - 1];
        ReversedAppend(rest, m);
        assert rest + [m] == ms;
        inProgress := Some(MisbehaviorForAuthority(inProgress.value.id, rest));
        item := Some((inProgress.value.id, m));
      }
    }

    /** The next item, if any. With no empty list left to drain, nothing is returned only when nothing is left. */
    method Next() returns (item: Option<(AuthorityId, Misbehavior)>)
      requires Valid()
      modifies this
      ensures Valid()
      ensures item.Some? ==>
                var (a, m) := item.value;
                && old(LeftFor(a)) == [m] + LeftFor(a)
                && forall b :: b != a ==> LeftFor(b) == old(LeftFor(b))
      ensures item.None? ==> forall b :: LeftFor(b) == old(LeftFor(b))
      ensures item.None? && (exists a :: LeftFor(a) != []) ==> !NoneEmpty(old(drain))
      ensures NoneEmpty(old(drain)) ==> NoneEmpty(drain)
      ensures item.Some? ==>
                || |drain| < |old(drain)|
                || (&& drain == old(drain)
                    && inProgress.Some? && old(inProgress.Some?)
                    && |inProgress.value.misbehaviors| < |old(inProgress.value.misbehaviors)|)
    {
      item := MaybeItem();
      if item.None? {
        if drain == map[] {
          inProgress := None;
        } else {
          var a :| a in drain;
          ReversedTwice(drain[a]);
          inProgress := Some(MisbehaviorForAuthority(a, Reversed(drain[a])));
          drain := drain - {a};
          item := MaybeItem();
        }
      }
    }
  }

  /** The items of one authority, in order. */
  function ItemsOf(items: seq<(AuthorityId, Misbehavior)>, a: AuthorityId): seq<Misbehavior> {
    if items == [] then []
    else
      var n := |items| - 1;
      ItemsOf(items[..n], a) + if items[n].0 == a then [items[n].1] else []
  }

  lemma CollectStep(items: seq<(AuthorityId, Misbehavior)>, item: (AuthorityId, Misbehavior), a: AuthorityId,
                    left: seq<Misbehavior>, left': seq<Misbehavior>, all: seq<Misbehavior>)
    requires ItemsOf(items, a) + left == all
    requires left == (if item.0 == a then [item.1] else []) + left'
    ensures ItemsOf(items + [item], a) + left' == all
  {
    assert (items + [item])[..|items|] == items;
  }

  /** Run the iterator to its end: nothing is lost, added or reordered; and with no empty list to drain, every item
      comes out, once, in its authority's order. */
  method Collect(it: Drain) returns (items: seq<(AuthorityId, Misbehavior)>)
    requires it.Valid()
    modifies it
    ensures forall a :: ItemsOf(items, a) + it.LeftFor(a) == old(it.LeftFor(a))
    ensures old(NoneEmpty(it.drain)) ==> forall a :: it.LeftFor(a) == [] && ItemsOf(items, a) == old(it.LeftFor(a))
  {
    items := [];
    while true
      invariant it.Valid() && (old(NoneEmpty(it.drain)) ==> NoneEmpty(it.drain))
      invariant forall a :: ItemsOf(items, a) + it.LeftFor(a) == old(it.LeftFor(a))
      decreases |it.drain|, if it.inProgress.Some? then |it.inProgress.value.misbehaviors| else 0
    {
      label before:
      var item := it.Next();
      if item.None? {
        return;
      }
      forall a ensures ItemsOf(items + [item.value], a) + it.LeftFor(a) == old(it.LeftFor(a)) {
        CollectStep(items, item.value, a, old@before(it.LeftFor(a)), it.LeftFor(a), old(it.LeftFor(a)));
      }
      items := items + [item.value];
    }
  }
}

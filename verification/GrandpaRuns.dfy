/** Whole runs of the GRANDPA light client: the sliding window of headers, the chain of trust from the initial
    authority set, and the accounting of free headers.
  */
module GrandpaRuns {
  import opened Wrappers
  import opened RingWindow
  import opened GrandpaPallet

  datatype Event =
    | BlockStart
    | BlockEnd
    | SubmitCall(signed: bool, header: Header, justification: Justification, setId: Option<nat>)
    | InitializeCall(ownerOrRoot: bool, init: InitializationData)
    | SetOperatingMode(ownerOrRoot: bool, halted: bool)

  /** A header in the store, and how it got there. */
  datatype Import =
    | Initial(header: Header, trusted: AuthoritySet)
    | Proven(header: Header, justification: Justification, pays: Pays)

  /** The storage together with the history it cannot see: all imports so far, and the imports of the current block
      (none when outside of a block). */
  datatype Trace = Trace(storage: Storage, imports: seq<Import>, block: Option<seq<Import>>)

  function Step(cfg: Config, t: Trace, e: Event): Trace
    requires cfg.headersToKeep > 0
  {
    var s := t.storage;
    match e
    case BlockStart => t.(storage := s.(freeHeadersRemaining := Some(cfg.maxFreeHeadersPerBlock)), block := Some([]))
    case BlockEnd => t.(storage := s.(freeHeadersRemaining := None), block := None)
    case SubmitCall(signed, header, j, setId) =>
      var (s', r) := Submit(cfg, s, signed, header, j, NamedSetId(s, setId));
      if r.Err? then t.(storage := s')
      else
        var i := Proven(header, j, r.value);
        Trace(s', t.imports + [i], if t.block.Some? then Some(t.block.value + [i]) else None)
    case InitializeCall(ownerOrRoot, init) =>
      var (s', r) := Initialize(cfg, s, ownerOrRoot, init);
      if r.Err? then t.(storage := s')
      else
        var trusted := AuthoritySet(init.authorityList, init.setId);
        t.(storage := s', imports := t.imports + [Initial(init.header, trusted)])
    case SetOperatingMode(ownerOrRoot, halted) =>
      if ownerOrRoot then t.(storage := s.(halted := halted)) else t
  }

  function Run(cfg: Config, events: seq<Event>): Trace
    requires cfg.headersToKeep > 0
    decreases |events|
  {
    if events == [] then Trace(GENESIS_STORAGE, [], None)
    else Step(cfg, Run(cfg, events[..|events| - 1]), events[|events| - 1])
  }

  lemma RunStep(cfg: Config, events: seq<Event>, e: Event)
    requires cfg.headersToKeep > 0
    ensures Run(cfg, events + [e]) == Step(cfg, Run(cfg, events), e)
  {
    assert (events + [e])[..|events|] == events;
  }

  // ----- The window of headers -----

  /** Among the imported headers, equal hashes mean equal numbers. */
  ghost predicate HashesIdentifyNumbers(cfg: Config, imports: seq<Import>) {
    forall i, j :: 0 <= i < |imports| && 0 <= j < |imports|
                   && cfg.hash(imports[i].header) == cfg.hash(imports[j].header) ==>
      imports[i].header.number == imports[j].header.number
  }

  function Entry(cfg: Config, h: Header): (Hash, StoredHeader) {
    (cfg.hash(h), StoredHeader(h.number, h.stateRoot))
  }

  function Entries(cfg: Config, imports: seq<Import>): seq<(Hash, StoredHeader)> {
    seq(|imports|, i requires 0 <= i < |imports| => Entry(cfg, imports[i].header))
  }

  ghost predicate Increasing(imports: seq<Import>) {
    forall i, j :: 0 <= i < j < |imports| ==> imports[i].header.number < imports[j].header.number
  }

  /** The best finalized header is the last one imported. */
  predicate BestIsLast(cfg: Config, t: Trace) {
    t.storage.bestFinalized ==
      if t.imports == [] then None
      else var h := t.imports[|t.imports| - 1].header; Some(HeaderId(h.number, cfg.hash(h)))
  }

  ghost predicate Windowed(cfg: Config, t: Trace)
    requires cfg.headersToKeep > 0
  {
    && Increasing(t.imports)
    && BestIsLast(cfg, t)
    && IsWindow(cfg.headersToKeep, Entries(cfg, t.imports), t.storage.imported)
  }

  /** Importing a header above the best one slides the window. */
  lemma ImportSlides(cfg: Config, t: Trace, s: Storage, i: Import)
    requires cfg.headersToKeep > 0 && HashesIdentifyNumbers(cfg, t.imports + [i])
    requires Windowed(cfg, t)
    requires t.imports != [] ==> t.imports[|t.imports| - 1].header.number < i.header.number
    requires s.imported == t.storage.imported
    ensures var s' := InsertHeader(cfg, s, i.header);
            && Increasing(t.imports + [i])
            && IsWindow(cfg.headersToKeep, Entries(cfg, t.imports + [i]), s'.imported)
            && cfg.hash(i.header) in s'.imported.entries
  {
    var imports := t.imports + [i];
    assert Increasing(imports) by {
      forall a, b | 0 <= a < b < |imports| ensures imports[a].header.number < imports[b].header.number {
        if b == |t.imports| && a < b - 1 { assert t.imports[a].header.number < t.imports[b - 1].header.number; }
      }
    }
    var (k, v) := Entry(cfg, i.header);
    assert Entries(cfg, imports) == Entries(cfg, t.imports) + [(k, v)];
    assert DistinctKeys(Entries(cfg, imports));
    InsertSlides(cfg.headersToKeep, Entries(cfg, t.imports), t.storage.imported, k, v);
  }

  /** A step either imports nothing, and then leaves headers and authorities alone, or imports one header. */
  lemma StepShape(cfg: Config, t: Trace, e: Event)
    requires cfg.headersToKeep > 0
    ensures var t' := Step(cfg, t, e);
            || (&& t'.imports == t.imports
                && t'.storage.bestFinalized == t.storage.bestFinalized && t'.storage.imported == t.storage.imported
                && t'.storage.currentAuthoritySet == t.storage.currentAuthoritySet)
            || (&& |t'.imports| == |t.imports| + 1 && t'.imports[..|t.imports|] == t.imports
                && (e.SubmitCall? || e.InitializeCall?)
                && t'.imports[|t.imports|].header == (if e.SubmitCall? then e.header else e.init.header))
  {
  }

  lemma SubmitWindowed(cfg: Config, t: Trace, e: Event)
    requires cfg.headersToKeep > 0 && HashesIdentifyNumbers(cfg, Step(cfg, t, e).imports)
    requires Windowed(cfg, t)
    requires e.SubmitCall? && |Step(cfg, t, e).imports| > |t.imports|
    ensures Windowed(cfg, Step(cfg, t, e))
  {
    var t' := Step(cfg, t, e);
    var i := t'.imports[|t.imports|];
    assert t'.imports == t.imports + [i] && i.header == e.header;
    assert t'.storage.imported == InsertHeader(cfg, t.storage, i.header).imported;
    ImportSlides(cfg, t, t.storage, i);
  }

  lemma InitializeWindowed(cfg: Config, t: Trace, e: Event)
    requires cfg.headersToKeep > 0 && HashesIdentifyNumbers(cfg, Step(cfg, t, e).imports)
    requires Windowed(cfg, t)
    requires e.InitializeCall? && |Step(cfg, t, e).imports| > |t.imports|
    ensures Windowed(cfg, Step(cfg, t, e))
  {
    var t' := Step(cfg, t, e);
    var i := t'.imports[|t.imports|];
    assert t.imports == [] && t'.imports == t.imports + [i];
    ModuloFacts(0, cfg.headersToKeep);
    assert t.storage.imported.(next := 0) == t.storage.imported;
    assert t'.storage.imported == InsertHeader(cfg, t.storage, i.header).imported;
    ImportSlides(cfg, t, t.storage, i);
  }

  lemma StepWindowed(cfg: Config, t: Trace, e: Event)
    requires cfg.headersToKeep > 0 && HashesIdentifyNumbers(cfg, Step(cfg, t, e).imports)
    requires Windowed(cfg, t)
    ensures Windowed(cfg, Step(cfg, t, e))
  {
    StepShape(cfg, t, e);
    if |Step(cfg, t, e).imports| > |t.imports| {
      if e.SubmitCall? { SubmitWindowed(cfg, t, e); } else { InitializeWindowed(cfg, t, e); }
    }
  }

  /** In every run the stored headers are exactly the last `headersToKeep` imported ones, the pointer is the number of
      imports modulo `headersToKeep`, imported numbers strictly increase, and the best header is always stored. */
  lemma {:induction false} HeadersWindow(cfg: Config, events: seq<Event>)
    requires cfg.headersToKeep > 0 && HashesIdentifyNumbers(cfg, Run(cfg, events).imports)
    ensures Windowed(cfg, Run(cfg, events))
    ensures var s := Run(cfg, events).storage;
            s.bestFinalized.Some? ==> s.bestFinalized.value.hash in s.imported.entries
    decreases |events|
  {
    if events == [] {
      EmptyIsWindow<Hash, StoredHeader>(cfg.headersToKeep);
      assert Entries(cfg, []) == [];
    } else {
      var p, e := events[..|events| - 1], events[|events| - 1];
      var t := Run(cfg, events);
      StepShape(cfg, Run(cfg, p), e);
      assert Run(cfg, p).imports <= t.imports;
      HeadersWindow(cfg, p);
      StepWindowed(cfg, Run(cfg, p), e);
      if t.imports != [] {
        assert Recent(cfg.headersToKeep, |Entries(cfg, t.imports)|, |t.imports| - 1);
      }
    }
  }

  /** In every run at most `headersToKeep` headers are stored, and the ring lists exactly their hashes, each once. */
  lemma HeadersListed(cfg: Config, events: seq<Event>)
    requires cfg.headersToKeep > 0 && HashesIdentifyNumbers(cfg, Run(cfg, events).imports)
    ensures var t := Run(cfg, events);
            && ListsKeys(t.storage.imported)
            && |t.storage.imported.entries|
               == (if |t.imports| < cfg.headersToKeep then |t.imports| else cfg.headersToKeep)
  {
    HeadersWindow(cfg, events);
    WindowListed(cfg, Run(cfg, events));
  }

  lemma WindowListed(cfg: Config, t: Trace)
    requires cfg.headersToKeep > 0 && HashesIdentifyNumbers(cfg, t.imports)
    requires Windowed(cfg, t)
    ensures ListsKeys(t.storage.imported)
    ensures |t.storage.imported.entries| == if |t.imports| < cfg.headersToKeep then |t.imports| else cfg.headersToKeep
  {
    var h := Entries(cfg, t.imports);
    assert DistinctKeys(h);
    WindowBound(cfg.headersToKeep, h, t.storage.imported);
    WindowListsKeys(cfg.headersToKeep, h, t.storage.imported);
  }

  // ----- The chain of trust -----

  /** The set that a header leaves in charge: the one that its first scheduled change names, with the next id. */
  ghost function SetAfter(before: AuthoritySet, digest: seq<DigestItem>): AuthoritySet {
    if exists i: nat :: FirstScheduled(digest, i) then
      var i: nat :| FirstScheduled(digest, i);
      AuthoritySet(digest[i].change.nextAuthorities, (before.setId + 1) % U64_MODULUS)
    else before
  }

  /** The set that `imports` leave in charge: the initial one, replaced by each scheduled change in turn. */
  ghost function TrustedSet(imports: seq<Import>): AuthoritySet {
    if imports == [] then AuthoritySet([], 0)
    else
      var n := |imports| - 1;
      match imports[n]
      case Initial(_, trusted) => trusted
      case Proven(header, _, _) => SetAfter(TrustedSet(imports[..n]), header.digest)
  }

  /** The first scheduled change of the digest, if any, has no delay and fits the limit. */
  ghost predicate SupportedSchedule(cfg: Config, digest: seq<DigestItem>) {
    forall i: nat :: FirstScheduled(digest, i) ==>
      digest[i].change.delay == 0 && |digest[i].change.nextAuthorities| <= cfg.maxAuthorities
  }

  /** What the reader finds, in terms of the digest. */
  lemma ScheduleRead(cfg: Config, digest: seq<DigestItem>)
    ensures SupportedSchedule(cfg, digest) <==>
            match FindScheduledChange(digest)
            case None => true
            case Some(change) => change.delay == 0 && |change.nextAuthorities| <= cfg.maxAuthorities
  {
    NoScheduledChange(digest);
    forall i: nat | FirstScheduled(digest, i) { ScheduledChangeSeen(digest, i); }
  }

  lemma SetAfterRead(before: AuthoritySet, digest: seq<DigestItem>)
    ensures SetAfter(before, digest) ==
            match FindScheduledChange(digest)
            case None => before
            case Some(change) => AuthoritySet(change.nextAuthorities, (before.setId + 1) % U64_MODULUS)
  {
    NoScheduledChange(digest);
    forall i: nat | FirstScheduled(digest, i) { ScheduledChangeSeen(digest, i); }
  }

  /** A digest with a scheduled change moves on to the next set id, any other one leaves the set alone. */
  lemma SetIdAfter(before: AuthoritySet, digest: seq<DigestItem>)
    ensures CarriesChange(digest) ==> SetAfter(before, digest).setId == (before.setId + 1) % U64_MODULUS
    ensures !CarriesChange(digest) ==> SetAfter(before, digest) == before
  {
    NoScheduledChange(digest);
    SetAfterRead(before, digest);
  }

  /** Import `i` was proven by the authorities in charge at that time, and changes them only in the supported way. */
  ghost predicate Trusted(cfg: Config, imports: seq<Import>, i: nat)
    requires i < |imports|
  {
    match imports[i]
    case Initial(_, set_) => i == 0 && |set_.authorities| <= cfg.maxAuthorities
    case Proven(header, j, _) =>
      && i > 0
      && cfg.wellFormed(TrustedSet(imports[..i]))
      && cfg.justifies(j, HeaderId(header.number, cfg.hash(header)), TrustedSet(imports[..i]))
      && !ForcedFirst(header.digest)
      && SupportedSchedule(cfg, header.digest)
  }

  ghost predicate ChainOfTrust(cfg: Config, t: Trace) {
    && (t.storage.bestFinalized.Some? <==> t.imports != [])
    && t.storage.currentAuthoritySet == TrustedSet(t.imports)
    && forall i: nat :: i < |t.imports| ==> Trusted(cfg, t.imports, i)
  }

  lemma TrustedStays(cfg: Config, imports: seq<Import>, i: Import)
    requires forall k: nat :: k < |imports| ==> Trusted(cfg, imports, k)
    ensures forall k: nat :: k < |imports| ==> Trusted(cfg, imports + [i], k)
  {
    forall k: nat | k < |imports| ensures Trusted(cfg, imports + [i], k) {
      assert Trusted(cfg, imports, k);
      assert (imports + [i])[..k] == imports[..k];
    }
  }

  /** A call that imports a header imports a trusted one. */
  lemma SubmitTrusted(cfg: Config, t: Trace, s: Storage, i: Import, signed: bool, setId: nat)
    requires cfg.headersToKeep > 0
    requires ChainOfTrust(cfg, t) && i.Proven?
    requires Submit(cfg, t.storage, signed, i.header, i.justification, setId) == (s, Ok(i.pays))
    ensures ChainOfTrust(cfg, Trace(s, t.imports + [i], t.block))
  {
    TrustedStays(cfg, t.imports, i);
    ForcedChangeSeen(i.header.digest);
    ScheduleRead(cfg, i.header.digest);
    SetAfterRead(t.storage.currentAuthoritySet, i.header.digest);
    assert (t.imports + [i])[..|t.imports|] == t.imports;
    assert Trusted(cfg, t.imports + [i], |t.imports|);
  }

  lemma InitializeTrusted(cfg: Config, t: Trace, s: Storage, ownerOrRoot: bool, init: InitializationData)
    requires cfg.headersToKeep > 0
    requires ChainOfTrust(cfg, t)
    requires Initialize(cfg, t.storage, ownerOrRoot, init) == (s, Ok(()))
    ensures var i := Initial(init.header, AuthoritySet(init.authorityList, init.setId));
            ChainOfTrust(cfg, Trace(s, t.imports + [i], t.block))
  {
    var imports := t.imports + [Initial(init.header, AuthoritySet(init.authorityList, init.setId))];
    assert |imports| == 1 && Trusted(cfg, imports, 0);
  }

  lemma StepTrusted(cfg: Config, t: Trace, e: Event)
    requires cfg.headersToKeep > 0
    requires ChainOfTrust(cfg, t)
    ensures ChainOfTrust(cfg, Step(cfg, t, e))
  {
    StepShape(cfg, t, e);
    var t' := Step(cfg, t, e);
    if |t'.imports| > |t.imports| {
      if e.SubmitCall? {
        SubmitTrusted(cfg, t, t'.storage, t'.imports[|t.imports|], e.signed, NamedSetId(t.storage, e.setId));
      } else {
        InitializeTrusted(cfg, t, t'.storage, e.ownerOrRoot, e.init);
      }
    }
  }

  /** In every run each header after the initial one was proven by the set that the initial set and the scheduled
      changes of the headers before it put in charge. */
  lemma {:induction false} EveryImportTrusted(cfg: Config, events: seq<Event>)
    requires cfg.headersToKeep > 0
    ensures ChainOfTrust(cfg, Run(cfg, events))
    decreases |events|
  {
    if events != [] {
      EveryImportTrusted(cfg, events[..|events| - 1]);
      StepTrusted(cfg, Run(cfg, events[..|events| - 1]), events[|events| - 1]);
    }
  }

  ghost predicate CarriesChange(digest: seq<DigestItem>) {
    exists i :: 0 <= i < |digest| && digest[i].Scheduled?
  }

  /** How many of the imports changed the authorities. */
  ghost function Changes(imports: seq<Import>): nat {
    if imports == [] then 0
    else
      var n := |imports| - 1;
      Changes(imports[..n]) + if imports[n].Proven? && CarriesChange(imports[n].header.digest) then 1 else 0
  }

  lemma TrustedPrefix(cfg: Config, imports: seq<Import>, n: nat)
    requires n <= |imports|
    requires forall i: nat :: i < |imports| ==> Trusted(cfg, imports, i)
    ensures forall i: nat :: i < n ==> Trusted(cfg, imports[..n], i)
  {
    forall i: nat | i < n ensures Trusted(cfg, imports[..n], i) {
      assert Trusted(cfg, imports, i);
      assert imports[..n][..i] == imports[..i];
    }
  }

  lemma NextSetId(initial: nat, before: seq<Import>, i: Import)
    requires i.Proven? && TrustedSet(before).setId == (initial + Changes(before)) % U64_MODULUS
    ensures TrustedSet(before + [i]).setId == (initial + Changes(before + [i])) % U64_MODULUS
  {
    assert (before + [i])[..|before|] == before;
    SetIdAfter(TrustedSet(before), i.header.digest);
    NextModulo(initial + Changes(before), TrustedSet(before).setId, U64_MODULUS);
  }

  lemma {:induction false} SetIdOfImports(cfg: Config, imports: seq<Import>)
    requires imports != []
    requires forall i: nat :: i < |imports| ==> Trusted(cfg, imports, i)
    requires imports[0].Initial? && imports[0].trusted.setId < U64_MODULUS
    ensures TrustedSet(imports).setId == (imports[0].trusted.setId + Changes(imports)) % U64_MODULUS
  {
    var n := |imports| - 1;
    if n == 0 {
      assert Changes(imports[..0]) == 0;
    } else {
      TrustedPrefix(cfg, imports, n);
      assert Trusted(cfg, imports, n);
      SetIdOfImports(cfg, imports[..n]);
      NextSetId(imports[0].trusted.setId, imports[..n], imports[n]);
      assert imports == imports[..n] + [imports[n]];
    }
  }

  lemma SetIdInChain(cfg: Config, t: Trace)
    requires ChainOfTrust(cfg, t) && t.imports != []
    ensures t.imports[0].Initial?
    ensures t.imports[0].trusted.setId < U64_MODULUS ==>
              t.storage.currentAuthoritySet.setId == (t.imports[0].trusted.setId + Changes(t.imports)) % U64_MODULUS
  {
    assert Trusted(cfg, t.imports, 0);
    if t.imports[0].trusted.setId < U64_MODULUS { SetIdOfImports(cfg, t.imports); }
  }

  /** The stored set id is the initial id plus the number of imported changes, modulo 2^64; so it is that sum as long
      as the sum fits. */
  lemma SetIdCounts(cfg: Config, events: seq<Event>)
    requires cfg.headersToKeep > 0
    ensures var t := Run(cfg, events);
            t.imports != [] ==>
              && t.imports[0].Initial?
              && var initial := t.imports[0].trusted.setId;
                 initial < U64_MODULUS ==>
                   t.storage.currentAuthoritySet.setId == (initial + Changes(t.imports)) % U64_MODULUS
  {
    EveryImportTrusted(cfg, events);
    if Run(cfg, events).imports != [] { SetIdInChain(cfg, Run(cfg, events)); }
  }

  // ----- Forced changes -----

  /** The call passes every check but the one for forced changes. */
  ghost predicate OtherwisePasses(cfg: Config, s: Storage, signed: bool, header: Header, j: Justification, setId: nat) {
    && !s.halted && signed
    && CheckObsolete(s, header.number, Some(setId)).Ok?
    && VerifyJustification(cfg, j, HeaderId(header.number, cfg.hash(header)), s.currentAuthoritySet).Ok?
    && SupportedSchedule(cfg, header.digest)
  }

  /** A call that passes every other check is rejected as an unsupported change exactly when the first GRANDPA log of
      its header is a forced change, and is accepted otherwise. */
  lemma ForcedChangeRejectedExactly(cfg: Config, s: Storage, signed: bool, header: Header, j: Justification, setId: nat)
    requires cfg.headersToKeep > 0
    requires OtherwisePasses(cfg, s, signed, header, j, setId)
    ensures var r := Submit(cfg, s, signed, header, j, setId).1;
            && (r == Err(UnsupportedScheduledChange) <==> ForcedFirst(header.digest))
            && (r.Ok? <==> !ForcedFirst(header.digest))
  {
    ForcedChangeSeen(header.digest);
    ScheduleRead(cfg, header.digest);
  }

  /** So a forced change behind another GRANDPA log does pass: such a header is imported, with its change ignored. */
  lemma ForcedChangeBehindLog(cfg: Config, s: Storage, header: Header, j: Justification, setId: nat,
                              median: nat, change: ScheduledChange)
    requires cfg.headersToKeep > 0
    requires header.digest == [OtherGrandpaLog, Forced(median, change)]
    requires OtherwisePasses(cfg, s, true, header, j, setId)
    ensures var (s', r) := Submit(cfg, s, true, header, j, setId);
            && r.Ok? && s'.currentAuthoritySet == s.currentAuthoritySet
            && s'.bestFinalized == Some(HeaderId(header.number, cfg.hash(header)))
  {
    ForcedChangeRejectedExactly(cfg, s, true, header, j, setId);
    assert header.digest[0] == OtherGrandpaLog && !ForcedFirst(header.digest);
    NoScheduledChange(header.digest);
  }

  /** In every run, a header imported after initialization carries a forced change only behind another GRANDPA log. */
  lemma ForcedChangesOnlyBehindLogs(cfg: Config, events: seq<Event>, n: nat)
    requires cfg.headersToKeep > 0
    requires n < |Run(cfg, events).imports| && Run(cfg, events).imports[n].Proven?
    ensures var digest := Run(cfg, events).imports[n].header.digest;
            forall i :: 0 <= i < |digest| && digest[i].Forced? ==>
              exists k :: 0 <= k < i && (digest[k].Scheduled? || digest[k].OtherGrandpaLog?)
  {
    EveryImportTrusted(cfg, events);
    var digest := Run(cfg, events).imports[n].header.digest;
    assert Trusted(cfg, Run(cfg, events).imports, n);
    ForcedChangeSeen(digest);
    forall i | 0 <= i < |digest| && digest[i].Forced?
      ensures exists k :: 0 <= k < i && (digest[k].Scheduled? || digest[k].OtherGrandpaLog?)
    {
      var j := FirstForced(digest, i);
      var k :| 0 <= k < j && !digest[k].ForeignItem?;
    }
  }

  lemma FirstForced(digest: seq<DigestItem>, i: nat) returns (j: nat)
    requires i < |digest| && digest[i].Forced?
    ensures j <= i && digest[j].Forced? && forall k :: 0 <= k < j ==> !digest[k].Forced?
  {
    if k :| 0 <= k < i && digest[k].Forced? { j := FirstForced(digest, k); } else { j := i; }
  }

  // ----- Free headers -----

  function FreeImports(imports: seq<Import>): nat {
    if imports == [] then 0
    else
      var n := |imports| - 1;
      FreeImports(imports[..n]) + if imports[n].Proven? && imports[n].pays == PaysNo then 1 else 0
  }

  /** In a block the free slots and the refunded imports of that block add up to the maximum; outside there are no
      slots. */
  predicate SlotsAccounted(cfg: Config, t: Trace) {
    match t.block
    case None => t.storage.freeHeadersRemaining == None
    case Some(imports) =>
      && t.storage.freeHeadersRemaining.Some?
      && t.storage.freeHeadersRemaining.value + FreeImports(imports) == cfg.maxFreeHeadersPerBlock
  }

  lemma FreeImportsAppend(imports: seq<Import>, i: Import)
    ensures FreeImports(imports + [i]) == FreeImports(imports) + if i.Proven? && i.pays == PaysNo then 1 else 0
  {
    assert (imports + [i])[..|imports|] == imports;
  }

  lemma StepSlots(cfg: Config, t: Trace, e: Event)
    requires cfg.headersToKeep > 0
    requires SlotsAccounted(cfg, t)
    ensures SlotsAccounted(cfg, Step(cfg, t, e))
  {
    if e.SubmitCall? && t.block.Some? {
      FreeImportsAppend(t.block.value, Proven(e.header, e.justification, PaysNo));
      FreeImportsAppend(t.block.value, Proven(e.header, e.justification, PaysYes));
    }
  }

  /** In every run no block refunds more than the maximum, and an import outside of a block is never refunded. */
  lemma {:induction false} FreeHeadersAccounted(cfg: Config, events: seq<Event>)
    requires cfg.headersToKeep > 0
    ensures SlotsAccounted(cfg, Run(cfg, events))
    decreases |events|
  {
    if events != [] {
      FreeHeadersAccounted(cfg, events[..|events| - 1]);
      StepSlots(cfg, Run(cfg, events[..|events| - 1]), events[|events| - 1]);
    }
  }

  lemma OutsideBlockPays(cfg: Config, events: seq<Event>, e: Event)
    requires cfg.headersToKeep > 0
    requires Run(cfg, events).block.None?
    ensures FreeImports(Step(cfg, Run(cfg, events), e).imports) == FreeImports(Run(cfg, events).imports)
  {
    FreeHeadersAccounted(cfg, events);
    var t := Run(cfg, events);
    var t' := Step(cfg, t, e);
    if |t'.imports| > |t.imports| { assert t'.imports[..|t.imports|] == t.imports; }
  }
}

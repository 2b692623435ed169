/**
  The reporter's cycle against concurrent updaters (src/reporter.cc, `ReportMetadata`):
  snapshot, send every request, and only then purge.  Each locked store operation and each
  request is one step; a run is any interleaving of those steps with the updaters' operations.
 */
module ReportCycle {
  import opened Wrappers
  import opened Sequences
  import opened Store
  import opened Packing

  /** `render` gives the JSON text of an entry; it depends on the resource and the metadata only. */
  datatype Config = Config(limits: Limits, purgeDeleted: bool, render: (Resource, Metadata) -> string)

  function ItemOf(r: Resource, m: Metadata, cfg: Config): Item {
    Item(r, m, cfg.render(r, m))
  }

  /** The entries of a snapshot in map order. */
  function Items(snapshot: map<Resource, Metadata>, cfg: Config): seq<Item> {
    var rs := ResourcesInOrder(snapshot.Keys);
    seq(|rs|, i requires 0 <= i < |rs| => assert rs[i] in rs; ItemOf(rs[i], snapshot[rs[i]], cfg))
  }

  lemma ItemsAreEntries(snapshot: map<Resource, Metadata>, cfg: Config, r: Resource, m: Metadata)
    ensures ItemOf(r, m, cfg) in Items(snapshot, cfg) <==> r in snapshot && snapshot[r] == m
  {
    var rs := ResourcesInOrder(snapshot.Keys);
    if r in snapshot {
      assert r in rs;
      var i :| 0 <= i < |rs| && rs[i] == r;
      assert Items(snapshot, cfg)[i] == ItemOf(r, snapshot[r], cfg);
    }
  }

  // ---------------------------------------------------------------- what a snapshot comes to

  /** The entry as it is sent, if it fits a request of its own. */
  predicate Sendable(entries: map<Resource, Metadata>, r: Resource, cfg: Config) {
    r in entries && |Body([ItemOf(r, entries[r], cfg)])| <= cfg.limits.bytes
  }

  /**
    `sent` holds entries that fit, each once, upwards in the order of their resources, and with none
    left out in between.
   */
  ghost predicate ReportsInOrder(sent: seq<Item>, entries: map<Resource, Metadata>, cfg: Config) {
    && (forall i, j :: 0 <= i < j < |sent| ==> ResourceLess(sent[i].resource, sent[j].resource))
    && (forall i :: 0 <= i < |sent| ==>
          && Sendable(entries, sent[i].resource, cfg)
          && sent[i] == Item(sent[i].resource, entries[sent[i].resource],
                             cfg.render(sent[i].resource, entries[sent[i].resource])))
    && (forall r, i :: 0 <= i < |sent| && Sendable(entries, r, cfg) && ResourceLess(r, sent[i].resource) ==>
          Mentions(sent, r))
  }

  ghost predicate Mentions(sent: seq<Item>, r: Resource) {
    exists i :: 0 <= i < |sent| && sent[i].resource == r
  }

  ghost predicate ReportsAll(sent: seq<Item>, entries: map<Resource, Metadata>, cfg: Config) {
    forall r :: Sendable(entries, r, cfg) ==> Mentions(sent, r)
  }

  ghost predicate Upwards(items: seq<Item>) {
    forall i, j :: 0 <= i < j < |items| ==> ResourceLess(items[i].resource, items[j].resource)
  }

  lemma ItemsUpwards(snapshot: map<Resource, Metadata>, cfg: Config)
    ensures Upwards(Items(snapshot, cfg))
    ensures forall x :: x in Items(snapshot, cfg) ==>
      x.resource in snapshot && x == ItemOf(x.resource, snapshot[x.resource], cfg)
  {
    ResourcesInOrderIncreasing(snapshot.Keys);
    var rs := ResourcesInOrder(snapshot.Keys);
    forall i | 0 <= i < |rs| ensures rs[i] in snapshot { assert rs[i] in rs; }
  }

  lemma {:induction false} SurvivorsUpwards(items: seq<Item>, limits: Limits)
    requires Upwards(items)
    ensures Upwards(Survivors(items, limits))
    decreases |items|
  {
    if items != [] {
      var n := |items| - 1;
      SurvivorsUpwards(items[..n], limits);
      SurvivorsFit(items[..n], limits);
      var front := Survivors(items[..n], limits);
      forall i | 0 <= i < |front| ensures ResourceLess(front[i].resource, items[n].resource) {
        assert front[i] in items[..n];
        var k :| 0 <= k < n && items[..n][k] == front[i];
      }
    }
  }

  lemma SendableFits(x: Item, limits: Limits)
    ensures |Body([x])| <= limits.bytes <==> FitsAlone(x, limits)
  {
    JoinedLength([x]);
    SingleSize(x);
  }

  /** Whatever was accepted reports entries of the snapshot in order, and all of them if nothing was refused. */
  lemma AcceptedReports(snapshot: map<Resource, Metadata>, cfg: Config, accepted: seq<seq<Item>>)
    requires accepted <= Plan(snapshot, cfg)
    ensures ReportsInOrder(Flatten(accepted), snapshot, cfg)
    ensures accepted == Plan(snapshot, cfg) ==> ReportsAll(Flatten(accepted), snapshot, cfg)
  {
    var items := Items(snapshot, cfg);
    var all, sent := Survivors(items, cfg.limits), Flatten(accepted);
    ItemsUpwards(snapshot, cfg);
    SurvivorsUpwards(items, cfg.limits);
    SurvivorsFit(items, cfg.limits);
    AcceptedConserves(items, cfg.limits, accepted);
    forall i | 0 <= i < |sent| ensures sent[i] in items && sent[i] == all[i] && FitsAlone(sent[i], cfg.limits) {
      assert sent[i] == all[i] && all[i] in all;
    }
    forall i | 0 <= i < |sent| ensures Sendable(snapshot, sent[i].resource, cfg) {
      var k :| 0 <= k < |items| && items[k] == sent[i];
      SendableFits(sent[i], cfg.limits);
    }
    forall r | Sendable(snapshot, r, cfg) ensures exists k :: 0 <= k < |all| && all[k].resource == r {
      ListedIfSendable(snapshot, cfg, r);
      var x := ItemOf(r, snapshot[r], cfg);
      var k :| 0 <= k < |all| && all[k] == x;
    }
    ResourceLessStrictTotal();
    forall r, i | 0 <= i < |sent| && Sendable(snapshot, r, cfg) && ResourceLess(r, sent[i].resource)
      ensures Mentions(sent, r)
    {
      var k :| 0 <= k < |all| && all[k].resource == r;
      EarlierComesFirst(all, k, i);
      assert sent[k].resource == r;
    }
  }

  lemma ListedIfSendable(snapshot: map<Resource, Metadata>, cfg: Config, r: Resource)
    requires Sendable(snapshot, r, cfg)
    ensures ItemOf(r, snapshot[r], cfg) in Survivors(Items(snapshot, cfg), cfg.limits)
  {
    ItemsAreEntries(snapshot, cfg, r, snapshot[r]);
    SurvivorsFit(Items(snapshot, cfg), cfg.limits);
    SendableFits(ItemOf(r, snapshot[r], cfg), cfg.limits);
  }

  lemma EarlierComesFirst(items: seq<Item>, k: nat, i: nat)
    requires Upwards(items) && k < |items| && i < |items| && ResourceLess(items[k].resource, items[i].resource)
    ensures k < i
  {
    ResourceLessStrictTotal();
  }

  /** The requests that report a snapshot. */
  function Plan(snapshot: map<Resource, Metadata>, cfg: Config): seq<seq<Item>> {
    Requests(Items(snapshot, cfg), cfg.limits)
  }

  // ---------------------------------------------------------------- the machine

  datatype Phase = Idle | Sending(sent: nat) | Purging

  /** A purged entry and the cycle whose purge took it. */
  datatype Erasure = Erasure(cycle: nat, resource: Resource, entry: Metadata)

  /** One reporting cycle: its snapshot, the requests to send, and those the server has accepted. */
  datatype Cycle = Cycle(snapshot: map<Resource, Metadata>, plan: seq<seq<Item>>, accepted: seq<seq<Item>>)

  datatype System = System(
    store: Store.State,
    phase: Phase,
    cycles: seq<Cycle>,
    erased: set<Erasure>)

  const START := System(EMPTY, Idle, [], {})

  datatype Step =
    | Updater(op: Op)
    | Snapshot
    | Accept
    | Refuse
    | Finish
    | Purge

  function Current(s: System): Cycle
    requires s.cycles != []
  {
    s.cycles[|s.cycles| - 1]
  }

  function Erased(entries: map<Resource, Metadata>, cycle: nat): set<Erasure> {
    set r | r in entries && entries[r].isDeleted :: Erasure(cycle, r, entries[r])
  }

  /** The step's effect, or None when it cannot happen now. */
  function Next(s: System, step: Step, cfg: Config): Option<System> {
    match step
    case Updater(op) =>
      if op.PurgeDeleted? then None else Some(s.(store := Apply(s.store, op)))
    case Snapshot =>
      if s.phase.Idle? then
        Some(s.(phase := Sending(0), cycles := s.cycles + [Cycle(s.store.entries, Plan(s.store.entries, cfg), [])]))
      else None
    case Accept =>
      if s.phase.Sending? && s.cycles != [] && s.phase.sent < |Current(s).plan| then
        var c := Current(s);
        Some(s.(phase := Sending(s.phase.sent + 1),
                cycles := s.cycles[..|s.cycles| - 1] +
                  [c.(accepted := c.accepted + [c.plan[s.phase.sent]])]))
      else None
    case Refuse =>
      if s.phase.Sending? && s.cycles != [] && s.phase.sent < |Current(s).plan| then
        Some(s.(phase := Idle))
      else None
    case Finish =>
      if s.phase.Sending? && s.cycles != [] && s.phase.sent == |Current(s).plan| then
        Some(s.(phase := if cfg.purgeDeleted then Purging else Idle))
      else None
    case Purge =>
      if s.phase.Purging? && s.cycles != [] then
        Some(s.(phase := Idle, store := Apply(s.store, PurgeDeleted),
                erased := s.erased + Erased(s.store.entries, |s.cycles| - 1)))
      else None
  }

  function Run(steps: seq<Step>, cfg: Config): Option<System> {
    if steps == [] then Some(START)
    else
      match Run(steps[..|steps| - 1], cfg)
      case None => None
      case Some(s) => Next(s, steps[|steps| - 1], cfg)
  }

  // ---------------------------------------------------------------- what every run keeps

  ghost predicate Invariant(s: System, cfg: Config) {
    && (forall c :: c in s.cycles ==> CycleFits(c, cfg))
    && PhaseFits(s.phase, s.cycles, cfg)
    && (forall e :: e in s.erased ==> Justified(e, s.cycles, cfg))
  }

  ghost predicate CycleFits(c: Cycle, cfg: Config) {
    c.plan == Plan(c.snapshot, cfg) && c.accepted <= c.plan
  }

  ghost predicate PhaseFits(phase: Phase, cycles: seq<Cycle>, cfg: Config) {
    match phase
    case Idle => true
    case Sending(sent) => cycles != [] && sent == |cycles[|cycles| - 1].accepted|
    case Purging => cycles != [] && cfg.purgeDeleted && cycles[|cycles| - 1].accepted == cycles[|cycles| - 1].plan
  }

  /** A purge took only a deleted entry, after every request of its cycle had been accepted. */
  ghost predicate Justified(e: Erasure, cycles: seq<Cycle>, cfg: Config) {
    && cfg.purgeDeleted
    && e.cycle < |cycles|
    && e.entry.isDeleted
    && cycles[e.cycle].accepted == cycles[e.cycle].plan
  }

  lemma StepKeepsInvariant(s: System, step: Step, cfg: Config, t: System)
    requires Invariant(s, cfg) && Next(s, step, cfg) == Some(t)
    ensures Invariant(t, cfg)
  {
    match step
    case Updater(_) => SameCyclesKeepsInvariant(s, cfg, t);
    case Snapshot => SnapshotKeepsInvariant(s, cfg, t);
    case Accept => AcceptKeepsInvariant(s, cfg, t);
    case Refuse => SameCyclesKeepsInvariant(s, cfg, t);
    case Finish => FinishKeepsInvariant(s, cfg, t);
    case Purge => PurgeKeepsInvariant(s, cfg, t);
  }

  lemma SameCyclesKeepsInvariant(s: System, cfg: Config, t: System)
    requires Invariant(s, cfg) && t.cycles == s.cycles && t.erased == s.erased
    requires PhaseFits(t.phase, t.cycles, cfg)
    ensures Invariant(t, cfg)
  {
  }

  lemma FinishKeepsInvariant(s: System, cfg: Config, t: System)
    requires Invariant(s, cfg) && Next(s, Finish, cfg) == Some(t)
    ensures Invariant(t, cfg)
  {
    assert CycleFits(Current(s), cfg);
    FinishFits(s.phase, s.cycles, cfg);
    SameCyclesKeepsInvariant(s, cfg, t);
  }

  lemma FinishFits(phase: Phase, cycles: seq<Cycle>, cfg: Config)
    requires PhaseFits(phase, cycles, cfg) && phase.Sending?
    requires var c := cycles[|cycles| - 1]; c.accepted <= c.plan && phase.sent == |c.plan|
    ensures cfg.purgeDeleted ==> PhaseFits(Purging, cycles, cfg)
  {
  }

  lemma SnapshotKeepsInvariant(s: System, cfg: Config, t: System)
    requires Invariant(s, cfg) && Next(s, Snapshot, cfg) == Some(t)
    ensures Invariant(t, cfg)
  {
    forall e | e in t.erased ensures Justified(e, t.cycles, cfg) {
      assert Justified(e, s.cycles, cfg);
    }
  }

  lemma PurgeKeepsInvariant(s: System, cfg: Config, t: System)
    requires Invariant(s, cfg) && Next(s, Purge, cfg) == Some(t)
    ensures Invariant(t, cfg)
  {
    assert t.cycles == s.cycles && t.phase.Idle?;
    forall e | e in t.erased ensures Justified(e, t.cycles, cfg) {
      if e in s.erased {
        assert Justified(e, s.cycles, cfg);
      } else {
        assert e in Erased(s.store.entries, |s.cycles| - 1);
      }
    }
  }

  lemma AcceptKeepsInvariant(s: System, cfg: Config, t: System)
    requires Invariant(s, cfg) && Next(s, Accept, cfg) == Some(t)
    ensures Invariant(t, cfg)
  {
    var c := Current(s);
    var d := c.(accepted := c.accepted + [c.plan[|c.accepted|]]);
    assert CycleFits(d, cfg) by { assert CycleFits(c, cfg); }
    ReplaceLastCycle(s.cycles, d, s.erased, cfg);
  }

  /** The cycle in progress may change: no purge was justified by it. */
  lemma ReplaceLastCycle(cycles: seq<Cycle>, d: Cycle, erased: set<Erasure>, cfg: Config)
    requires cycles != [] && CycleFits(d, cfg) && forall c :: c in cycles ==> CycleFits(c, cfg)
    requires cycles[|cycles| - 1].accepted != cycles[|cycles| - 1].plan
    requires forall e :: e in erased ==> Justified(e, cycles, cfg)
    ensures var next := cycles[..|cycles| - 1] + [d];
      && (forall c :: c in next ==> CycleFits(c, cfg))
      && (forall e :: e in erased ==> Justified(e, next, cfg))
  {
    var n := |cycles| - 1;
    var next := cycles[..n] + [d];
    forall c | c in next ensures CycleFits(c, cfg) {
      assert c == d || c in cycles;
    }
    forall e | e in erased ensures Justified(e, next, cfg) {
      assert Justified(e, cycles, cfg);
      assert e.cycle < n;
    }
  }

  lemma {:induction false} RunKeepsInvariant(steps: seq<Step>, cfg: Config)
    requires Run(steps, cfg).Some?
    ensures Invariant(Run(steps, cfg).value, cfg)
    decreases |steps|
  {
    if steps != [] {
      var n := |steps| - 1;
      RunKeepsInvariant(steps[..n], cfg);
      StepKeepsInvariant(Run(steps[..n], cfg).value, steps[n], cfg, Run(steps, cfg).value);
    }
  }

  /** In every interleaving each cycle reports entries of its snapshot in order, and all before a purge. */
  lemma CyclesReport(steps: seq<Step>, cfg: Config, k: nat)
    requires Run(steps, cfg).Some? && k < |Run(steps, cfg).value.cycles|
    ensures var c := Run(steps, cfg).value.cycles[k];
      && ReportsInOrder(Flatten(c.accepted), c.snapshot, cfg)
      && ((exists e :: e in Run(steps, cfg).value.erased && e.cycle == k) ==>
           ReportsAll(Flatten(c.accepted), c.snapshot, cfg))
  {
    RunKeepsInvariant(steps, cfg);
    var s := Run(steps, cfg).value;
    var c := s.cycles[k];
    assert CycleFits(c, cfg) by { assert c in s.cycles; }
    AcceptedReports(c.snapshot, cfg, c.accepted);
    if e :| e in s.erased && e.cycle == k { assert Justified(e, s.cycles, cfg); }
  }

  /** The entry went out in an accepted request of the cycle, in the state it was erased in. */
  ghost predicate Reported(e: Erasure, c: Cycle, cfg: Config) {
    exists b :: b in c.accepted && ItemOf(e.resource, e.entry, cfg) in b
  }

  /**
    In every interleaving: what a purge erases is deleted and its cycle was accepted in full; and
    the server was told of that deletion exactly when the entry is the one in the snapshot and is
    not individually too large.
   */
  lemma ErasedWasReportedIff(steps: seq<Step>, cfg: Config, e: Erasure)
    requires Run(steps, cfg).Some? && e in Run(steps, cfg).value.erased
    ensures var s := Run(steps, cfg).value;
      && e.entry.isDeleted
      && e.cycle < |s.cycles|
      && var c := s.cycles[e.cycle];
      && c.accepted == Plan(c.snapshot, cfg)
      && (Reported(e, c, cfg) <==>
           && e.resource in c.snapshot && c.snapshot[e.resource] == e.entry
           && |Body([ItemOf(e.resource, e.entry, cfg)])| <= cfg.limits.bytes)
  {
    RunKeepsInvariant(steps, cfg);
    SendableFits(ItemOf(e.resource, e.entry, cfg), cfg.limits);
    var s := Run(steps, cfg).value;
    assert Justified(e, s.cycles, cfg);
    var c := s.cycles[e.cycle];
    assert c in s.cycles;
    var items, x := Items(c.snapshot, cfg), ItemOf(e.resource, e.entry, cfg);
    ItemsAreEntries(c.snapshot, cfg, e.resource, e.entry);
    SurvivorsFit(items, cfg.limits);
    RequestsConserve(items, cfg.limits);
    InFlatten(c.accepted, x);
  }

  /** "Unchanged since the snapshot" is needed: a deletion that lands in between is never sent. */
  lemma UnreportedDeletion(cfg: Config, r: Resource, m: Metadata)
    requires cfg.purgeDeleted && m.isDeleted && !m.ignore
    ensures var steps := [Snapshot, Finish, Updater(UpdateMetadata(r, m)), Purge];
      && Run(steps, cfg).Some?
      && var s := Run(steps, cfg).value;
      && Erasure(0, r, m) in s.erased
      && r !in s.store.entries
      && (forall c :: c in s.cycles ==> c.accepted == [])
  {
    assert Items(map[], cfg) == [] && Plan(map[], cfg) == [];
    var update := Updater(UpdateMetadata(r, m));
    var s1 := START.(phase := Sending(0), cycles := [Cycle(map[], [], [])]);
    assert [] + [Cycle(map[], [], [])] == [Cycle(map[], [], [])];
    RunSnoc([], Snapshot, cfg);
    assert [] + [Snapshot] == [Snapshot];
    assert Run([Snapshot], cfg) == Some(s1);
    RunSnoc([Snapshot], Finish, cfg);
    assert [Snapshot] + [Finish] == [Snapshot, Finish];
    var s2 := s1.(phase := Purging);
    assert Run([Snapshot, Finish], cfg) == Some(s2);
    RunSnoc([Snapshot, Finish], update, cfg);
    RunSnoc([Snapshot, Finish, update], Purge, cfg);
    assert [Snapshot, Finish] + [update] == [Snapshot, Finish, update];
    assert [Snapshot, Finish, update] + [Purge] == [Snapshot, Finish, update, Purge];
  }

  // ---------------------------------------------------------------- a cycle that goes through

  /** `more` continues `steps` by acceptances alone. */
  ghost predicate OnlyAccepts(steps: seq<Step>, more: seq<Step>) {
    steps <= more && forall k :: |steps| <= k < |more| ==> more[k] == Accept
  }

  /** The last cycle of `s` with the first `n` of its requests accepted. */
  function WithAccepted(s: System, n: nat): System
    requires s.cycles != [] && n <= |Current(s).plan|
  {
    s.(phase := Sending(n), cycles := s.cycles[..|s.cycles| - 1] + [Current(s).(accepted := Current(s).plan[..n])])
  }

  lemma {:induction false} AcceptSome(steps: seq<Step>, s: System, cfg: Config, n: nat) returns (more: seq<Step>)
    requires Run(steps, cfg) == Some(s) && s.cycles != [] && s.phase == Sending(0)
    requires Current(s).accepted == [] && n <= |Current(s).plan|
    ensures OnlyAccepts(steps, more) && Run(more, cfg) == Some(WithAccepted(s, n))
  {
    if n == 0 {
      more := steps;
      NoneAccepted(s);
    } else {
      var before := AcceptSome(steps, s, cfg, n - 1);
      AcceptNext(s, cfg, n);
      ThenAccept(before, WithAccepted(s, n - 1), WithAccepted(s, n), cfg);
      more := before + [Accept];
    }
  }

  lemma ThenAccept(steps: seq<Step>, s: System, t: System, cfg: Config)
    requires Run(steps, cfg) == Some(s) && Next(s, Accept, cfg) == Some(t)
    ensures Run(steps + [Accept], cfg) == Some(t)
  {
    RunSnoc(steps, Accept, cfg);
  }

  lemma NoneAccepted(s: System)
    requires s.cycles != [] && s.phase == Sending(0) && Current(s).accepted == []
    ensures WithAccepted(s, 0) == s
  {
    assert s.cycles == s.cycles[..|s.cycles| - 1] + [Current(s)];
    assert Current(s).plan[..0] == [];
  }

  lemma {:induction false} AcceptNext(s: System, cfg: Config, n: nat)
    requires s.cycles != [] && 0 < n <= |Current(s).plan|
    ensures Next(WithAccepted(s, n - 1), Accept, cfg) == Some(WithAccepted(s, n))
  {
    var c, front := Current(s), s.cycles[..|s.cycles| - 1];
    var t := WithAccepted(s, n - 1);
    assert t.cycles[..|t.cycles| - 1] == front && Current(t) == c.(accepted := c.plan[..n - 1]);
    assert c.plan[..n - 1] + [c.plan[n - 1]] == c.plan[..n];
  }

  /**
    From any idle state a cycle can go through: it takes the store as it is, every request can be
    accepted in turn, and only then, if configured, comes the purge.
   */
  lemma CycleCanComplete(steps: seq<Step>, s: System, cfg: Config) returns (more: seq<Step>)
    requires Run(steps, cfg) == Some(s) && s.phase.Idle?
    ensures OnlyAccepts(steps + [Snapshot], more)
    ensures Run(more + [Finish], cfg) == Some(Completed(s, cfg))
  {
    var plan := Plan(s.store.entries, cfg);
    var begun := s.(phase := Sending(0), cycles := s.cycles + [Cycle(s.store.entries, plan, [])]);
    assert Run(steps + [Snapshot], cfg) == Some(begun) by { RunSnoc(steps, Snapshot, cfg); }
    assert Current(begun) == Cycle(s.store.entries, plan, []);
    more := AcceptSome(steps + [Snapshot], begun, cfg, |plan|);
    FinishNext(s, begun, cfg);
    RunSnoc(more, Finish, cfg);
  }

  /** The state after a cycle that was accepted in full, before its purge. */
  function Completed(s: System, cfg: Config): System {
    var plan := Plan(s.store.entries, cfg);
    s.(phase := if cfg.purgeDeleted then Purging else Idle,
       cycles := s.cycles + [Cycle(s.store.entries, plan, plan)])
  }

  lemma FinishNext(s: System, begun: System, cfg: Config)
    requires begun == s.(phase := Sending(0),
                         cycles := s.cycles + [Cycle(s.store.entries, Plan(s.store.entries, cfg), [])])
    ensures |Current(begun).plan| == |Plan(s.store.entries, cfg)|
    ensures Next(WithAccepted(begun, |Current(begun).plan|), Finish, cfg) == Some(Completed(s, cfg))
  {
    var plan := Plan(s.store.entries, cfg);
    var sent := WithAccepted(begun, |plan|);
    assert plan[..|plan|] == plan && begun.cycles[..|s.cycles|] == s.cycles;
    assert sent.cycles == s.cycles + [Cycle(s.store.entries, plan, plan)];
    assert Current(sent) == Cycle(s.store.entries, plan, plan);
  }

  /** A purge records exactly what it takes out of the store. */
  lemma ErasedIsWhatVanishes(s: System, cfg: Config, t: System, r: Resource)
    requires Next(s, Purge, cfg) == Some(t)
    ensures r in t.store.entries <==> r in s.store.entries && !s.store.entries[r].isDeleted
    ensures r in t.store.entries ==> t.store.entries[r] == s.store.entries[r]
    ensures t.cycles == s.cycles && forall e :: e in t.erased <==>
      || e in s.erased
      || (&& e.cycle == |s.cycles| - 1 && e.resource in s.store.entries && e.resource !in t.store.entries
          && s.store.entries[e.resource] == e.entry)
  {
  }

  lemma RunSnoc(steps: seq<Step>, step: Step, cfg: Config)
    ensures Run(steps + [step], cfg) == match Run(steps, cfg) case None => None case Some(s) => Next(s, step, cfg)
  {
    assert (steps + [step])[..|steps|] == steps;
  }

  // ---------------------------------------------------------------- one cycle on the real store

  /** The body of the reporter's loop, run without interference. */
  method ReportOnce(store: MetadataStore, cfg: Config, server: nat -> bool)
    returns (accepted: seq<seq<Item>>, ok: bool)
    requires store.Valid()
    modifies store
    ensures store.Valid()
    ensures ok ==> accepted == Plan(old(store.metadataMap), cfg)
    ensures !ok ==> accepted < Plan(old(store.metadataMap), cfg)
    ensures ReportsInOrder(Flatten(accepted), old(store.metadataMap), cfg)
    ensures ok ==> ReportsAll(Flatten(accepted), old(store.metadataMap), cfg)
    ensures store.Now() ==
      if ok && cfg.purgeDeleted then Apply(old(store.Now()), PurgeDeleted) else old(store.Now())
  {
    var snapshot := store.GetMetadataMap();
    accepted, ok := SendMetadata(Items(snapshot, cfg), cfg.limits, server);
    AcceptedReports(snapshot, cfg, accepted);
    if ok && cfg.purgeDeleted {
      store.PurgeDeletedEntries();
    }
  }
}

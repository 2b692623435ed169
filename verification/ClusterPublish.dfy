/**
  The service and endpoints watch threads publishing the cluster's metadata (src/kubernetes.cc,
  `ServiceCallback` and `EndpointsCallback`).  For every event a thread updates a cache, then
  joins the caches, then stores the join; each is one locked step, and the steps of the threads
  interleave with each other and with every other user of the store.
 */
module ClusterPublish {
  import opened Wrappers
  import opened Store
  import opened ServiceCache
  import Ordering
  import Json

  function ClusterResource(cluster: Cluster): Resource {
    Resource("k8s_cluster", map["cluster_name" := cluster.name, "location" := cluster.location])
  }

  function ClusterContent(list: seq<Json.Value>): Json.Value {
    Json.Object(map["blobs" := Json.Object(map["services" := Json.Array(list)])])
  }

  /** What is stored for the cluster, spelled out. */
  lemma ClusterEntryIs(cluster: Cluster, list: seq<Json.Value>, version: string, collectedAt: Timestamp)
    ensures ClusterResource(cluster).kind == "k8s_cluster"
    ensures ClusterResource(cluster).labels.Keys == {"cluster_name", "location"}
    ensures ClusterResource(cluster).labels["cluster_name"] == cluster.name
    ensures ClusterResource(cluster).labels["location"] == cluster.location
    ensures var m := ClusterMetadata(ClusterContent(list), version, collectedAt);
      && m.version == version && !m.isDeleted && !m.ignore && m.createdAt == 0 && m.collectedAt == collectedAt
      && m.content.Object? && m.content.fields.Keys == {"blobs"} && m.content.fields["blobs"].Object?
      && m.content.fields["blobs"].fields.Keys == {"services"}
      && m.content.fields["blobs"].fields["services"] == Json.Array(list)
  {
  }

  /** The join of the caches after a history of cache updates. */
  function Join(log: seq<Event>, cluster: Cluster): Json.Value {
    ClusterContent(ServiceList(ServiceCache.Replay(log), cluster))
  }

  function ClusterMetadata(content: Json.Value, version: string, collectedAt: Timestamp): Metadata {
    Metadata(version, false, 0, collectedAt, content, false)
  }

  // ---------------------------------------------------------------- the machine

  /** Where a watch thread is with its current event. */
  datatype Progress =
    | Ready
    | Updated(at: nat)                                     // its event is number `at` of the log
    | Joined(at: nat, seen: nat, content: Json.Value)      // joined when the log had `seen` events

  /** The publication now in the store, or the latest join taken. */
  datatype Mark = Mark(thread: nat, at: nat, seen: nat)

  datatype System = System(
    caches: Caches,
    store: Store.State,
    threads: map<nat, Progress>,
    log: seq<Event>,               // every cache update so far, in order
    lastJoin: Option<Mark>,
    published: Option<Mark>)

  datatype Step =
    | UpdateCache(thread: nat, event: Event)
    | TakeJoin(thread: nat)
    | Publish(thread: nat, version: string, collectedAt: Timestamp)
    | OtherStoreUse(op: Op)

  function ProgressOf(s: System, thread: nat): Progress {
    if thread in s.threads then s.threads[thread] else Ready
  }

  predicate TouchesCluster(op: Op, cluster: Cluster) {
    op.UpdateMetadata? && op.resource == ClusterResource(cluster)
  }

  function Next(s: System, step: Step, cluster: Cluster): Option<System> {
    match step
    case UpdateCache(t, event) =>
      if ProgressOf(s, t).Ready? then
        Some(s.(caches := ApplyEvent(s.caches, event),
                log := s.log + [event],
                threads := s.threads[t := Updated(|s.log|)]))
      else None
    case TakeJoin(t) =>
      (match ProgressOf(s, t)
      case Updated(at) =>
        Some(s.(threads := s.threads[t := Joined(at, |s.log|, ClusterContent(ServiceList(s.caches, cluster)))],
                lastJoin := Some(Mark(t, at, |s.log|))))
      case _ => None)
    case Publish(t, version, collectedAt) =>
      (match ProgressOf(s, t)
      case Joined(at, seen, content) =>
        var entry := ClusterMetadata(content, version, collectedAt);
        Some(s.(store := Apply(s.store, UpdateMetadata(ClusterResource(cluster), entry)),
                threads := s.threads[t := Ready],
                published := Some(Mark(t, at, seen))))
      case _ => None)
    case OtherStoreUse(op) =>
      if TouchesCluster(op, cluster) then None else Some(s.(store := Apply(s.store, op)))
  }

  const START := System(NO_CACHES, EMPTY, map[], [], None, None)

  function Run(steps: seq<Step>, cluster: Cluster): Option<System> {
    if steps == [] then Some(START)
    else
      match Run(steps[..|steps| - 1], cluster)
      case None => None
      case Some(s) => Next(s, steps[|steps| - 1], cluster)
  }

  // ---------------------------------------------------------------- what every run keeps

  ghost predicate ThreadFits(p: Progress, log: seq<Event>, cluster: Cluster) {
    match p
    case Ready => true
    case Updated(at) => at < |log|
    case Joined(at, seen, content) => at < seen <= |log| && content == Join(log[..seen], cluster)
  }

  /** The stored value is the join after the first `seen` updates. */
  ghost predicate StoredIs(s: System, seen: nat, cluster: Cluster) {
    && seen <= |s.log|
    && ClusterResource(cluster) in s.store.entries
    && s.store.entries[ClusterResource(cluster)].content == Join(s.log[..seen], cluster)
    && !s.store.entries[ClusterResource(cluster)].isDeleted
  }

  /** Unless the latest update has been joined, the thread that made it has yet to join. */
  ghost predicate JoinIsDue(s: System) {
    |s.log| > 0 && !(s.lastJoin.Some? && s.lastJoin.value.seen == |s.log|) ==>
      exists t :: t in s.threads && s.threads[t] == Updated(|s.log| - 1)
  }

  /** The latest join is either waiting to be published or was the last its thread published. */
  ghost predicate LastJoinTracked(s: System) {
    s.lastJoin.Some? ==>
      var m := s.lastJoin.value;
      && m.seen <= |s.log|
      && (match ProgressOf(s, m.thread)
          case Joined(_, seen, _) => seen == m.seen
          case _ => s.published.Some? && s.published.value.thread == m.thread ==> s.published.value.seen == m.seen)
  }

  ghost predicate Invariant(s: System, cluster: Cluster) {
    && s.caches == ServiceCache.Replay(s.log)
    && (forall t :: t in s.threads ==> ThreadFits(s.threads[t], s.log, cluster))
    && (s.published.None? ==> ClusterResource(cluster) !in s.store.entries)
    && (s.published.Some? ==>
         s.published.value.at < s.published.value.seen && StoredIs(s, s.published.value.seen, cluster))
    && JoinIsDue(s)
    && LastJoinTracked(s)
  }

  lemma PrefixOfLonger(log: seq<Event>, event: Event, n: nat)
    requires n <= |log|
    ensures (log + [event])[..n] == log[..n]
  {
  }

  lemma ThreadFitsLonger(p: Progress, log: seq<Event>, event: Event, cluster: Cluster)
    requires ThreadFits(p, log, cluster)
    ensures ThreadFits(p, log + [event], cluster)
  {
    if p.Joined? { PrefixOfLonger(log, event, p.seen); }
  }

  lemma UpdateKeepsInvariant(s: System, t: nat, event: Event, cluster: Cluster, s': System)
    requires Invariant(s, cluster) && Next(s, UpdateCache(t, event), cluster) == Some(s')
    ensures Invariant(s', cluster)
  {
    assert s'.caches == ServiceCache.Replay(s'.log) by { ReplaySnoc(s.log, event); }
    forall u | u in s'.threads ensures ThreadFits(s'.threads[u], s'.log, cluster) {
      if u != t { ThreadFitsLonger(s.threads[u], s.log, event, cluster); }
    }
    assert s.published.Some? ==> StoredIs(s', s.published.value.seen, cluster) by {
      if s.published.Some? { PrefixOfLonger(s.log, event, s.published.value.seen); }
    }
    assert JoinIsDue(s') by { assert s'.threads[t] == Updated(|s'.log| - 1); }
    assert LastJoinTracked(s') by { assert LastJoinTracked(s); }
  }

  lemma JoinKeepsInvariant(s: System, t: nat, cluster: Cluster, s': System)
    requires Invariant(s, cluster) && Next(s, TakeJoin(t), cluster) == Some(s')
    ensures Invariant(s', cluster)
  {
    assert s.log[..|s.log|] == s.log;
  }

  lemma PublishKeepsInvariant(s: System, t: nat, version: string, collectedAt: Timestamp, cluster: Cluster, s': System)
    requires Invariant(s, cluster) && Next(s, Publish(t, version, collectedAt), cluster) == Some(s')
    ensures Invariant(s', cluster)
  {
    PublishStores(s, t, version, collectedAt, cluster, s');
    PublishLeavesJoins(s, t, version, collectedAt, cluster, s');
  }

  lemma PublishStores(s: System, t: nat, version: string, collectedAt: Timestamp, cluster: Cluster, s': System)
    requires Invariant(s, cluster) && Next(s, Publish(t, version, collectedAt), cluster) == Some(s')
    ensures s'.published.Some? && s'.published.value.at < s'.published.value.seen
    ensures StoredIs(s', s'.published.value.seen, cluster)
  {
    assert ThreadFits(ProgressOf(s, t), s.log, cluster);
  }

  lemma PublishLeavesJoins(s: System, t: nat, version: string, collectedAt: Timestamp, cluster: Cluster, s': System)
    requires Invariant(s, cluster) && Next(s, Publish(t, version, collectedAt), cluster) == Some(s')
    ensures JoinIsDue(s') && LastJoinTracked(s')
  {
    assert LastJoinTracked(s);
    if |s.log| > 0 && !(s.lastJoin.Some? && s.lastJoin.value.seen == |s.log|) {
      var u :| u in s.threads && s.threads[u] == Updated(|s.log| - 1);
      assert u in s'.threads && s'.threads[u] == Updated(|s'.log| - 1);
    }
  }

  /** Other users of the store, the reporter's purge included, leave an undeleted entry alone. */
  lemma OtherUseLeavesEntry(st: Store.State, op: Op, r: Resource)
    requires !(op.UpdateMetadata? && op.resource == r)
    ensures r !in st.entries ==> r !in Apply(st, op).entries
    ensures r in st.entries && !st.entries[r].isDeleted ==>
      r in Apply(st, op).entries && Apply(st, op).entries[r] == st.entries[r]
  {
  }

  lemma OtherKeepsInvariant(s: System, op: Op, cluster: Cluster, s': System)
    requires Invariant(s, cluster) && Next(s, OtherStoreUse(op), cluster) == Some(s')
    ensures Invariant(s', cluster)
  {
    OtherUseLeavesEntry(s.store, op, ClusterResource(cluster));
    SameButStore(s, s', cluster);
  }

  lemma SameButStore(s: System, s': System, cluster: Cluster)
    requires Invariant(s, cluster)
    requires s' == s.(store := s'.store)
    requires ClusterResource(cluster) !in s.store.entries ==> ClusterResource(cluster) !in s'.store.entries
    requires s.published.Some? ==>
      && ClusterResource(cluster) in s'.store.entries
      && s'.store.entries[ClusterResource(cluster)] == s.store.entries[ClusterResource(cluster)]
    ensures Invariant(s', cluster)
  {
    assert JoinIsDue(s') by { assert JoinIsDue(s); }
    assert LastJoinTracked(s') by { assert LastJoinTracked(s); }
  }

  lemma {:induction false} RunKeepsInvariant(steps: seq<Step>, cluster: Cluster)
    requires Run(steps, cluster).Some?
    ensures Invariant(Run(steps, cluster).value, cluster)
    decreases |steps|
  {
    if steps != [] {
      var n := |steps| - 1;
      RunKeepsInvariant(steps[..n], cluster);
      var s, s' := Run(steps[..n], cluster).value, Run(steps, cluster).value;
      match steps[n]
      case UpdateCache(t, event) => UpdateKeepsInvariant(s, t, event, cluster, s');
      case TakeJoin(t) => JoinKeepsInvariant(s, t, cluster, s');
      case Publish(t, version, collectedAt) => PublishKeepsInvariant(s, t, version, collectedAt, cluster, s');
      case OtherStoreUse(op) => OtherKeepsInvariant(s, op, cluster, s');
    }
  }

  // ---------------------------------------------------------------- the results

  /**
    Never a torn mix: once anything was published, and whatever else uses or purges the store, the
    stored cluster value is the join of the caches after some prefix of the update order, and that
    prefix includes the update its publisher made.
   */
  lemma StoredIsSomePrefix(steps: seq<Step>, cluster: Cluster)
    requires Run(steps, cluster).Some?
    ensures var s := Run(steps, cluster).value;
      && (ClusterResource(cluster) in s.store.entries <==> s.published.Some?)
      && (s.published.Some? ==>
           s.published.value.at < s.published.value.seen && StoredIs(s, s.published.value.seen, cluster))
  {
    RunKeepsInvariant(steps, cluster);
  }

  ghost predicate Quiescent(s: System) {
    forall t :: t in s.threads ==> s.threads[t].Ready?
  }

  /** With all threads at rest, the store is current if the last to join was the last to publish. */
  lemma QuiescentIsCurrent(steps: seq<Step>, cluster: Cluster)
    requires Run(steps, cluster).Some?
    requires var s := Run(steps, cluster).value;
      && Quiescent(s)
      && s.published.Some? && s.lastJoin.Some?
      && s.lastJoin.value.thread == s.published.value.thread
    ensures var s := Run(steps, cluster).value; StoredIs(s, |s.log|, cluster)
  {
    RunKeepsInvariant(steps, cluster);
    var s := Run(steps, cluster).value;
    assert JoinIsDue(s) && LastJoinTracked(s);
  }

  lemma RunSnoc(steps: seq<Step>, step: Step, cluster: Cluster)
    ensures Run(steps + [step], cluster)
         == match Run(steps, cluster) case None => None case Some(s) => Next(s, step, cluster)
  {
    assert (steps + [step])[..|steps|] == steps;
  }

  /** A service appears, and then its one pod. */
  function ServiceThenPod(key: ServiceKey, raw: Json.Value, pod: string): (Event, Event) {
    (ServiceEvent(Service(key, raw), false),
     EndpointsEvent(Endpoints(key, Some([Subset(Some([Address(Some(TargetRef(Some("Pod"), Some(pod))))]))])), false))
  }

  function JoinBoth(e: Event, e': Event): seq<Step> {
    [UpdateCache(0, e)] + [TakeJoin(0)] + [UpdateCache(1, e')] + [TakeJoin(1)]
  }

  /** The interleaving in which the thread that joined first publishes last. */
  function LatePublisher(key: ServiceKey, raw: Json.Value, pod: string): seq<Step> {
    var (service, endpoints) := ServiceThenPod(key, raw, pod);
    JoinBoth(service, endpoints) + [Publish(1, "", 0)] + [Publish(0, "", 0)]
  }

  /** The effect of one thread updating a cache and joining at once. */
  function UpdatedAndJoined(s: System, t: nat, e: Event, cluster: Cluster): System {
    var log := s.log + [e];
    s.(caches := ServiceCache.Replay(log),
       log := log,
       threads := s.threads[t := Joined(|s.log|, |log|, Join(log, cluster))],
       lastJoin := Some(Mark(t, |s.log|, |log|)))
  }

  function JustUpdated(s: System, t: nat, e: Event): System {
    s.(caches := ServiceCache.Replay(s.log + [e]), log := s.log + [e], threads := s.threads[t := Updated(|s.log|)])
  }

  lemma UpdateNext(s: System, t: nat, e: Event, cluster: Cluster)
    requires ProgressOf(s, t).Ready? && s.caches == ServiceCache.Replay(s.log)
    ensures Next(s, UpdateCache(t, e), cluster) == Some(JustUpdated(s, t, e))
  {
    ReplaySnoc(s.log, e);
  }

  lemma OverwriteThread(threads: map<nat, Progress>, t: nat, p: Progress, q: Progress)
    ensures threads[t := p][t := q] == threads[t := q]
  {
  }

  lemma JoinNext(s: System, t: nat, e: Event, cluster: Cluster)
    ensures Next(JustUpdated(s, t, e), TakeJoin(t), cluster) == Some(UpdatedAndJoined(s, t, e, cluster))
  {
    OverwriteThread(s.threads, t, Updated(|s.log|), Joined(|s.log|, |s.log| + 1, Join(s.log + [e], cluster)));
  }

  lemma UpdateThenJoin(steps: seq<Step>, s: System, t: nat, e: Event, cluster: Cluster)
    requires Run(steps, cluster) == Some(s) && ProgressOf(s, t).Ready?
    requires s.caches == ServiceCache.Replay(s.log)
    ensures Run(steps + [UpdateCache(t, e)] + [TakeJoin(t)], cluster) == Some(UpdatedAndJoined(s, t, e, cluster))
  {
    UpdateNext(s, t, e, cluster);
    JoinNext(s, t, e, cluster);
    RunSnoc(steps, UpdateCache(t, e), cluster);
    RunSnoc(steps + [UpdateCache(t, e)], TakeJoin(t), cluster);
  }

  /** Two threads, one after the other, from the start. */
  function BothJoined(e: Event, e': Event, cluster: Cluster): System {
    UpdatedAndJoined(UpdatedAndJoined(START, 0, e, cluster), 1, e', cluster)
  }

  lemma BothJoinedState(e: Event, e': Event, cluster: Cluster)
    ensures var s := BothJoined(e, e', cluster);
      && s.log == [e, e']
      && s.threads == map[0 := Joined(0, 1, Join([e], cluster)), 1 := Joined(1, 2, Join([e, e'], cluster))]
  {
    assert [] + [e] == [e] && [e] + [e'] == [e, e'];
  }

  lemma AfterBothJoins(e: Event, e': Event, cluster: Cluster)
    ensures Run(JoinBoth(e, e'), cluster) == Some(BothJoined(e, e', cluster))
  {
    var none: seq<Step> := [];
    assert none + [UpdateCache(0, e)] == [UpdateCache(0, e)];
    UpdateThenJoin(none, START, 0, e, cluster);
    UpdateThenJoin([UpdateCache(0, e)] + [TakeJoin(0)], UpdatedAndJoined(START, 0, e, cluster), 1, e', cluster);
  }

  lemma ReplaySnoc(events: seq<Event>, e: Event)
    ensures ServiceCache.Replay(events + [e]) == ApplyEvent(ServiceCache.Replay(events), e)
  {
    assert (events + [e])[..|events|] == events;
  }

  lemma JoinsDiffer(key: ServiceKey, raw: Json.Value, pod: string, cluster: Cluster)
    ensures var (service, endpoints) := ServiceThenPod(key, raw, pod);
      Join([service], cluster) != Join([service, endpoints], cluster)
  {
    var (service, endpoints) := ServiceThenPod(key, raw, pod);
    ReplaySnoc([], service);
    ReplaySnoc([service], endpoints);
    assert [] + [service] == [service] && [service] + [endpoints] == [service, endpoints];
    var before, after := ServiceCache.Replay([service]), ServiceCache.Replay([service, endpoints]);
    assert before == ApplyEvent(NO_CACHES, service) && after == ApplyEvent(before, endpoints);
    assert before.services == map[key := raw] == after.services;
    var keys := Ordering.PairsInOrder(before.services.Keys);
    assert key in keys;
    var i :| 0 <= i < |keys| && keys[i] == key;
    var addresses := [Address(Some(TargetRef(Some("Pod"), Some(pod))))];
    assert addresses[..0] == [] && PodsOf(addresses) == [pod];
    var subsets := [Subset(Some(addresses))];
    assert subsets[..0] == [] && PodsOfSubsets(subsets) == [pod];
    assert PodsFor(before, key) == [] && PodsFor(after, key) == [pod];
    assert |PodResources(cluster, key.0, [])| == 0 && |PodResources(cluster, key.0, [pod])| == 1;
    var older, newer := ServiceList(before, cluster)[i], ServiceList(after, cluster)[i];
    assert older.fields["api"].fields["pods"] != newer.fields["api"].fields["pods"];
    ContentInjective(ServiceList(before, cluster), ServiceList(after, cluster));
  }

  lemma ContentInjective(a: seq<Json.Value>, b: seq<Json.Value>)
    ensures ClusterContent(a) == ClusterContent(b) ==> a == b
  {
    assert ClusterContent(a).fields["blobs"].fields["services"].elements == a;
    assert ClusterContent(b).fields["blobs"].fields["services"].elements == b;
  }

  lemma PublishBoth(s: System, cluster: Cluster, x: Json.Value, y: Json.Value)
    requires s.threads == map[0 := Joined(0, 1, x), 1 := Joined(1, 2, y)]
    ensures Next(s, Publish(1, "", 0), cluster).Some?
    ensures var mid := Next(s, Publish(1, "", 0), cluster).value;
      && Next(mid, Publish(0, "", 0), cluster).Some?
      && var end := Next(mid, Publish(0, "", 0), cluster).value;
      && end.log == s.log
      && Quiescent(end)
      && ClusterResource(cluster) in end.store.entries
      && end.store.entries[ClusterResource(cluster)] == ClusterMetadata(x, "", 0)
  {
    var mid := Next(s, Publish(1, "", 0), cluster).value;
    assert mid.threads == map[0 := Joined(0, 1, x), 1 := Ready];
    var end := Next(mid, Publish(0, "", 0), cluster).value;
    assert end.threads == map[0 := Ready, 1 := Ready];
  }

  /** The hypothesis is needed: otherwise the threads can come to rest on a stale value for good. */
  lemma QuiescentMayBeStale(key: ServiceKey, raw: Json.Value, pod: string, cluster: Cluster)
    ensures var steps := LatePublisher(key, raw, pod);
      && Run(steps, cluster).Some?
      && var s := Run(steps, cluster).value;
      && Quiescent(s)
      && StoredIs(s, 1, cluster)
      && !StoredIs(s, |s.log|, cluster)
  {
    var (service, endpoints) := ServiceThenPod(key, raw, pod);
    var steps := JoinBoth(service, endpoints);
    AfterBothJoins(service, endpoints, cluster);
    BothJoinedState(service, endpoints, cluster);
    PublishBoth(BothJoined(service, endpoints, cluster), cluster,
                Join([service], cluster), Join([service, endpoints], cluster));
    RunSnoc(steps, Publish(1, "", 0), cluster);
    RunSnoc(steps + [Publish(1, "", 0)], Publish(0, "", 0), cluster);
    var s := Run(LatePublisher(key, raw, pod), cluster).value;
    assert s.log[..1] == [service] && s.log[..2] == s.log;
    JoinsDiffer(key, raw, pod, cluster);
  }
}

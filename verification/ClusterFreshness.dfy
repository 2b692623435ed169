/**
  Exactly when the published cluster value is current (src/kubernetes.cc, `ServiceCallback` and
  `EndpointsCallback`): which schedules of the watch threads leave the join of the caches in the store
  whatever their events say.
 */
module ClusterFreshness {
  import opened Wrappers
  import opened ServiceCache
  import opened ClusterPublish
  import Ordering
  import Json

  // ---------------------------------------------------------------- schedules

  /** The same step, except for what an event says; a thread's events keep their kind. */
  predicate SameStep(a: Step, b: Step) {
    || a == b
    || (a.UpdateCache? && b.UpdateCache? && a.thread == b.thread && a.event.ServiceEvent? == b.event.ServiceEvent?)
  }

  ghost predicate SameSchedule(a: seq<Step>, b: seq<Step>) {
    |a| == |b| && forall k :: 0 <= k < |a| ==> SameStep(a[k], b[k])
  }

  predicate SameProgress(p: Progress, q: Progress) {
    p == q || (p.Joined? && q.Joined? && p.at == q.at && p.seen == q.seen)
  }

  ghost predicate SameShape(s: System, t: System) {
    && |s.log| == |t.log| && s.published == t.published && s.lastJoin == t.lastJoin
    && forall u :: SameProgress(ProgressOf(s, u), ProgressOf(t, u))
  }

  lemma StepSameShape(s: System, t: System, a: Step, b: Step, cluster: Cluster)
    requires SameShape(s, t) && SameStep(a, b) && Next(s, a, cluster).Some?
    ensures Next(t, b, cluster).Some? && SameShape(Next(s, a, cluster).value, Next(t, b, cluster).value)
  {
    if !a.OtherStoreUse? { assert SameProgress(ProgressOf(s, a.thread), ProgressOf(t, a.thread)); }
    var s', t' := Next(s, a, cluster).value, Next(t, b, cluster).value;
    forall u ensures SameProgress(ProgressOf(s', u), ProgressOf(t', u)) {
      assert SameProgress(ProgressOf(s, u), ProgressOf(t, u));
    }
  }

  /** What a schedule allows, and which update each join and publication saw, does not depend on the events. */
  lemma {:induction false} RunSameShape(a: seq<Step>, b: seq<Step>, cluster: Cluster)
    requires SameSchedule(a, b) && Run(a, cluster).Some?
    ensures Run(b, cluster).Some? && SameShape(Run(a, cluster).value, Run(b, cluster).value)
    decreases |a|
  {
    if a != [] {
      var n := |a| - 1;
      assert SameStep(a[n], b[n]);
      RunSameShape(a[..n], b[..n], cluster);
      StepSameShape(Run(a[..n], cluster).value, Run(b[..n], cluster).value, a[n], b[n], cluster);
    }
  }

  // ---------------------------------------------------------------- the join that was published

  /** The events of the cache updates, in order. */
  function Events(steps: seq<Step>): seq<Event> {
    if steps == [] then []
    else
      var n := |steps| - 1;
      Events(steps[..n]) + (if steps[n].UpdateCache? then [steps[n].event] else [])
  }

  lemma {:induction false} LogIsEvents(steps: seq<Step>, cluster: Cluster)
    requires Run(steps, cluster).Some?
    ensures Run(steps, cluster).value.log == Events(steps)
    decreases |steps|
  {
    if steps != [] { LogIsEvents(steps[..|steps| - 1], cluster); }
  }

  lemma {:induction false} EventsPrefix(steps: seq<Step>, j: nat)
    requires j <= |steps|
    ensures Events(steps[..j]) <= Events(steps)
    ensures Events(steps[..j]) == Events(steps) <==> forall k :: j <= k < |steps| ==> !steps[k].UpdateCache?
    decreases |steps|
  {
    if j == |steps| {
      assert steps[..j] == steps;
    } else {
      var n := |steps| - 1;
      EventsPrefix(steps[..n], j);
      assert steps[..n][..j] == steps[..j];
    }
  }

  predicate ByThread(step: Step, t: nat) {
    !step.OtherStoreUse? && step.thread == t
  }

  /** Step `p` is the last publication, and step `j` the join that it published. */
  ghost predicate IsPublishedJoin(steps: seq<Step>, j: nat, p: nat) {
    && j < p < |steps| && steps[j].TakeJoin? && steps[p].Publish? && steps[p].thread == steps[j].thread
    && (forall k :: j < k < p ==> !ByThread(steps[k], steps[j].thread))
    && (forall k :: p < k < |steps| ==> !steps[k].Publish?)
  }

  lemma {:induction false} JoinedSaw(steps: seq<Step>, j: nat, cluster: Cluster)
    requires Run(steps, cluster).Some? && j < |steps| && steps[j].TakeJoin?
    requires forall k :: j < k < |steps| ==> !ByThread(steps[k], steps[j].thread)
    ensures var p := ProgressOf(Run(steps, cluster).value, steps[j].thread);
      p.Joined? && p.seen == |Events(steps[..j])|
    decreases |steps|
  {
    var n := |steps| - 1;
    if j == n {
      LogIsEvents(steps[..n], cluster);
    } else {
      JoinedSaw(steps[..n], j, cluster);
      assert steps[..n][..j] == steps[..j];
    }
  }

  /** The publication in the store saw exactly the updates before the join that it published. */
  lemma {:induction false} PublishedSaw(steps: seq<Step>, j: nat, p: nat, cluster: Cluster)
    requires Run(steps, cluster).Some? && IsPublishedJoin(steps, j, p)
    ensures var m := Run(steps, cluster).value.published; m.Some? && m.value.seen == |Events(steps[..j])|
    decreases |steps|
  {
    var n := |steps| - 1;
    assert steps[..n][..j] == steps[..j];
    if p == n {
      JoinedSaw(steps[..n], j, cluster);
    } else {
      assert IsPublishedJoin(steps[..n], j, p);
      PublishedSaw(steps[..n], j, p, cluster);
    }
  }

  lemma NextEffects(s: System, step: Step, t: nat, cluster: Cluster)
    requires Next(s, step, cluster).Some?
    ensures var s' := Next(s, step, cluster).value;
      && (!ByThread(step, t) ==> ProgressOf(s', t) == ProgressOf(s, t))
      && (ByThread(step, t) && ProgressOf(s', t).Joined? ==> step == TakeJoin(t))
      && (!step.Publish? ==> s'.published == s.published)
      && (step.Publish? && step.thread == t ==> ProgressOf(s, t).Joined?)
  {
  }

  lemma {:induction false} FindJoin(steps: seq<Step>, t: nat, cluster: Cluster) returns (j: nat)
    requires Run(steps, cluster).Some? && ProgressOf(Run(steps, cluster).value, t).Joined?
    ensures j < |steps| && steps[j] == TakeJoin(t) && forall k :: j < k < |steps| ==> !ByThread(steps[k], t)
    decreases |steps|
  {
    var n := |steps| - 1;
    NextEffects(Run(steps[..n], cluster).value, steps[n], t, cluster);
    if steps[n] == TakeJoin(t) {
      j := n;
    } else {
      j := FindJoin(steps[..n], t, cluster);
    }
  }

  /** Wherever something was published, there is such a join. */
  lemma {:induction false} FindPublishedJoin(steps: seq<Step>, cluster: Cluster) returns (j: nat, p: nat)
    requires Run(steps, cluster).Some? && Run(steps, cluster).value.published.Some?
    ensures IsPublishedJoin(steps, j, p)
    decreases |steps|
  {
    var n := |steps| - 1;
    var t := if steps[n].Publish? then steps[n].thread else 0;
    NextEffects(Run(steps[..n], cluster).value, steps[n], t, cluster);
    if steps[n].Publish? {
      p := n;
      j := FindJoin(steps[..n], steps[n].thread, cluster);
    } else {
      j, p := FindPublishedJoin(steps[..n], cluster);
    }
  }

  // ---------------------------------------------------------------- joins that differ

  const KEY: ServiceKey := ("", "")
  const POD := [Subset(Some([Address(Some(TargetRef(Some("Pod"), Some(""))))]))]

  lemma PodNamed()
    ensures PodNames(Endpoints(KEY, Some(POD))) == [""]
  {
    var addresses := [Address(Some(TargetRef(Some("Pod"), Some(""))))];
    assert addresses[..0] == [] && PodsOf(addresses) == [""];
    assert POD[..0] == [] && PodsOfSubsets(POD) == [""];
  }

  /** Events of the same kind that can be told apart: one service whose content and pods change. */
  function Telling(e: Event, late: bool): Event {
    if e.ServiceEvent? then ServiceEvent(Service(KEY, Json.Boolean(late)), false)
    else if late then EndpointsEvent(Endpoints(KEY, Some(POD)), false)
    else EndpointsEvent(Endpoints(KEY, None), true)
  }

  ghost predicate HasService(log: seq<Event>) {
    exists i :: 0 <= i < |log| && log[i].ServiceEvent?
  }

  ghost predicate AllTelling(log: seq<Event>, late: bool) {
    forall i :: 0 <= i < |log| ==> log[i] == Telling(log[i], late)
  }

  lemma {:induction false} EarlyCaches(log: seq<Event>)
    requires AllTelling(log, false)
    ensures Replay(log) == Caches(if HasService(log) then map[KEY := Json.Boolean(false)] else map[], map[])
    decreases |log|
  {
    if log != [] {
      var n := |log| - 1;
      EarlyCaches(log[..n]);
      assert log[n] == Telling(log[n], false);
      assert forall i :: 0 <= i < n ==> log[..n][i] == log[i];
    }
  }

  ghost predicate HasEndpoints(log: seq<Event>) {
    exists i :: 0 <= i < |log| && log[i].EndpointsEvent?
  }

  /** One service with late content if there was a late service event, and its pod likewise. */
  function Late(services: map<ServiceKey, Json.Value>, service: bool, endpoints: bool): Caches {
    Caches(if service then map[KEY := Json.Boolean(true)] else services, if endpoints then map[KEY := [""]] else map[])
  }

  lemma LateStep(e: Event, services: map<ServiceKey, Json.Value>, service: bool, endpoints: bool)
    requires e == Telling(e, true) && (services == map[] || services.Keys == {KEY})
    ensures ApplyEvent(Late(services, service, endpoints), e)
         == Late(services, service || e.ServiceEvent?, endpoints || e.EndpointsEvent?)
  {
    PodNamed();
  }

  lemma KindsSnoc(log: seq<Event>)
    requires log != []
    ensures HasService(log) <==> HasService(log[..|log| - 1]) || log[|log| - 1].ServiceEvent?
    ensures HasEndpoints(log) <==> HasEndpoints(log[..|log| - 1]) || log[|log| - 1].EndpointsEvent?
  {
    var n := |log| - 1;
    assert forall i :: 0 <= i < n ==> log[..n][i] == log[i];
  }

  lemma {:induction false} LateCaches(early: seq<Event>, late: seq<Event>)
    requires AllTelling(early, false) && AllTelling(late, true)
    ensures Replay(early + late) == Late(Replay(early).services, HasService(late), HasEndpoints(late))
    decreases |late|
  {
    EarlyCaches(early);
    if late == [] {
      assert early + late == early;
    } else {
      var n := |late| - 1;
      LateCaches(early, late[..n]);
      assert (early + late)[..|early + late| - 1] == early + late[..n];
      assert Replay(early + late) == ApplyEvent(Replay(early + late[..n]), late[n]);
      KindsSnoc(late);
      LateStep(late[n], Replay(early).services, HasService(late[..n]), HasEndpoints(late[..n]));
    }
  }

  lemma OneServiceList(c: Caches, raw: Json.Value, cluster: Cluster)
    requires c.services == map[KEY := raw]
    ensures ServiceList(c, cluster) == [ServiceToJson(cluster, KEY, raw, PodsFor(c, KEY))]
  {
    var keys := Ordering.PairsInOrder(c.services.Keys);
    assert c.services.Keys == {KEY};
    assert |keys| == 1 && keys[0] in keys;
  }

  lemma NoServiceList(c: Caches, cluster: Cluster)
    requires c.services == map[]
    ensures ServiceList(c, cluster) == []
  {
    assert c.services.Keys == {};
  }

  lemma EntriesDiffer(a: Json.Value, b: Json.Value, p: seq<string>, q: seq<string>, cluster: Cluster)
    requires a != b || |p| != |q|
    ensures ServiceToJson(cluster, KEY, a, p) != ServiceToJson(cluster, KEY, b, q)
  {
    var x, y := ServiceToJson(cluster, KEY, a, p), ServiceToJson(cluster, KEY, b, q);
    assert x.fields["api"].fields["raw"] == a && y.fields["api"].fields["raw"] == b;
    assert |x.fields["api"].fields["pods"].elements| == |p| && |y.fields["api"].fields["pods"].elements| == |q|;
  }

  /** With a service anywhere, any later event makes a difference to the join. */
  lemma JoinsTellApart(early: seq<Event>, late: seq<Event>, cluster: Cluster)
    requires AllTelling(early, false) && AllTelling(late, true) && late != []
    requires HasService(early) || HasService(late)
    ensures Join(early, cluster) != Join(early + late, cluster)
  {
    EarlyCaches(early);
    LateCaches(early, late);
    var before, after := Replay(early), Replay(early + late);
    assert late[0].ServiceEvent? || late[0].EndpointsEvent?;
    assert HasService(late) || HasEndpoints(late);
    var raw := Json.Boolean(HasService(late));
    assert after.services == map[KEY := raw];
    OneServiceList(after, raw, cluster);
    if HasService(early) {
      OneServiceList(before, Json.Boolean(false), cluster);
      EntriesDiffer(Json.Boolean(false), raw, PodsFor(before, KEY), PodsFor(after, KEY), cluster);
    } else {
      NoServiceList(before, cluster);
    }
    ContentInjective(ServiceList(before, cluster), ServiceList(after, cluster));
  }

  /** The schedule with telling events: early ones before step `j`, late ones after. */
  function Recast(steps: seq<Step>, j: nat): seq<Step> {
    seq(|steps|, k requires 0 <= k < |steps| => RecastStep(steps[k], k >= j))
  }

  function RecastStep(step: Step, late: bool): Step {
    if step.UpdateCache? then UpdateCache(step.thread, Telling(step.event, late)) else step
  }

  lemma {:induction false} EventsSplit(a: seq<Step>, b: seq<Step>)
    ensures Events(a + b) == Events(a) + Events(b)
    decreases |b|
  {
    if b == [] {
      assert a + b == a;
    } else {
      var n := |b| - 1;
      EventsSplit(a, b[..n]);
      assert (a + b)[..|a + b| - 1] == a + b[..n];
    }
  }

  lemma {:induction false} EventsTelling(steps: seq<Step>, late: bool)
    requires forall k :: 0 <= k < |steps| && steps[k].UpdateCache? ==> steps[k].event == Telling(steps[k].event, late)
    ensures AllTelling(Events(steps), late)
    decreases |steps|
  {
    if steps != [] { EventsTelling(steps[..|steps| - 1], late); }
  }

  lemma RecastEvents(steps: seq<Step>, j: nat)
    requires j <= |steps|
    ensures var all, early := Events(Recast(steps, j)), |Events(steps[..j])|;
      && early <= |all| && AllTelling(all[..early], false) && AllTelling(all[early..], true)
  {
    var b := Recast(steps, j);
    SameKinds(steps[..j], b[..j]);
    assert b == b[..j] + b[j..];
    EventsSplit(b[..j], b[j..]);
    EventsTelling(b[..j], false);
    EventsTelling(b[j..], true);
    var all, early := Events(b), |Events(steps[..j])|;
    assert all[..early] == Events(b[..j]) && all[early..] == Events(b[j..]);
  }

  // ---------------------------------------------------------------- the result

  /** Whatever the events of the schedule say, the stored value is the join of the caches at its end. */
  ghost predicate AlwaysCurrent(steps: seq<Step>, cluster: Cluster) {
    forall b :: SameSchedule(steps, b) && Run(b, cluster).Some? ==>
      StoredIs(Run(b, cluster).value, |Run(b, cluster).value.log|, cluster)
  }

  ghost predicate NoUpdateSince(steps: seq<Step>, j: nat) {
    forall k :: j <= k < |steps| ==> !steps[k].UpdateCache?
  }

  /**
    The stored value is current for all contents of the events exactly when no cache update follows the
    join that was published last, or there is no service at all to report.
   */
  lemma AlwaysCurrentIff(steps: seq<Step>, j: nat, p: nat, cluster: Cluster)
    requires Run(steps, cluster).Some? && IsPublishedJoin(steps, j, p)
    ensures AlwaysCurrent(steps, cluster) <==> NoUpdateSince(steps, j) || !HasService(Events(steps))
  {
    if NoUpdateSince(steps, j) || !HasService(Events(steps)) {
      forall b | SameSchedule(steps, b) && Run(b, cluster).Some?
        ensures StoredIs(Run(b, cluster).value, |Run(b, cluster).value.log|, cluster)
      {
        CurrentFor(steps, b, j, p, cluster);
      }
    } else {
      StaleRecast(steps, j, p, cluster);
    }
  }

  lemma CurrentFor(steps: seq<Step>, b: seq<Step>, j: nat, p: nat, cluster: Cluster)
    requires Run(steps, cluster).Some? && IsPublishedJoin(steps, j, p)
    requires NoUpdateSince(steps, j) || !HasService(Events(steps))
    requires SameSchedule(steps, b) && Run(b, cluster).Some?
    ensures StoredIs(Run(b, cluster).value, |Run(b, cluster).value.log|, cluster)
  {
    var s := Run(b, cluster).value;
    RunSameShape(steps, b, cluster);
    PublishedSaw(steps, j, p, cluster);
    StoredIsSomePrefix(b, cluster);
    LogIsEvents(steps, cluster);
    EventsPrefix(steps, j);
    if !HasService(Events(steps)) {
      SameKinds(steps, b);
      LogIsEvents(b, cluster);
      NoServices(s.log[..s.published.value.seen], cluster);
      NoServices(s.log[..|s.log|], cluster);
    }
  }

  lemma {:induction false} SameKinds(a: seq<Step>, b: seq<Step>)
    requires SameSchedule(a, b)
    ensures |Events(a)| == |Events(b)|
    ensures forall i :: 0 <= i < |Events(a)| ==> Events(a)[i].ServiceEvent? == Events(b)[i].ServiceEvent?
    decreases |a|
  {
    if a != [] {
      var n := |a| - 1;
      assert SameStep(a[n], b[n]);
      SameKinds(a[..n], b[..n]);
    }
  }

  lemma NoServices(log: seq<Event>, cluster: Cluster)
    requires !HasService(log)
    ensures Join(log, cluster) == ClusterContent([])
  {
    NoServicesCached(log);
    NoServiceList(Replay(log), cluster);
  }

  lemma {:induction false} NoServicesCached(log: seq<Event>)
    requires !HasService(log)
    ensures Replay(log).services == map[]
    decreases |log|
  {
    if log != [] {
      var n := |log| - 1;
      assert forall i :: 0 <= i < n ==> log[..n][i] == log[i];
      NoServicesCached(log[..n]);
      assert log[n].EndpointsEvent?;
    }
  }

  /** Otherwise some contents make it stale. */
  lemma StaleRecast(steps: seq<Step>, j: nat, p: nat, cluster: Cluster)
    requires Run(steps, cluster).Some? && IsPublishedJoin(steps, j, p)
    requires !NoUpdateSince(steps, j) && HasService(Events(steps))
    ensures var b := Recast(steps, j);
      && SameSchedule(steps, b) && Run(b, cluster).Some?
      && !StoredIs(Run(b, cluster).value, |Run(b, cluster).value.log|, cluster)
  {
    var b := Recast(steps, j);
    RunSameShape(steps, b, cluster);
    PublishedSaw(steps, j, p, cluster);
    StoredIsSomePrefix(b, cluster);
    LogIsEvents(b, cluster);
    EventsPrefix(steps, j);
    RecastEvents(steps, j);
    SameKinds(steps, b);
    var log, seen := Events(b), |Events(steps[..j])|;
    assert log[..seen] + log[seen..] == log == log[..|log|];
    var i :| 0 <= i < |Events(steps)| && Events(steps)[i].ServiceEvent?;
    assert log[i].ServiceEvent?;
    assert if i < seen then log[..seen][i].ServiceEvent? else log[seen..][i - seen].ServiceEvent?;
    JoinsTellApart(log[..seen], log[seen..], cluster);
  }
}

/**
  The service and endpoints caches of the Kubernetes reader and the join the agent reports for
  the cluster (src/kubernetes.cc).  Objects are read as far as the code reads them; the raw
  service object is kept whole.
 */
module ServiceCache {
  import opened Wrappers
  import opened Ordering
  import opened Store
  import Json

  /** Namespace name and service name. */
  type ServiceKey = (string, string)

  datatype TargetRef = TargetRef(kind: Option<string>, name: Option<string>)
  datatype Address = Address(targetRef: Option<TargetRef>)
  datatype Subset = Subset(addresses: Option<seq<Address>>)

  datatype Service = Service(key: ServiceKey, raw: Json.Value)

  /** `subsets` is None when the field is missing or null. */
  datatype Endpoints = Endpoints(key: ServiceKey, subsets: Option<seq<Subset>>)

  datatype Event =
    | ServiceEvent(service: Service, isDeleted: bool)
    | EndpointsEvent(endpoints: Endpoints, isDeleted: bool)

  // ---------------------------------------------------------------- pod names

  /** The pod an address points at, if it does point at a pod. */
  function PodOf(a: Address): Option<string> {
    match a.targetRef
    case Some(TargetRef(Some(kind), Some(name))) => if kind == "Pod" then Some(name) else None
    case _ => None
  }

  function PodsOf(addresses: seq<Address>): seq<string> {
    if addresses == [] then []
    else
      var n := |addresses| - 1;
      PodsOf(addresses[..n]) + (match PodOf(addresses[n]) case Some(name) => [name] case None => [])
  }

  function PodsOfSubsets(subsets: seq<Subset>): seq<string> {
    if subsets == [] then []
    else
      var n := |subsets| - 1;
      PodsOfSubsets(subsets[..n]) +
      (match subsets[n].addresses case Some(addresses) => PodsOf(addresses) case None => [])
  }

  /** All pod targets of the endpoints, flattened in order. */
  function PodNames(e: Endpoints): seq<string> {
    match e.subsets case None => [] case Some(subsets) => PodsOfSubsets(subsets)
  }

  // ---------------------------------------------------------------- which pods those are

  ghost predicate IsPod(addresses: seq<Address>, j: int) {
    && 0 <= j < |addresses| && addresses[j].targetRef.Some?
    && addresses[j].targetRef.value.kind == Some("Pod") && addresses[j].targetRef.value.name.Some?
  }

  /** The target of address `j` of subset `i` is a pod with a name. */
  ghost predicate IsPodAt(subsets: seq<Subset>, i: int, j: int) {
    0 <= i < |subsets| && subsets[i].addresses.Some? && IsPod(subsets[i].addresses.value, j)
  }

  predicate Before(p: (int, int), q: (int, int)) {
    p.0 < q.0 || (p.0 == q.0 && p.1 < q.1)
  }

  /** `at` lists the positions of all pod targets in order, and `names` their names. */
  ghost predicate PodPositions(subsets: seq<Subset>, at: seq<(int, int)>, names: seq<string>) {
    && |at| == |names|
    && (forall a, b :: 0 <= a < b < |at| ==> Before(at[a], at[b]))
    && (forall i, j :: IsPodAt(subsets, i, j) ==> (i, j) in at)
    && (forall k :: 0 <= k < |at| ==> NamedAt(subsets, at[k], names[k]))
  }

  ghost predicate NamedAt(subsets: seq<Subset>, p: (int, int), name: string) {
    IsPodAt(subsets, p.0, p.1) && subsets[p.0].addresses.value[p.1].targetRef.value.name == Some(name)
  }

  /** `names` are the names of all pod targets, in order. */
  ghost predicate ListsPods(subsets: seq<Subset>, names: seq<string>) {
    exists at :: PodPositions(subsets, at, names)
  }

  ghost predicate AddressPositions(addresses: seq<Address>, at: seq<int>, names: seq<string>) {
    && |at| == |names|
    && (forall a, b :: 0 <= a < b < |at| ==> at[a] < at[b])
    && (forall j :: IsPod(addresses, j) ==> j in at)
    && (forall k :: 0 <= k < |at| ==>
          IsPod(addresses, at[k]) && addresses[at[k]].targetRef.value.name == Some(names[k]))
  }

  lemma {:induction false} FindAddressPods(addresses: seq<Address>) returns (at: seq<int>)
    ensures AddressPositions(addresses, at, PodsOf(addresses))
    decreases |addresses|
  {
    at := [];
    if addresses != [] {
      var n := |addresses| - 1;
      var front := FindAddressPods(addresses[..n]);
      LongerAddresses(addresses, front, PodsOf(addresses[..n]));
      at := if IsPod(addresses, n) then front + [n] else front;
      LastAddress(addresses);
      AppendAddress(addresses, front, PodsOf(addresses[..n]));
    }
  }

  lemma {:induction false} LastAddress(addresses: seq<Address>)
    requires addresses != []
    ensures var n := |addresses| - 1;
      PodsOf(addresses) == PodsOf(addresses[..n]) +
        if IsPod(addresses, n) then [addresses[n].targetRef.value.name.value] else []
  {
  }

  lemma {:induction false} AppendAddress(addresses: seq<Address>, front: seq<int>, names: seq<string>)
    requires addresses != [] && |front| == |names|
    requires forall a, b :: 0 <= a < b < |front| ==> front[a] < front[b]
    requires forall k :: 0 <= k < |front| ==>
      && front[k] < |addresses| - 1 && IsPod(addresses, front[k])
      && addresses[front[k]].targetRef.value.name == Some(names[k])
    requires forall j :: IsPod(addresses, j) && j < |addresses| - 1 ==> j in front
    ensures var n := |addresses| - 1;
      if IsPod(addresses, n)
      then AddressPositions(addresses, front + [n], names + [addresses[n].targetRef.value.name.value])
      else AddressPositions(addresses, front, names)
  {
  }

  /** The positions among all but the last address are positions among all. */
  lemma {:induction false} LongerAddresses(addresses: seq<Address>, at: seq<int>, names: seq<string>)
    requires addresses != [] && AddressPositions(addresses[..|addresses| - 1], at, names)
    ensures var n := |addresses| - 1;
      && (forall k :: 0 <= k < |at| ==>
           at[k] < n && IsPod(addresses, at[k]) && addresses[at[k]].targetRef.value.name == Some(names[k]))
      && (forall j :: IsPod(addresses, j) && j < n ==> j in at)
  {
    var n := |addresses| - 1;
    forall k | 0 <= k < |at| ensures at[k] < n && IsPod(addresses, at[k]) { assert IsPod(addresses[..n], at[k]); }
    forall j | IsPod(addresses, j) && j < n ensures j in at { assert IsPod(addresses[..n], j); }
  }

  /** The positions of one subset's pods. */
  function Row(n: int, js: seq<int>): (r: seq<(int, int)>)
    ensures |r| == |js| && forall k :: 0 <= k < |r| ==> r[k] == (n, js[k])
  {
    seq(|js|, k requires 0 <= k < |js| => (n, js[k]))
  }

  /** Flattening collects exactly the pod targets, in order. */
  lemma {:induction false} FindPods(subsets: seq<Subset>) returns (at: seq<(int, int)>)
    ensures PodPositions(subsets, at, PodsOfSubsets(subsets))
    decreases |subsets|
  {
    at := [];
    if subsets != [] {
      var n := |subsets| - 1;
      var front := FindPods(subsets[..n]);
      LongerSubsets(subsets, front, PodsOfSubsets(subsets[..n]));
      at := front;
      if subsets[n].addresses.Some? {
        var last := FindAddressPods(subsets[n].addresses.value);
        LastSubset(subsets, last, PodsOf(subsets[n].addresses.value));
        at := front + Row(n, last);
        AppendPositions(subsets, front, PodsOfSubsets(subsets[..n]), Row(n, last), PodsOf(subsets[n].addresses.value));
      }
    }
  }

  lemma {:induction false} LongerSubsets(subsets: seq<Subset>, at: seq<(int, int)>, names: seq<string>)
    requires subsets != [] && PodPositions(subsets[..|subsets| - 1], at, names)
    ensures forall k :: 0 <= k < |at| ==> at[k].0 < |subsets| - 1 && NamedAt(subsets, at[k], names[k])
    ensures forall i, j :: IsPodAt(subsets, i, j) && i < |subsets| - 1 ==> (i, j) in at
  {
    var n := |subsets| - 1;
    forall k | 0 <= k < |at| ensures at[k].0 < n && NamedAt(subsets, at[k], names[k]) {
      assert NamedAt(subsets[..n], at[k], names[k]);
    }
    forall i, j | IsPodAt(subsets, i, j) && i < n ensures (i, j) in at { assert IsPodAt(subsets[..n], i, j); }
  }

  lemma {:induction false} LastSubset(subsets: seq<Subset>, last: seq<int>, names: seq<string>)
    requires subsets != [] && subsets[|subsets| - 1].addresses.Some?
    requires AddressPositions(subsets[|subsets| - 1].addresses.value, last, names)
    ensures var n := |subsets| - 1;
      && (forall k :: 0 <= k < |last| ==> NamedAt(subsets, Row(n, last)[k], names[k]))
      && (forall a, b :: 0 <= a < b < |last| ==> Before(Row(n, last)[a], Row(n, last)[b]))
      && (forall j :: IsPodAt(subsets, n, j) ==> (n, j) in Row(n, last))
  {
    var n := |subsets| - 1;
    forall j | IsPodAt(subsets, n, j) ensures (n, j) in Row(n, last) {
      var k :| 0 <= k < |last| && last[k] == j;
      assert Row(n, last)[k] == (n, j);
    }
  }

  lemma {:induction false} AppendPositions(subsets: seq<Subset>, front: seq<(int, int)>, names: seq<string>,
                                           row: seq<(int, int)>, more: seq<string>)
    requires subsets != [] && |front| == |names| && |row| == |more|
    requires forall a, b :: 0 <= a < b < |front| ==> Before(front[a], front[b])
    requires forall a, b :: 0 <= a < b < |row| ==> Before(row[a], row[b])
    requires forall k :: 0 <= k < |front| ==> front[k].0 < |subsets| - 1 && NamedAt(subsets, front[k], names[k])
    requires forall k :: 0 <= k < |row| ==> row[k].0 == |subsets| - 1 && NamedAt(subsets, row[k], more[k])
    requires forall i, j :: IsPodAt(subsets, i, j) && i < |subsets| - 1 ==> (i, j) in front
    requires forall i, j :: IsPodAt(subsets, i, j) && i == |subsets| - 1 ==> (i, j) in row
    ensures PodPositions(subsets, front + row, names + more)
  {
    var at, all := front + row, names + more;
    forall k | 0 <= k < |at| ensures NamedAt(subsets, at[k], all[k]) {
      if k >= |front| { assert at[k] == row[k - |front|] && all[k] == more[k - |front|]; }
    }
    forall a, b | 0 <= a < b < |at| ensures Before(at[a], at[b]) {
      if a >= |front| { assert Before(row[a - |front|], row[b - |front|]); }
    }
  }

  /** The pods of an endpoints object: none without subsets. */
  ghost predicate NamesPodsOf(e: Endpoints, names: seq<string>) {
    match e.subsets case None => names == [] case Some(subsets) => ListsPods(subsets, names)
  }

  lemma PodNamesAre(e: Endpoints)
    ensures NamesPodsOf(e, PodNames(e))
  {
    if e.subsets.Some? { var at := FindPods(e.subsets.value); }
  }

  // ---------------------------------------------------------------- the caches as values

  datatype Caches = Caches(services: map<ServiceKey, Json.Value>, pods: map<ServiceKey, seq<string>>)

  const NO_CACHES := Caches(map[], map[])

  function ApplyEvent(c: Caches, e: Event): Caches {
    match e
    case ServiceEvent(s, deleted) =>
      c.(services := if deleted then c.services - {s.key} else c.services[s.key := s.raw])
    case EndpointsEvent(ep, deleted) =>
      c.(pods := if deleted then c.pods - {ep.key} else c.pods[ep.key := PodNames(ep)])
  }

  function Replay(events: seq<Event>): Caches {
    if events == [] then NO_CACHES else ApplyEvent(Replay(events[..|events| - 1]), events[|events| - 1])
  }

  // ---------------------------------------------------------------- the join

  const K8S_API_VERSION := "1.6"

  function StringFields(m: map<string, string>): Json.Value {
    Json.Object(map k | k in m :: Json.Str(m[k]))
  }

  function ResourceToJson(r: Resource): Json.Value {
    Json.Object(map["type" := Json.Str(r.kind), "labels" := StringFields(r.labels)])
  }

  datatype Cluster = Cluster(name: string, location: string)

  function PodResource(cluster: Cluster, ns: string, pod: string): Resource {
    Resource("k8s_pod", map["cluster_name" := cluster.name, "namespace_name" := ns,
                            "pod_name" := pod, "location" := cluster.location])
  }

  function PodResources(cluster: Cluster, ns: string, pods: seq<string>): seq<Json.Value> {
    seq(|pods|, i requires 0 <= i < |pods| => ResourceToJson(PodResource(cluster, ns, pods[i])))
  }

  function ServiceToJson(cluster: Cluster, key: ServiceKey, raw: Json.Value, pods: seq<string>): Json.Value {
    Json.Object(map["api" := Json.Object(map[
      "version" := Json.Str(K8S_API_VERSION),
      "raw" := raw,
      "pods" := Json.Array(PodResources(cluster, key.0, pods))])])
  }

  function PodsFor(c: Caches, key: ServiceKey): seq<string> {
    if key in c.pods then c.pods[key] else []
  }

  /** The list of services in key order, each with its pods. */
  function ServiceList(c: Caches, cluster: Cluster): seq<Json.Value> {
    var keys := PairsInOrder(c.services.Keys);
    seq(|keys|, i requires 0 <= i < |keys| =>
      assert keys[i] in keys; ServiceToJson(cluster, keys[i], c.services[keys[i]], PodsFor(c, keys[i])))
  }

  // ---------------------------------------------------------------- histories

  ghost predicate TouchesService(events: seq<Event>, i: int, key: ServiceKey) {
    0 <= i < |events| && events[i].ServiceEvent? && events[i].service.key == key
  }

  ghost predicate TouchesEndpoints(events: seq<Event>, i: int, key: ServiceKey) {
    0 <= i < |events| && events[i].EndpointsEvent? && events[i].endpoints.key == key
  }

  ghost predicate IsLastService(events: seq<Event>, i: int, key: ServiceKey) {
    TouchesService(events, i, key) && forall j :: i < j < |events| ==> !TouchesService(events, j, key)
  }

  ghost predicate IsLastEndpoints(events: seq<Event>, i: int, key: ServiceKey) {
    TouchesEndpoints(events, i, key) && forall j :: i < j < |events| ==> !TouchesEndpoints(events, j, key)
  }

  /** A service is cached, with its latest object, iff its latest event was not a deletion. */
  lemma {:induction false} ServiceIsLastEvent(events: seq<Event>, key: ServiceKey)
    ensures key in Replay(events).services <==>
      exists i :: IsLastService(events, i, key) && !events[i].isDeleted
    ensures forall i :: IsLastService(events, i, key) && !events[i].isDeleted ==>
      key in Replay(events).services && Replay(events).services[key] == events[i].service.raw
    decreases |events|
  {
    if events != [] {
      var n := |events| - 1;
      var front := events[..n];
      ServiceIsLastEvent(front, key);
      forall i | 0 <= i < n ensures TouchesService(front, i, key) == TouchesService(events, i, key) {}
      if TouchesService(events, n, key) {
        assert IsLastService(events, n, key);
      } else if key in Replay(front).services {
        var i :| IsLastService(front, i, key) && !front[i].isDeleted;
        assert IsLastService(events, i, key);
      }
      forall i | IsLastService(events, i, key) && !events[i].isDeleted
        ensures key in Replay(events).services && Replay(events).services[key] == events[i].service.raw
      {
        if i < n {
          assert IsLastService(front, i, key);
          assert !TouchesService(events, n, key);
        }
      }
    }
  }

  /** The pods of a key are those of its latest endpoints event, none after a deletion. */
  lemma {:induction false} PodsAreLastEvent(events: seq<Event>, key: ServiceKey)
    ensures (forall i :: !TouchesEndpoints(events, i, key)) ==> PodsFor(Replay(events), key) == []
    ensures forall i :: IsLastEndpoints(events, i, key) ==>
      PodsFor(Replay(events), key) == if events[i].isDeleted then [] else PodNames(events[i].endpoints)
    decreases |events|
  {
    if events != [] {
      var n := |events| - 1;
      var front := events[..n];
      PodsAreLastEvent(front, key);
      forall i | 0 <= i < n ensures TouchesEndpoints(front, i, key) == TouchesEndpoints(events, i, key) {}
      forall i | IsLastEndpoints(events, i, key)
        ensures PodsFor(Replay(events), key) == if events[i].isDeleted then [] else PodNames(events[i].endpoints)
      {
        if i < n {
          assert IsLastEndpoints(front, i, key);
          assert !TouchesEndpoints(events, n, key);
        }
      }
      if forall i :: !TouchesEndpoints(events, i, key) {
        assert !TouchesEndpoints(events, n, key);
        forall i ensures !TouchesEndpoints(front, i, key) { assert !TouchesEndpoints(events, i, key); }
      }
    }
  }

  /** Position `i` of the list speaks of `key`, whose latest service event is `s`. */
  ghost predicate Describes(list: seq<Json.Value>, keys: seq<ServiceKey>, i: int, events: seq<Event>,
                            cluster: Cluster) {
    0 <= i < |list| == |keys| &&
    exists s, pods ::
      && IsLastService(events, s, keys[i]) && !events[s].isDeleted
      && HasPods(events, keys[i], pods)
      && Reports(list[i], cluster, keys[i], events[s].service.raw, pods)
  }

  /** The JSON of one service, spelled out. */
  ghost predicate Reports(entry: Json.Value, cluster: Cluster, key: ServiceKey, raw: Json.Value, pods: seq<string>) {
    exists resources: seq<Json.Value> ::
      && |resources| == |pods|
      && (forall k :: 0 <= k < |pods| ==> IsPodResource(resources[k], cluster, key.0, pods[k]))
      && entry == Json.Object(map["api" := Json.Object(map[
           "version" := Json.Str("1.6"), "raw" := raw, "pods" := Json.Array(resources)])])
  }

  ghost predicate IsPodResource(v: Json.Value, cluster: Cluster, ns: string, pod: string) {
    v == Json.Object(map[
      "type" := Json.Str("k8s_pod"),
      "labels" := Json.Object(map[
        "cluster_name" := Json.Str(cluster.name),
        "namespace_name" := Json.Str(ns),
        "pod_name" := Json.Str(pod),
        "location" := Json.Str(cluster.location)])])
  }

  lemma PodResourceIs(cluster: Cluster, ns: string, pod: string)
    ensures IsPodResource(ResourceToJson(PodResource(cluster, ns, pod)), cluster, ns, pod)
  {
    assert StringFields(PodResource(cluster, ns, pod).labels).fields
        == map["cluster_name" := Json.Str(cluster.name), "namespace_name" := Json.Str(ns),
               "pod_name" := Json.Str(pod), "location" := Json.Str(cluster.location)];
  }

  lemma ServiceReports(cluster: Cluster, key: ServiceKey, raw: Json.Value, pods: seq<string>)
    ensures Reports(ServiceToJson(cluster, key, raw, pods), cluster, key, raw, pods)
  {
    var resources := PodResources(cluster, key.0, pods);
    forall k | 0 <= k < |pods| ensures IsPodResource(resources[k], cluster, key.0, pods[k]) {
      PodResourceIs(cluster, key.0, pods[k]);
    }
  }

  /** `pods` is what the latest endpoints event of `key` names; nothing when deleted or never seen. */
  ghost predicate HasPods(events: seq<Event>, key: ServiceKey, pods: seq<string>) {
    if exists e :: IsLastEndpoints(events, e, key) then
      exists e :: IsLastEndpoints(events, e, key)
        && if events[e].isDeleted then pods == [] else NamesPodsOf(events[e].endpoints, pods)
    else pods == []
  }

  /**
    After any history the list has one element per service whose latest event was not a deletion,
    in key order, with its latest object and the pods of its latest endpoints event, whichever of
    the two came first and even across a deletion of the service.
   */
  lemma ServiceListOfHistory(events: seq<Event>, cluster: Cluster)
    ensures var list := ServiceList(Replay(events), cluster);
      exists keys: seq<ServiceKey> ::
        && Increasing(keys, PairLess)
        && (forall k :: k in keys <==> exists i :: IsLastService(events, i, k) && !events[i].isDeleted)
        && |list| == |keys|
        && forall i :: 0 <= i < |keys| ==> Describes(list, keys, i, events, cluster)
  {
    var c := Replay(events);
    var list, keys := ServiceList(c, cluster), PairsInOrder(c.services.Keys);
    assert Increasing(keys, PairLess) by {
      PairLessStrictTotal();
      InOrderIncreasing(c.services.Keys, PairLess);
    }
    forall k ensures k in keys <==> exists i :: IsLastService(events, i, k) && !events[i].isDeleted {
      ServiceIsLastEvent(events, k);
    }
    forall i | 0 <= i < |keys| ensures Describes(list, keys, i, events, cluster) {
      assert keys[i] in keys;
      DescribedBy(events, cluster, i);
    }
  }

  lemma DescribedBy(events: seq<Event>, cluster: Cluster, i: int)
    requires 0 <= i < |PairsInOrder(Replay(events).services.Keys)|
    ensures Describes(ServiceList(Replay(events), cluster), PairsInOrder(Replay(events).services.Keys), i,
                      events, cluster)
  {
    var c := Replay(events);
    var key := PairsInOrder(c.services.Keys)[i];
    assert key in PairsInOrder(c.services.Keys);
    ServiceIsLastEvent(events, key);
    var s :| IsLastService(events, s, key) && !events[s].isDeleted;
    var pods := PodsFor(c, key);
    PodsAreLastEvent(events, key);
    assert HasPods(events, key, pods) by {
      if !(exists e :: IsLastEndpoints(events, e, key)) {
        forall e ensures !TouchesEndpoints(events, e, key) { NoLastMeansNone(events, e, key); }
      } else {
        var e :| IsLastEndpoints(events, e, key);
        PodNamesAre(events[e].endpoints);
      }
    }
    ServiceReports(cluster, key, events[s].service.raw, pods);
  }

  lemma {:induction false} NoLastMeansNone(events: seq<Event>, e: int, key: ServiceKey)
    requires forall i :: !IsLastEndpoints(events, i, key)
    ensures !TouchesEndpoints(events, e, key)
    decreases |events| - e
  {
    if TouchesEndpoints(events, e, key) {
      assert !IsLastEndpoints(events, e, key);
      var j :| e < j < |events| && TouchesEndpoints(events, j, key);
      NoLastMeansNone(events, j, key);
    }
  }

  // ---------------------------------------------------------------- the object

  class ServiceCaches {
    var serviceToMetadata: map<ServiceKey, Json.Value>
    var serviceToPods: map<ServiceKey, seq<string>>

    ghost function Now(): Caches
      reads this
    {
      Caches(serviceToMetadata, serviceToPods)
    }

    constructor ()
      ensures Now() == NO_CACHES
    {
      serviceToMetadata, serviceToPods := map[], map[];
    }

    method UpdateServiceToMetadataCache(service: Service, isDeleted: bool)
      modifies this
      ensures Now() == ApplyEvent(old(Now()), ServiceEvent(service, isDeleted))
    {
      if isDeleted {
        serviceToMetadata := serviceToMetadata - {service.key};
      } else {
        serviceToMetadata := serviceToMetadata[service.key := service.raw];
      }
    }

    method UpdateServiceToPodsCache(endpoints: Endpoints, isDeleted: bool)
      modifies this
      ensures Now() == ApplyEvent(old(Now()), EndpointsEvent(endpoints, isDeleted))
    {
      var podNames: seq<string> := [];
      if !isDeleted && endpoints.subsets.Some? {
        podNames := CollectPodNames(endpoints.subsets.value);
      }
      if isDeleted {
        serviceToPods := serviceToPods - {endpoints.key};
      } else {
        serviceToPods := serviceToPods[endpoints.key := podNames];
      }
    }

    method GetServiceList(cluster: Cluster) returns (list: seq<Json.Value>)
      ensures list == ServiceList(Now(), cluster)
    {
      list := [];
      var keys := PairsInOrder(serviceToMetadata.Keys);
      for i := 0 to |keys|
        invariant list == ServiceList(Now(), cluster)[..i]
      {
        assert keys[i] in keys;
        var podNames := if keys[i] in serviceToPods then serviceToPods[keys[i]] else [];
        var podResources := CollectPodResources(cluster, keys[i].0, podNames);
        var entry := Json.Object(map["api" := Json.Object(map[
          "version" := Json.Str(K8S_API_VERSION),
          "raw" := serviceToMetadata[keys[i]],
          "pods" := Json.Array(podResources)])]);
        ghost var whole := ServiceList(Now(), cluster);
        assert entry == whole[i];
        assert whole[..i + 1] == whole[..i] + [entry];
        list := list + [entry];
      }
    }
  }

  method CollectPodResources(cluster: Cluster, ns: string, podNames: seq<string>) returns (r: seq<Json.Value>)
    ensures r == PodResources(cluster, ns, podNames)
    ensures |r| == |podNames| && forall k :: 0 <= k < |r| ==> IsPodResource(r[k], cluster, ns, podNames[k])
  {
    forall k | 0 <= k < |podNames|
      ensures IsPodResource(PodResources(cluster, ns, podNames)[k], cluster, ns, podNames[k])
    {
      PodResourceIs(cluster, ns, podNames[k]);
    }
    r := [];
    for j := 0 to |podNames|
      invariant r == PodResources(cluster, ns, podNames)[..j]
    {
      r := r + [ResourceToJson(PodResource(cluster, ns, podNames[j]))];
    }
  }

  /** The nested loops that flatten the pod targets. */
  method CollectPodNames(subsets: seq<Subset>) returns (podNames: seq<string>)
    ensures podNames == PodsOfSubsets(subsets) && ListsPods(subsets, podNames)
  {
    ghost var at := FindPods(subsets);
    podNames := [];
    for i := 0 to |subsets|
      invariant podNames == PodsOfSubsets(subsets[..i])
    {
      assert subsets[..i + 1][..i] == subsets[..i];
      if subsets[i].addresses.None? {
        continue;
      }
      var addresses := subsets[i].addresses.value;
      for j := 0 to |addresses|
        invariant podNames == PodsOfSubsets(subsets[..i]) + PodsOf(addresses[..j])
      {
        assert addresses[..j + 1][..j] == addresses[..j];
        var ref := addresses[j].targetRef;
        if ref.None? {
          continue;
        }
        if ref.value.kind.None? || ref.value.name.None? {
          continue;
        }
        if ref.value.kind.value != "Pod" {
          continue;
        }
        podNames := podNames + [ref.value.name.value];
      }
      assert addresses[..|addresses|] == addresses;
    }
    assert subsets[..|subsets|] == subsets;
  }
}

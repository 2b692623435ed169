/**
  Finding the top-level controller of an object by following owner references, with the two memo
  tables of the Kubernetes reader (src/kubernetes.cc, `KindPath`, `GetOwner`,
  `FindTopLevelController`).  The API server answers every query the same way each time.
 */
module OwnerWalk {
  import opened Wrappers
  import Json

  datatype OwnerRef = OwnerRef(apiVersion: string, kind: string, name: string, uid: string, controller: Option<bool>)

  /** `owners` is None when there is no `ownerReferences` field. */
  datatype K8sObject = K8sObject(uid: string, owners: Option<seq<OwnerRef>>, rest: Json.Value)

  datatype ApiResource = ApiResource(name: string, kind: string)

  /** What the API server answers, by path; a path it does not know fails. */
  datatype Server = Server(apiLists: map<string, seq<ApiResource>>, objects: map<string, K8sObject>)

  datatype Failure = QueryFailed | Disappeared | UnknownKind
  datatype Answer<+T> = Ok(value: T) | Err(failure: Failure)

  // ---------------------------------------------------------------- without memo tables

  function QueryPath(version: string): string {
    (if '/' in version then "/apis" else "/api") + "/" + version
  }

  lemma PathIs(version: string)
    ensures QueryPath(version) == if '/' in version then "/apis/" + version else "/api/" + version
  {
  }

  /** Kind to resource name; names with a slash are skipped and the first name of a kind stays. */
  function KindNames(list: seq<ApiResource>): map<string, string> {
    if list == [] then map[]
    else
      var n := |list| - 1;
      var before := KindNames(list[..n]);
      if '/' in list[n].name || list[n].kind in before then before
      else before[list[n].kind := list[n].name]
  }

  /** Element `i` is the first to give the kind a name without a slash. */
  ghost predicate IsFirstName(list: seq<ApiResource>, i: int, kind: string) {
    && 0 <= i < |list| && list[i].kind == kind && '/' !in list[i].name
    && forall j :: 0 <= j < i && list[j].kind == kind ==> '/' in list[j].name
  }

  /** A kind has the name that the list gives it first, names with a slash aside. */
  lemma {:induction false} KindNameIsFirst(list: seq<ApiResource>, kind: string)
    ensures kind in KindNames(list) <==> exists i :: IsFirstName(list, i, kind)
    ensures forall i :: IsFirstName(list, i, kind) ==>
      kind in KindNames(list) && KindNames(list)[kind] == list[i].name
    decreases |list|
  {
    if list != [] {
      var n := |list| - 1;
      var front := list[..n];
      KindNameIsFirst(front, kind);
      forall i | 0 <= i < n ensures IsFirstName(front, i, kind) == IsFirstName(list, i, kind) {
        assert front[i] == list[i];
        if IsFirstName(front, i, kind) { forall j | 0 <= j < i ensures front[j] == list[j] {} }
        if IsFirstName(list, i, kind) { forall j | 0 <= j < i ensures front[j] == list[j] {} }
      }
      if kind in KindNames(front) {
        var i :| IsFirstName(front, i, kind);
        assert IsFirstName(list, i, kind) && !IsFirstName(list, n, kind);
      } else if list[n].kind == kind && '/' !in list[n].name {
        NoneBefore(list, n, kind);
      }
    }
  }

  /** Without a first name there is no name at all. */
  lemma {:induction false} NoneBefore(list: seq<ApiResource>, n: nat, kind: string)
    requires n < |list| && list[n].kind == kind && '/' !in list[n].name
    requires forall i :: 0 <= i < n ==> !IsFirstName(list, i, kind)
    ensures IsFirstName(list, n, kind)
  {
    forall j | 0 <= j < n && list[j].kind == kind ensures '/' in list[j].name { NoNameAt(list, n, j, kind); }
  }

  lemma {:induction false} NoNameAt(list: seq<ApiResource>, n: nat, j: nat, kind: string)
    requires j < n < |list| && list[j].kind == kind
    requires forall i :: 0 <= i < n ==> !IsFirstName(list, i, kind)
    ensures '/' in list[j].name
    decreases j
  {
    if '/' !in list[j].name {
      assert !IsFirstName(list, j, kind);
      var k :| 0 <= k < j && list[k].kind == kind && '/' !in list[k].name;
      NoNameAt(list, n, k, kind);
    }
  }

  /** A version whose list cannot be had knows no kinds. */
  function KindTable(server: Server, version: string): map<string, string> {
    if QueryPath(version) in server.apiLists then KindNames(server.apiLists[QueryPath(version)]) else map[]
  }

  function ObjectPath(version: string, resource: string, ns: string, name: string): string {
    QueryPath(version) + "/namespaces/" + ns + "/" + resource + "/" + name
  }

  function FetchOwner(server: Server, ns: string, ref: OwnerRef): Answer<K8sObject> {
    var table := KindTable(server, ref.apiVersion);
    if ref.kind !in table then Err(UnknownKind)
    else
      var path := ObjectPath(ref.apiVersion, table[ref.kind], ns, ref.name);
      if path !in server.objects then Err(QueryFailed)
      else if server.objects[path].uid != ref.uid then Err(Disappeared)
      else Ok(server.objects[path])
  }

  /** Where an owner is looked for: the list of its version, the first name of its kind, its namespace and its name. */
  ghost predicate FoundAt(server: Server, ns: string, ref: OwnerRef, i: int, o: K8sObject) {
    var path := if '/' in ref.apiVersion then "/apis/" + ref.apiVersion else "/api/" + ref.apiVersion;
    && path in server.apiLists && IsFirstName(server.apiLists[path], i, ref.kind)
    && var at := path + "/namespaces/" + ns + "/" + server.apiLists[path][i].name + "/" + ref.name;
    && at in server.objects && server.objects[at] == o
  }

  /** An owner is fetched exactly when it is found there with the uid of the reference. */
  lemma FetchOwnerIff(server: Server, ns: string, ref: OwnerRef, o: K8sObject)
    ensures FetchOwner(server, ns, ref) == Ok(o) <==> o.uid == ref.uid && exists i :: FoundAt(server, ns, ref, i, o)
    ensures (exists i :: FoundAt(server, ns, ref, i, o)) && o.uid != ref.uid ==>
      FetchOwner(server, ns, ref) == Err(Disappeared)
  {
    var path := QueryPath(ref.apiVersion);
    PathIs(ref.apiVersion);
    if path in server.apiLists {
      KindNameIsFirst(server.apiLists[path], ref.kind);
      forall i | IsFirstName(server.apiLists[path], i, ref.kind)
        ensures path + "/namespaces/" + ns + "/" + server.apiLists[path][i].name + "/" + ref.name
             == ObjectPath(ref.apiVersion, KindTable(server, ref.apiVersion)[ref.kind], ns, ref.name)
      {
      }
      if FetchOwner(server, ns, ref) == Ok(o) {
        var i :| IsFirstName(server.apiLists[path], i, ref.kind);
        assert FoundAt(server, ns, ref, i, o);
      }
    }
  }

  /** The first reference marked as the controller. */
  function FirstController(refs: seq<OwnerRef>): Option<OwnerRef> {
    if refs == [] then None
    else if refs[0].controller == Some(true) then Some(refs[0])
    else FirstController(refs[1..])
  }

  function ControllerRef(o: K8sObject): Option<OwnerRef> {
    match o.owners case None => None case Some(refs) => FirstController(refs)
  }

  /** Reference `i` is the first that says it is the controller. */
  ghost predicate IsFirstController(refs: seq<OwnerRef>, i: int) {
    && 0 <= i < |refs| && refs[i].controller == Some(true)
    && forall j :: 0 <= j < i ==> refs[j].controller != Some(true)
  }

  lemma {:induction false} FirstControllerIs(refs: seq<OwnerRef>)
    ensures FirstController(refs).None? <==> forall i :: 0 <= i < |refs| ==> refs[i].controller != Some(true)
    ensures forall i :: IsFirstController(refs, i) ==> FirstController(refs) == Some(refs[i])
    decreases |refs|
  {
    if refs != [] {
      var rest := refs[1..];
      FirstControllerIs(rest);
      forall i | 0 < i < |refs| ensures refs[i] == rest[i - 1] {}
      forall i | IsFirstController(refs, i) ensures FirstController(refs) == Some(refs[i]) {
        if i > 0 {
          assert refs[0].controller != Some(true);
          forall j | 0 <= j < i - 1 ensures rest[j].controller != Some(true) { assert rest[j] == refs[j + 1]; }
          assert IsFirstController(rest, i - 1);
        }
      }
      if FirstController(refs).None? {
        forall i | 0 <= i < |refs| ensures refs[i].controller != Some(true) {
          if i > 0 { assert rest[i - 1].controller != Some(true); }
        }
      } else if refs[0].controller != Some(true) {
        var i :| 0 <= i < |rest| && rest[i].controller == Some(true);
        assert refs[i + 1].controller == Some(true);
      }
    }
  }

  /** The owner graph goes down in rank, so it has no cycle. */
  ghost predicate Descends(o: K8sObject, rank: string -> nat) {
    match ControllerRef(o) case None => true case Some(ref) => rank(ref.uid) < rank(o.uid)
  }

  ghost predicate Acyclic(server: Server, rank: string -> nat) {
    forall p :: p in server.objects ==> Descends(server.objects[p], rank)
  }

  ghost function TopLevel(server: Server, ns: string, o: K8sObject, rank: string -> nat): Answer<K8sObject>
    requires Acyclic(server, rank) && Descends(o, rank)
    decreases rank(o.uid)
  {
    match ControllerRef(o)
    case None => Ok(o)
    case Some(ref) =>
      match FetchOwner(server, ns, ref)
      case Err(failure) => Err(failure)
      case Ok(owner) => TopLevel(server, ns, owner, rank)
  }

  /** The reference that cannot be fetched, where the walk fails. */
  ghost function FailsAt(server: Server, ns: string, o: K8sObject, rank: string -> nat): Option<OwnerRef>
    requires Acyclic(server, rank) && Descends(o, rank)
    decreases rank(o.uid)
  {
    match ControllerRef(o)
    case None => None
    case Some(ref) =>
      match FetchOwner(server, ns, ref)
      case Err(_) => Some(ref)
      case Ok(owner) => FailsAt(server, ns, owner, rank)
  }

  // ---------------------------------------------------------------- memo keys

  predicate Plain(ref: OwnerRef) { '/' !in ref.kind && '/' !in ref.uid }

  function EncodeRef(ref: OwnerRef): string {
    ref.apiVersion + "/" + ref.kind + "/" + ref.uid
  }

  lemma SplitAtLastSlash(a: string, u: string, b: string, v: string)
    requires a + "/" + u == b + "/" + v
    requires '/' !in u && '/' !in v
    ensures a == b && u == v
  {
    var s, t := a + "/" + u, b + "/" + v;
    assert s[|a|] == '/' && t[|b|] == '/';
    assert s[..|a|] == a && t[..|b|] == b && s[|a| + 1..] == u && t[|b| + 1..] == v;
  }

  /** The key determines the version, the kind and the uid, though a version may contain a slash. */
  lemma EncodeRefInjective(x: OwnerRef, y: OwnerRef)
    requires Plain(x) && Plain(y) && EncodeRef(x) == EncodeRef(y)
    ensures x.apiVersion == y.apiVersion && x.kind == y.kind && x.uid == y.uid
  {
    SplitAtLastSlash(x.apiVersion + "/" + x.kind, x.uid, y.apiVersion + "/" + y.kind, y.uid);
    SplitAtLastSlash(x.apiVersion, x.kind, y.apiVersion, y.kind);
  }

  // ---------------------------------------------------------------- hypotheses on the server

  ghost predicate UniqueUids(server: Server) {
    forall p, q :: p in server.objects && q in server.objects && server.objects[p].uid == server.objects[q].uid
      ==> server.objects[p] == server.objects[q]
  }

  ghost predicate PlainRef(o: K8sObject) {
    ControllerRef(o).Some? ==> Plain(ControllerRef(o).value)
  }

  ghost predicate PlainServer(server: Server) {
    forall p :: p in server.objects ==> PlainRef(server.objects[p])
  }

  /** The object was fetched, at some time and from some namespace, under this key. */
  ghost predicate WasFetched(server: Server, key: string, o: K8sObject) {
    exists ns, ref :: EncodeRef(ref) == key && FetchOwner(server, ns, ref) == Ok(o)
  }

  /** The same for a reference whose key can be taken apart again. */
  ghost predicate PlainFetched(server: Server, key: string, o: K8sObject) {
    exists ns, ref :: Plain(ref) && EncodeRef(ref) == key && FetchOwner(server, ns, ref) == Ok(o)
  }

  ghost predicate PlainCache(server: Server, owners: map<string, K8sObject>) {
    forall k :: k in owners ==> PlainFetched(server, k, owners[k])
  }

  /** A cached object carries the uid of its key, and is an object of the server. */
  lemma CachedIsObject(server: Server, ref: OwnerRef, o: K8sObject)
    requires Plain(ref) && PlainFetched(server, EncodeRef(ref), o)
    ensures o.uid == ref.uid && exists p :: p in server.objects && server.objects[p] == o
  {
    var ns', ref' :| Plain(ref') && EncodeRef(ref') == EncodeRef(ref) && FetchOwner(server, ns', ref') == Ok(o);
    EncodeRefInjective(ref, ref');
    FetchedIsObject(server, ns', ref', o);
  }

  lemma FetchedIsObject(server: Server, ns: string, ref: OwnerRef, o: K8sObject)
    requires FetchOwner(server, ns, ref) == Ok(o)
    ensures o.uid == ref.uid && exists p :: p in server.objects && server.objects[p] == o
  {
    var path := ObjectPath(ref.apiVersion, KindTable(server, ref.apiVersion)[ref.kind], ns, ref.name);
    assert path in server.objects && server.objects[path] == o;
  }

  /** With unique uids a cached object is what a fetch returns exactly when that succeeds. */
  lemma CachedIsFetched(server: Server, ns: string, ref: OwnerRef, o: K8sObject)
    requires UniqueUids(server) && Plain(ref) && PlainFetched(server, EncodeRef(ref), o)
    ensures o.uid == ref.uid
    ensures FetchOwner(server, ns, ref) == Ok(o) <==> FetchOwner(server, ns, ref).Ok?
  {
    CachedIsObject(server, ref, o);
    if FetchOwner(server, ns, ref).Ok? {
      FetchedIsObject(server, ns, ref, FetchOwner(server, ns, ref).value);
    }
  }

  /**
    The cache can answer where a fetch fails: the key leaves out the name, so a cached owner answers for a
    reference that gives its uid a name the server does not have.
   */
  lemma CacheAnswersForWrongName(ns: string, o: K8sObject) returns (server: Server, good: OwnerRef, bad: OwnerRef)
    requires '/' !in o.uid
    ensures EncodeRef(good) == EncodeRef(bad) && Plain(good) && Plain(bad)
    ensures bad.controller == Some(true) && bad.uid == o.uid && server.objects.Values == {o}
    ensures FetchOwner(server, ns, good) == Ok(o) && PlainFetched(server, EncodeRef(bad), o)
    ensures FetchOwner(server, ns, bad) == Err(QueryFailed)
  {
    var list := [ApiResource("pods", "Pod")];
    good := OwnerRef("v1", "Pod", "x", o.uid, Some(true));
    bad := good.(name := "y");
    var path := ObjectPath("v1", "pods", ns, "x");
    server := Server(map[QueryPath("v1") := list], map[path := o]);
    assert list[..0] == [] && KindNames(list) == map["Pod" := "pods"];
    var other := ObjectPath("v1", "pods", ns, "y");
    assert path[|path| - 1] == 'x' && other[|other| - 1] == 'y';
    assert server.objects[path] == o;
  }

  // ---------------------------------------------------------------- the walk through a cache

  /** Everything a walk from `o` needs: no cycle, and keys that can be taken apart. */
  ghost predicate Walkable(server: Server, owners: map<string, K8sObject>, o: K8sObject, rank: string -> nat) {
    && PlainServer(server) && Acyclic(server, rank) && PlainCache(server, owners)
    && PlainRef(o) && Descends(o, rank)
  }

  /** The owner, from the cache if it is there. */
  function Answered(server: Server, ns: string, owners: map<string, K8sObject>, ref: OwnerRef): Answer<K8sObject> {
    if EncodeRef(ref) in owners then Ok(owners[EncodeRef(ref)]) else FetchOwner(server, ns, ref)
  }

  /** One hop goes down in rank and the walk can go on. */
  lemma OneHop(server: Server, ns: string, owners: map<string, K8sObject>, o: K8sObject, owner: K8sObject,
               rank: string -> nat)
    requires Walkable(server, owners, o, rank) && ControllerRef(o).Some?
    requires Answered(server, ns, owners, ControllerRef(o).value) == Ok(owner)
    ensures Walkable(server, owners, owner, rank)
    ensures owner.uid == ControllerRef(o).value.uid && rank(owner.uid) < rank(o.uid)
  {
    var ref := ControllerRef(o).value;
    if EncodeRef(ref) in owners {
      CachedIsObject(server, ref, owner);
    } else {
      FetchedIsObject(server, ns, ref, owner);
    }
  }

  /** What the walk answers that asks the cache first, at every hop. */
  ghost function CachedTopLevel(server: Server, ns: string, owners: map<string, K8sObject>, o: K8sObject,
                                rank: string -> nat): Answer<K8sObject>
    requires Walkable(server, owners, o, rank)
    decreases rank(o.uid)
  {
    match ControllerRef(o)
    case None => Ok(o)
    case Some(ref) =>
      match Answered(server, ns, owners, ref)
      case Err(failure) => Err(failure)
      case Ok(owner) =>
        OneHop(server, ns, owners, o, owner, rank);
        CachedTopLevel(server, ns, owners, owner, rank)
  }

  /** A walk never asks again for what was cached above it. */
  lemma {:induction false} CachedAbove(server: Server, ns: string, owners: map<string, K8sObject>, o: K8sObject,
                                       rank: string -> nat, ref: OwnerRef, owner: K8sObject)
    requires Walkable(server, owners, o, rank) && PlainCache(server, owners[EncodeRef(ref) := owner])
    requires Plain(ref) && rank(o.uid) <= rank(ref.uid)
    ensures CachedTopLevel(server, ns, owners[EncodeRef(ref) := owner], o, rank)
         == CachedTopLevel(server, ns, owners, o, rank)
    decreases rank(o.uid)
  {
    if ControllerRef(o).Some? {
      var next := ControllerRef(o).value;
      assert EncodeRef(next) != EncodeRef(ref) by {
        if EncodeRef(next) == EncodeRef(ref) { EncodeRefInjective(next, ref); }
      }
      var answer := Answered(server, ns, owners, next);
      if answer.Ok? {
        OneHop(server, ns, owners, o, answer.value, rank);
        CachedAbove(server, ns, owners, answer.value, rank, ref, owner);
      }
    }
  }

  /** Where the direct walk fails, if it does. */
  lemma {:induction false} FailsBelow(server: Server, ns: string, o: K8sObject, rank: string -> nat)
    requires PlainServer(server) && Acyclic(server, rank) && Descends(o, rank) && PlainRef(o)
    ensures FailsAt(server, ns, o, rank).None? <==> TopLevel(server, ns, o, rank).Ok?
    ensures FailsAt(server, ns, o, rank).Some? ==>
      var ref := FailsAt(server, ns, o, rank).value;
      && Plain(ref) && rank(ref.uid) < rank(o.uid)
      && FetchOwner(server, ns, ref).Err? && FetchOwner(server, ns, ref) == TopLevel(server, ns, o, rank)
    decreases rank(o.uid)
  {
    if ControllerRef(o).Some? && FetchOwner(server, ns, ControllerRef(o).value).Ok? {
      FailsBelow(server, ns, FetchOwner(server, ns, ControllerRef(o).value).value, rank);
    }
  }

  /** The direct walk fails at a reference whose owner is cached. */
  ghost predicate CacheTakesOver(server: Server, ns: string, owners: map<string, K8sObject>, o: K8sObject,
                                 rank: string -> nat)
    requires Walkable(server, owners, o, rank)
  {
    FailsAt(server, ns, o, rank).Some? && EncodeRef(FailsAt(server, ns, o, rank).value) in owners
  }

  /** The cached owner at which the walk through the cache leaves the direct one. */
  ghost function TakenOver(server: Server, ns: string, owners: map<string, K8sObject>, o: K8sObject,
                           rank: string -> nat): (cached: K8sObject)
    requires Walkable(server, owners, o, rank) && CacheTakesOver(server, ns, owners, o, rank)
    ensures Walkable(server, owners, cached, rank)
  {
    var ref := FailsAt(server, ns, o, rank).value;
    FailsBelow(server, ns, o, rank);
    CachedIsObject(server, ref, owners[EncodeRef(ref)]);
    owners[EncodeRef(ref)]
  }

  /** The two walks are one until the direct one fails; from there the cache goes on if it can. */
  lemma {:induction false} FollowsDirect(server: Server, ns: string, owners: map<string, K8sObject>, o: K8sObject,
                                         rank: string -> nat)
    requires Walkable(server, owners, o, rank) && UniqueUids(server)
    ensures CachedTopLevel(server, ns, owners, o, rank) ==
      if CacheTakesOver(server, ns, owners, o, rank)
      then CachedTopLevel(server, ns, owners, TakenOver(server, ns, owners, o, rank), rank)
      else TopLevel(server, ns, o, rank)
    decreases rank(o.uid)
  {
    if ControllerRef(o).Some? {
      var ref := ControllerRef(o).value;
      if EncodeRef(ref) in owners { CachedIsFetched(server, ns, ref, owners[EncodeRef(ref)]); }
      if FetchOwner(server, ns, ref).Ok? {
        var owner := FetchOwner(server, ns, ref).value;
        OneHop(server, ns, owners, o, owner, rank);
        FollowsDirect(server, ns, owners, owner, rank);
      }
    }
  }

  /**
    The walk through the cache agrees with the direct walk exactly when that does not fail at a cached
    reference, or the walk from the cached owner fails in the same way; and it succeeds where the
    direct walk fails exactly when the walk from the cached owner succeeds.
   */
  lemma CachedAgreesIff(server: Server, ns: string, owners: map<string, K8sObject>, o: K8sObject, rank: string -> nat)
    requires Walkable(server, owners, o, rank) && UniqueUids(server)
    ensures CachedTopLevel(server, ns, owners, o, rank) == TopLevel(server, ns, o, rank) <==>
      || !CacheTakesOver(server, ns, owners, o, rank)
      || CachedTopLevel(server, ns, owners, TakenOver(server, ns, owners, o, rank), rank)
           == FetchOwner(server, ns, FailsAt(server, ns, o, rank).value)
    ensures TopLevel(server, ns, o, rank).Err? && CachedTopLevel(server, ns, owners, o, rank).Ok? <==>
      && CacheTakesOver(server, ns, owners, o, rank)
      && CachedTopLevel(server, ns, owners, TakenOver(server, ns, owners, o, rank), rank).Ok?
  {
    FollowsDirect(server, ns, owners, o, rank);
    FailsBelow(server, ns, o, rank);
  }

  /** A walk that only the cache lets succeed. */
  lemma OnlyTheCacheSucceeds(ns: string, top: K8sObject, uid: string)
    returns (server: Server, owners: map<string, K8sObject>, o: K8sObject, rank: string -> nat)
    requires '/' !in top.uid && top.owners.None? && uid != top.uid
    ensures o.uid == uid && UniqueUids(server) && Walkable(server, owners, o, rank)
    ensures TopLevel(server, ns, o, rank) == Err(QueryFailed)
    ensures CachedTopLevel(server, ns, owners, o, rank) == Ok(top)
  {
    var good, bad;
    server, good, bad := CacheAnswersForWrongName(ns, top);
    owners := map[EncodeRef(bad) := top];
    o := K8sObject(uid, Some([bad]), top.rest);
    rank := (u: string) => if u == uid then 1 else 0;
    forall p | p in server.objects ensures server.objects[p] == top {
      assert server.objects[p] in server.objects.Values;
    }
    assert ControllerRef(o) == Some(bad) && ControllerRef(top) == None;
    OneHop(server, ns, owners, o, top, rank);
  }

  /** The cache only grew, and only keys it did not have were fetched. */
  ghost predicate Grew(owners: map<string, K8sObject>, fetched: seq<string>,
                       owners': map<string, K8sObject>, fetched': seq<string>) {
    && (forall k :: k in owners ==> k in owners' && owners'[k] == owners[k])
    && fetched <= fetched'
    && (forall i :: |fetched| <= i < |fetched'| ==> fetched'[i] !in owners)
  }

  // ---------------------------------------------------------------- the memoising reader

  class KubernetesReader {
    const server: Server
    var versionToKindToName: map<string, map<string, string>>
    var owners: map<string, K8sObject>
    ghost var fetched: seq<string>    // the keys of all successful owner fetches, in order

    ghost predicate Valid()
      reads this
    {
      && (forall v :: v in versionToKindToName ==> versionToKindToName[v] == KindTable(server, v))
      && (forall k :: k in owners ==> WasFetched(server, k, owners[k]))
      && (forall k :: k in fetched ==> k in owners)
      && (forall i, j :: 0 <= i < j < |fetched| ==> fetched[i] != fetched[j])
    }

    constructor (server: Server)
      ensures Valid() && this.server == server && owners == map[] && fetched == []
    {
      this.server := server;
      versionToKindToName, owners, fetched := map[], map[], [];
    }

    /** The query path and the resource name, or None for an unknown kind. */
    method KindPath(version: string, kind: string) returns (r: Option<(string, string)>)
      requires Valid()
      modifies this`versionToKindToName
      ensures Valid()
      ensures r == if kind in KindTable(server, version)
                   then Some((QueryPath(version), KindTable(server, version)[kind])) else None
      ensures var path := if '/' in version then "/apis/" + version else "/api/" + version;
        && (r.None? <==> path in server.apiLists ==> forall i :: !IsFirstName(server.apiLists[path], i, kind))
        && (path in server.apiLists ==>
             forall i :: IsFirstName(server.apiLists[path], i, kind) ==>
               r == Some((path, server.apiLists[path][i].name)))
    {
      PathIs(version);
      if QueryPath(version) in server.apiLists { KindNameIsFirst(server.apiLists[QueryPath(version)], kind); }
      var queryPath := (if '/' in version then "/apis" else "/api") + "/" + version;
      if version !in versionToKindToName {
        var kindToName: map<string, string> := map[];
        if queryPath in server.apiLists {
          var list := server.apiLists[queryPath];
          for i := 0 to |list|
            invariant kindToName == KindNames(list[..i])
          {
            assert list[..i + 1][..i] == list[..i];
            if '/' in list[i].name {
              continue;
            }
            if list[i].kind !in kindToName {
              kindToName := kindToName[list[i].kind := list[i].name];
            }
          }
          assert list[..|list|] == list;
        }
        versionToKindToName := versionToKindToName[version := kindToName];
      }
      var names := versionToKindToName[version];
      r := if kind in names then Some((queryPath, names[kind])) else None;
    }

    method GetOwner(ns: string, ref: OwnerRef) returns (r: Answer<K8sObject>)
      requires Valid()
      modifies this
      ensures Valid()
      ensures r == Answered(server, ns, old(owners), ref)
      ensures Plain(ref) && PlainCache(server, old(owners)) ==> PlainCache(server, owners)
      ensures Grew(old(owners), old(fetched), owners, fetched)
      ensures owners == if r.Ok? then old(owners)[EncodeRef(ref) := r.value] else old(owners)
      ensures fetched == old(fetched) + if r.Ok? && EncodeRef(ref) !in old(owners) then [EncodeRef(ref)] else []
    {
      var key := EncodeRef(ref);
      if key !in owners {
        var path := KindPath(ref.apiVersion, ref.kind);
        if path.None? {
          return Err(UnknownKind);
        }
        var query := path.value.0 + "/namespaces/" + ns + "/" + path.value.1 + "/" + ref.name;
        assert query == ObjectPath(ref.apiVersion, path.value.1, ns, ref.name);
        if query !in server.objects {
          return Err(QueryFailed);
        }
        var owner := server.objects[query];
        if owner.uid != ref.uid {
          return Err(Disappeared);
        }
        assert FetchOwner(server, ns, ref) == Ok(owner);
        owners := owners[key := owner];
        fetched := fetched + [key];
      }
      r := Ok(owners[key]);
    }

    /** The memoised walk, from any valid cache.  The cache only grows, and no owner is fetched twice. */
    method FindTopLevelController(ns: string, obj: K8sObject, ghost rank: string -> nat)
      returns (r: Answer<K8sObject>)
      requires Valid() && Walkable(server, owners, obj, rank)
      modifies this
      ensures Valid() && PlainCache(server, owners)
      ensures r == CachedTopLevel(server, ns, old(owners), obj, rank)
      ensures Grew(old(owners), old(fetched), owners, fetched)
      decreases rank(obj.uid)
    {
      var controllerRef := FindControllerRef(obj);
      if controllerRef.None? {
        return Ok(obj);
      }
      var ref := controllerRef.value;
      var owner := GetOwner(ns, ref);
      if owner.Err? {
        return owner;
      }
      OneHop(server, ns, old(owners), obj, owner.value, rank);
      CachedAbove(server, ns, old(owners), owner.value, rank, ref, owner.value);
      r := FindTopLevelController(ns, owner.value, rank);
    }
  }

  /** The search among the owner references. */
  method FindControllerRef(obj: K8sObject) returns (r: Option<OwnerRef>)
    ensures r == ControllerRef(obj)
    ensures r.None? <==>
      obj.owners.None? || forall i :: 0 <= i < |obj.owners.value| ==> obj.owners.value[i].controller != Some(true)
    ensures obj.owners.Some? ==>
      forall i :: IsFirstController(obj.owners.value, i) ==> r == Some(obj.owners.value[i])
  {
    if obj.owners.None? {
      return None;
    }
    var refs := obj.owners.value;
    FirstControllerIs(refs);
    for i := 0 to |refs|
      invariant FirstController(refs) == FirstController(refs[i..])
    {
      if refs[i].controller == Some(true) {
        return Some(refs[i]);
      }
      assert refs[i..][1..] == refs[i + 1..];
    }
    return None;
  }
}

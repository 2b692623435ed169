/**
  The metadata store shared by all updaters and the reporter (src/store.cc, src/resource.h).
  Every public operation holds the lock for its whole body, so an execution with any number of
  threads is a sequence of operations: `Replay` is the state such a sequence leaves behind.
 */
module Store {
  import opened Wrappers
  import opened Ordering
  import Json

  /** Nanoseconds since the epoch. */
  type Timestamp = int

  datatype Resource = Resource(kind: string, labels: map<string, string>)

  datatype Metadata = Metadata(
    version: string,
    isDeleted: bool,
    createdAt: Timestamp,
    collectedAt: Timestamp,
    content: Json.Value,
    ignore: bool)

  // ---------------------------------------------------------------- resource order

  function LabelPairs(labels: map<string, string>): seq<(string, string)> {
    var names := StringsInOrder(labels.Keys);
    seq(|names|, i requires 0 <= i < |names| => (names[i], labels[names[i]]))
  }

  /** `operator<` on resources: by type, then by labels. */
  predicate ResourceLess(a: Resource, b: Resource) {
    StringLess(a.kind, b.kind)
    || (a.kind == b.kind && LexLess(LabelPairs(a.labels), LabelPairs(b.labels), PairLess))
  }

  /** The first difference in the types decides, and for equal types the first difference in the sorted labels. */
  lemma ResourceLessIff(a: Resource, b: Resource)
    ensures ResourceLess(a, b) <==>
      || (exists n :: DecidedAt(a.kind, b.kind, n, CharLess))
      || (a.kind == b.kind && exists n :: DecidedAt(LabelPairs(a.labels), LabelPairs(b.labels), n, PairLess))
  {
    StringLessStrictTotal();
    PairLessStrictTotal();
    LexLessIff(a.kind, b.kind, CharLess);
    LexLessIff(LabelPairs(a.labels), LabelPairs(b.labels), PairLess);
  }

  /** The labels as pairs, by increasing name. */
  lemma LabelPairsSorted(labels: map<string, string>)
    ensures var pairs := LabelPairs(labels);
      && (forall i, j :: 0 <= i < j < |pairs| ==> StringLess(pairs[i].0, pairs[j].0))
      && (forall p: (string, string) :: p in pairs <==> p.0 in labels && labels[p.0] == p.1)
  {
    StringsInOrderIncreasing(labels.Keys);
    var names := StringsInOrder(labels.Keys);
    forall p: (string, string) | p.0 in labels && labels[p.0] == p.1 ensures p in LabelPairs(labels) {
      assert p.0 in names;
      var i :| 0 <= i < |names| && names[i] == p.0;
      assert LabelPairs(labels)[i] == p;
    }
  }

  lemma LabelPairsInjective(a: map<string, string>, b: map<string, string>)
    requires LabelPairs(a) == LabelPairs(b)
    ensures a == b
  {
    LabelPairsInclude(a, b);
    LabelPairsInclude(b, a);
  }

  lemma LabelPairsInclude(a: map<string, string>, b: map<string, string>)
    requires LabelPairs(a) == LabelPairs(b)
    ensures forall k :: k in a ==> k in b && a[k] == b[k]
  {
    var names, others := StringsInOrder(a.Keys), StringsInOrder(b.Keys);
    forall k | k in a ensures k in b && a[k] == b[k] {
      assert k in names;
      var i :| 0 <= i < |names| && names[i] == k;
      assert LabelPairs(a)[i] == LabelPairs(b)[i];
      assert others[i] in others;
    }
  }

  lemma ResourceLessStrictTotal()
    ensures StrictTotal(ResourceLess)
  {
    StringLessStrictTotal();
    PairLessStrictTotal();
    forall a ensures !ResourceLess(a, a) { LexIrreflexive(LabelPairs(a.labels), PairLess); }
    forall a, b ensures ResourceLess(a, b) || a == b || ResourceLess(b, a) {
      if a.kind == b.kind {
        LexTotal(LabelPairs(a.labels), LabelPairs(b.labels), PairLess);
        if LabelPairs(a.labels) == LabelPairs(b.labels) { LabelPairsInjective(a.labels, b.labels); }
      }
    }
    forall a, b, c | ResourceLess(a, b) && ResourceLess(b, c) ensures ResourceLess(a, c) {
      if a.kind == b.kind == c.kind {
        LexTransitive(LabelPairs(a.labels), LabelPairs(b.labels), LabelPairs(c.labels), PairLess);
      }
    }
  }

  function ResourcesInOrder(s: set<Resource>): (r: seq<Resource>)
    ensures forall x :: x in r <==> x in s
    ensures |r| == |s|
  {
    ResourceLessStrictTotal();
    InOrder(s, ResourceLess)
  }

  lemma ResourcesInOrderIncreasing(s: set<Resource>)
    ensures Increasing(ResourcesInOrder(s), ResourceLess)
  {
    ResourceLessStrictTotal();
    InOrderIncreasing(s, ResourceLess);
  }

  // ---------------------------------------------------------------- operations

  datatype Op =
    | UpdateResource(ids: seq<string>, alias: Resource)
    | UpdateMetadata(resource: Resource, entry: Metadata)
    | PurgeDeleted

  datatype State = State(
    aliases: map<string, Resource>,
    entries: map<Resource, Metadata>,
    lastCollected: map<string, Timestamp>)

  const EMPTY := State(map[], map[], map[])

  function Bind(aliases: map<string, Resource>, ids: seq<string>, r: Resource): map<string, Resource> {
    aliases + map id | id in ids && id !in aliases :: r
  }

  lemma BindSnoc(aliases: map<string, Resource>, ids: seq<string>, i: nat, r: Resource)
    requires i < |ids|
    ensures var before := Bind(aliases, ids[..i], r);
      Bind(aliases, ids[..i + 1], r) == if ids[i] in before then before else before[ids[i] := r]
  {
    assert ids[..i + 1] == ids[..i] + [ids[i]];
  }

  function Raise(times: map<string, Timestamp>, kind: string, t: Timestamp): map<string, Timestamp> {
    if kind in times && times[kind] >= t then times else times[kind := t]
  }

  function Kept(entries: map<Resource, Metadata>): map<Resource, Metadata> {
    map r | r in entries && !entries[r].isDeleted :: entries[r]
  }

  /** The entries left when only the given resources have been looked at. */
  ghost function KeptSoFar(entries: map<Resource, Metadata>, done: seq<Resource>): map<Resource, Metadata> {
    map r | r in entries && !(r in done && entries[r].isDeleted) :: entries[r]
  }

  lemma KeptSoFarSnoc(entries: map<Resource, Metadata>, resources: seq<Resource>, i: nat)
    requires i < |resources|
    ensures var kept := KeptSoFar(entries, resources[..i]);
      KeptSoFar(entries, resources[..i + 1]) ==
        if resources[i] in kept && kept[resources[i]].isDeleted then kept - {resources[i]} else kept
  {
    assert resources[..i + 1] == resources[..i] + [resources[i]];
  }

  function Apply(st: State, op: Op): State {
    match op
    case UpdateResource(ids, r) => st.(aliases := Bind(st.aliases, ids, r))
    case UpdateMetadata(r, e) =>
      if e.ignore then st
      else st.(entries := st.entries[r := e], lastCollected := Raise(st.lastCollected, r.kind, e.collectedAt))
    case PurgeDeleted => st.(entries := Kept(st.entries))
  }

  function Replay(ops: seq<Op>): State {
    if ops == [] then EMPTY else Apply(Replay(ops[..|ops| - 1]), ops[|ops| - 1])
  }

  lemma ReplaySnoc(ops: seq<Op>, op: Op)
    ensures Replay(ops + [op]) == Apply(Replay(ops), op)
  {
    assert (ops + [op])[..|ops|] == ops;
  }

  // ---------------------------------------------------------------- histories

  /** Operation `i` stored an entry for `r`. */
  ghost predicate Stores(ops: seq<Op>, i: int, r: Resource) {
    0 <= i < |ops| && ops[i].UpdateMetadata? && !ops[i].entry.ignore && ops[i].resource == r
  }

  /** Operation `i` stored an entry for a resource of type `kind`. */
  ghost predicate StoresKind(ops: seq<Op>, i: int, kind: string) {
    0 <= i < |ops| && ops[i].UpdateMetadata? && !ops[i].entry.ignore && ops[i].resource.kind == kind
  }

  /** Operation `i` offered `id` as an alias. */
  ghost predicate Offers(ops: seq<Op>, i: int, id: string) {
    0 <= i < |ops| && ops[i].UpdateResource? && id in ops[i].ids
  }

  ghost predicate IsFirstOffer(ops: seq<Op>, i: int, id: string) {
    Offers(ops, i, id) && forall j :: 0 <= j < i ==> !Offers(ops, j, id)
  }

  /** `i` is the latest to store `r`, and no purge after it found the entry deleted. */
  ghost predicate Survives(ops: seq<Op>, i: int, r: Resource) {
    && Stores(ops, i, r)
    && (forall j :: i < j < |ops| ==> !Stores(ops, j, r))
    && (ops[i].entry.isDeleted ==> forall j :: i < j < |ops| ==> !ops[j].PurgeDeleted?)
  }

  /** Aliases are first-writer-wins. */
  lemma {:induction false} AliasIsFirstOffer(ops: seq<Op>, id: string)
    ensures id in Replay(ops).aliases <==> exists i :: Offers(ops, i, id)
    ensures forall i :: IsFirstOffer(ops, i, id) ==>
      id in Replay(ops).aliases && Replay(ops).aliases[id] == ops[i].alias
    decreases |ops|
  {
    if ops != [] {
      var n := |ops| - 1;
      var front := ops[..n];
      AliasIsFirstOffer(front, id);
      forall i | 0 <= i < n ensures Offers(front, i, id) == Offers(ops, i, id) {}
      if id in Replay(front).aliases {
        var i :| Offers(front, i, id);
        assert Offers(ops, i, id);
      } else if Offers(ops, n, id) {
        assert id in Replay(ops).aliases;
      }
      forall i | IsFirstOffer(ops, i, id)
        ensures id in Replay(ops).aliases && Replay(ops).aliases[id] == ops[i].alias
      {
        if i < n {
          assert IsFirstOffer(front, i, id);
        } else {
          assert forall j :: 0 <= j < n ==> !Offers(front, j, id);
        }
      }
    }
  }

  /** An alias, once there, keeps its resource for ever: a reference to it stays good. */
  lemma {:induction false} AliasesNeverChange(ops: seq<Op>, more: seq<Op>, id: string)
    requires id in Replay(ops).aliases
    ensures id in Replay(ops + more).aliases && Replay(ops + more).aliases[id] == Replay(ops).aliases[id]
    decreases |more|
  {
    if more == [] {
      assert ops + more == ops;
    } else {
      var n := |more| - 1;
      AliasesNeverChange(ops, more[..n], id);
      assert (ops + more)[..|ops + more| - 1] == ops + more[..n];
    }
  }

  /** The recorded time of a type is the largest collection time ever stored for it. */
  lemma {:induction false} LastCollectedIsMaximum(ops: seq<Op>, kind: string)
    ensures kind in Replay(ops).lastCollected <==> exists i :: StoresKind(ops, i, kind)
    ensures kind in Replay(ops).lastCollected ==>
      && (exists i :: StoresKind(ops, i, kind) && ops[i].entry.collectedAt == Replay(ops).lastCollected[kind])
      && (forall i :: StoresKind(ops, i, kind) ==> ops[i].entry.collectedAt <= Replay(ops).lastCollected[kind])
    decreases |ops|
  {
    if ops != [] {
      var n := |ops| - 1;
      var front := ops[..n];
      LastCollectedIsMaximum(front, kind);
      forall i | 0 <= i < n ensures StoresKind(front, i, kind) == StoresKind(ops, i, kind) {}
      var before, after := Replay(front).lastCollected, Replay(ops).lastCollected;
      if kind in before {
        var i :| StoresKind(front, i, kind) && front[i].entry.collectedAt == before[kind];
        assert StoresKind(ops, i, kind);
        if StoresKind(ops, n, kind) && before[kind] < ops[n].entry.collectedAt {
          assert after[kind] == ops[n].entry.collectedAt;
        } else {
          assert after[kind] == ops[i].entry.collectedAt;
        }
      } else if StoresKind(ops, n, kind) {
        assert after[kind] == ops[n].entry.collectedAt;
      }
    }
  }

  /** The store holds exactly the surviving entries: last writer wins, whatever its timestamp. */
  lemma {:induction false} EntryIsLastStored(ops: seq<Op>, r: Resource)
    ensures r in Replay(ops).entries <==> exists i :: Survives(ops, i, r)
    ensures forall i :: Survives(ops, i, r) ==>
      r in Replay(ops).entries && Replay(ops).entries[r] == ops[i].entry
    decreases |ops|
  {
    if ops != [] {
      var n := |ops| - 1;
      var front := ops[..n];
      EntryIsLastStored(front, r);
      forall i | 0 <= i < n ensures Stores(front, i, r) == Stores(ops, i, r) {}
      if Stores(ops, n, r) {
        assert Survives(ops, n, r);
      } else if r in Replay(ops).entries {
        var i :| Survives(front, i, r);
        assert Survives(ops, i, r);
      }
      forall i | Survives(ops, i, r)
        ensures r in Replay(ops).entries && Replay(ops).entries[r] == ops[i].entry
      {
        if i < n {
          assert Survives(front, i, r);
          assert !Stores(ops, n, r);
        }
      }
    }
  }

  /** No stored entry is newer than the recorded time of its type. */
  lemma EntriesBoundedByLastCollected(ops: seq<Op>, r: Resource)
    requires r in Replay(ops).entries
    ensures r.kind in Replay(ops).lastCollected
    ensures Replay(ops).entries[r].collectedAt <= Replay(ops).lastCollected[r.kind]
    ensures !Replay(ops).entries[r].ignore
  {
    EntryIsLastStored(ops, r);
    LastCollectedIsMaximum(ops, r.kind);
    var i :| Survives(ops, i, r);
    assert StoresKind(ops, i, r.kind);
  }

  // ---------------------------------------------------------------- the object

  class MetadataStore {
    var resourceMap: map<string, Resource>
    var metadataMap: map<Resource, Metadata>
    var lastCollectionTimes: map<string, Timestamp>
    ghost var history: seq<Op>    // every operation so far

    /** The maps are what the history has made of them. */
    ghost predicate Valid()
      reads this
    {
      Now() == Replay(history)
    }

    ghost function Now(): State
      reads this
    {
      State(resourceMap, metadataMap, lastCollectionTimes)
    }

    constructor ()
      ensures Valid() && history == []
    {
      resourceMap, metadataMap, lastCollectionTimes := map[], map[], map[];
      history := [];
    }

    /** The resource the alias was first offered for; None stands for the out-of-range exception. */
    method LookupResource(id: string) returns (r: Option<Resource>)
      requires Valid()
      ensures r.None? <==> forall i :: !Offers(history, i, id)
      ensures forall i :: IsFirstOffer(history, i, id) ==> r == Some(history[i].alias)
    {
      AliasIsFirstOffer(history, id);
      r := if id in resourceMap then Some(resourceMap[id]) else None;
    }

    method UpdateResource(ids: seq<string>, resource: Resource)
      requires Valid()
      modifies this
      ensures Valid() && history == old(history) + [Op.UpdateResource(ids, resource)]
      ensures Now() == Apply(old(Now()), Op.UpdateResource(ids, resource))
    {
      for i := 0 to |ids|
        invariant metadataMap == old(metadataMap) && lastCollectionTimes == old(lastCollectionTimes)
        invariant history == old(history)
        invariant resourceMap == Bind(old(resourceMap), ids[..i], resource)
      {
        BindSnoc(old(resourceMap), ids, i, resource);
        if ids[i] !in resourceMap {
          resourceMap := resourceMap[ids[i] := resource];
        }
      }
      assert ids[..|ids|] == ids;
      ReplaySnoc(history, Op.UpdateResource(ids, resource));
      history := history + [Op.UpdateResource(ids, resource)];
    }

    method UpdateMetadata(resource: Resource, entry: Metadata)
      requires Valid()
      modifies this
      ensures Valid() && history == old(history) + [Op.UpdateMetadata(resource, entry)]
      ensures Now() == Apply(old(Now()), Op.UpdateMetadata(resource, entry))
    {
      ghost var op := Op.UpdateMetadata(resource, entry);
      ReplaySnoc(history, op);
      if entry.ignore {
        history := history + [op];
        return;
      }
      metadataMap := metadataMap - {resource};
      metadataMap := metadataMap[resource := entry];
      assert metadataMap == old(metadataMap)[resource := entry];
      if resource.kind !in lastCollectionTimes {
        lastCollectionTimes := lastCollectionTimes[resource.kind := entry.collectedAt];
      } else if lastCollectionTimes[resource.kind] < entry.collectedAt {
        lastCollectionTimes := lastCollectionTimes[resource.kind := entry.collectedAt];
      }
      assert Now() == Apply(old(Now()), op);
      history := history + [op];
    }

    method GetMetadataMap() returns (result: map<Resource, Metadata>)
      ensures result == metadataMap
    {
      result := map[];
      var source := metadataMap;
      var resources := ResourcesInOrder(source.Keys);
      for i := 0 to |resources|
        invariant forall r :: r in result ==> r in source && result[r] == source[r]
        invariant forall k :: 0 <= k < i ==> resources[k] in result
      {
        assert resources[i] in resources;
        result := result[resources[i] := source[resources[i]]];
      }
      forall r | r in source ensures r in result {
        var k :| 0 <= k < |resources| && resources[k] == r;
      }
    }

    /** Every type for which something was ever stored, with the latest time collected for it. */
    method GetLastCollectionTimes() returns (result: map<string, Timestamp>)
      requires Valid()
      ensures forall kind :: kind in result <==> exists i :: StoresKind(history, i, kind)
      ensures forall kind, i :: StoresKind(history, i, kind) ==> history[i].entry.collectedAt <= result[kind]
      ensures forall kind :: kind in result ==>
        exists i :: StoresKind(history, i, kind) && history[i].entry.collectedAt == result[kind]
    {
      forall kind
        ensures kind in lastCollectionTimes <==> exists i :: StoresKind(history, i, kind)
        ensures forall i :: StoresKind(history, i, kind) ==>
          kind in lastCollectionTimes && history[i].entry.collectedAt <= lastCollectionTimes[kind]
        ensures kind in lastCollectionTimes ==>
          exists i :: StoresKind(history, i, kind) && history[i].entry.collectedAt == lastCollectionTimes[kind]
      {
        LastCollectedIsMaximum(history, kind);
      }
      result := lastCollectionTimes;
    }

    /** Erases while walking the map. */
    method PurgeDeletedEntries()
      requires Valid()
      modifies this
      ensures Valid() && history == old(history) + [PurgeDeleted]
      ensures Now() == Apply(old(Now()), PurgeDeleted)
    {
      ghost var all := metadataMap;
      var resources := ResourcesInOrder(metadataMap.Keys);
      for i := 0 to |resources|
        invariant resourceMap == old(resourceMap) && lastCollectionTimes == old(lastCollectionTimes)
        invariant history == old(history)
        invariant metadataMap == KeptSoFar(all, resources[..i])
      {
        KeptSoFarSnoc(all, resources, i);
        if resources[i] in metadataMap && metadataMap[resources[i]].isDeleted {
          metadataMap := metadataMap - {resources[i]};
        }
      }
      assert resources[..|resources|] == resources;
      assert metadataMap == Kept(all);
      ReplaySnoc(history, PurgeDeleted);
      history := history + [PurgeDeleted];
    }
  }
}

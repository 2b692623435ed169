/** The polling updater's loop, which pushes query results into the store (src/updater.cc). */
module Updater {
  import opened Sequences
  import opened Store

  datatype ResourceMetadata = ResourceMetadata(ids: seq<string>, resource: Resource, metadata: Metadata)

  /** The store operations for a list of results: alias, then entry, result by result. */
  function OpsOf(results: seq<ResourceMetadata>): seq<Op> {
    if results == [] then []
    else
      var n := |results| - 1;
      OpsOf(results[..n])
      + [UpdateResource(results[n].ids, results[n].resource)]
      + [UpdateMetadata(results[n].resource, results[n].metadata)]
  }

  function ApplyAll(st: State, ops: seq<Op>): State {
    if ops == [] then st else Apply(ApplyAll(st, ops[..|ops| - 1]), ops[|ops| - 1])
  }

  lemma ApplyOneMore(st: State, ops: seq<Op>, op: Op)
    ensures ApplyAll(st, ops + [op]) == Apply(ApplyAll(st, ops), op)
  {
    assert (ops + [op])[..|ops|] == ops;
  }

  lemma {:induction false} ApplyBoth(st: State, a: seq<Op>, b: seq<Op>)
    ensures ApplyAll(st, a + b) == ApplyAll(ApplyAll(st, a), b)
    decreases |b|
  {
    if b == [] {
      assert a + b == a;
    } else {
      var n := |b| - 1;
      ApplyBoth(st, a, b[..n]);
      ApplyOneMore(st, a + b[..n], b[n]);
      assert a + b == a + b[..n] + [b[n]];
    }
  }

  /** Polling continues the store's history. */
  lemma {:induction false} ApplyAllContinues(before: seq<Op>, ops: seq<Op>)
    ensures ApplyAll(Replay(before), ops) == Replay(before + ops)
    decreases |ops|
  {
    if ops == [] {
      assert before + ops == before;
    } else {
      var n := |ops| - 1;
      ApplyAllContinues(before, ops[..n]);
      assert (before + ops)[..|before + ops| - 1] == before + ops[..n];
    }
  }

  lemma {:induction false} OpsOfBoth(a: seq<ResourceMetadata>, b: seq<ResourceMetadata>)
    ensures OpsOf(a + b) == OpsOf(a) + OpsOf(b)
    decreases |b|
  {
    if b == [] {
      assert a + b == a;
    } else {
      var n := |b| - 1;
      OpsOfBoth(a, b[..n]);
      assert (a + b)[..|a + b| - 1] == a + b[..n];
    }
  }

  method StoreResults(store: MetadataStore, results: seq<ResourceMetadata>)
    requires store.Valid()
    modifies store
    ensures store.Valid()
    ensures store.Now() == ApplyAll(old(store.Now()), OpsOf(results))
  {
    for i := 0 to |results|
      invariant store.Valid() && store.Now() == ApplyAll(old(store.Now()), OpsOf(results[..i]))
    {
      var r := results[i];
      store.UpdateResource(r.ids, r.resource);
      store.UpdateMetadata(r.resource, r.metadata);
      assert results[..i + 1][..i] == results[..i];
      ghost var done := OpsOf(results[..i]);
      ApplyOneMore(old(store.Now()), done, UpdateResource(r.ids, r.resource));
      ApplyOneMore(old(store.Now()), done + [UpdateResource(r.ids, r.resource)],
                   UpdateMetadata(r.resource, r.metadata));
    }
    assert results[..|results|] == results;
  }

  /** What the first rounds have made of the store. */
  ghost predicate Polled(now: State, start: State, rounds: seq<seq<ResourceMetadata>>, made: nat)
    requires made <= |rounds|
  {
    now == ApplyAll(start, OpsOf(Flatten(rounds[..made])))
  }

  lemma OneMoreRound(st: State, rounds: seq<seq<ResourceMetadata>>, n: nat)
    requires n < |rounds|
    ensures ApplyAll(st, OpsOf(Flatten(rounds[..n + 1])))
         == ApplyAll(ApplyAll(st, OpsOf(Flatten(rounds[..n]))), OpsOf(rounds[n]))
  {
    var done := Flatten(rounds[..n]);
    FlattenConcat(rounds[..n], [rounds[n]]);
    assert rounds[..n + 1] == rounds[..n] + [rounds[n]] && Flatten([rounds[n]]) == rounds[n];
    OpsOfBoth(done, rounds[n]);
    ApplyBoth(st, OpsOf(done), OpsOf(rounds[n]));
  }

  /**
    `rounds` is what the queries will return, as far as it is given, and `waits(k)` whether the wait
    after round `k` ran its full time.  Every round is stored whole before the wait that may end the
    loop.
   */
  method PollForMetadata(store: MetadataStore, rounds: seq<seq<ResourceMetadata>>, waits: nat -> bool)
    returns (made: nat, ended: bool)
    requires store.Valid()
    modifies store
    ensures store.Valid()
    ensures made <= |rounds| && (forall k: nat :: k < made - 1 ==> waits(k))
    ensures ended <==> made > 0 && !waits(made - 1)
    ensures !ended ==> made == |rounds|
    ensures store.Now() == ApplyAll(old(store.Now()), OpsOf(Flatten(rounds[..made])))
  {
    ghost var start := store.Now();
    made, ended := 0, false;
    while made < |rounds| && !ended
      invariant made <= |rounds| && (forall k: nat :: k < made - 1 ==> waits(k))
      invariant ended <==> made > 0 && !waits(made - 1)
      invariant store.Valid() && Polled(store.Now(), start, rounds, made)
      decreases |rounds| - made
    {
      StoreResults(store, rounds[made]);
      OneMoreRound(start, rounds, made);
      assert Polled(store.Now(), start, rounds, made + 1);
      made := made + 1;
      ended := !waits(made - 1);
    }
  }

  // ---------------------------------------------------------------- what polling leaves in the store

  lemma {:induction false} OpsAt(results: seq<ResourceMetadata>, i: nat)
    requires i < |results|
    ensures |OpsOf(results)| == 2 * |results|
    ensures OpsOf(results)[2 * i] == UpdateResource(results[i].ids, results[i].resource)
    ensures OpsOf(results)[2 * i + 1] == UpdateMetadata(results[i].resource, results[i].metadata)
    decreases |results|
  {
    var n := |results| - 1;
    if n > 0 { OpsAt(results[..n], if i < n then i else 0); }
  }

  /** The last result of the polled ones that says something about `r`. */
  ghost predicate IsLastResult(results: seq<ResourceMetadata>, i: nat, r: Resource) {
    && i < |results| && results[i].resource == r && !results[i].metadata.ignore
    && forall j :: i < j < |results| && results[j].resource == r ==> results[j].metadata.ignore
  }

  /** Whatever the store held, polling leaves the last result for each resource in it. */
  lemma PolledIsStored(before: seq<Op>, results: seq<ResourceMetadata>, i: nat, r: Resource)
    requires IsLastResult(results, i, r)
    ensures var st := ApplyAll(Replay(before), OpsOf(results));
      r in st.entries && st.entries[r] == results[i].metadata
  {
    var ops, at := before + OpsOf(results), |before| + 2 * i + 1;
    LastResultSurvives(before, results, i, r);
    EntryIsLastStored(ops, r);
    OpsAt(results, i);
    ApplyAllContinues(before, OpsOf(results));
  }

  lemma LastResultSurvives(before: seq<Op>, results: seq<ResourceMetadata>, i: nat, r: Resource)
    requires IsLastResult(results, i, r)
    ensures Survives(before + OpsOf(results), |before| + 2 * i + 1, r)
  {
    var ops, at := before + OpsOf(results), |before| + 2 * i + 1;
    OpsAt(results, i);
    forall j | at < j < |ops| ensures !Stores(ops, j, r) && !ops[j].PurgeDeleted? {
      var k := (j - |before|) / 2;
      OpsAt(results, k);
      assert j - |before| == 2 * k || j - |before| == 2 * k + 1;
    }
  }

  /** Every alias of every result can be looked up afterwards. */
  lemma PolledAliasesAreBound(before: seq<Op>, results: seq<ResourceMetadata>, i: nat, id: string)
    requires i < |results| && id in results[i].ids
    ensures id in ApplyAll(Replay(before), OpsOf(results)).aliases
  {
    ApplyAllContinues(before, OpsOf(results));
    OpsAt(results, i);
    assert Offers(before + OpsOf(results), |before| + 2 * i, id);
    AliasIsFirstOffer(before + OpsOf(results), id);
  }
}

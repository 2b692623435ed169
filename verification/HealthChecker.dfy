/** Which components are unhealthy (src/health_checker.cc). */
module HealthChecker {
  import opened Ordering
  import Store

  class HealthChecker {
    const store: Store.MetadataStore
    const maxDataAgeSeconds: int
    var unhealthyComponents: set<string>

    constructor (store: Store.MetadataStore, maxDataAgeSeconds: int)
      ensures this.store == store && this.maxDataAgeSeconds == maxDataAgeSeconds
      ensures unhealthyComponents == {}
    {
      this.store, this.maxDataAgeSeconds := store, maxDataAgeSeconds;
      unhealthyComponents := {};
    }

    method SetUnhealthy(component: string)
      modifies this
      ensures unhealthyComponents == old(unhealthyComponents) + {component}
    {
      unhealthyComponents := unhealthyComponents + {component};
    }

    method UnhealthyComponents(now: Store.Timestamp) returns (result: set<string>)
      requires store.Valid()
      ensures forall c :: c in result <==>
        c in unhealthyComponents || OnlyOldData(store.history, c, now, maxDataAgeSeconds)
    {
      result := unhealthyComponents;
      var cutoff := Cutoff(now, maxDataAgeSeconds);
      var times := store.GetLastCollectionTimes();
      var kinds := StringsInOrder(times.Keys);
      for i := 0 to |kinds|
        invariant result == unhealthyComponents + set k | k in kinds[..i] && times[k] < cutoff
      {
        assert kinds[..i + 1] == kinds[..i] + [kinds[i]];
        if times[kinds[i]] < cutoff {
          result := result + {kinds[i]};
        }
      }
      assert kinds[..|kinds|] == kinds;
      forall c ensures c in times && times[c] < cutoff <==> OnlyOldData(store.history, c, now, maxDataAgeSeconds) {}
    }
  }

  function Cutoff(now: Store.Timestamp, maxAgeSeconds: int): Store.Timestamp {
    now - maxAgeSeconds * 1_000_000_000
  }

  function StaleKinds(times: map<string, Store.Timestamp>, cutoff: Store.Timestamp): set<string> {
    set k | k in times && times[k] < cutoff
  }

  /** Something was stored for the type, and all of it was collected more than the allowed seconds ago. */
  ghost predicate OnlyOldData(ops: seq<Store.Op>, kind: string, now: Store.Timestamp, maxAgeSeconds: int) {
    && (exists i :: Store.StoresKind(ops, i, kind))
    && (forall i :: Store.StoresKind(ops, i, kind) ==>
          now - ops[i].entry.collectedAt > maxAgeSeconds * 1_000_000_000)
  }

  /** Something was stored for the type and everything stored is too old. */
  ghost predicate Stale(ops: seq<Store.Op>, kind: string, cutoff: Store.Timestamp) {
    && (exists i :: Store.StoresKind(ops, i, kind))
    && (forall i :: Store.StoresKind(ops, i, kind) ==> ops[i].entry.collectedAt < cutoff)
  }

  /** Comparing the recorded time with the cutoff finds exactly the stale types. */
  lemma StaleMeansAllOld(ops: seq<Store.Op>, kind: string, cutoff: Store.Timestamp)
    ensures kind in StaleKinds(Store.Replay(ops).lastCollected, cutoff) <==> Stale(ops, kind, cutoff)
  {
    Store.LastCollectedIsMaximum(ops, kind);
  }

  /** The answer after the given reports and store operations, in any interleaving of the two. */
  function Unhealthy(reports: seq<string>, ops: seq<Store.Op>, cutoff: Store.Timestamp): set<string> {
    Reported(reports) + StaleKinds(Store.Replay(ops).lastCollected, cutoff)
  }

  function Reported(reports: seq<string>): set<string> {
    if reports == [] then {} else Reported(reports[..|reports| - 1]) + {reports[|reports| - 1]}
  }

  lemma {:induction false} ReportedIsReports(reports: seq<string>, component: string)
    ensures component in Reported(reports) <==> component in reports
  {
    if reports != [] {
      var n := |reports| - 1;
      ReportedIsReports(reports[..n], component);
      assert reports == reports[..n] + [reports[n]];
    }
  }

  /** A reported component stays unhealthy whatever is reported, stored or purged later, and at any later time. */
  lemma UnhealthyForever(reports: seq<string>, later: seq<string>, component: string,
                         ops: seq<Store.Op>, cutoff: Store.Timestamp)
    requires component in reports
    ensures component in Unhealthy(reports + later, ops, cutoff)
  {
    ReportedIsReports(reports + later, component);
  }

  /** A component that was never reported is unhealthy only as a stale object type, and new data heals it. */
  lemma FreshDataHeals(reports: seq<string>, ops: seq<Store.Op>, i: nat, kind: string, cutoff: Store.Timestamp)
    requires kind !in reports && Store.StoresKind(ops, i, kind) && ops[i].entry.collectedAt >= cutoff
    ensures kind !in Unhealthy(reports, ops, cutoff)
  {
    ReportedIsReports(reports, kind);
    StaleMeansAllOld(ops, kind, cutoff);
  }
}

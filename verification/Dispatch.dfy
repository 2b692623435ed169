/**
  Request dispatch in the agent's API server (src/api_server.cc, `Dispatcher`): the handler map is
  walked backwards and every handler whose method and prefix match is called.
 */
module Dispatch {
  import opened Ordering

  /** Method and path prefix. */
  type Key = (string, string)

  datatype Request = Request(verb: string, destination: string)

  /** `destination.find(prefix) == 0`. */
  predicate Matches(k: Key, r: Request) {
    k.0 == r.verb && k.1 <= r.destination
  }

  /** Among the prefixes of one string, lexicographic order is order by length. */
  lemma {:induction false} PrefixOrderIsLength(p: string, q: string, s: string)
    requires p <= s && q <= s
    ensures StringLess(p, q) <==> |p| < |q|
    decreases |p|
  {
    if p != "" && q != "" {
      assert p[0] == s[0] == q[0];
      PrefixOrderIsLength(p[1..], q[1..], s[1..]);
    }
  }

  /** The calls are exactly the matching handlers, longest prefix first. */
  ghost predicate LongestFirst(called: seq<Key>) {
    forall i, j :: 0 <= i < j < |called| ==> |called[i].1| > |called[j].1|
  }

  /** Keys that match one request are ordered by the length of their prefixes. */
  lemma MatchingOrder(a: Key, b: Key, r: Request)
    requires Matches(a, r) && Matches(b, r) && PairLess(a, b)
    ensures |a.1| < |b.1|
  {
    LexIrreflexive(a.0, CharLess);
    PrefixOrderIsLength(a.1, b.1, r.destination);
  }

  /** What the walk has called once the keys from position `i` on are done. */
  ghost predicate Called(called: seq<Key>, keys: seq<Key>, i: nat, r: Request) {
    && i <= |keys|
    && (forall k :: k in called <==> k in keys[i..] && Matches(k, r))
    && LongestFirst(called)
  }

  lemma CallOne(called: seq<Key>, keys: seq<Key>, i: nat, r: Request)
    requires Increasing(keys, PairLess) && i < |keys| && Called(called, keys, i + 1, r)
    ensures Called(if Matches(keys[i], r) then called + [keys[i]] else called, keys, i, r)
  {
    assert keys[i..] == [keys[i]] + keys[i + 1..];
    if Matches(keys[i], r) {
      forall j | 0 <= j < |called| ensures |keys[i].1| < |called[j].1| {
        assert called[j] in called;
        assert called[j] in keys[i + 1..];
        var m :| i < m < |keys| && keys[m] == called[j];
        MatchingOrder(keys[i], keys[m], r);
      }
    }
  }

  method Dispatch(handlers: set<Key>, request: Request) returns (called: seq<Key>)
    ensures forall k :: k in called <==> k in handlers && Matches(k, request)
    ensures LongestFirst(called)
  {
    called := [];
    var keys := PairsInOrder(handlers);
    for i := |keys| downto 0
      invariant Called(called, keys, i, request)
    {
      CallOne(called, keys, i, request) by {
        PairLessStrictTotal();
        InOrderIncreasing(handlers, PairLess);
      }
      if request.verb != keys[i].0 || !(keys[i].1 <= request.destination) {
        continue;
      }
      called := called + [keys[i]];
    }
    assert keys[0..] == keys;
  }

  /** For this method no destination ever reaches two handlers. */
  ghost predicate NeverTwo(handlers: set<Key>, verb: string) {
    forall destination, a, b ::
      (&& a in handlers && b in handlers
       && Matches(a, Request(verb, destination)) && Matches(b, Request(verb, destination)))
      ==> a == b
  }

  ghost predicate PrefixFree(handlers: set<Key>, verb: string) {
    forall a, b :: a in handlers && b in handlers && a.0 == verb == b.0 && a.1 <= b.1 ==> a == b
  }

  /** Nothing stops the walk after a match, so one handler per request takes prefix-free registrations. */
  lemma AtMostOneIffPrefixFree(handlers: set<Key>, verb: string)
    ensures NeverTwo(handlers, verb) <==> PrefixFree(handlers, verb)
  {
    if NeverTwo(handlers, verb) {
      forall a, b | a in handlers && b in handlers && a.0 == verb == b.0 && a.1 <= b.1 ensures a == b {
        assert Matches(a, Request(verb, b.1)) && Matches(b, Request(verb, b.1));
      }
    }
    if PrefixFree(handlers, verb) {
      forall destination, a, b | a in handlers && b in handlers
        && Matches(a, Request(verb, destination)) && Matches(b, Request(verb, destination)) ensures a == b
      {
        if |a.1| <= |b.1| {
          assert a.1 <= b.1;
        } else {
          assert b.1 <= a.1;
        }
      }
    }
  }
}

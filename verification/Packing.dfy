/**
  How the reporter cuts a snapshot into requests (src/reporter.cc, `SendMetadata` and
  `SendMetadataRequest`).  The JSON text of an entry is a given string; the request body wraps
  the texts of its entries.
 */
module Packing {
  import opened Sequences
  import opened Store
  import Json

  datatype Item = Item(resource: Resource, metadata: Metadata, text: string)

  /** The configured limits on one request. */
  datatype Limits = Limits(bytes: int, count: int)

  // ---------------------------------------------------------------- request bodies

  function Joined(batch: seq<Item>): string {
    if batch == [] then ""
    else if |batch| == 1 then batch[0].text
    else batch[0].text + "," + Joined(batch[1..])
  }

  /** The text of `{"entries": [...]}`. */
  function Body(batch: seq<Item>): string {
    "{\"entries\":[" + Joined(batch) + "]}"
  }

  const EMPTY_SIZE: nat := |Body([])|

  function TotalSize(batch: seq<Item>): nat {
    if batch == [] then 0 else |batch[0].text| + TotalSize(batch[1..])
  }

  /** The size the code keeps track of misses the commas. */
  lemma {:induction false} JoinedLength(batch: seq<Item>)
    ensures |Joined(batch)| == TotalSize(batch) + (if batch == [] then 0 else |batch| - 1)
    decreases |batch|
  {
    if |batch| == 1 {
      assert batch[1..] == [];
    } else if batch != [] {
      JoinedLength(batch[1..]);
    }
  }

  /** Where the text of entry `i` begins in a body. */
  function Offset(batch: seq<Item>, i: nat): nat
    requires i <= |batch|
  {
    |"{\"entries\":["| + TotalSize(batch[..i]) + i
  }

  /** A body is the bracketed texts of its entries in order, with one comma between neighbours. */
  lemma BodySpells(batch: seq<Item>, i: nat)
    requires i < |batch|
    ensures var body, at, n := Body(batch), Offset(batch, i), |batch[i].text|;
      && |body| == Offset(batch, |batch|) - 1 + |"]}"|
      && body[..|"{\"entries\":["|] == "{\"entries\":[" && body[|body| - 2..] == "]}"
      && at + n < |body| && body[at..at + n] == batch[i].text
      && (i + 1 < |batch| ==> body[at + n] == ',')
  {
    var head, text := "{\"entries\":[", Joined(batch);
    JoinedLength(batch);
    assert batch[..|batch|] == batch;
    JoinedSpells(batch, i);
    var body := Body(batch);
    assert body == head + text + "]}";
    var at, n := TotalSize(batch[..i]) + i, |batch[i].text|;
    assert body[|head| + at..|head| + at + n] == text[at..at + n];
  }

  lemma {:induction false} JoinedSpells(batch: seq<Item>, i: nat)
    requires i < |batch|
    ensures var text, at, n := Joined(batch), TotalSize(batch[..i]) + i, |batch[i].text|;
      && at + n <= |text| && text[at..at + n] == batch[i].text
      && (i + 1 < |batch| ==> at + n < |text| && text[at + n] == ',')
    decreases |batch|
  {
    if i > 0 {
      var rest := batch[1..];
      JoinedSpells(rest, i - 1);
      assert batch[..i] == [batch[0]] + rest[..i - 1];
      assert batch[..i][1..] == rest[..i - 1];
      var text, n := Joined(batch), |batch[0].text|;
      assert text == batch[0].text + "," + Joined(rest);
      var at, m := TotalSize(rest[..i - 1]) + i - 1, |batch[i].text|;
      assert text[n + 1 + at..n + 1 + at + m] == Joined(rest)[at..at + m];
      if i + 1 < |batch| { assert text[n + 1 + at + m] == Joined(rest)[at + m]; }
    } else {
      assert batch[..0] == [];
    }
  }

  // ---------------------------------------------------------------- the limits in the code

  /** The code's own test; a count limit of zero or less is never reached by a non-empty batch. */
  predicate Fits(batch: seq<Item>, limits: Limits) {
    && EMPTY_SIZE + TotalSize(batch) <= limits.bytes
    && (limits.count > 0 ==> |batch| <= limits.count)
  }

  predicate FitsAlone(item: Item, limits: Limits) {
    EMPTY_SIZE + |item.text| <= limits.bytes
  }

  /** The entries that are not dropped as individually too large. */
  function Survivors(items: seq<Item>, limits: Limits): seq<Item> {
    if items == [] then []
    else
      var n := |items| - 1;
      Survivors(items[..n], limits) + (if FitsAlone(items[n], limits) then [items[n]] else [])
  }

  lemma {:induction false} TotalSizeConcat(a: seq<Item>, b: seq<Item>)
    ensures TotalSize(a + b) == TotalSize(a) + TotalSize(b)
    decreases |a|
  {
    if a == [] {
      assert a + b == b;
    } else {
      assert (a + b)[1..] == a[1..] + b;
      TotalSizeConcat(a[1..], b);
    }
  }

  lemma FitsPrefix(s: seq<Item>, m: nat, n: nat, limits: Limits)
    requires m <= n <= |s| && Fits(s[..n], limits)
    ensures Fits(s[..m], limits)
  {
    assert s[..n] == s[..m] + s[m..n];
    TotalSizeConcat(s[..m], s[m..n]);
  }

  lemma FitsSuffix(s: seq<Item>, k: nat, limits: Limits)
    requires k <= |s| && Fits(s, limits)
    ensures Fits(s[k..], limits)
  {
    assert s == s[..k] + s[k..];
    TotalSizeConcat(s[..k], s[k..]);
  }

  // ---------------------------------------------------------------- the greedy split

  /** The length of the longest fitting prefix, given that one of length `n` fits. */
  function Longest(s: seq<Item>, n: nat, limits: Limits): (r: nat)
    requires n <= |s| && Fits(s[..n], limits)
    ensures n <= r <= |s| && Fits(s[..r], limits)
    ensures r < |s| ==> !Fits(s[..r + 1], limits)
    decreases |s| - n
  {
    if n < |s| && Fits(s[..n + 1], limits) then Longest(s, n + 1, limits) else n
  }

  ghost predicate AllFitAlone(s: seq<Item>, limits: Limits) {
    forall x :: x in s ==> FitsAlone(x, limits)
  }

  lemma OneFits(s: seq<Item>, limits: Limits)
    requires s != [] && AllFitAlone(s, limits)
    ensures Fits(s[..1], limits)
  {
    assert s[..1] == [s[0]];
    SingleSize(s[0]);
    assert s[0] in s;
  }

  lemma SingleSize(x: Item)
    ensures TotalSize([x]) == |x.text|
  {
    assert [x][1..] == [];
  }

  /** Cuts off the longest fitting prefix, again and again. */
  function Batches(s: seq<Item>, limits: Limits): seq<seq<Item>>
    decreases |s|
  {
    if s == [] then []
    else
      var n := if Fits(s[..1], limits) then Longest(s, 1, limits) else 1;
      [s[..n]] + Batches(s[n..], limits)
  }

  lemma {:induction false} SurvivorsFit(items: seq<Item>, limits: Limits)
    ensures forall x :: x in Survivors(items, limits) <==> x in items && FitsAlone(x, limits)
    ensures AllFitAlone(Survivors(items, limits), limits)
    decreases |items|
  {
    if items != [] {
      var n := |items| - 1;
      SurvivorsFit(items[..n], limits);
      assert items == items[..n] + [items[n]];
    }
  }

  /** The requests of one call: with a count limit of exactly zero an empty one goes first. */
  function Requests(items: seq<Item>, limits: Limits): seq<seq<Item>> {
    var s := Survivors(items, limits);
    if limits.count == 0 && s != [] then [[]] + Batches(s, limits) else Batches(s, limits)
  }

  /** Conservation: the batches, laid end to end, are the survivors in map order; none is empty. */
  lemma {:induction false} BatchesConserve(s: seq<Item>, limits: Limits)
    requires AllFitAlone(s, limits)
    ensures Flatten(Batches(s, limits)) == s
    ensures forall b :: b in Batches(s, limits) ==> b != [] && Fits(b, limits)
    decreases |s|
  {
    if s != [] {
      OneFits(s, limits);
      var n := Longest(s, 1, limits);
      BatchesConserve(s[n..], limits);
      assert s[..n] + s[n..] == s;
    }
  }

  // ---------------------------------------------------------------- optimality

  /** `split` cuts `s`, in order, into requests within the code's limits. */
  ghost predicate IsSplit(split: seq<seq<Item>>, s: seq<Item>, limits: Limits) {
    Flatten(split) == s && forall b :: b in split ==> Fits(b, limits)
  }

  /** Dropping leading entries never needs more requests. */
  lemma {:induction false} DropFront(split: seq<seq<Item>>, s: seq<Item>, k: nat, limits: Limits)
    returns (rest: seq<seq<Item>>)
    requires IsSplit(split, s, limits) && k <= |s|
    ensures IsSplit(rest, s[k..], limits) && |rest| == |split|
    decreases |split|
  {
    if split == [] {
      rest := [];
    } else {
      var first, others := split[0], Flatten(split[1..]);
      assert s == first + others;
      forall b | b in split[1..] ensures Fits(b, limits) { assert b in split; }
      if k <= |first| {
        FitsSuffix(first, k, limits);
        rest := [first[k..]] + split[1..];
        assert rest[1..] == split[1..];
        assert s[k..] == first[k..] + others;
      } else {
        var tail := DropFront(split[1..], others, k - |first|, limits);
        assert first[..|first|] == first && first[..0] == [] && first in split;
        FitsPrefix(first, 0, |first|, limits);
        rest := [[]] + tail;
        assert rest[1..] == tail;
        assert s[k..] == others[k - |first|..];
      }
    }
  }

  /** No order-preserving split of the survivors uses fewer requests. */
  lemma {:induction false} BatchesOptimal(s: seq<Item>, split: seq<seq<Item>>, limits: Limits)
    requires AllFitAlone(s, limits)
    requires IsSplit(split, s, limits)
    ensures |Batches(s, limits)| <= |split|
    decreases |s|
  {
    if s != [] {
      OneFits(s, limits);
      var n := Longest(s, 1, limits);
      assert split != [];
      var first, others := split[0], Flatten(split[1..]);
      assert s == first + others && s[..|first|] == first;
      if |first| > n { FitsPrefix(s, n + 1, |first|, limits); }
      forall b | b in split[1..] ensures Fits(b, limits) { assert b in split; }
      var tail := DropFront(split[1..], others, n - |first|, limits);
      assert others[n - |first|..] == s[n..];
      BatchesOptimal(s[n..], tail, limits);
    }
  }

  // ---------------------------------------------------------------- the packing loop

  /** One more entry either extends the last batch or starts a new one. */
  function Extend(done: seq<seq<Item>>, x: Item, limits: Limits): seq<seq<Item>> {
    if done == [] then [[x]]
    else
      var k := |done| - 1;
      if Fits(done[k] + [x], limits) then done[..k] + [done[k] + [x]] else done + [[x]]
  }

  lemma {:induction false} BatchesSnoc(s: seq<Item>, x: Item, limits: Limits)
    requires AllFitAlone(s, limits) && FitsAlone(x, limits)
    ensures Batches(s + [x], limits) == Extend(Batches(s, limits), x, limits)
    decreases |s|
  {
    var t := s + [x];
    if s == [] {
      assert t == [x];
      SingleBatch(x, limits);
    } else {
      OneFits(s, limits);
      var n := Longest(s, 1, limits);
      BatchesUnfold(s, n, limits);
      assert t[..n] == s[..n];
      if n < |s| {
        assert t[..n + 1] == s[..n + 1];
        BatchesUnfold(t, n, limits);
        assert t[n..] == s[n..] + [x];
        BatchesSnoc(s[n..], x, limits);
        assert s[n..] != [] && Batches(s[n..], limits) != [];
        ExtendBehind(s[..n], Batches(s[n..], limits), x, limits);
      } else {
        assert s[n..] == [] && s[..n] == s;
        LastBatchSnoc(s, x, limits);
      }
    }
  }

  lemma ExtendBehind(b: seq<Item>, done: seq<seq<Item>>, x: Item, limits: Limits)
    requires done != []
    ensures Extend([b] + done, x, limits) == [b] + Extend(done, x, limits)
  {
    var k := |done| - 1;
    assert ([b] + done)[..k + 1] == [b] + done[..k];
  }

  lemma SingleBatch(x: Item, limits: Limits)
    ensures Batches([x], limits) == [[x]]
  {
    assert [x][..1] == [x] && [x][1..] == [];
  }

  lemma LastBatchSnoc(s: seq<Item>, x: Item, limits: Limits)
    requires s != [] && AllFitAlone(s + [x], limits) && Fits(s, limits)
    ensures Batches(s + [x], limits) == if Fits(s + [x], limits) then [s + [x]] else [s, [x]]
  {
    var t := s + [x];
    assert t[..|s|] == s && t[..|t|] == t && t[|t|..] == [] && t[|s|..] == [x];
    if Fits(t, limits) {
      BatchesUnfold(t, |t|, limits);
    } else {
      BatchesUnfold(t, |s|, limits);
      SingleBatch(x, limits);
    }
  }

  lemma BatchesUnfold(s: seq<Item>, n: nat, limits: Limits)
    requires AllFitAlone(s, limits) && 1 <= n <= |s| && Fits(s[..n], limits)
    requires n < |s| ==> !Fits(s[..n + 1], limits)
    ensures AllFitAlone(s[n..], limits)
    ensures Batches(s, limits) == [s[..n]] + Batches(s[n..], limits)
  {
    OneFits(s, limits);
    LongestIs(s, n, limits);
  }

  lemma LongestIs(s: seq<Item>, n: nat, limits: Limits)
    requires 1 <= n <= |s| && Fits(s[..n], limits) && Fits(s[..1], limits)
    requires n < |s| ==> !Fits(s[..n + 1], limits)
    ensures Longest(s, 1, limits) == n
  {
    var r := Longest(s, 1, limits);
    if r < n { FitsPrefix(s, r + 1, n, limits); }
    if n < r { FitsPrefix(s, n + 1, r, limits); }
  }

  lemma SurvivorsSnoc(items: seq<Item>, x: Item, limits: Limits)
    ensures Survivors(items + [x], limits)
         == Survivors(items, limits) + (if FitsAlone(x, limits) then [x] else [])
  {
    assert (items + [x])[..|items|] == items;
  }

  /** All but the last batch of `r`: what the loop has sent by the time it holds the last one. */
  function Sent(r: seq<seq<Item>>): seq<seq<Item>>
    requires r != []
  {
    r[..|r| - 1]
  }

  lemma RequestsOfDropped(items: seq<Item>, x: Item, limits: Limits)
    requires !FitsAlone(x, limits)
    ensures Requests(items + [x], limits) == Requests(items, limits)
  {
    SurvivorsSnoc(items, x, limits);
    assert Survivors(items, limits) + [] == Survivors(items, limits);
  }

  lemma RequestsOfTaken(items: seq<Item>, x: Item, limits: Limits)
    requires FitsAlone(x, limits)
    ensures Requests(items + [x], limits) ==
      if Survivors(items, limits) == [] && limits.count == 0 then [[], [x]]
      else Extend(Requests(items, limits), x, limits)
  {
    var s := Survivors(items, limits);
    SurvivorsSnoc(items, x, limits);
    SurvivorsFit(items, limits);
    BatchesSnoc(s, x, limits);
    if limits.count == 0 {
      if s == [] {
        assert Requests(items + [x], limits) == [[]] + [[x]];
      } else {
        ExtendBehind([], Batches(s, limits), x, limits);
      }
    }
  }

  /** Once a request is complete, later entries do not change it. */
  lemma {:induction false} SentIsFinal(items: seq<Item>, more: seq<Item>, limits: Limits)
    requires Requests(items, limits) != []
    ensures Requests(items + more, limits) != []
    ensures Sent(Requests(items, limits)) <= Sent(Requests(items + more, limits))
    decreases |more|
  {
    if more == [] {
      assert items + more == items;
    } else {
      var n := |more| - 1;
      SentIsFinal(items, more[..n], limits);
      assert items + more == (items + more[..n]) + [more[n]];
      if FitsAlone(more[n], limits) {
        RequestsOfTaken(items + more[..n], more[n], limits);
      } else {
        RequestsOfDropped(items + more[..n], more[n], limits);
      }
    }
  }

  /** The code's flush test is the limit test, given that what it holds is within the limits. */
  lemma FlushTest(entries: seq<Item>, x: Item, limits: Limits)
    requires entries != [] && Fits(entries, limits)
    ensures Fits(entries + [x], limits) <==>
      !(|entries| == limits.count || EMPTY_SIZE + TotalSize(entries) + |x.text| > limits.bytes)
  {
    TotalSizeConcat(entries, [x]);
    SingleSize(x);
  }

  /** The loop's state after `items`: what it has sent and what it holds. */
  ghost predicate Packed(items: seq<Item>, sent: seq<seq<Item>>, held: seq<Item>, limits: Limits) {
    if Survivors(items, limits) == [] then sent == [] && held == []
    else held != [] && Fits(held, limits) && Requests(items, limits) == sent + [held]
  }

  lemma PackFirst(items: seq<Item>, x: Item, limits: Limits)
    requires Packed(items, [], [], limits) && FitsAlone(x, limits)
    ensures limits.count == 0 ==> Packed(items + [x], [[]], [x], limits)
    ensures limits.count != 0 ==> Packed(items + [x], [], [x], limits)
  {
    RequestsOfTaken(items, x, limits);
    SurvivorsSnoc(items, x, limits);
    SingleSize(x);
    assert Survivors(items, limits) == [];
    assert [[], [x]] == [[]] + [[x]] && [[x]] == [] + [[x]];
  }

  lemma PackNext(items: seq<Item>, x: Item, sent: seq<seq<Item>>, held: seq<Item>, limits: Limits)
    requires Packed(items, sent, held, limits) && held != [] && FitsAlone(x, limits)
    ensures if Fits(held + [x], limits) then Packed(items + [x], sent, held + [x], limits)
            else Packed(items + [x], sent + [held], [x], limits)
  {
    RequestsOfTaken(items, x, limits);
    SurvivorsSnoc(items, x, limits);
    SingleSize(x);
    assert Sent(sent + [held]) == sent;
    assert sent + [held, [x]] == sent + [held] + [[x]];
  }

  /** One turn of the loop, with the code's flush test. */
  lemma PackOne(items: seq<Item>, x: Item, sent: seq<seq<Item>>, held: seq<Item>, limits: Limits, flush: bool)
    requires Packed(items, sent, held, limits) && FitsAlone(x, limits)
    requires flush <==> |held| == limits.count || EMPTY_SIZE + TotalSize(held) + |x.text| > limits.bytes
    ensures Packed(items + [x], if flush then sent + [held] else sent, (if flush then [] else held) + [x], limits)
    ensures TotalSize((if flush then [] else held) + [x]) == (if flush then 0 else TotalSize(held)) + |x.text|
  {
    TotalSizeConcat(if flush then [] else held, [x]);
    SingleSize(x);
    assert [] + [x] == [x];
    if held == [] {
      PackFirst(items, x, limits);
      assert sent == [] && sent + [held] == [[]];
    } else {
      FlushTest(held, x, limits);
      PackNext(items, x, sent, held, limits);
    }
  }

  lemma PackDropped(items: seq<Item>, x: Item, sent: seq<seq<Item>>, held: seq<Item>, limits: Limits)
    requires Packed(items, sent, held, limits) && !FitsAlone(x, limits)
    ensures Packed(items + [x], sent, held, limits)
  {
    RequestsOfDropped(items, x, limits);
    SurvivorsSnoc(items, x, limits);
  }

  /** What the loop has sent is the beginning of what it will have sent. */
  lemma PackedIsFinal(items: seq<Item>, more: seq<Item>, sent: seq<seq<Item>>, held: seq<Item>, limits: Limits)
    requires Packed(items, sent, held, limits) && held != []
    ensures sent < Requests(items + more, limits)
  {
    SentIsFinal(items, more, limits);
    assert Sent(sent + [held]) == sent;
  }

  /** The same by position. */
  lemma DropAt(items: seq<Item>, i: nat, sent: seq<seq<Item>>, held: seq<Item>, limits: Limits)
    requires i < |items| && Packed(items[..i], sent, held, limits) && !FitsAlone(items[i], limits)
    ensures Packed(items[..i + 1], sent, held, limits)
  {
    assert items[..i + 1] == items[..i] + [items[i]];
    PackDropped(items[..i], items[i], sent, held, limits);
  }

  lemma RefusedAt(items: seq<Item>, i: nat, sent: seq<seq<Item>>, refused: seq<Item>, held: seq<Item>, limits: Limits)
    requires i <= |items| && Packed(items[..i], sent + [refused], held, limits) && held != []
    ensures sent < Requests(items, limits)
  {
    assert items[..i] + items[i..] == items;
    PackedIsFinal(items[..i], items[i..], sent + [refused], held, limits);
  }

  /**
    `SendMetadata`: `server(k)` says whether the k-th request of this call is accepted; a refused
    one raises an exception that ends the call.
   */
  method SendMetadata(items: seq<Item>, limits: Limits, server: nat -> bool)
    returns (accepted: seq<seq<Item>>, ok: bool)
    ensures ok ==> accepted == Requests(items, limits)
    ensures !ok ==> accepted < Requests(items, limits) && !server(|accepted|)
    ensures forall k: nat :: k < |accepted| ==> server(k)
  {
    accepted, ok := [], true;
    var entries: seq<Item> := [];
    var totalSize := EMPTY_SIZE;
    var i := 0;
    while i < |items|
      invariant 0 <= i <= |items|
      invariant totalSize == EMPTY_SIZE + TotalSize(entries)
      invariant forall k: nat :: k < |accepted| ==> server(k)
      invariant Packed(items[..i], accepted, entries, limits)
    {
      var x := items[i];
      var size := |x.text|;
      if EMPTY_SIZE + size > limits.bytes {
        DropAt(items, i, accepted, entries, limits);
        i := i + 1;
        continue;
      }
      var flush := |entries| == limits.count || totalSize + size > limits.bytes;
      assert items[..i + 1] == items[..i] + [x];
      PackOne(items[..i], x, accepted, entries, limits, flush);
      i := i + 1;
      if flush {
        if !server(|accepted|) {
          RefusedAt(items, i, accepted, entries, [] + [x], limits);
          ok := false;
          return;
        }
        accepted := accepted + [entries];
        entries := [];
        totalSize := EMPTY_SIZE;
      }
      entries := entries + [x];
      totalSize := totalSize + size;
    }
    assert items[..i] == items;
    if entries != [] {
      if !server(|accepted|) {
        ok := false;
        return;
      }
      accepted := accepted + [entries];
    }
  }

  // ---------------------------------------------------------------- what a run of requests guarantees

  /**
    Conservation: whatever the server does, what was accepted, end to end, is a prefix of the
    individually fitting entries in order, and all of them when nothing was refused.
   */
  lemma AcceptedConserves(items: seq<Item>, limits: Limits, accepted: seq<seq<Item>>)
    requires accepted <= Requests(items, limits)
    ensures Flatten(accepted) <= Survivors(items, limits)
    ensures accepted == Requests(items, limits) ==> Flatten(accepted) == Survivors(items, limits)
  {
    var all := Requests(items, limits);
    RequestsConserve(items, limits);
    assert all == accepted + all[|accepted|..];
    FlattenConcat(accepted, all[|accepted|..]);
  }

  lemma RequestsConserve(items: seq<Item>, limits: Limits)
    ensures Flatten(Requests(items, limits)) == Survivors(items, limits)
  {
    var s := Survivors(items, limits);
    SurvivorsFit(items, limits);
    BatchesConserve(s, limits);
    if limits.count == 0 && s != [] {
      var all := Requests(items, limits);
      assert all[0] == [] && all[1..] == Batches(s, limits);
    }
  }

  /**
    The true bounds: a request with entries is within the code's limits, so its body is within
    the byte limit plus one comma between entries; none is empty unless the count limit is zero.
   */
  lemma RequestBounds(items: seq<Item>, limits: Limits, b: seq<Item>)
    requires b in Requests(items, limits)
    ensures limits.count != 0 ==> b != []
    ensures limits.count > 0 ==> |b| <= limits.count
    ensures b != [] ==> |Body(b)| == EMPTY_SIZE + TotalSize(b) + |b| - 1 <= limits.bytes + |b| - 1
  {
    SurvivorsFit(items, limits);
    BatchesConserve(Survivors(items, limits), limits);
    JoinedLength(b);
  }

  /** Every entry the program builds is an object of six fields, so its text has some least length. */
  ghost predicate AtLeast(items: seq<Item>, least: nat) {
    forall x :: x in items ==> |x.text| >= least
  }

  ghost predicate AllBodiesWithinLimit(limits: Limits, least: nat) {
    forall items, b :: AtLeast(items, least) && b in Requests(items, limits) ==> |Body(b)| <= limits.bytes
  }

  /** The byte limit itself is kept exactly by the limits that never let two entries go out together. */
  lemma ByteLimitKeptIff(limits: Limits, least: nat)
    ensures AllBodiesWithinLimit(limits, least) <==>
      limits.count == 1 || limits.bytes < EMPTY_SIZE + 2 * least
  {
    if limits.count == 1 || limits.bytes < EMPTY_SIZE + 2 * least {
      forall items, b | AtLeast(items, least) && b in Requests(items, limits) ensures |Body(b)| <= limits.bytes {
        AtMostOne(items, limits, least, b);
      }
    } else {
      var items := CommaTooMany(limits, least);
      assert items in Requests(items, limits);
    }
  }

  lemma AtMostOne(items: seq<Item>, limits: Limits, least: nat, b: seq<Item>)
    requires AtLeast(items, least) && b in Requests(items, limits)
    requires limits.count == 1 || limits.bytes < EMPTY_SIZE + 2 * least
    ensures |Body(b)| <= limits.bytes
  {
    RequestBounds(items, limits, b);
    SurvivorsFit(items, limits);
    if Survivors(items, limits) != [] { assert Survivors(items, limits)[0] in Survivors(items, limits); }
    RequestsConserve(items, limits);
    forall x | x in b ensures |x.text| >= least { InFlatten(Requests(items, limits), x); }
    LengthsAddUp(b, least);
  }

  lemma {:induction false} LengthsAddUp(b: seq<Item>, least: nat)
    requires AtLeast(b, least)
    ensures TotalSize(b) >= (if |b| >= 2 then 2 * least else |b| * least)
    decreases |b|
  {
    if b != [] { LengthsAddUp(b[1..], least); }
  }

  ghost predicate NeverEmpty(limits: Limits, least: nat) {
    forall items, b :: AtLeast(items, least) && b in Requests(items, limits) ==> b != []
  }

  /** No request is ever empty exactly when the count limit is not zero or nothing can fit. */
  lemma NeverEmptyIff(limits: Limits, least: nat)
    ensures NeverEmpty(limits, least) <==> limits.count != 0 || limits.bytes < EMPTY_SIZE + least
  {
    if limits.count != 0 || limits.bytes < EMPTY_SIZE + least {
      forall items, b | AtLeast(items, least) && b in Requests(items, limits) ensures b != [] {
        RequestBounds(items, limits, b);
        SurvivorsFit(items, limits);
        if Survivors(items, limits) != [] { assert Survivors(items, limits)[0] in items; }
      }
    } else {
      var x := Entry("", least);
      assert [x][..0] == [] && Survivors([x], limits) == [x];
      assert AtLeast([x], least) && Requests([x], limits)[0] == [];
      assert [] in Requests([x], limits);
    }
  }

  function Entry(kind: string, length: nat): (x: Item)
    ensures |x.text| == length
  {
    Item(Resource(kind, map[]), Metadata("", false, 0, 0, Json.Null, false), seq(length, _ => 'x'))
  }

  /** Two entries whose texts fill the limit exactly go out together, and the comma is one too many. */
  lemma CommaTooMany(limits: Limits, least: nat) returns (items: seq<Item>)
    requires limits.count != 1 && limits.bytes >= EMPTY_SIZE + 2 * least
    ensures AtLeast(items, least) && items in Requests(items, limits) && |Body(items)| == limits.bytes + 1
    ensures |items| == 2 && items[0].resource != items[1].resource
  {
    var x, y := Entry("", least), Entry("x", limits.bytes - EMPTY_SIZE - least);
    items := [x] + [y];
    assert Packed([], [], [], limits);
    PackFirst([], x, limits);
    assert [] + [x] == [x];
    SingleSize(x);
    SingleSize(y);
    TotalSizeConcat([x], [y]);
    var sent: seq<seq<Item>> := if limits.count == 0 then [[]] else [];
    PackNext([x], y, sent, [x], limits);
    assert (sent + [items])[|sent|] == items;
    JoinedLength(items);
  }

  /** What is sent is as few requests as possible, but for the empty one of a count limit of zero. */
  lemma RequestsOptimal(items: seq<Item>, split: seq<seq<Item>>, limits: Limits)
    requires IsSplit(split, Survivors(items, limits), limits)
    ensures var empty := if limits.count == 0 && Survivors(items, limits) != [] then 1 else 0;
      |Requests(items, limits)| <= |split| + empty
    ensures IsSplit(Batches(Survivors(items, limits), limits), Survivors(items, limits), limits)
    ensures limits.count == 0 && Survivors(items, limits) != [] ==>
      |Requests(items, limits)| == |Batches(Survivors(items, limits), limits)| + 1
  {
    SurvivorsFit(items, limits);
    BatchesConserve(Survivors(items, limits), limits);
    BatchesOptimal(Survivors(items, limits), split, limits);
  }
}

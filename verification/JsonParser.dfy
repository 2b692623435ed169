/**
  The incremental parser on top of the builder: an object that is fed events as they arrive,
  in chunks of any size, and what it does on event sequences no serializer would produce
  (src/json.cc).
 */
module JsonParser {
  import opened Wrappers
  import opened Sequences
  import opened Json
  import opened JsonGrammar

  // ---------------------------------------------------------------- well-nestedness

  datatype Container = InMap | InArray

  /** The containers still open after `es`, innermost last, found by looking at brackets only. */
  function Opened(es: seq<Event>): seq<Container> {
    if es == [] then []
    else
      var open := Opened(es[..|es| - 1]);
      match es[|es| - 1]
      case StartMap => open + [InMap]
      case StartArray => open + [InArray]
      case EndMap => if open == [] then [] else open[..|open| - 1]
      case EndArray => if open == [] then [] else open[..|open| - 1]
      case _ => open
  }

  /** A key or a closing bracket belongs directly inside a container of its own kind. */
  predicate Matches(open: seq<Container>, e: Event) {
    match e
    case MapKey(_) => open != [] && open[|open| - 1] == InMap
    case EndMap => open != [] && open[|open| - 1] == InMap
    case EndArray => open != [] && open[|open| - 1] == InArray
    case _ => true
  }

  ghost predicate WellNested(es: seq<Event>) {
    forall i :: 0 <= i < |es| ==> Matches(Opened(es[..i]), es[i])
  }

  /** The event ends a value: a leaf or a closing bracket. */
  predicate Completes(e: Event) {
    !(e.StartMap? || e.StartArray? || e.MapKey?)
  }

  /** How many of the events end a value with no container left open. */
  function TopLevelValues(es: seq<Event>): nat {
    if es == [] then 0
    else
      TopLevelValues(es[..|es| - 1]) +
      (if Completes(es[|es| - 1]) && Opened(es) == [] then 1 else 0)
  }

  function CountOpens(es: seq<Event>): nat {
    if es == [] then 0
    else CountOpens(es[..|es| - 1]) + (if es[|es| - 1].StartMap? || es[|es| - 1].StartArray? then 1 else 0)
  }

  function CountCloses(es: seq<Event>): nat {
    if es == [] then 0
    else CountCloses(es[..|es| - 1]) + (if es[|es| - 1].EndMap? || es[|es| - 1].EndArray? then 1 else 0)
  }

  // ---------------------------------------------------------------- which container is innermost

  ghost predicate Balance(es: seq<Event>, surplus: int) {
    && CountOpens(es) - CountCloses(es) == surplus
    && forall n :: 0 <= n <= |es| ==> CountOpens(es[..n]) >= CountCloses(es[..n])
  }

  /** The container that event `j` opens is still open, and so are `inner` more inside it. */
  ghost predicate OpenWithin(es: seq<Event>, j: int, inner: int) {
    0 <= j < |es| && (es[j] == StartArray || es[j] == StartMap) && Balance(es[j + 1..], inner)
  }

  lemma CountsSnoc(es: seq<Event>, e: Event)
    ensures CountOpens(es + [e]) == CountOpens(es) + CountOpens([e])
    ensures CountCloses(es + [e]) == CountCloses(es) + CountCloses([e])
  {
    assert (es + [e])[..|es|] == es && [e][..0] == [];
  }

  lemma BalanceSnoc(es: seq<Event>, surplus: int, e: Event)
    requires Balance(es, surplus) && surplus + CountOpens([e]) - CountCloses([e]) >= 0
    ensures Balance(es + [e], surplus + CountOpens([e]) - CountCloses([e]))
  {
    CountsSnoc(es, e);
    forall n | 0 <= n <= |es| + 1 ensures CountOpens((es + [e])[..n]) >= CountCloses((es + [e])[..n]) {
      if n <= |es| { assert (es + [e])[..n] == es[..n]; } else { assert (es + [e])[..n] == es + [e]; }
    }
  }

  /** Where the open containers were opened, outermost first. */
  ghost predicate OpenedAt(es: seq<Event>, at: seq<int>) {
    |at| == |Opened(es)| && forall d :: 0 <= d < |at| ==> Located(es, at[d], |at| - 1 - d, Opened(es)[d])
  }

  /** Event `j` opened a container of kind `c` that is still open. */
  ghost predicate Located(es: seq<Event>, j: int, inner: int, c: Container) {
    OpenWithin(es, j, inner) && (es[j] == StartArray <==> c == InArray)
  }

  function Delta(e: Event): int {
    if e == StartArray || e == StartMap then 1 else if e == EndArray || e == EndMap then -1 else 0
  }

  lemma StillOpen(es: seq<Event>, e: Event, j: int, inner: int, c: Container)
    requires Located(es, j, inner, c) && inner + Delta(e) >= 0
    ensures Located(es + [e], j, inner + Delta(e), c)
  {
    assert (es + [e])[j + 1..] == es[j + 1..] + [e];
    assert [e][..0] == [] && CountOpens([e]) - CountCloses([e]) == Delta(e);
    BalanceSnoc(es[j + 1..], inner, e);
  }

  lemma OpenedSnoc(es: seq<Event>, e: Event)
    ensures Opened(es + [e]) ==
      if Delta(e) == 0 then Opened(es)
      else if Delta(e) == 1 then Opened(es) + [if e == StartArray then InArray else InMap]
      else if Opened(es) == [] then [] else Opened(es)[..|Opened(es)| - 1]
  {
    assert (es + [e])[..|es|] == es;
  }

  /** The list of open containers is that of the opening events that no closing event has matched. */
  lemma {:induction false} FindOpened(es: seq<Event>) returns (at: seq<int>)
    requires WellNested(es)
    ensures OpenedAt(es, at)
    decreases |es|
  {
    at := [];
    if es != [] {
      var n := |es| - 1;
      assert es == es[..n] + [es[n]];
      WellNestedSnoc(es[..n], es[n]);
      var before := FindOpened(es[..n]);
      at := NextOpened(es[..n], es[n], before);
    }
  }

  lemma NextOpened(es: seq<Event>, e: Event, before: seq<int>) returns (at: seq<int>)
    requires OpenedAt(es, before) && Matches(Opened(es), e)
    ensures OpenedAt(es + [e], at)
  {
    OpenedSnoc(es, e);
    var open := Opened(es);
    at := if Delta(e) == 0 then before else if Delta(e) == 1 then before + [|es|] else before[..|before| - 1];
    assert |before| - 1 + Delta(e) == |at| - 1;
    forall d | 0 <= d < |at| && d < |before| ensures Located(es + [e], at[d], |at| - 1 - d, Opened(es + [e])[d]) {
      StillOpen(es, e, before[d], |before| - 1 - d, open[d]);
    }
    if Delta(e) == 1 { JustOpened(es, e); }
  }

  lemma JustOpened(es: seq<Event>, e: Event)
    requires Delta(e) == 1
    ensures Located(es + [e], |es|, 0, if e == StartArray then InArray else InMap)
  {
    assert (es + [e])[|es| + 1..] == [];
  }

  lemma {:induction false} CountsConcat(a: seq<Event>, b: seq<Event>)
    ensures CountOpens(a + b) == CountOpens(a) + CountOpens(b)
    ensures CountCloses(a + b) == CountCloses(a) + CountCloses(b)
    decreases |b|
  {
    if b == [] {
      assert a + b == a;
    } else {
      var n := |b| - 1;
      CountsConcat(a, b[..n]);
      assert (a + b)[..|a + b| - 1] == a + b[..n];
    }
  }

  /** What an opening event adds to the surplus of opening events. */
  lemma Surplus(es: seq<Event>, a: nat, k: nat)
    requires a <= k < |es| && Delta(es[k]) == 1
    ensures CountOpens(es[a..]) - CountCloses(es[a..])
         == CountOpens(es[a..k]) - CountCloses(es[a..k]) + 1 + CountOpens(es[k + 1..]) - CountCloses(es[k + 1..])
  {
    var one := [es[k]];
    assert es[a..] == es[a..k] + (one + es[k + 1..]);
    CountsConcat(es[a..k], one + es[k + 1..]);
    CountsConcat(one, es[k + 1..]);
    assert one[..0] == [] && CountOpens(one) == 1 && CountCloses(one) == 0;
  }

  lemma OneInnermost(es: seq<Event>, j: int, k: int)
    requires OpenWithin(es, j, 0) && OpenWithin(es, k, 0)
    ensures j >= k
  {
    if j < k {
      assert es[j + 1..][..k - j - 1] == es[j + 1..k];
      Surplus(es, j + 1, k);
    }
  }

  /** Some opening event of this kind is the last that is not closed. */
  ghost predicate Innermost(es: seq<Event>, start: Event) {
    exists j :: OpenWithin(es, j, 0) && es[j] == start
  }

  /**
    After any events the builder has accepted it accepts a key or a closing brace exactly if the last
    container opened and not closed is an object, a closing bracket exactly if it is an array, and
    every other event.
   */
  lemma AcceptsNextIff(es: seq<Event>, e: Event)
    requires Run(INITIAL, es).Some?
    ensures Run(INITIAL, es + [e]).Some? <==>
      && (e.MapKey? || e == EndMap ==> Innermost(es, StartMap))
      && (e == EndArray ==> Innermost(es, StartArray))
  {
    RefusesExactlyMismatch(es);
    RefusesExactlyMismatch(es + [e]);
    WellNestedSnoc(es, e);
    var at := FindOpened(es);
    if at != [] {
      var last := at[|at| - 1];
      assert OpenWithin(es, last, 0);
      forall j | OpenWithin(es, j, 0) ensures j == last { OneInnermost(es, j, last); OneInnermost(es, last, j); }
    } else {
      forall j ensures !OpenWithin(es, j, 0) {
        if OpenWithin(es, j, 0) { NoneOpen(es, j); }
      }
    }
  }

  /** With nothing open, no opening event is unmatched. */
  lemma NoneOpen(es: seq<Event>, j: int)
    requires WellNested(es) && Opened(es) == []
    ensures !OpenWithin(es, j, 0)
  {
    if OpenWithin(es, j, 0) {
      RefusesExactlyMismatch(es);
      PrefixNested(es, j);
      RefusesExactlyMismatch(es[..j]);
      assert es[0..] == es && es[0..j] == es[..j];
      Surplus(es, 0, j);
    }
  }

  lemma PrefixNested(es: seq<Event>, j: nat)
    requires WellNested(es) && j <= |es|
    ensures WellNested(es[..j])
  {
    forall i | 0 <= i < j ensures Matches(Opened(es[..j][..i]), es[..j][i]) {
      assert es[..j][..i] == es[..i];
    }
  }

  function Kind(f: Frame): Container {
    if f.ArrayFrame? then InArray else InMap
  }

  function Kinds(frames: seq<Frame>): seq<Container> {
    seq(|frames|, i requires 0 <= i < |frames| => Kind(frames[i]))
  }

  lemma AddKeepsKinds(st: State, v: Value)
    ensures Kinds(Add(st, v).frames) == Kinds(st.frames)
    ensures |Add(st, v).delivered| == |st.delivered| + (if st.frames == [] then 1 else 0)
    ensures st.delivered <= Add(st, v).delivered
  {
  }

  /** One callback, told by the kinds of the open containers alone. */
  lemma StepShape(st: State, e: Event)
    ensures Step(st, e).Some? <==> Matches(Kinds(st.frames), e)
    ensures Step(st, e).Some? ==>
      var next := Step(st, e).value;
      && Kinds(next.frames) == (match e
           case StartMap => Kinds(st.frames) + [InMap]
           case StartArray => Kinds(st.frames) + [InArray]
           case EndMap => Kinds(st.frames)[..|st.frames| - 1]
           case EndArray => Kinds(st.frames)[..|st.frames| - 1]
           case _ => Kinds(st.frames))
      && |next.delivered| == |st.delivered| + (if Completes(e) && next.frames == [] then 1 else 0)
      && st.delivered <= next.delivered
  {
    var last := |st.frames| - 1;
    match e
    case NullEvent => AddKeepsKinds(st, Null);
    case BoolEvent(b) => AddKeepsKinds(st, Boolean(b));
    case IntegerEvent(i) => AddKeepsKinds(st, Num(Real(i as real)));
    case DoubleEvent(d) => AddKeepsKinds(st, Num(d));
    case StringEvent(s) => AddKeepsKinds(st, Str(s));
    case StartMap =>
    case StartArray =>
    case MapKey(_) =>
    case EndArray =>
      if Step(st, e).Some? {
        AddKeepsKinds(st.(frames := st.frames[..last]), Array(st.frames[last].elements));
      }
    case EndMap =>
      if Step(st, e).Some? {
        AddKeepsKinds(st.(frames := st.frames[..last]), Object(st.frames[last].fields));
      }
  }

  lemma RunSnoc(st: State, es: seq<Event>, e: Event)
    ensures Run(st, es + [e]) == match Run(st, es) case None => None case Some(mid) => Step(mid, e)
  {
    RunConcat(st, es, [e]);
    match Run(st, es)
    case None =>
    case Some(mid) => RunOne(mid, e);
  }

  /**
    For any event sequence at all: the builder refuses it exactly when some key or closing bracket
    does not match the innermost open container; otherwise its stack mirrors the open containers,
    its depth is opens minus closes, and the callback has fired once per value ended at depth zero.
   */
  lemma {:induction false} RefusesExactlyMismatch(es: seq<Event>)
    ensures Run(INITIAL, es).Some? <==> WellNested(es)
    ensures WellNested(es) ==>
      && Kinds(Run(INITIAL, es).value.frames) == Opened(es)
      && |Opened(es)| == CountOpens(es) - CountCloses(es)
      && |Run(INITIAL, es).value.delivered| == TopLevelValues(es)
    decreases |es|
  {
    if es != [] {
      var front, e := es[..|es| - 1], es[|es| - 1];
      assert es == front + [e];
      RefusesExactlyMismatch(front);
      RunSnoc(INITIAL, front, e);
      WellNestedSnoc(front, e);
      if WellNested(front) {
        StepShape(Run(INITIAL, front).value, e);
      }
    }
  }

  lemma WellNestedSnoc(front: seq<Event>, e: Event)
    ensures WellNested(front + [e]) <==> WellNested(front) && Matches(Opened(front), e)
  {
    var es := front + [e];
    forall i | 0 <= i < |front| ensures es[..i] == front[..i] && es[i] == front[i] {}
    assert es[..|front|] == front && es[|front|] == e;
    if WellNested(es) {
      forall i | 0 <= i < |front| ensures Matches(Opened(front[..i]), front[i]) {
        assert Matches(Opened(es[..i]), es[i]);
      }
      assert Matches(Opened(es[..|front|]), es[|front|]);
    }
  }

  /** Nothing handed to the callback is ever taken back or changed. */
  lemma {:induction false} DeliveredOnlyGrows(st: State, es: seq<Event>)
    requires Run(st, es).Some?
    ensures st.delivered <= Run(st, es).value.delivered
    decreases |es|
  {
    if es != [] {
      StepShape(st, es[0]);
      DeliveredOnlyGrows(Step(st, es[0]).value, es[1..]);
    }
  }

  // ---------------------------------------------------------------- chunks

  function RunChunks(st: State, chunks: seq<seq<Event>>): Option<State>
    decreases |chunks|
  {
    if chunks == [] then Some(st)
    else
      match Run(st, chunks[0])
      case None => None
      case Some(next) => RunChunks(next, chunks[1..])
  }

  /** How the input was cut makes no difference. */
  lemma {:induction false} ChunksDoNotMatter(st: State, chunks: seq<seq<Event>>)
    ensures RunChunks(st, chunks) == Run(st, Flatten(chunks))
    decreases |chunks|
  {
    if chunks != [] {
      RunConcat(st, chunks[0], Flatten(chunks[1..]));
      match Run(st, chunks[0])
      case None =>
      case Some(next) => ChunksDoNotMatter(next, chunks[1..]);
    }
  }

  lemma BuildsTopLevel(done: seq<Value>, vs: seq<Value>)
    ensures Run(State(done, []), EventsOfAll(vs)) == Some(State(done + vs, []))
  {
    AllEventsWrite(vs);
    DeliversWritten(done, EventsOfAll(vs), vs);
  }

  /** A stream of values, cut anywhere, reaches the callback unchanged and in order. */
  lemma StreamRoundTrip(vs: seq<Value>, chunks: seq<seq<Event>>)
    requires Flatten(chunks) == EventsOfAll(vs)
    ensures RunChunks(INITIAL, chunks) == Some(State(vs, []))
  {
    ChunksDoNotMatter(INITIAL, chunks);
    BuildsTopLevel([], vs);
    assert [] + vs == vs;
  }

  // ---------------------------------------------------------------- the objects

  /** The context stack behind the parser callbacks. */
  class JSONBuilder {
    var delivered: seq<Value>
    var frames: seq<Frame>

    ghost function Now(): State
      reads this
    {
      State(delivered, frames)
    }

    constructor ()
      ensures Now() == INITIAL
    {
      delivered, frames := [], [];
    }

    method AddValue(v: Value)
      modifies this
      ensures Now() == Add(old(Now()), v)
    {
      if |frames| == 0 {
        delivered := delivered + [v];
      } else {
        var last := |frames| - 1;
        match frames[last] {
          case ArrayFrame(elements) =>
            frames := frames[..last] + [ArrayFrame(elements + [v])];
          case ObjectFrame(fields, None) =>
            assert frames == frames[..last] + [frames[last]];
          case ObjectFrame(fields, Some(name)) =>
            frames := frames[..last] + [ObjectFrame(Emplace(fields, name, v), None)];
        }
      }
    }

    method PushArray()
      modifies this
      ensures Step(old(Now()), StartArray) == Some(Now())
    {
      frames := frames + [ArrayFrame([])];
    }

    method PushObject()
      modifies this
      ensures Step(old(Now()), StartMap) == Some(Now())
    {
      frames := frames + [ObjectFrame(map[], None)];
    }

    method PopArray() returns (elements: Option<seq<Value>>)
      modifies this
      ensures elements.None? ==> unchanged(this) && Step(Now(), EndArray) == None
      ensures elements.Some? ==> Step(old(Now()), EndArray) == Some(Add(Now(), Array(elements.value)))
    {
      if |frames| > 0 && frames[|frames| - 1].ArrayFrame? {
        elements := Some(frames[|frames| - 1].elements);
        frames := frames[..|frames| - 1];
      } else {
        elements := None;
      }
    }

    method PopObject() returns (fields: Option<map<string, Value>>)
      modifies this
      ensures fields.None? ==> unchanged(this) && Step(Now(), EndMap) == None
      ensures fields.Some? ==> Step(old(Now()), EndMap) == Some(Add(Now(), Object(fields.value)))
    {
      if |frames| > 0 && frames[|frames| - 1].ObjectFrame? {
        fields := Some(frames[|frames| - 1].fields);
        frames := frames[..|frames| - 1];
      } else {
        fields := None;
      }
    }

    method NewField(name: string) returns (ok: bool)
      modifies this
      ensures Step(old(Now()), MapKey(name)) == if ok then Some(Now()) else None
      ensures !ok ==> unchanged(this)
    {
      ok := |frames| > 0 && frames[|frames| - 1].ObjectFrame?;
      if ok {
        var last := |frames| - 1;
        frames := frames[..last] + [frames[last].(pending := Some(name))];
      }
    }

    /** One parser callback; the result is what the handler returns. */
    method Handle(e: Event) returns (ok: bool)
      modifies this
      ensures Step(old(Now()), e) == if ok then Some(Now()) else None
      ensures !ok ==> unchanged(this)
    {
      ok := true;
      match e {
        case NullEvent => AddValue(Null);
        case BoolEvent(b) => AddValue(Boolean(b));
        case IntegerEvent(i) => AddValue(Num(Real(i as real)));
        case DoubleEvent(d) => AddValue(Num(d));
        case StringEvent(s) => AddValue(Str(s));
        case StartArray => PushArray();
        case StartMap => PushObject();
        case MapKey(name) => ok := NewField(name);
        case EndArray =>
          var elements := PopArray();
          ok := elements.Some?;
          if ok { AddValue(Array(elements.value)); }
        case EndMap =>
          var fields := PopObject();
          ok := fields.Some?;
          if ok { AddValue(Object(fields.value)); }
      }
    }

    /** Feeds events until one is refused; the result is how many were taken. */
    method Feed(es: seq<Event>) returns (taken: nat)
      modifies this
      ensures taken <= |es|
      ensures Run(old(Now()), es[..taken]) == Some(Now())
      ensures taken < |es| ==> Step(Now(), es[taken]) == None && Run(old(Now()), es) == None
      ensures taken == |es| ==> Run(old(Now()), es) == Some(Now())
    {
      taken := 0;
      while taken < |es|
        invariant taken <= |es|
        invariant Run(old(Now()), es[..taken]) == Some(Now())
      {
        assert es[..taken + 1] == es[..taken] + [es[taken]];
        RunSnoc(old(Now()), es[..taken], es[taken]);
        var ok := Handle(es[taken]);
        if !ok {
          RunConcat(old(Now()), es[..taken + 1], es[taken + 1..]);
          assert es[..taken + 1] + es[taken + 1..] == es;
          return;
        }
        taken := taken + 1;
      }
      assert es[..taken] == es;
    }
  }

  /**
    A fresh parser fed chunk after chunk and then told of the end: what the callback received, or None
    on a refused event or a container left open.
   */
  method AllFromStream(chunks: seq<seq<Event>>) returns (values: Option<seq<Value>>)
    ensures values.Some? <==> WellNested(Flatten(chunks)) && Opened(Flatten(chunks)) == []
    ensures values.Some? ==> |values.value| == TopLevelValues(Flatten(chunks))
    ensures values.Some? ==> Run(INITIAL, Flatten(chunks)) == Some(State(values.value, []))
    ensures forall vs :: WritesAll(Flatten(chunks), vs) ==> values == Some(vs)
  {
    var builder := new JSONBuilder();
    ghost var whole := Flatten(chunks);
    RefusesExactlyMismatch(whole);
    forall vs | WritesAll(whole, vs) ensures Run(INITIAL, whole) == Some(State(vs, [])) {
      DeliversWritten([], whole, vs);
      assert [] + vs == vs;
    }
    ChunksDoNotMatter(INITIAL, chunks);
    var i := 0;
    while i < |chunks|
      invariant 0 <= i <= |chunks|
      invariant RunChunks(INITIAL, chunks) == RunChunks(builder.Now(), chunks[i..])
    {
      var taken := builder.Feed(chunks[i]);
      if taken < |chunks[i]| {
        return None;
      }
      assert chunks[i..][1..] == chunks[i + 1..];
      i := i + 1;
    }
    assert |Kinds(builder.frames)| == |builder.frames|;
    values := if builder.frames == [] then Some(builder.delivered) else None;
  }
}

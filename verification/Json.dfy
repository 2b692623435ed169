/**
  JSON values, their serialization as a sequence of generator calls, and the stack builder
  that turns parser callbacks back into values (src/json.cc).

  Text is left to the yajl library: a serialization is the sequence of events that the library
  writes out and reports back on parsing.  Numbers and strings are leaves.
 */
module Json {
  import opened Ordering
  import opened Wrappers

  /**
    A finite number that is a 64-bit integer or a double, so that the serializer's conversion to
    `double` keeps it; negative zero is kept apart because the serializer treats it apart.
   */
  datatype Number = Real(value: real) | NegativeZero

  datatype Value =
    | Null
    | Boolean(b: bool)
    | Num(number: Number)
    | Str(s: string)
    | Array(elements: seq<Value>)
    | Object(fields: map<string, Value>)

  /** The calls the serializer makes, which are the callbacks the parser makes. */
  datatype Event =
    | NullEvent
    | BoolEvent(b: bool)
    | IntegerEvent(i: int)
    | DoubleEvent(d: Number)
    | StringEvent(s: string)
    | StartMap
    | MapKey(name: string)
    | EndMap
    | StartArray
    | EndArray

  const LLONG_MIN: int := -0x8000_0000_0000_0000
  const LLONG_MAX: int := 0x7fff_ffff_ffff_ffff

  predicate IsEffectivelyInteger(n: Number) {
    n.Real? && n.value == n.value.Floor as real && LLONG_MIN <= n.value.Floor <= LLONG_MAX
  }

  function NumberEvent(n: Number): Event {
    if IsEffectivelyInteger(n) then IntegerEvent(n.value.Floor) else DoubleEvent(n)
  }

  // ---------------------------------------------------------------- serialization

  function Events(v: Value): seq<Event>
    decreases v
  {
    match v
    case Null => [NullEvent]
    case Boolean(b) => [BoolEvent(b)]
    case Num(n) => [NumberEvent(n)]
    case Str(s) => [StringEvent(s)]
    case Array(elements) => [StartArray] + EventsOfAll(elements) + [EndArray]
    case Object(fields) => [StartMap] + EventsOfFields(v, StringsInOrder(fields.Keys)) + [EndMap]
  }

  function EventsOfAll(vs: seq<Value>): seq<Event>
    decreases vs
  {
    if vs == [] then [] else Events(vs[0]) + EventsOfAll(vs[1..])
  }

  function EventsOfFields(v: Value, names: seq<string>): seq<Event>
    requires v.Object? && forall k :: k in names ==> k in v.fields
    decreases v, |names|
  {
    if names == [] then []
    else [MapKey(names[0])] + Events(v.fields[names[0]]) + EventsOfFields(v, names[1..])
  }

  // ---------------------------------------------------------------- the builder

  /** An open container: the elements so far, or the fields so far and the pending field name. */
  datatype Frame =
    | ArrayFrame(elements: seq<Value>)
    | ObjectFrame(fields: map<string, Value>, pending: Option<string>)

  /** The values handed to the callback and the open containers, innermost last. */
  datatype State = State(delivered: seq<Value>, frames: seq<Frame>)

  const INITIAL := State([], [])

  /** `std::map::emplace`: an existing entry wins. */
  function Emplace(fields: map<string, Value>, name: string, v: Value): map<string, Value> {
    if name in fields then fields else fields[name := v]
  }

  function AddToFrame(f: Frame, v: Value): Frame {
    match f
    case ArrayFrame(elements) => ArrayFrame(elements + [v])
    case ObjectFrame(fields, None) => f
    case ObjectFrame(fields, Some(name)) => ObjectFrame(Emplace(fields, name, v), None)
  }

  /** What adding one complete value to the innermost context means. */
  function Add(st: State, v: Value): State {
    if st.frames == [] then
      st.(delivered := st.delivered + [v])
    else
      var last := |st.frames| - 1;
      st.(frames := st.frames[..last] + [AddToFrame(st.frames[last], v)])
  }

  /** One callback; None when the handler returns 0 and the parse is cancelled. */
  function Step(st: State, e: Event): Option<State> {
    var last := |st.frames| - 1;
    match e
    case NullEvent => Some(Add(st, Null))
    case BoolEvent(b) => Some(Add(st, Boolean(b)))
    case IntegerEvent(i) => Some(Add(st, Num(Real(i as real))))
    case DoubleEvent(d) => Some(Add(st, Num(d)))
    case StringEvent(s) => Some(Add(st, Str(s)))
    case StartArray => Some(st.(frames := st.frames + [ArrayFrame([])]))
    case StartMap => Some(st.(frames := st.frames + [ObjectFrame(map[], None)]))
    case MapKey(name) =>
      if last >= 0 && st.frames[last].ObjectFrame? then
        Some(st.(frames := st.frames[..last] + [st.frames[last].(pending := Some(name))]))
      else None
    case EndArray =>
      if last >= 0 && st.frames[last].ArrayFrame? then
        Some(Add(st.(frames := st.frames[..last]), Array(st.frames[last].elements)))
      else None
    case EndMap =>
      if last >= 0 && st.frames[last].ObjectFrame? then
        Some(Add(st.(frames := st.frames[..last]), Object(st.frames[last].fields)))
      else None
  }

  function Run(st: State, es: seq<Event>): Option<State>
    decreases |es|
  {
    if es == [] then Some(st)
    else
      match Step(st, es[0])
      case None => None
      case Some(next) => Run(next, es[1..])
  }

  lemma {:induction false} RunConcat(st: State, a: seq<Event>, b: seq<Event>)
    ensures Run(st, a + b) == match Run(st, a) case None => None case Some(mid) => Run(mid, b)
    decreases |a|
  {
    if a == [] {
      assert a + b == b;
    } else {
      assert (a + b)[1..] == a[1..] + b;
      match Step(st, a[0])
      case None =>
      case Some(next) => RunConcat(next, a[1..], b);
    }
  }

  lemma RunThree(st: State, a: seq<Event>, b: seq<Event>, c: seq<Event>, s1: State, s2: State)
    requires Run(st, a) == Some(s1) && Run(s1, b) == Some(s2)
    ensures Run(st, a + b + c) == Run(s2, c)
  {
    RunConcat(st, a, b);
    RunConcat(st, a + b, c);
  }

  lemma RunOne(st: State, e: Event)
    ensures Run(st, [e]) == Step(st, e)
  {
    match Step(st, e)
    case None =>
    case Some(next) => assert [e][1..] == [] && Run(next, []) == Some(next);
  }

  // ---------------------------------------------------------------- round trip

  function EventsOfPairs(pairs: seq<(string, Value)>): seq<Event> {
    if pairs == [] then []
    else [MapKey(pairs[0].0)] + Events(pairs[0].1) + EventsOfPairs(pairs[1..])
  }

  function PairsOf(v: Value, names: seq<string>): seq<(string, Value)>
    requires v.Object? && forall k :: k in names ==> k in v.fields
  {
    seq(|names|, i requires 0 <= i < |names| => (names[i], v.fields[names[i]]))
  }

  lemma {:induction false} EventsOfFieldsArePairs(v: Value, names: seq<string>)
    requires v.Object? && forall k :: k in names ==> k in v.fields
    ensures EventsOfFields(v, names) == EventsOfPairs(PairsOf(v, names))
    decreases |names|
  {
    if names != [] {
      EventsOfFieldsArePairs(v, names[1..]);
      assert PairsOf(v, names)[1..] == PairsOf(v, names[1..]);
    }
  }

  /** `st` with one more open container. */
  function Inside(st: State, f: Frame): State {
    st.(frames := st.frames + [f])
  }

  lemma AddInside(st: State, f: Frame, v: Value)
    ensures Add(Inside(st, f), v) == Inside(st, AddToFrame(f, v))
  {
    assert Inside(st, f).frames[..|st.frames|] == st.frames;
  }

  /** The fields that result from offering the pairs in turn to `std::map::emplace`. */
  ghost function FirstWins(done: map<string, Value>, pairs: seq<(string, Value)>): map<string, Value>
    decreases |pairs|
  {
    if pairs == [] then done
    else FirstWins(Emplace(done, pairs[0].0, pairs[0].1), pairs[1..])
  }

  /** Position `i` is the first to offer its name. */
  ghost predicate OfferedFirst(pairs: seq<(string, Value)>, i: int) {
    0 <= i < |pairs| && forall j :: 0 <= j < i ==> pairs[j].0 != pairs[i].0
  }

  /** Every name offered is present, and carries what was offered for it first. */
  lemma {:induction false} FirstWinsKeepsFirst(done: map<string, Value>, pairs: seq<(string, Value)>)
    ensures FirstWins(done, pairs).Keys == done.Keys + set i | 0 <= i < |pairs| :: pairs[i].0
    ensures forall k :: k in done ==> FirstWins(done, pairs)[k] == done[k]
    ensures forall i :: OfferedFirst(pairs, i) && pairs[i].0 !in done ==>
      FirstWins(done, pairs)[pairs[i].0] == pairs[i].1
    decreases |pairs|
  {
    if pairs != [] {
      var next := Emplace(done, pairs[0].0, pairs[0].1);
      var rest := pairs[1..];
      FirstWinsKeepsFirst(next, rest);
      assert (set i | 0 <= i < |pairs| :: pairs[i].0) == {pairs[0].0} + set i | 0 <= i < |rest| :: rest[i].0
      by {
        forall i | 0 <= i < |pairs| ensures pairs[i].0 in {pairs[0].0} + set i | 0 <= i < |rest| :: rest[i].0 {
          if i > 0 { assert rest[i - 1] == pairs[i]; }
        }
      }
      forall i | OfferedFirst(pairs, i) && pairs[i].0 !in done
        ensures FirstWins(done, pairs)[pairs[i].0] == pairs[i].1
      {
        if i > 0 {
          assert pairs[0].0 != pairs[i].0;
          assert rest[i - 1] == pairs[i];
          forall j | 0 <= j < i - 1 ensures rest[j].0 != pairs[i].0 { assert rest[j] == pairs[j + 1]; }
          assert OfferedFirst(rest, i - 1);
        }
      }
    }
  }
}

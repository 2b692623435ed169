/**
  Which event sequences write a value, by the grammar of JSON texts and apart from the serialiser and
  the builder (src/json.cc): a number may arrive as an integer or as a double, whole or not, and an
  object may give its fields in any order and more than once.
 */
module JsonGrammar {
  import opened Wrappers
  import opened Ordering
  import opened Json

  ghost predicate Writes(es: seq<Event>, v: Value)
    decreases |es|, 0
  {
    match v
    case Null => es == [NullEvent]
    case Boolean(b) => es == [BoolEvent(b)]
    case Num(n) => |es| == 1 && (es[0] == DoubleEvent(n) || (es[0].IntegerEvent? && n == Real(es[0].i as real)))
    case Str(s) => es == [StringEvent(s)]
    case Array(elements) => Bracketed(es, StartArray, EndArray) && WritesAll(es[1..|es| - 1], elements)
    case Object(fields) =>
      && Bracketed(es, StartMap, EndMap)
      && exists pairs :: WritesPairs(es[1..|es| - 1], pairs) && FirstOf(pairs, fields)
  }

  predicate Bracketed(es: seq<Event>, open: Event, close: Event) {
    |es| >= 2 && es[0] == open && es[|es| - 1] == close
  }

  ghost predicate WritesAll(es: seq<Event>, vs: seq<Value>)
    decreases |es|, 1
  {
    if vs == [] then es == []
    else exists k :: 0 < k <= |es| && Writes(es[..k], vs[0]) && WritesAll(es[k..], vs[1..])
  }

  ghost predicate WritesPairs(es: seq<Event>, pairs: seq<(string, Value)>)
    decreases |es|, 1
  {
    if pairs == [] then es == []
    else
      && |es| > 0 && es[0] == MapKey(pairs[0].0)
      && exists k :: 1 < k <= |es| && Writes(es[1..k], pairs[0].1) && WritesPairs(es[k..], pairs[1..])
  }

  /** The fields have exactly the names of the pairs, each with the value of its first occurrence. */
  ghost predicate FirstOf(pairs: seq<(string, Value)>, fields: map<string, Value>) {
    && (forall name :: name in fields ==> exists i :: 0 <= i < |pairs| && pairs[i].0 == name)
    && (forall i :: 0 <= i < |pairs| ==> pairs[i].0 in fields)
    && (forall i :: OfferedFirst(pairs, i) ==> fields[pairs[i].0] == pairs[i].1)
  }

  lemma {:induction false} FindFirstOffer(pairs: seq<(string, Value)>, i: nat) returns (j: nat)
    requires i < |pairs|
    ensures j <= i && OfferedFirst(pairs, j) && pairs[j].0 == pairs[i].0
    decreases i
  {
    if k :| 0 <= k < i && pairs[k].0 == pairs[i].0 {
      j := FindFirstOffer(pairs, k);
    } else {
      j := i;
    }
  }

  lemma FirstOfIsFirstWins(pairs: seq<(string, Value)>, fields: map<string, Value>)
    requires FirstOf(pairs, fields)
    ensures FirstWins(map[], pairs) == fields
  {
    FirstWinsKeepsFirst(map[], pairs);
    var built := FirstWins(map[], pairs);
    forall name | name in fields ensures name in built && built[name] == fields[name] {
      var i :| 0 <= i < |pairs| && pairs[i].0 == name;
      var j := FindFirstOffer(pairs, i);
    }
  }

  // ---------------------------------------------------------------- the builder reads what is written

  /** Whatever writes a value, fed in any context, adds exactly that value there. */
  lemma {:induction false} RunWritten(st: State, es: seq<Event>, v: Value)
    requires Writes(es, v)
    ensures Run(st, es) == Some(Add(st, v))
    decreases |es|, 0
  {
    if v.Array? {
      RunWrittenAll(st, [], es[1..|es| - 1], v.elements);
      assert [] + v.elements == v.elements;
      RunBracketedArray(st, es, v.elements);
    } else if v.Object? {
      var pairs :| WritesPairs(es[1..|es| - 1], pairs) && FirstOf(pairs, v.fields);
      RunWrittenPairs(st, map[], es[1..|es| - 1], pairs);
      FirstOfIsFirstWins(pairs, v.fields);
      RunBracketedObject(st, es, v.fields);
    } else {
      assert es == [es[0]];
      RunOne(st, es[0]);
    }
  }

  lemma RunBracketedArray(st: State, es: seq<Event>, elements: seq<Value>)
    requires Bracketed(es, StartArray, EndArray)
    requires Run(Inside(st, ArrayFrame([])), es[1..|es| - 1]) == Some(Inside(st, ArrayFrame(elements)))
    ensures Run(st, es) == Some(Add(st, Array(elements)))
  {
    var filled := Inside(st, ArrayFrame(elements));
    assert es == [StartArray] + es[1..|es| - 1] + [EndArray];
    RunOne(st, StartArray);
    RunThree(st, [StartArray], es[1..|es| - 1], [EndArray], Inside(st, ArrayFrame([])), filled);
    RunOne(filled, EndArray);
    assert filled.frames[..|st.frames|] == st.frames;
  }

  lemma RunBracketedObject(st: State, es: seq<Event>, fields: map<string, Value>)
    requires Bracketed(es, StartMap, EndMap)
    requires Run(Inside(st, ObjectFrame(map[], None)), es[1..|es| - 1]) == Some(Inside(st, ObjectFrame(fields, None)))
    ensures Run(st, es) == Some(Add(st, Object(fields)))
  {
    var filled := Inside(st, ObjectFrame(fields, None));
    assert es == [StartMap] + es[1..|es| - 1] + [EndMap];
    RunOne(st, StartMap);
    RunThree(st, [StartMap], es[1..|es| - 1], [EndMap], Inside(st, ObjectFrame(map[], None)), filled);
    RunOne(filled, EndMap);
    assert filled.frames[..|st.frames|] == st.frames;
  }

  lemma {:induction false} RunWrittenAll(st: State, done: seq<Value>, es: seq<Event>, vs: seq<Value>)
    requires WritesAll(es, vs)
    ensures Run(Inside(st, ArrayFrame(done)), es) == Some(Inside(st, ArrayFrame(done + vs)))
    decreases |es|, 1
  {
    if vs == [] {
      assert done + vs == done;
    } else {
      var k :| 0 < k <= |es| && Writes(es[..k], vs[0]) && WritesAll(es[k..], vs[1..]);
      RunWritten(Inside(st, ArrayFrame(done)), es[..k], vs[0]);
      RunWrittenAll(st, done + [vs[0]], es[k..], vs[1..]);
      OneMoreElement(st, done, es, k, vs[0]);
      Regroup(done, vs);
    }
  }

  lemma Regroup(done: seq<Value>, vs: seq<Value>)
    requires vs != []
    ensures done + [vs[0]] + vs[1..] == done + vs
  {
  }

  lemma OneMoreElement(st: State, done: seq<Value>, es: seq<Event>, k: nat, v: Value)
    requires k <= |es|
    requires var here := Inside(st, ArrayFrame(done)); Run(here, es[..k]) == Some(Add(here, v))
    ensures Run(Inside(st, ArrayFrame(done)), es) == Run(Inside(st, ArrayFrame(done + [v])), es[k..])
  {
    AddInside(st, ArrayFrame(done), v);
    RunConcat(Inside(st, ArrayFrame(done)), es[..k], es[k..]);
    assert es == es[..k] + es[k..];
  }

  lemma {:induction false} RunWrittenPairs(st: State, done: map<string, Value>, es: seq<Event>,
                                           pairs: seq<(string, Value)>)
    requires WritesPairs(es, pairs)
    ensures Run(Inside(st, ObjectFrame(done, None)), es) == Some(Inside(st, ObjectFrame(FirstWins(done, pairs), None)))
    decreases |es|, 1
  {
    if pairs != [] {
      var k :| 1 < k <= |es| && Writes(es[1..k], pairs[0].1) && WritesPairs(es[k..], pairs[1..]);
      var (name, value) := pairs[0];
      RunWritten(Inside(st, ObjectFrame(done, Some(name))), es[1..k], value);
      RunWrittenPairs(st, Emplace(done, name, value), es[k..], pairs[1..]);
      OneMoreField(st, done, es, k, name, value);
    }
  }

  lemma OneMoreField(st: State, done: map<string, Value>, es: seq<Event>, k: nat, name: string, value: Value)
    requires 1 <= k <= |es| && es[0] == MapKey(name)
    requires var keyed := Inside(st, ObjectFrame(done, Some(name))); Run(keyed, es[1..k]) == Some(Add(keyed, value))
    ensures Run(Inside(st, ObjectFrame(done, None)), es)
         == Run(Inside(st, ObjectFrame(Emplace(done, name, value), None)), es[k..])
  {
    var here := Inside(st, ObjectFrame(done, None));
    var keyed := Inside(st, ObjectFrame(done, Some(name)));
    var next := Inside(st, ObjectFrame(Emplace(done, name, value), None));
    assert here.frames[..|st.frames|] == st.frames;
    RunOne(here, MapKey(name));
    AddInside(st, ObjectFrame(done, Some(name)), value);
    assert es == [MapKey(name)] + es[1..k] + es[k..];
    RunThree(here, [MapKey(name)], es[1..k], es[k..], keyed, next);
  }

  /** A written stream of values is delivered, in order. */
  lemma {:induction false} DeliversWritten(done: seq<Value>, es: seq<Event>, vs: seq<Value>)
    requires WritesAll(es, vs)
    ensures Run(State(done, []), es) == Some(State(done + vs, []))
    decreases |es|
  {
    if vs == [] {
      assert done + vs == done;
    } else {
      var k :| 0 < k <= |es| && Writes(es[..k], vs[0]) && WritesAll(es[k..], vs[1..]);
      RunWritten(State(done, []), es[..k], vs[0]);
      DeliversWritten(done + [vs[0]], es[k..], vs[1..]);
      Regroup(done, vs);
      assert Run(State(done, []), es) == Run(State(done + [vs[0]], []), es[k..]) by {
        RunConcat(State(done, []), es[..k], es[k..]);
        assert es == es[..k] + es[k..];
      }
    }
  }

  // ---------------------------------------------------------------- the serialiser writes

  /** An integer call exactly for the whole numbers of the 64-bit range, negative zero apart. */
  lemma NumberEventIs(n: Number)
    ensures forall i :: NumberEvent(n) == IntegerEvent(i) <==>
      n == Real(i as real) && -0x8000_0000_0000_0000 <= i <= 0x7fff_ffff_ffff_ffff
    ensures NumberEvent(n).IntegerEvent? || NumberEvent(n) == DoubleEvent(n)
  {
  }

  /** The serialisation of a value writes it. */
  lemma {:induction false} EventsWrite(v: Value)
    ensures Writes(Events(v), v)
    decreases v
  {
    match v
    case Null =>
    case Boolean(_) =>
    case Num(_) =>
    case Str(_) =>
    case Array(elements) =>
      AllEventsWrite(elements);
      var es := Events(v);
      assert es[1..|es| - 1] == EventsOfAll(elements);
    case Object(fields) =>
      var names := StringsInOrder(fields.Keys);
      var pairs := PairsOf(v, names);
      forall i | 0 <= i < |pairs| ensures pairs[i].1 < v {
        assert names[i] in fields && pairs[i].1 == fields[names[i]];
      }
      PairEventsWrite(pairs, v);
      EventsOfFieldsArePairs(v, names);
      var es := Events(v);
      assert es[1..|es| - 1] == EventsOfPairs(pairs);
      FieldsAreFirst(fields, names, pairs);
  }

  lemma FieldsAreFirst(fields: map<string, Value>, names: seq<string>, pairs: seq<(string, Value)>)
    requires forall k :: k in names <==> k in fields
    requires |pairs| == |names| && forall i :: 0 <= i < |names| ==> pairs[i] == (names[i], fields[names[i]])
    ensures FirstOf(pairs, fields)
  {
    forall name | name in fields ensures exists i :: 0 <= i < |pairs| && pairs[i].0 == name {
      assert name in names;
      var i :| 0 <= i < |names| && names[i] == name;
      assert pairs[i].0 == name;
    }
  }

  lemma {:induction false} AllEventsWrite(vs: seq<Value>)
    ensures WritesAll(EventsOfAll(vs), vs)
    decreases vs
  {
    if vs != [] {
      EventsWrite(vs[0]);
      AllEventsWrite(vs[1..]);
      var es, k := EventsOfAll(vs), |Events(vs[0])|;
      assert es[..k] == Events(vs[0]) && es[k..] == EventsOfAll(vs[1..]);
    }
  }

  lemma {:induction false} PairEventsWrite(pairs: seq<(string, Value)>, whole: Value)
    requires forall i :: 0 <= i < |pairs| ==> pairs[i].1 < whole
    ensures WritesPairs(EventsOfPairs(pairs), pairs)
    decreases whole, |pairs|
  {
    if pairs != [] {
      EventsWrite(pairs[0].1);
      PairEventsWrite(pairs[1..], whole);
      var es, k := EventsOfPairs(pairs), 1 + |Events(pairs[0].1)|;
      assert es[1..k] == Events(pairs[0].1) && es[k..] == EventsOfPairs(pairs[1..]);
    }
  }

  /** Feeding the serialisation of any value, in any context whatever, adds exactly that value there. */
  lemma BuildsValue(st: State, v: Value)
    ensures Run(st, Events(v)) == Some(Add(st, v))
  {
    EventsWrite(v);
    RunWritten(st, Events(v), v);
  }

  /** An object text may repeat a name: the builder accepts it and the first value stays. */
  lemma DuplicateNamesKeepFirst(st: State, pairs: seq<(string, Value)>, fields: map<string, Value>)
    requires FirstOf(pairs, fields)
    ensures Run(st, [StartMap] + EventsOfPairs(pairs) + [EndMap]) == Some(Add(st, Object(fields)))
  {
    var values := seq(|pairs|, i requires 0 <= i < |pairs| => pairs[i].1);
    forall i | 0 <= i < |pairs| ensures pairs[i].1 < Array(values) { assert values[i] < Array(values); }
    PairEventsWrite(pairs, Array(values));
    var es := [StartMap] + EventsOfPairs(pairs) + [EndMap];
    assert es[1..|es| - 1] == EventsOfPairs(pairs);
    RunWritten(st, es, Object(fields));
  }

  /** An object is written field by field, each once and by increasing name. */
  lemma SerialisedInOrder(fields: map<string, Value>) returns (pairs: seq<(string, Value)>)
    ensures Events(Object(fields)) == [StartMap] + EventsOfPairs(pairs) + [EndMap]
    ensures forall i, j :: 0 <= i < j < |pairs| ==> StringLess(pairs[i].0, pairs[j].0)
    ensures forall i :: 0 <= i < |pairs| ==> pairs[i].0 in fields && fields[pairs[i].0] == pairs[i].1
    ensures |pairs| == |fields|
  {
    var v, names := Object(fields), StringsInOrder(fields.Keys);
    pairs := PairsOf(v, names);
    assert Events(v) == [StartMap] + EventsOfPairs(pairs) + [EndMap] by { EventsOfFieldsArePairs(v, names); }
    StringsInOrderIncreasing(fields.Keys);
    forall i | 0 <= i < |pairs| ensures pairs[i].0 in fields && fields[pairs[i].0] == pairs[i].1 {
      assert names[i] in names;
    }
  }

  // ---------------------------------------------------------------- events that no text gives rise to

  /** A second name in a row replaces the first. */
  lemma NameIsReplaced(st: State, fields: map<string, Value>, pending: Option<string>, name: string)
    ensures Run(Inside(st, ObjectFrame(fields, pending)), [MapKey(name)])
         == Some(Inside(st, ObjectFrame(fields, Some(name))))
  {
    var here := Inside(st, ObjectFrame(fields, pending));
    RunOne(here, MapKey(name));
    assert here.frames[..|st.frames|] == st.frames;
  }

  /** A value in an object without a pending name is dropped. */
  lemma NamelessIsDropped(st: State, fields: map<string, Value>, es: seq<Event>, v: Value)
    requires Writes(es, v)
    ensures Run(Inside(st, ObjectFrame(fields, None)), es) == Some(Inside(st, ObjectFrame(fields, None)))
  {
    RunWritten(Inside(st, ObjectFrame(fields, None)), es, v);
    AddInside(st, ObjectFrame(fields, None), v);
  }

  /** Where an object is built, a key is the pending name and the next value its field, unless it has one. */
  lemma FieldIsStored(st: State, fields: map<string, Value>, name: string, es: seq<Event>, v: Value)
    requires Writes(es, v)
    ensures Run(Inside(st, ObjectFrame(fields, Some(name))), es)
         == Some(Inside(st, ObjectFrame(if name in fields then fields else fields[name := v], None)))
  {
    RunWritten(Inside(st, ObjectFrame(fields, Some(name))), es, v);
    AddInside(st, ObjectFrame(fields, Some(name)), v);
  }
}

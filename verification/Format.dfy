/**
  Template substitution (src/format.cc, `Substitute`): every `{{name}}` is replaced by the value of
  the parameter, left to right, and values are not scanned again.
 */
module Format {

  datatype Outcome =
    | Text(value: string)
    | Unterminated(at: nat)
    | UnknownParameter(name: string, at: nat)

  type Params = map<string, string>

  /** The delimiters are a brace twice over. */
  predicate Doubled(s: string, c: char, i: int) {
    0 <= i < |s| - 1 && s[i] == c && s[i + 1] == c
  }

  /** `std::string::find` for a delimiter; -1 is `npos`. */
  function Find(s: string, c: char, from: nat): (r: int)
    ensures r == -1 || from <= r < |s| - 1
    decreases |s| - from
  {
    if from >= |s| then -1
    else if Doubled(s, c, from) then from
    else Find(s, c, from + 1)
  }

  lemma {:induction false} FindFirst(s: string, c: char, from: nat)
    ensures Find(s, c, from) != -1 ==> Doubled(s, c, Find(s, c, from))
    ensures forall j :: from <= j < (if Find(s, c, from) == -1 then |s| else Find(s, c, from)) ==> !Doubled(s, c, j)
    decreases |s| - from
  {
    if from < |s| && !Doubled(s, c, from) { FindFirst(s, c, from + 1); }
  }

  lemma FindIs(s: string, c: char, from: nat, r: nat)
    requires from <= r && Doubled(s, c, r) && forall j :: from <= j < r ==> !Doubled(s, c, j)
    ensures Find(s, c, from) == r
  {
    FindFirst(s, c, from);
  }

  /** Substitution in the template from position `pos` on, with `result` already written. */
  function SubstFrom(f: string, pos: nat, params: Params, result: string): Outcome
    requires pos <= |f|
    decreases |f| - pos
  {
    var brace := Find(f, '{', pos);
    if brace == -1 then Text(result + f[pos..])
    else
      var close := Find(f, '}', brace + 2);
      if close == -1 then Unterminated(brace)
      else
        var name := f[brace + 2..close];
        if name !in params then UnknownParameter(name, pos)
        else SubstFrom(f, close + 2, params, result + f[pos..brace] + params[name])
  }

  method Substitute(format: string, params: Params) returns (r: Outcome)
    ensures r == SubstFrom(format, 0, params, "")
  {
    var result := "";
    var pos := 0;
    var brace := Find(format, '{', pos);
    while brace != -1
      invariant 0 <= pos <= |format|
      invariant brace == Find(format, '{', pos)
      invariant SubstFrom(format, pos, params, result) == SubstFrom(format, 0, params, "")
      decreases |format| - pos
    {
      var open := brace + 2;
      var close := Find(format, '}', open);
      if close == -1 {
        return Unterminated(brace);
      }
      var param := format[open..close];
      if param !in params {
        return UnknownParameter(param, pos);
      }
      result := result + format[pos..brace];
      result := result + params[param];
      pos := close + 2;
      brace := Find(format, '{', pos);
    }
    r := Text(result + format[pos..]);
  }

  // ---------------------------------------------------------------- templates as token lists

  datatype Token = Literal(text: string) | Placeholder(name: string)

  function PrintToken(t: Token): string {
    match t case Literal(text) => text case Placeholder(name) => "{{" + name + "}}"
  }

  function Print(tokens: seq<Token>): string {
    if tokens == [] then "" else PrintToken(tokens[0]) + Print(tokens[1..])
  }

  ghost predicate Without(s: string, c: char) {
    forall i :: !Doubled(s, c, i)
  }

  /** No delimiter inside, and none completed by a brace that follows. */
  ghost predicate BraceSafe(s: string, c: char) {
    Without(s, c) && (s != "" ==> s[|s| - 1] != c)
  }

  ghost predicate SafeToken(t: Token) {
    match t case Literal(text) => BraceSafe(text, '{') case Placeholder(name) => BraceSafe(name, '}')
  }

  ghost predicate Safe(tokens: seq<Token>) {
    forall i :: 0 <= i < |tokens| ==> SafeAt(tokens, i)
  }

  ghost predicate SafeAt(tokens: seq<Token>, i: int)
    requires 0 <= i < |tokens|
  {
    SafeToken(tokens[i])
  }

  /** What the tokens stand for, or the first name without a value. */
  datatype Rendering = Rendered(value: string) | Missing(name: string)

  function ValueOf(t: Token, params: Params): string
    requires t.Placeholder? ==> t.name in params
  {
    match t case Literal(text) => text case Placeholder(name) => params[name]
  }

  function Render(tokens: seq<Token>, params: Params): Rendering {
    if tokens == [] then Rendered("")
    else if tokens[0].Placeholder? && tokens[0].name !in params then Missing(tokens[0].name)
    else
      var head := ValueOf(tokens[0], params);
      match Render(tokens[1..], params)
      case Rendered(rest) => Rendered(head + rest)
      case missing => missing
  }

  /** The outcome of a substitution, its position aside, with `result` written before. */
  ghost predicate Agrees(o: Outcome, result: string, r: Rendering) {
    match r
    case Rendered(value) => o == Text(result + value)
    case Missing(name) => o.UnknownParameter? && o.name == name
  }

  /** The same outcome, but the position of an unknown name may be reported differently. */
  ghost predicate SameOutcome(a: Outcome, b: Outcome) {
    a == b || (a.UnknownParameter? && b.UnknownParameter? && a.name == b.name)
  }

  lemma {:induction false} FindSkips(s: string, c: char, from: nat, end: nat)
    requires from <= end <= |s| && forall j :: from <= j < end ==> !Doubled(s, c, j)
    ensures Find(s, c, from) == Find(s, c, end)
    decreases end - from
  {
    if from < end { FindSkips(s, c, from + 1, end); }
  }

  ghost predicate UnknownAt(o: Outcome, at: nat) { o.UnknownParameter? && o.at == at }

  /** Text in which no placeholder starts passes through; only the position of an unknown name may tell. */
  lemma SkipText(f: string, pos: nat, end: nat, params: Params, result: string)
    requires pos <= end <= |f| && forall j :: pos <= j < end ==> !Doubled(f, '{', j)
    ensures SameOutcome(SubstFrom(f, pos, params, result), SubstFrom(f, end, params, result + f[pos..end]))
    ensures SubstFrom(f, pos, params, result) == SubstFrom(f, end, params, result + f[pos..end])
         || UnknownAt(SubstFrom(f, end, params, result + f[pos..end]), end)
  {
    FindSkips(f, '{', pos, end);
    var brace := Find(f, '{', end);
    if brace == -1 {
      assert result + f[pos..] == result + f[pos..end] + f[end..];
    } else {
      assert result + f[pos..brace] == result + f[pos..end] + f[end..brace];
    }
  }

  /** A placeholder is replaced, and its value is not looked at again. */
  lemma ReplacePlaceholder(f: string, pos: nat, name: string, params: Params, result: string)
    requires BraceSafe(name, '}')
    requires pos + |name| + 4 <= |f| && f[pos..pos + |name| + 4] == "{{" + name + "}}"
    ensures SubstFrom(f, pos, params, result) ==
      if name !in params then UnknownParameter(name, pos)
      else SubstFrom(f, pos + |name| + 4, params, result + params[name])
  {
    PlaceholderFound(f, pos, name);
    assert result + f[pos..pos] == result;
  }

  lemma PlaceholderFound(f: string, pos: nat, name: string)
    requires BraceSafe(name, '}')
    requires pos + |name| + 4 <= |f| && f[pos..pos + |name| + 4] == "{{" + name + "}}"
    ensures Find(f, '{', pos) == pos
    ensures Find(f, '}', pos + 2) == pos + |name| + 2
    ensures f[pos + 2..pos + |name| + 2] == name
  {
    PlaceholderChars(f, pos, name);
    FindIs(f, '{', pos, pos);
    SafeInside(f, pos + 2, name, '}');
    FindIs(f, '}', pos + 2, pos + |name| + 2);
  }

  lemma PlaceholderChars(f: string, pos: nat, name: string)
    requires pos + |name| + 4 <= |f| && f[pos..pos + |name| + 4] == "{{" + name + "}}"
    ensures Doubled(f, '{', pos) && Doubled(f, '}', pos + |name| + 2) && f[pos + 2..pos + |name| + 2] == name
  {
    var t, n := "{{" + name + "}}", |name|;
    assert t[0] == t[1] == '{' && t[n + 2] == t[n + 3] == '}' && t[2..n + 2] == name;
    forall i | 0 <= i < n + 4 ensures f[pos + i] == t[i] { assert f[pos..pos + n + 4][i] == t[i]; }
    assert f[pos + 0] == t[0] && f[pos + 1] == t[1] && f[pos + (n + 2)] == t[n + 2] && f[pos + (n + 3)] == t[n + 3];
    forall i | 0 <= i < n ensures f[pos + 2..pos + n + 2][i] == name[i] { assert f[pos + (2 + i)] == t[2 + i]; }
  }

  /** Where the tokens of a template begin and end: `tokens[i]` stands between `cuts[i]` and `cuts[i + 1]`. */
  ghost predicate Cuts(f: string, cuts: seq<nat>, tokens: seq<Token>) {
    && |cuts| == |tokens| + 1
    && forall i :: 0 <= i < |tokens| ==> PieceAt(f, cuts, tokens, i)
  }

  ghost predicate PieceAt(f: string, cuts: seq<nat>, tokens: seq<Token>, i: int)
    requires |cuts| == |tokens| + 1 && 0 <= i < |tokens|
  {
    IsPiece(f, cuts[i], cuts[i + 1], tokens[i])
  }

  ghost predicate IsPiece(f: string, from: nat, end: nat, t: Token) {
    from <= end <= |f| && f[from..end] == PrintToken(t)
  }

  lemma CutSlice(f: string, pos: nat, end: nat, a: string, b: string) returns (mid: nat)
    requires pos <= end <= |f| && f[pos..end] == a + b
    ensures pos <= mid <= end && f[pos..mid] == a && f[mid..end] == b
  {
    mid := pos + |a|;
    var w := f[pos..end];
    assert |w| == |a| + |b| && w[..|a|] == a && w[|a|..] == b;
    assert f[pos..pos + |a|] == w[..|a|] && f[pos + |a|..end] == w[|a|..];
  }

  lemma {:induction false} FindCuts(f: string, pos: nat, end: nat, tokens: seq<Token>) returns (cuts: seq<nat>)
    requires pos <= end <= |f| && f[pos..end] == Print(tokens)
    ensures Cuts(f, cuts, tokens) && cuts[0] == pos && cuts[|tokens|] == end
    decreases |tokens|
  {
    if tokens == [] {
      cuts := [pos];
    } else {
      var head, rest := tokens[0], tokens[1..];
      var mid := CutSlice(f, pos, end, PrintToken(head), Print(rest));
      var later := FindCuts(f, mid, end, rest);
      cuts := [pos] + later;
      PrependCut(f, pos, later, head, rest);
      assert tokens == [head] + rest;
    }
  }

  lemma PrependCut(f: string, pos: nat, cuts: seq<nat>, head: Token, rest: seq<Token>)
    requires Cuts(f, cuts, rest) && IsPiece(f, pos, cuts[0], head)
    ensures Cuts(f, [pos] + cuts, [head] + rest)
  {
    forall i | 0 <= i < |rest| + 1 ensures PieceAt(f, [pos] + cuts, [head] + rest, i) {
      if i > 0 { assert PieceAt(f, cuts, rest, i - 1); }
    }
  }

  lemma RenderAt(tokens: seq<Token>, i: nat)
    requires i < |tokens|
    ensures tokens[i..] != [] && tokens[i..][0] == tokens[i] && tokens[i..][1..] == tokens[i + 1..]
  {
  }

  /** Substitution inverts printing, for every list of brace-safe tokens. */
  lemma SubstituteOfPrint(tokens: seq<Token>, params: Params)
    requires Safe(tokens)
    ensures Agrees(SubstFrom(Print(tokens), 0, params, ""), "", Render(tokens, params))
  {
    var f := Print(tokens);
    assert f[0..|f|] == f;
    var cuts := FindCuts(f, 0, |f|, tokens);
    SubstituteCuts(f, cuts, tokens, 0, params, "");
    assert tokens[0..] == tokens;
  }

  lemma {:induction false} SubstituteCuts(f: string, cuts: seq<nat>, tokens: seq<Token>, i: nat, params: Params,
                                          result: string)
    requires Safe(tokens) && Cuts(f, cuts, tokens) && cuts[|tokens|] == |f| && i <= |tokens|
    ensures cuts[i] <= |f| && Agrees(SubstFrom(f, cuts[i], params, result), result, Render(tokens[i..], params))
    decreases |tokens| - i
  {
    if i == |tokens| {
      assert tokens[i..] == [] && f[|f|..] == "" && result + "" == result;
    } else {
      var t := tokens[i];
      assert PieceAt(f, cuts, tokens, i) && SafeAt(tokens, i);
      if t.Literal? || t.name in params {
        SubstituteCuts(f, cuts, tokens, i + 1, params, result + ValueOf(t, params));
      }
      RenderAt(tokens, i);
      SubstituteHead(f, cuts[i], cuts[i + 1], tokens[i..], params, result);
    }
  }

  lemma SubstituteHead(f: string, pos: nat, end: nat, tokens: seq<Token>, params: Params, result: string)
    requires tokens != [] && SafeToken(tokens[0]) && IsPiece(f, pos, end, tokens[0])
    requires tokens[0].Literal? || tokens[0].name in params ==>
      Agrees(SubstFrom(f, end, params, result + ValueOf(tokens[0], params)),
             result + ValueOf(tokens[0], params), Render(tokens[1..], params))
    ensures Agrees(SubstFrom(f, pos, params, result), result, Render(tokens, params))
  {
    var t := tokens[0];
    if t.Literal? || t.name in params {
      ReadToken(f, pos, end, t, params, result);
      RenderHead(tokens, params, SubstFrom(f, pos, params, result),
                 SubstFrom(f, end, params, result + ValueOf(t, params)), result);
    } else {
      ReplacePlaceholder(f, pos, t.name, params, result);
    }
  }

  lemma RenderHead(tokens: seq<Token>, params: Params, o: Outcome, o': Outcome, result: string)
    requires tokens != [] && (tokens[0].Placeholder? ==> tokens[0].name in params) && SameOutcome(o, o')
    requires Agrees(o', result + ValueOf(tokens[0], params), Render(tokens[1..], params))
    ensures Agrees(o, result, Render(tokens, params))
  {
    var r := Render(tokens[1..], params);
    if r.Rendered? { Associative(result, ValueOf(tokens[0], params), r.value); }
  }

  /** A token of known value takes the substitution to where it ends. */
  lemma ReadToken(f: string, pos: nat, end: nat, t: Token, params: Params, result: string)
    requires IsPiece(f, pos, end, t) && SafeToken(t) && (t.Placeholder? ==> t.name in params)
    ensures SameOutcome(SubstFrom(f, pos, params, result), SubstFrom(f, end, params, result + ValueOf(t, params)))
    ensures SubstFrom(f, pos, params, result) == SubstFrom(f, end, params, result + ValueOf(t, params))
         || (t.Literal? && UnknownAt(SubstFrom(f, end, params, result + ValueOf(t, params)), end))
  {
    match t
    case Literal(text) =>
      SafeInside(f, pos, text, '{');
      SkipText(f, pos, end, params, result);
    case Placeholder(name) =>
      ReplacePlaceholder(f, pos, name, params, result);
  }

  lemma SafeInside(f: string, pos: nat, text: string, c: char)
    requires BraceSafe(text, c) && pos + |text| <= |f| && f[pos..pos + |text|] == text
    ensures forall j :: pos <= j < pos + |text| ==> !Doubled(f, c, j)
  {
    forall j | pos <= j < pos + |text| ensures !Doubled(f, c, j) {
      assert !Doubled(text, c, j - pos);
      assert f[j] == text[j - pos];
      if j + 1 < pos + |text| { assert f[j + 1] == text[j + 1 - pos]; }
    }
  }

  // ---------------------------------------------------------------- every template

  /** The template up to `pos` consists of brace-safe tokens whose names are all known, and `value` is their text. */
  ghost predicate IsRead(f: string, cuts: seq<nat>, tokens: seq<Token>, params: Params, pos: nat, value: string) {
    && Cuts(f, cuts, tokens) && cuts[0] == 0 && cuts[|tokens|] == pos <= |f|
    && Safe(tokens) && Render(tokens, params) == Rendered(value)
  }

  predicate EndsInPlaceholder(tokens: seq<Token>) {
    tokens == [] || tokens[|tokens| - 1].Placeholder?
  }

  /** A placeholder starts at `brace`, the first from `pos` on, and is never closed. */
  ghost predicate LeftOpen(f: string, pos: nat, brace: nat) {
    && pos <= brace < |f| - 1 && BraceSafe(f[pos..brace], '{') && Doubled(f, '{', brace)
    && Without(f[brace + 2..], '}')
  }

  /** The first placeholder from `pos` on starts at `brace` and holds `name`. */
  ghost predicate Holds(f: string, pos: nat, brace: nat, name: string) {
    && pos <= brace && brace + |name| + 4 <= |f| && BraceSafe(f[pos..brace], '{') && Doubled(f, '{', brace)
    && name == f[brace + 2..brace + 2 + |name|] && BraceSafe(name, '}') && Doubled(f, '}', brace + 2 + |name|)
  }

  /** The outcome told without the code: which templates succeed, with what, and which fail, where. */
  ghost predicate Explained(f: string, o: Outcome, params: Params) {
    exists cuts, tokens, pos: nat, value, brace: nat :: Explains(f, o, params, cuts, tokens, pos, value, brace)
  }

  ghost predicate Explains(f: string, o: Outcome, params: Params,
                           cuts: seq<nat>, tokens: seq<Token>, pos: nat, value: string, brace: nat) {
    && IsRead(f, cuts, tokens, params, pos, value) && EndsInPlaceholder(tokens)
    && Ends(f, o, params, pos, value, brace)
  }

  /** What the rest of the template from `pos` on must look like for the outcome. */
  ghost predicate Ends(f: string, o: Outcome, params: Params, pos: nat, value: string, brace: nat)
    requires pos <= |f|
  {
    match o
    case Text(all) => Without(f[pos..], '{') && all == value + f[pos..]
    case Unterminated(at) => at == brace && LeftOpen(f, pos, brace)
    case UnknownParameter(name, at) => at == pos && Holds(f, pos, brace, name) && name !in params
  }

  /** What lies between `from` and the delimiter that `Find` found. */
  lemma SafeBefore(s: string, c: char, from: nat)
    requires from <= |s|
    ensures var r := Find(s, c, from);
      if r == -1 then Without(s[from..], c) else BraceSafe(s[from..r], c) && s[r] == c && s[r + 1] == c
  {
    FindFirst(s, c, from);
    var r := Find(s, c, from);
    if r != -1 {
      forall i ensures !Doubled(s[from..r], c, i) {
        if 0 <= i < r - from - 1 { assert !Doubled(s, c, from + i); }
      }
      if from < r { assert !Doubled(s, c, r - 1); }
    } else {
      forall i ensures !Doubled(s[from..], c, i) {
        if 0 <= i < |s| - from - 1 { assert !Doubled(s, c, from + i); }
      }
    }
  }

  lemma Associative(a: string, b: string, c: string)
    ensures a + (b + c) == a + b + c
  {
  }

  lemma {:induction false} RenderSnoc(tokens: seq<Token>, t: Token, params: Params)
    requires Render(tokens, params).Rendered? && (t.Placeholder? ==> t.name in params)
    ensures Render(tokens + [t], params) == Rendered(Render(tokens, params).value + ValueOf(t, params))
    decreases |tokens|
  {
    if tokens == [] {
      assert tokens + [t] == [t];
    } else {
      RenderSnoc(tokens[1..], t, params);
      assert (tokens + [t])[1..] == tokens[1..] + [t];
    }
  }

  /** The tokens read so far and one more. */
  lemma ReadOne(f: string, cuts: seq<nat>, tokens: seq<Token>, params: Params, pos: nat, value: string,
                t: Token, end: nat)
    requires IsRead(f, cuts, tokens, params, pos, value) && IsPiece(f, pos, end, t)
    requires SafeToken(t) && (t.Placeholder? ==> t.name in params)
    ensures IsRead(f, cuts + [end], tokens + [t], params, end, value + ValueOf(t, params))
  {
    RenderSnoc(tokens, t, params);
    var cuts', tokens' := cuts + [end], tokens + [t];
    forall i | 0 <= i < |tokens'| ensures PieceAt(f, cuts', tokens', i) && SafeAt(tokens', i) {
      if i < |tokens| { assert PieceAt(f, cuts, tokens, i) && SafeAt(tokens, i); }
    }
  }

  lemma PlaceholderPiece(f: string, brace: nat, close: nat)
    requires brace + 2 <= close && Doubled(f, '{', brace) && Doubled(f, '}', close)
    ensures IsPiece(f, brace, close + 2, Placeholder(f[brace + 2..close]))
  {
    var slice, t := f[brace..close + 2], "{{" + f[brace + 2..close] + "}}";
    assert |slice| == |t|;
    forall i | 0 <= i < |slice| ensures slice[i] == t[i] {
      assert slice[i] == f[brace + i];
    }
  }

  /** Past a known placeholder there are two more tokens. */
  lemma MoreTokens(f: string, cuts: seq<nat>, tokens: seq<Token>, params: Params, pos: nat, value: string,
                   brace: nat, close: nat)
    returns (cuts': seq<nat>, tokens': seq<Token>)
    requires IsRead(f, cuts, tokens, params, pos, value)
    requires brace == Find(f, '{', pos) && close == Find(f, '}', brace + 2) && f[brace + 2..close] in params
    ensures IsRead(f, cuts', tokens', params, close + 2, value + f[pos..brace] + params[f[brace + 2..close]])
    ensures EndsInPlaceholder(tokens')
  {
    var text, name := f[pos..brace], f[brace + 2..close];
    SafeBefore(f, '{', pos);
    SafeBefore(f, '}', brace + 2);
    ReadOne(f, cuts, tokens, params, pos, value, Literal(text), brace);
    PlaceholderPiece(f, brace, close);
    cuts', tokens' := cuts + [brace] + [close + 2], tokens + [Literal(text)] + [Placeholder(name)];
    ReadOne(f, cuts + [brace], tokens + [Literal(text)], params, brace, value + text, Placeholder(name), close + 2);
  }

  /** Where the scan stops, the outcome is explained. */
  lemma ExplainStop(f: string, cuts: seq<nat>, tokens: seq<Token>, params: Params, pos: nat, value: string)
    requires IsRead(f, cuts, tokens, params, pos, value) && EndsInPlaceholder(tokens)
    requires var brace := Find(f, '{', pos);
      brace != -1 && Find(f, '}', brace + 2) != -1 ==> f[brace + 2..Find(f, '}', brace + 2)] !in params
    ensures Explained(f, SubstFrom(f, pos, params, value), params)
  {
    var o, brace := SubstFrom(f, pos, params, value), Find(f, '{', pos);
    SafeBefore(f, '{', pos);
    if brace == -1 {
      assert Explains(f, o, params, cuts, tokens, pos, value, 0);
    } else {
      SafeBefore(f, '}', brace + 2);
      assert Explains(f, o, params, cuts, tokens, pos, value, brace);
    }
  }

  lemma {:induction false} ExplainFrom(f: string, cuts: seq<nat>, tokens: seq<Token>, params: Params, pos: nat,
                                       value: string, o: Outcome)
    requires IsRead(f, cuts, tokens, params, pos, value) && EndsInPlaceholder(tokens)
    requires o == SubstFrom(f, pos, params, value)
    ensures Explained(f, o, params)
    decreases |f| - pos
  {
    var brace := Find(f, '{', pos);
    var close := if brace == -1 then -1 else Find(f, '}', brace + 2);
    if close != -1 && f[brace + 2..close] in params {
      var longer := value + f[pos..brace] + params[f[brace + 2..close]];
      assert o == SubstFrom(f, close + 2, params, longer);
      var cuts', tokens' := MoreTokens(f, cuts, tokens, params, pos, value, brace, close);
      ExplainFrom(f, cuts', tokens', params, close + 2, longer, o);
    } else {
      ExplainStop(f, cuts, tokens, params, pos, value);
    }
  }

  /**
    Every template has an outcome explained by the tokens it starts with: a value when no
    placeholder is left open or unknown, otherwise the first that is.
   */
  lemma SubstituteExplained(f: string, params: Params)
    ensures Explained(f, SubstFrom(f, 0, params, ""), params)
  {
    assert IsRead(f, [0], [], params, 0, "");
    ExplainFrom(f, [0], [], params, 0, "", SubstFrom(f, 0, params, ""));
  }

  lemma {:induction false} UnknownNotBefore(f: string, pos: nat, params: Params, result: string)
    requires pos <= |f| && SubstFrom(f, pos, params, result).UnknownParameter?
    ensures pos <= SubstFrom(f, pos, params, result).at
    decreases |f| - pos
  {
    var brace := Find(f, '{', pos);
    var close := Find(f, '}', brace + 2);
    var name := f[brace + 2..close];
    if name in params { UnknownNotBefore(f, close + 2, params, result + f[pos..brace] + params[name]); }
  }

  lemma {:induction false} CutsGrow(f: string, cuts: seq<nat>, tokens: seq<Token>, i: nat)
    requires Cuts(f, cuts, tokens) && i < |tokens| && EndsInPlaceholder(tokens)
    ensures cuts[i] < cuts[|tokens|]
    decreases |tokens| - i
  {
    assert PieceAt(f, cuts, tokens, i);
    if i + 1 < |tokens| { CutsGrow(f, cuts, tokens, i + 1); }
  }

  /** Reading safe, known tokens up to a placeholder takes the substitution to where they end. */
  lemma {:induction false} ReadCuts(f: string, cuts: seq<nat>, tokens: seq<Token>, i: nat, params: Params,
                                    result: string)
    requires Safe(tokens) && Cuts(f, cuts, tokens) && cuts[|tokens|] <= |f| && i <= |tokens|
    requires Render(tokens[i..], params).Rendered? && EndsInPlaceholder(tokens)
    ensures cuts[i] <= |f|
    ensures SubstFrom(f, cuts[i], params, result)
         == SubstFrom(f, cuts[|tokens|], params, result + Render(tokens[i..], params).value)
    decreases |tokens| - i
  {
    if i == |tokens| {
      assert tokens[i..] == [] && result + "" == result;
    } else {
      var t := tokens[i];
      assert PieceAt(f, cuts, tokens, i) && SafeAt(tokens, i);
      RenderAt(tokens, i);
      var next, rest := result + ValueOf(t, params), Render(tokens[i + 1..], params).value;
      ReadCuts(f, cuts, tokens, i + 1, params, next);
      Associative(result, ValueOf(t, params), rest);
      ReadToken(f, cuts[i], cuts[i + 1], t, params, result);
      if t.Literal? { NotUnknownThere(f, cuts, tokens, i + 1, params, next + rest); }
    }
  }

  /** What lies past a placeholder is not reported before it. */
  lemma NotUnknownThere(f: string, cuts: seq<nat>, tokens: seq<Token>, i: nat, params: Params, result: string)
    requires Cuts(f, cuts, tokens) && cuts[|tokens|] <= |f| && i < |tokens| && EndsInPlaceholder(tokens)
    ensures !UnknownAt(SubstFrom(f, cuts[|tokens|], params, result), cuts[i])
  {
    CutsGrow(f, cuts, tokens, i);
    if SubstFrom(f, cuts[|tokens|], params, result).UnknownParameter? {
      UnknownNotBefore(f, cuts[|tokens|], params, result);
    }
  }

  lemma OpenFound(f: string, pos: nat, params: Params, result: string, brace: nat)
    requires pos <= brace && Doubled(f, '{', brace) && forall j :: pos <= j < brace ==> !Doubled(f, '{', j)
    requires Without(f[brace + 2..], '}')
    ensures SubstFrom(f, pos, params, result) == Unterminated(brace)
  {
    FindIs(f, '{', pos, brace);
    forall j | brace + 2 <= j < |f| ensures !Doubled(f, '}', j) { assert !Doubled(f[brace + 2..], '}', j - brace - 2); }
    FindSkips(f, '}', brace + 2, |f|);
  }

  lemma UnknownFound(f: string, pos: nat, params: Params, result: string, brace: nat, name: string)
    requires pos <= brace && brace + |name| + 4 <= |f| && name == f[brace + 2..brace + 2 + |name|] && name !in params
    requires Doubled(f, '{', brace) && forall j :: pos <= j < brace ==> !Doubled(f, '{', j)
    requires Doubled(f, '}', brace + 2 + |name|)
    requires forall j :: brace + 2 <= j < brace + 2 + |name| ==> !Doubled(f, '}', j)
    ensures SubstFrom(f, pos, params, result) == UnknownParameter(name, pos)
  {
    FindIs(f, '{', pos, brace);
    FindIs(f, '}', brace + 2, brace + 2 + |name|);
  }

  /** What follows the tokens determines how the substitution ends from there. */
  lemma EndDecides(f: string, o: Outcome, params: Params, pos: nat, value: string, brace: nat)
    requires pos <= |f| && Ends(f, o, params, pos, value, brace)
    ensures SubstFrom(f, pos, params, value) == o
  {
    match o
    case Text(_) =>
      forall j | pos <= j < |f| ensures !Doubled(f, '{', j) { assert !Doubled(f[pos..], '{', j - pos); }
      FindSkips(f, '{', pos, |f|);
    case Unterminated(_) =>
      SafeInside(f, pos, f[pos..brace], '{');
      OpenFound(f, pos, params, value, brace);
    case UnknownParameter(name, _) =>
      SafeInside(f, pos, f[pos..brace], '{');
      SafeInside(f, brace + 2, name, '}');
      UnknownFound(f, pos, params, value, brace, name);
  }

  /** The explanation is the only one: it determines the outcome. */
  lemma ExplanationDecides(f: string, o: Outcome, params: Params)
    requires Explained(f, o, params)
    ensures SubstFrom(f, 0, params, "") == o
  {
    var cuts, tokens, pos: nat, value, brace: nat :| Explains(f, o, params, cuts, tokens, pos, value, brace);
    assert tokens[0..] == tokens && "" + value == value;
    ReadCuts(f, cuts, tokens, 0, params, "");
    EndDecides(f, o, params, pos, value, brace);
  }

  // ---------------------------------------------------------------- where an unknown name is reported

  /** A replaced placeholder ends at `at`, or nothing has been replaced yet. */
  ghost predicate AfterReplaced(f: string, at: nat, params: Params) {
    at == 0 || exists brace: nat, name :: name in params && IsPiece(f, brace, at, Placeholder(name))
  }

  /**
    An unknown name is reported at the end of the placeholder replaced before it, or at the start; that
    is the position of its own brace exactly when no text lies in between.
   */
  lemma UnknownIsReportedAt(f: string, params: Params, name: string, at: nat)
    requires SubstFrom(f, 0, params, "") == UnknownParameter(name, at)
    ensures AfterReplaced(f, at, params) && name !in params
    ensures exists brace: nat :: Holds(f, at, brace, name) && (at == brace <==> Doubled(f, '{', at))
  {
    SubstituteExplained(f, params);
    var o := UnknownParameter(name, at);
    var cuts, tokens, pos: nat, value, brace: nat :| Explains(f, o, params, cuts, tokens, pos, value, brace);
    LastReplaced(f, cuts, tokens, params, pos, value);
    assert Holds(f, at, brace, name);
    if at < brace { SafeInside(f, at, f[at..brace], '{'); }
  }

  lemma LastReplaced(f: string, cuts: seq<nat>, tokens: seq<Token>, params: Params, pos: nat, value: string)
    requires IsRead(f, cuts, tokens, params, pos, value) && EndsInPlaceholder(tokens)
    ensures AfterReplaced(f, pos, params)
  {
    if tokens != [] {
      var n := |tokens| - 1;
      assert PieceAt(f, cuts, tokens, n);
      AllKnown(tokens, params, n);
    }
  }

  lemma {:induction false} AllKnown(tokens: seq<Token>, params: Params, i: nat)
    requires Render(tokens, params).Rendered? && i < |tokens| && tokens[i].Placeholder?
    ensures tokens[i].name in params
    decreases |tokens|
  {
    if i > 0 { AllKnown(tokens[1..], params, i - 1); }
  }

  /** Text before an unknown placeholder moves its own brace, but not the position reported. */
  lemma ReportedTooEarly(text: string, name: string, params: Params)
    requires text != "" && BraceSafe(text, '{') && BraceSafe(name, '}') && name !in params
    ensures SubstFrom(text + "{{" + name + "}}", 0, params, "") == UnknownParameter(name, 0)
  {
    var f := text + "{{" + name + "}}";
    assert Holds(f, 0, |text|, name) by {
      assert f[0..|text|] == text && f[|text| + 2..|text| + 2 + |name|] == name;
    }
    EndDecides(f, UnknownParameter(name, 0), params, 0, "", |text|);
  }
}

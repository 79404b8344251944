/** The `vllm serve` commands of the documentation linter, parsed from their tokens. */
module ServeCommand {
  import opened Lists
  import opened Text

  datatype Failure = NotAServeCommand | NoModel | ExtraPositional | DuplicatedParameter

  datatype Result<+T> = Ok(value: T) | Err(failure: Failure)

  datatype Parameter = Parameter(name: string, value: Option<string>)

  datatype Command = Command(model: string, parameters: seq<Parameter>)

  // ----- parsing

  predicate IsOption(token: string) {
    "--" <= token
  }

  /** The parameters from position `i` on, given the names seen so far. */
  function ParametersFrom(tokens: seq<string>, i: nat, seen: set<string>): Result<seq<Parameter>>
    requires i <= |tokens|
    decreases |tokens| - i
  {
    if i == |tokens| then Ok([])
    else if !IsOption(tokens[i]) then Err(ExtraPositional)
    else if tokens[i] in seen then Err(DuplicatedParameter)
    else if i + 1 < |tokens| && !IsOption(tokens[i + 1]) then
      match ParametersFrom(tokens, i + 2, seen + {tokens[i]})
      case Err(e) => Err(e)
      case Ok(rest) => Ok([Parameter(tokens[i], Some(Normalized(tokens[i + 1])))] + rest)
    else
      match ParametersFrom(tokens, i + 1, seen + {tokens[i]})
      case Err(e) => Err(e)
      case Ok(rest) => Ok([Parameter(tokens[i], None)] + rest)
  }

  function Parsed(tokens: seq<string>): Result<Command> {
    if |tokens| < 3 || tokens[0] != "vllm" || tokens[1] != "serve" then Err(NotAServeCommand)
    else if IsOption(tokens[2]) then Err(NoModel)
    else
      match ParametersFrom(tokens, 3, {})
      case Err(e) => Err(e)
      case Ok(parameters) => Ok(Command(Normalized(tokens[2]), parameters))
  }

  /** The parameters read so far, and then those that follow. */
  function Behind(read: seq<Parameter>, rest: Result<seq<Parameter>>): Result<seq<Parameter>> {
    match rest case Err(e) => Err(e) case Ok(ps) => Ok(read + ps)
  }

  lemma BehindOne(read: seq<Parameter>, p: Parameter, rest: Result<seq<Parameter>>)
    ensures Behind(read, Behind([p], rest)) == Behind(read + [p], rest)
  {
    if rest.Ok? { assert read + ([p] + rest.value) == (read + [p]) + rest.value; }
  }

  /** One more option, with or without a value. */
  lemma ReadOne(tokens: seq<string>, i: nat, seen: set<string>)
    requires i < |tokens| && IsOption(tokens[i]) && tokens[i] !in seen
    ensures ParametersFrom(tokens, i, seen)
         == if i + 1 < |tokens| && !IsOption(tokens[i + 1]) then
              Behind([Parameter(tokens[i], Some(Normalized(tokens[i + 1])))], ParametersFrom(tokens, i + 2, seen + {tokens[i]}))
            else Behind([Parameter(tokens[i], None)], ParametersFrom(tokens, i + 1, seen + {tokens[i]}))
  {
    hide Normalized;
  }

  /** `parse_tokens`: one pass over the tokens. */
  method ParseTokens(tokens: seq<string>) returns (r: Result<Command>)
    ensures r == Parsed(tokens)
  {
    hide Normalized;
    if |tokens| < 3 || tokens[0] != "vllm" || tokens[1] != "serve" { return Err(NotAServeCommand); }
    var model := tokens[2];
    if IsOption(model) { return Err(NoModel); }
    var parameters: Result<seq<Parameter>> := ParseParameters(tokens);
    match parameters {
      case Err(e) => r := Err(e);
      case Ok(ps) => r := Ok(Command(Normalized(model), ps));
    }
  }

  /** The loop over the tokens behind the model. */
  method ParseParameters(tokens: seq<string>) returns (r: Result<seq<Parameter>>)
    requires 3 <= |tokens|
    ensures r == ParametersFrom(tokens, 3, {})
  {
    hide Normalized;
    var parameters: seq<Parameter>, seen: set<string>, i := [], {}, 3;
    assert forall rest: seq<Parameter> :: parameters + rest == rest;
    while i < |tokens|
      invariant 3 <= i <= |tokens|
      invariant ParametersFrom(tokens, 3, {}) == Behind(parameters, ParametersFrom(tokens, i, seen))
    {
      var token := tokens[i];
      if !IsOption(token) { return Err(ExtraPositional); }
      if token in seen { return Err(DuplicatedParameter); }
      ReadOne(tokens, i, seen);
      var hasValue := i + 1 < |tokens| && !IsOption(tokens[i + 1]);
      var p := Parameter(token, if hasValue then Some(Normalized(tokens[i + 1])) else None);
      seen := seen + {token};
      i := if hasValue then i + 2 else i + 1;
      BehindOne(parameters, p, ParametersFrom(tokens, i, seen));
      parameters := parameters + [p];
    }
    assert parameters + [] == parameters;
    return Ok(parameters);
  }

  /** The option names of a parsed command are options, occur once, and were not seen before. */
  lemma {:induction false} NamesDistinct(tokens: seq<string>, i: nat, seen: set<string>)
    requires i <= |tokens| && ParametersFrom(tokens, i, seen).Ok?
    ensures var ps := ParametersFrom(tokens, i, seen).value;
            && (forall j :: 0 <= j < |ps| ==> IsOption(ps[j].name) && ps[j].name !in seen)
            && (forall j, k :: 0 <= j < k < |ps| ==> ps[j].name != ps[k].name)
    decreases |tokens| - i
  {
    if i < |tokens| {
      var step := if i + 1 < |tokens| && !IsOption(tokens[i + 1]) then 2 else 1;
      NamesDistinct(tokens, i + step, seen + {tokens[i]});
    }
  }

  /** The tokens that spell out a list of parameters. */
  function TokensFor(ps: seq<Parameter>): seq<string> {
    if ps == [] then []
    else [ps[0].name] + (match ps[0].value case None => [] case Some(v) => [v]) + TokensFor(ps[1..])
  }

  /** A parameter whose name is an option and whose value is not mistaken for one. */
  predicate Spellable(p: Parameter) {
    IsOption(p.name) && (p.value.Some? ==> !IsOption(p.value.value))
  }

  function NormalizedValue(p: Parameter): Parameter {
    match p.value case None => p case Some(v) => p.(value := Some(Normalized(v)))
  }

  function NormalizedValues(ps: seq<Parameter>): (r: seq<Parameter>)
    ensures |r| == |ps|
  {
    seq(|ps|, i requires 0 <= i < |ps| => NormalizedValue(ps[i]))
  }

  /** Spelled-out parameters with distinct names, none seen before, are accepted with their values normalized. */
  lemma {:induction false} ParametersRoundTrip(before: seq<string>, ps: seq<Parameter>, seen: set<string>)
    requires forall j :: 0 <= j < |ps| ==> Spellable(ps[j]) && ps[j].name !in seen
    requires forall j, k :: 0 <= j < k < |ps| ==> ps[j].name != ps[k].name
    ensures ParametersFrom(before + TokensFor(ps), |before|, seen) == Ok(NormalizedValues(ps))
    decreases |ps|
  {
    var tokens := before + TokensFor(ps);
    if ps != [] {
      var p, rest := ps[0], ps[1..];
      var head := [p.name] + (match p.value case None => [] case Some(v) => [v]);
      var i := |before|;
      assert tokens == (before + head) + TokensFor(rest);
      ParametersRoundTrip(before + head, rest, seen + {p.name});
      assert Spellable(p) && tokens[i] == p.name;
      if p.value.None? && i + 1 < |tokens| {
        assert Spellable(rest[0]) && tokens[i + 1] == rest[0].name;
      }
      hide TokensFor, Spellable;
      assert NormalizedValues(ps) == [NormalizedValue(p)] + NormalizedValues(rest);
    } else {
      assert NormalizedValues(ps) == [];
    }
  }

  /** Nothing else is accepted: accepted tokens spell out parameters with distinct names. */
  lemma {:induction false} AcceptedAreSpelled(tokens: seq<string>, i: nat, seen: set<string>) returns (ps: seq<Parameter>)
    requires i <= |tokens| && ParametersFrom(tokens, i, seen).Ok?
    ensures tokens[i..] == TokensFor(ps) && ParametersFrom(tokens, i, seen).value == NormalizedValues(ps)
    ensures forall j :: 0 <= j < |ps| ==> Spellable(ps[j]) && ps[j].name !in seen
    ensures forall j, k :: 0 <= j < k < |ps| ==> ps[j].name != ps[k].name
    decreases |tokens| - i
  {
    if i == |tokens| {
      ps := [];
    } else {
      var hasValue := i + 1 < |tokens| && !IsOption(tokens[i + 1]);
      var p := Parameter(tokens[i], if hasValue then Some(tokens[i + 1]) else None);
      var rest := AcceptedAreSpelled(tokens, if hasValue then i + 2 else i + 1, seen + {tokens[i]});
      ps := [p] + rest;
      assert ps[1..] == rest;
      assert NormalizedValues(ps) == [NormalizedValue(p)] + NormalizedValues(rest);
      if hasValue {
        assert tokens[i..] == [tokens[i]] + [tokens[i + 1]] + tokens[i + 2..];
      } else {
        assert tokens[i..] == [tokens[i]] + [] + tokens[i + 1..];
      }
    }
  }

  /** A command that is spelled out with any model and any distinct parameters is parsed to these. */
  lemma CommandRoundTrip(model: string, ps: seq<Parameter>)
    requires !IsOption(model) && forall j :: 0 <= j < |ps| ==> Spellable(ps[j])
    requires forall j, k :: 0 <= j < k < |ps| ==> ps[j].name != ps[k].name
    ensures Parsed(["vllm", "serve", model] + TokensFor(ps)) == Ok(Command(Normalized(model), NormalizedValues(ps)))
  {
    hide Normalized, TokensFor, ParametersFrom, Spellable, IsOption;
    var tokens := ["vllm", "serve", model] + TokensFor(ps);
    assert tokens[0] == "vllm" && tokens[1] == "serve" && tokens[2] == model;
    ParametersRoundTrip(["vllm", "serve", model], ps, {});
  }

  /** Nothing else is a command. */
  lemma CommandsAreSpelled(tokens: seq<string>) returns (model: string, ps: seq<Parameter>)
    requires Parsed(tokens).Ok?
    ensures tokens == ["vllm", "serve", model] + TokensFor(ps) && !IsOption(model)
    ensures Parsed(tokens).value == Command(Normalized(model), NormalizedValues(ps))
    ensures forall j :: 0 <= j < |ps| ==> Spellable(ps[j])
    ensures forall j, k :: 0 <= j < k < |ps| ==> ps[j].name != ps[k].name
  {
    hide Normalized, TokensFor, ParametersFrom, Spellable, IsOption;
    model := tokens[2];
    ps := AcceptedAreSpelled(tokens, 3, {});
    assert tokens == tokens[..3] + tokens[3..] && tokens[..3] == ["vllm", "serve", model];
  }
}

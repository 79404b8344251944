/** Two `vllm serve` commands compared entry by entry, and what an empty report means. */
module ServeCompare {
  import opened Lists
  import opened Text
  import opened ServeCommand

  function EntryOf(p: Parameter): string {
    match p.value case None => p.name case Some(v) => p.name + " " + v
  }

  function ModelEntry(model: string): string { "model=" + model }

  /** `entries()` of a command. */
  function Entries(c: Command): (r: seq<string>)
    ensures |r| == |c.parameters| + 1
  {
    [ModelEntry(c.model)] + seq(|c.parameters|, i requires 0 <= i < |c.parameters| => EntryOf(c.parameters[i]))
  }

  datatype Differences = Differences(extra: multiset<string>, missing: multiset<string>)

  /** `compare_entry_sets`, without the wording of the report. */
  function Compare(doc: seq<string>, yaml: seq<string>): Differences {
    Differences(multiset(doc) - multiset(yaml), multiset(yaml) - multiset(doc))
  }

  predicate ReportsNothing(d: Differences) {
    d.extra == multiset{} && d.missing == multiset{}
  }

  /** The report is exact: taking away what is extra and adding what is missing turns one side into the other. */
  lemma DifferencesAreExact(doc: seq<string>, yaml: seq<string>)
    ensures var d := Compare(doc, yaml);
            && multiset(doc) - d.extra + d.missing == multiset(yaml)
            && d.extra !! d.missing
            && (ReportsNothing(d) <==> multiset(doc) == multiset(yaml))
  {
    var d := Compare(doc, yaml);
    if ReportsNothing(d) {
      forall e: string
        ensures multiset(doc)[e] == multiset(yaml)[e]
      {
        assert d.extra[e] == 0 && d.missing[e] == 0;
      }
      assert multiset(doc) == multiset(yaml);
    }
  }

  // ----- what an empty report means

  /** The command as its author means it: an option has a value or stands alone, in any order. */
  function Options(c: Command): map<string, Option<string>> {
    OptionsUpTo(c.parameters, |c.parameters|)
  }

  function OptionsUpTo(ps: seq<Parameter>, n: nat): map<string, Option<string>>
    requires n <= |ps|
  {
    if n == 0 then map[] else OptionsUpTo(ps, n - 1)[ps[n - 1].name := ps[n - 1].value]
  }

  ghost predicate SameCommand(c: Command, d: Command) {
    c.model == d.model && Options(c) == Options(d)
  }

  /** Parameters as the parser returns them: options with distinct names and normal values. */
  ghost predicate WellNamed(ps: seq<Parameter>) {
    && (forall j :: 0 <= j < |ps| ==> IsOption(ps[j].name) && (ps[j].value.Some? ==> IsNormal(ps[j].value.value)))
    && (forall j, k :: 0 <= j < k < |ps| ==> ps[j].name != ps[k].name)
  }

  lemma ParsedIsWellNamed(tokens: seq<string>)
    requires Parsed(tokens).Ok?
    ensures WellNamed(Parsed(tokens).value.parameters)
  {
    NamesDistinct(tokens, 3, {});
    var raw := AcceptedAreSpelled(tokens, 3, {});
    forall j | 0 <= j < |raw| && raw[j].value.Some?
      ensures IsNormal(Normalized(raw[j].value.value))
    {
      NormalizedIsNormal(raw[j].value.value);
    }
  }

  lemma {:induction false} OptionsAre(ps: seq<Parameter>, n: nat, name: string, value: Option<string>)
    requires n <= |ps| && WellNamed(ps)
    ensures name in OptionsUpTo(ps, n) && OptionsUpTo(ps, n)[name] == value
            <==> exists j :: 0 <= j < n && ps[j] == Parameter(name, value)
  {
    if n > 0 {
      OptionsAre(ps, n - 1, name, value);
      var last := ps[n - 1];
      if name == last.name {
        assert forall j :: 0 <= j < n - 1 ==> ps[j].name != name;
      }
    }
  }

  // ----- equal commands report nothing

  lemma {:induction false} CountOfDistinct<T>(xs: seq<T>, x: T)
    requires NoDuplicates(xs)
    ensures multiset(xs)[x] == if x in xs then 1 else 0
  {
    if xs != [] {
      CountOfDistinct(xs[1..], x);
      assert xs == [xs[0]] + xs[1..];
    }
  }

  function EntriesOf(ps: seq<Parameter>): seq<string> {
    seq(|ps|, i requires 0 <= i < |ps| => EntryOf(ps[i]))
  }

  /** The same parameters in another order have the same entries. */
  lemma {:induction false} SameParametersSameEntries(ps: seq<Parameter>, qs: seq<Parameter>)
    requires multiset(ps) == multiset(qs)
    ensures multiset(EntriesOf(ps)) == multiset(EntriesOf(qs))
    decreases |ps|
  {
    if ps == [] {
      assert |multiset(qs)| == 0;
    } else {
      hide *;
      var k := PlaceOf(ps, qs);
      OneLess(ps, qs, k);
      SameParametersSameEntries(ps[1..], qs[..k] + qs[k + 1..]);
      EntriesTakeOut(qs, k);
      EntriesHead(ps);
    }
  }

  lemma EntriesHead(ps: seq<Parameter>)
    requires ps != []
    ensures multiset(EntriesOf(ps)) == multiset(EntriesOf(ps[1..])) + multiset{EntryOf(ps[0])}
  {
    hide *;
    EntriesTakeOut(ps, 0);
    assert ps[..0] + ps[1..] == ps[1..];
  }

  lemma PlaceOf(ps: seq<Parameter>, qs: seq<Parameter>) returns (k: nat)
    requires multiset(ps) == multiset(qs) && ps != []
    ensures k < |qs| && qs[k] == ps[0]
  {
    assert ps[0] in multiset(ps) && ps[0] in multiset(qs);
    k :| 0 <= k < |qs| && qs[k] == ps[0];
  }

  lemma OneLess(ps: seq<Parameter>, qs: seq<Parameter>, k: nat)
    requires multiset(ps) == multiset(qs) && ps != [] && k < |qs| && qs[k] == ps[0]
    ensures multiset(ps[1..]) == multiset(qs[..k] + qs[k + 1..])
  {
    TakeOut(qs, k);
    TakeOut(ps, 0);
    assert ps[..0] + ps[1..] == ps[1..];
    CancelOne(multiset(ps[1..]), multiset(qs[..k] + qs[k + 1..]), ps[0]);
  }

  lemma CancelOne<T>(a: multiset<T>, b: multiset<T>, x: T)
    requires a + multiset{x} == b + multiset{x}
    ensures a == b
  {
    assert a == (a + multiset{x}) - multiset{x};
    assert b == (b + multiset{x}) - multiset{x};
  }

  lemma EntriesTakeOut(ps: seq<Parameter>, k: nat)
    requires k < |ps|
    ensures multiset(EntriesOf(ps)) == multiset(EntriesOf(ps[..k] + ps[k + 1..])) + multiset{EntryOf(ps[k])}
  {
    TakeOut(EntriesOf(ps), k);
    assert EntriesOf(ps[..k] + ps[k + 1..]) == EntriesOf(ps)[..k] + EntriesOf(ps)[k + 1..];
  }

  lemma TakeOut<T>(xs: seq<T>, k: nat)
    requires k < |xs|
    ensures multiset(xs) == multiset(xs[..k] + xs[k + 1..]) + multiset{xs[k]}
  {
    assert xs == xs[..k] + [xs[k]] + xs[k + 1..];
  }

  /** Equal options are the same parameters. */
  lemma SameOptionsSameParameters(c: Command, d: Command, p: Parameter)
    requires WellNamed(c.parameters) && WellNamed(d.parameters) && Options(c) == Options(d)
    ensures p in c.parameters <==> p in d.parameters
  {
    OptionsAre(c.parameters, |c.parameters|, p.name, p.value);
    OptionsAre(d.parameters, |d.parameters|, p.name, p.value);
  }

  /** Whatever their names, equal commands in any order report nothing. */
  lemma EqualReportsNothing(c: Command, d: Command)
    requires WellNamed(c.parameters) && WellNamed(d.parameters) && SameCommand(c, d)
    ensures ReportsNothing(Compare(Entries(c), Entries(d)))
  {
    var ps, qs := c.parameters, d.parameters;
    forall p: Parameter
      ensures multiset(ps)[p] == multiset(qs)[p]
    {
      CountOfDistinct(ps, p);
      CountOfDistinct(qs, p);
      SameOptionsSameParameters(c, d, p);
    }
    assert multiset(ps) == multiset(qs);
    SameParametersSameEntries(ps, qs);
    assert Entries(c) == [ModelEntry(c.model)] + EntriesOf(ps) && Entries(d) == [ModelEntry(d.model)] + EntriesOf(qs);
    DifferencesAreExact(Entries(c), Entries(d));
  }

  // ----- when an empty report means equal commands

  /** The second name reads like the first one with a value. */
  predicate Confusable(n: string, n': string) {
    && |n| < |n'| && n <= n' && n'[|n|] == ' '
    && Normalized(n'[|n| + 1..]) == n'[|n| + 1..]
  }

  /** What is left of a blank in a normal text is normal. */
  lemma NormalPrefix(v: string, u: string, w: string)
    requires IsNormal(v) && v == u + " " + w
    ensures IsNormal(u)
  {
    assert v[|u|] == ' ';
    forall i | 0 <= i < |u| && IsSpace(u[i])
      ensures 0 < i && u[i] == ' ' && i + 1 < |u| && !IsSpace(u[i + 1])
    {
      assert v[i] == u[i];
      if i + 1 < |u| { assert v[i + 1] == u[i + 1]; }
    }
  }

  /** A shorter name with the same entry is confusable with the longer one. */
  lemma ShorterIsConfusable(p: Parameter, q: Parameter)
    requires p.value.Some? ==> IsNormal(p.value.value)
    requires EntryOf(p) == EntryOf(q) && |p.name| < |q.name|
    ensures Confusable(p.name, q.name)
  {
    var e, n := EntryOf(p), |p.name|;
    assert p.value.Some?;
    var v, u := p.value.value, q.name[n + 1..];
    assert e[..n] == p.name && e[n] == ' ' && e[n + 1..] == v;
    assert e[..|q.name|] == q.name;
    assert q.name[..n] == p.name && q.name[n] == ' ';
    if q.value.Some? {
      assert v == u + " " + q.value.value;
      NormalPrefix(v, u, q.value.value);
    } else {
      assert v == u;
    }
    NormalFixed(u);
  }

  /** An entry determines the parameter it was written from, unless the names are confusable. */
  lemma EntryInjective(p: Parameter, q: Parameter)
    requires (p.value.Some? ==> IsNormal(p.value.value)) && (q.value.Some? ==> IsNormal(q.value.value))
    requires EntryOf(p) == EntryOf(q) && !Confusable(p.name, q.name) && !Confusable(q.name, p.name)
    ensures p == q
  {
    var e := EntryOf(p);
    if |p.name| < |q.name| {
      ShorterIsConfusable(p, q);
    } else if |q.name| < |p.name| {
      ShorterIsConfusable(q, p);
    } else {
      assert p.name == e[..|p.name|] == q.name;
      if p.value.Some? && q.value.Some? {
        assert p.value.value == e[|p.name| + 1..] == q.value.value;
      }
    }
  }

  /** What the entries of a command are: its model, and one per option. */
  lemma EntriesAre(c: Command, e: string)
    ensures e in Entries(c) <==> e == ModelEntry(c.model) || exists j :: 0 <= j < |c.parameters| && e == EntryOf(c.parameters[j])
  {
    hide EntryOf, ModelEntry;
    var es := Entries(c);
    if e in es {
      var i :| 0 <= i < |es| && es[i] == e;
      if i > 0 { assert e == EntryOf(c.parameters[i - 1]); }
    }
    if e == ModelEntry(c.model) { assert es[0] == e; }
    if j :| 0 <= j < |c.parameters| && e == EntryOf(c.parameters[j]) { assert es[j + 1] == e; }
  }

  /** An option entry starts with a dash, the model entry does not. */
  lemma OptionEntryIsNotModel(p: Parameter, model: string)
    requires IsOption(p.name)
    ensures EntryOf(p) != ModelEntry(model)
  {
    assert EntryOf(p)[0] == p.name[0] == "--"[0];
    assert ModelEntry(model)[0] == 'm';
  }

  /** Equal entries mean equal models. */
  lemma SameModel(c: Command, d: Command)
    requires WellNamed(d.parameters) && ModelEntry(c.model) in Entries(d)
    ensures c.model == d.model
  {
    var e := ModelEntry(c.model);
    EntriesAre(d, e);
    if e != ModelEntry(d.model) {
      var j :| 0 <= j < |d.parameters| && e == EntryOf(d.parameters[j]);
      OptionEntryIsNotModel(d.parameters[j], c.model);
    }
    assert c.model == e[6..] == ModelEntry(d.model)[6..] == d.model;
  }

  /** No name of either command is confusable with a name of the other. */
  ghost predicate Distinguishable(c: Command, d: Command) {
    forall j, k :: 0 <= j < |c.parameters| && 0 <= k < |d.parameters| ==>
      && !Confusable(c.parameters[j].name, d.parameters[k].name)
      && !Confusable(d.parameters[k].name, c.parameters[j].name)
  }

  /** Equal entries mean that every option of one command is an option of the other. */
  lemma SameOption(c: Command, d: Command, j: nat) returns (k: nat)
    requires WellNamed(c.parameters) && WellNamed(d.parameters) && Distinguishable(c, d) && j < |c.parameters|
    requires forall e :: e in Entries(c) ==> e in Entries(d)
    ensures k < |d.parameters| && d.parameters[k] == c.parameters[j]
  {
    var p := c.parameters[j];
    var e := EntryOf(p);
    EntriesAre(c, e);
    EntriesAre(d, e);
    OptionEntryIsNotModel(p, d.model);
    k :| 0 <= k < |d.parameters| && e == EntryOf(d.parameters[k]);
    EntryInjective(p, d.parameters[k]);
  }

  lemma OptionCarriesOver(c: Command, d: Command, name: string)
    requires WellNamed(c.parameters) && WellNamed(d.parameters) && Distinguishable(c, d) && name in Options(c)
    requires forall e :: e in Entries(c) ==> e in Entries(d)
    ensures name in Options(d) && Options(d)[name] == Options(c)[name]
  {
    var value := Options(c)[name];
    OptionsAre(c.parameters, |c.parameters|, name, value);
    OptionsAre(d.parameters, |d.parameters|, name, value);
    var j :| 0 <= j < |c.parameters| && c.parameters[j] == Parameter(name, value);
    var k := SameOption(c, d, j);
  }

  /** Distinguishable commands that report nothing are equal. */
  lemma NothingReportedMeansEqual(c: Command, d: Command)
    requires WellNamed(c.parameters) && WellNamed(d.parameters) && Distinguishable(c, d)
    ensures ReportsNothing(Compare(Entries(c), Entries(d))) <==> SameCommand(c, d)
  {
    DifferencesAreExact(Entries(c), Entries(d));
    if SameCommand(c, d) {
      EqualReportsNothing(c, d);
    } else if multiset(Entries(c)) == multiset(Entries(d)) {
      SameElements(Entries(c), Entries(d));
      assert Entries(c)[0] == ModelEntry(c.model);
      SameModel(c, d);
      assert Distinguishable(d, c);
      forall name | name in Options(c) || name in Options(d)
        ensures name in Options(c) && name in Options(d) && Options(c)[name] == Options(d)[name]
      {
        if name in Options(c) { OptionCarriesOver(c, d, name); } else { OptionCarriesOver(d, c, name); }
      }
    }
  }

  lemma SameElements(xs: seq<string>, ys: seq<string>)
    requires multiset(xs) == multiset(ys)
    ensures forall e :: e in xs <==> e in ys
  {
    assert forall e :: e in xs <==> e in multiset(xs);
    assert forall e :: e in ys <==> e in multiset(ys);
  }

  /** Tokens that the parser accepts, with options from a set of names. */
  ghost predicate Uses(tokens: seq<string>, names: set<string>) {
    Parsed(tokens).Ok? && forall p :: p in Parsed(tokens).value.parameters ==> p.name in names
  }

  ghost predicate ReportIsRight(doc: seq<string>, yaml: seq<string>)
    requires Parsed(doc).Ok? && Parsed(yaml).Ok?
  {
    var c, d := Parsed(doc).value, Parsed(yaml).value;
    ReportsNothing(Compare(Entries(c), Entries(d))) <==> SameCommand(c, d)
  }

  /** For all accepted commands over the names, the report is empty exactly when the commands are equal. */
  ghost predicate ReportsAreRight(names: set<string>) {
    forall doc, yaml :: Uses(doc, names) && Uses(yaml, names) ==> ReportIsRight(doc, yaml)
  }

  /**
   The exact condition: the report is right for all accepted commands over a set of option names if and only if
   no option among them is confusable with another of the names.
   */
  lemma ReportsAreRightIff(names: set<string>)
    ensures ReportsAreRight(names)
       <==> forall n, n' :: n in names && n' in names && IsOption(n) ==> !Confusable(n, n')
  {
    if n, n' :| n in names && n' in names && IsOption(n) && Confusable(n, n') {
      var doc, yaml := ConfusedPair(n, n');
      assert Uses(doc, names) && Uses(yaml, names);
    } else {
      forall doc, yaml | Uses(doc, names) && Uses(yaml, names)
        ensures ReportIsRight(doc, yaml)
      {
        ParsedIsWellNamed(doc);
        ParsedIsWellNamed(yaml);
        UsedAreDistinguishable(Parsed(doc).value, Parsed(yaml).value, names);
        NothingReportedMeansEqual(Parsed(doc).value, Parsed(yaml).value);
      }
    }
  }

  lemma UsedAreDistinguishable(c: Command, d: Command, names: set<string>)
    requires WellNamed(c.parameters) && WellNamed(d.parameters)
    requires forall p :: p in c.parameters || p in d.parameters ==> p.name in names
    requires forall n, n' :: n in names && n' in names && IsOption(n) ==> !Confusable(n, n')
    ensures Distinguishable(c, d)
  {
    forall j, k | 0 <= j < |c.parameters| && 0 <= k < |d.parameters|
      ensures !Confusable(c.parameters[j].name, d.parameters[k].name)
      ensures !Confusable(d.parameters[k].name, c.parameters[j].name)
    {
      var p, q := c.parameters[j], d.parameters[k];
      assert p in c.parameters && q in d.parameters;
    }
  }

  /** A token that is not an option and becomes the given normal value. */
  lemma TokenFor(v: string) returns (t: string)
    requires Normalized(v) == v
    ensures !IsOption(t) && Normalized(t) == v
  {
    t := v;
    if IsOption(v) {
      t := " " + v;
      LeadingBlank(v);
      assert t[0] == ' ' && "--"[0] == '-';
    }
  }

  lemma ParsedOne(p: Parameter)
    requires Spellable(p)
    ensures Parsed(["vllm", "serve", "m"] + TokensFor([p])) == Ok(Command(Normalized("m"), [NormalizedValue(p)]))
  {
    var head := ["vllm", "serve", "m"];
    ParametersRoundTrip(head, [p], {});
    assert NormalizedValues([p]) == [NormalizedValue(p)];
    assert !IsOption("m") by { assert |"m"| < |"--"|; }
    hide Normalized, ParametersFrom, TokensFor;
  }

  /** Two different accepted commands over confusable names that report nothing. */
  lemma ConfusedPair(n: string, n': string) returns (doc: seq<string>, yaml: seq<string>)
    requires IsOption(n) && Confusable(n, n')
    ensures Parsed(doc).Ok? && Parsed(yaml).Ok? && !ReportIsRight(doc, yaml)
    ensures forall p :: p in Parsed(doc).value.parameters ==> p.name == n
    ensures forall p :: p in Parsed(yaml).value.parameters ==> p.name == n'
  {
    var v := n'[|n| + 1..];
    var t := TokenFor(v);
    var p, q := Parameter(n, Some(t)), Parameter(n', None);
    doc, yaml := ["vllm", "serve", "m"] + TokensFor([p]), ["vllm", "serve", "m"] + TokensFor([q]);
    assert IsOption(n');
    ParsedOne(p);
    ParsedOne(q);
    var c, d := Command(Normalized("m"), [Parameter(n, Some(v))]), Command(Normalized("m"), [q]);
    assert Parsed(doc) == Ok(c) && Parsed(yaml) == Ok(d);
    hide Parsed, Normalized, TokensFor;
    assert n' == n + " " + v;
    SameEntryDifferentOptions(c, d);
  }

  lemma SameEntryDifferentOptions(c: Command, d: Command)
    requires |c.parameters| == |d.parameters| == 1 && c.model == d.model
    requires var p, q := c.parameters[0], d.parameters[0]; EntryOf(p) == EntryOf(q) && |p.name| < |q.name|
    ensures ReportsNothing(Compare(Entries(c), Entries(d))) && !SameCommand(c, d)
  {
    assert Entries(c) == Entries(d);
    var name := c.parameters[0].name;
    assert OptionsUpTo(c.parameters, 0) == map[] == OptionsUpTo(d.parameters, 0);
    assert name in Options(c) && name !in Options(d);
  }

  /** A pair of names of this kind. */
  lemma BlankInNameHidesDifference()
    ensures Confusable("--a", "--a b") && !ReportsAreRight({"--a", "--a b"})
  {
    var v := "--a b"[4..];
    assert v == "b" && WordEnd(v) == 1 && v[..1] == v && v[1..] == "";
    assert Words(v) == [v];
    assert "--a b"[..3] == "--a";
    assert Confusable("--a", "--a b");
    assert IsOption("--a") by { assert "--a"[..2] == "--"; }
    ReportsAreRightIff({"--a", "--a b"});
  }
}

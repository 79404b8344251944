/**
 Extracting the linted code blocks of a Markdown document.  The two regular expressions are
 parameters: which lines open a block, and which lines are options with which key and value.
 */
module BlockExtract {
  import opened Lists
  import opened Text

  const FENCE := "```"
  const SYNC_FIELDS := ["sync-yaml", "sync-target", "sync-class"]

  datatype Block = Block(startLine: nat, content: string, syncYaml: string, syncTarget: string, syncClass: string)

  datatype Diagnostic =
    | UnclosedBlock(line: nat)
    | MissingMetadata(line: nat, missing: seq<string>, syncYaml: string, syncTarget: string)
    | NoTestBlock

  /** The two line patterns. */
  datatype Patterns = Patterns(isOpen: string -> bool, option: string -> Option<(string, string)>)

  // ----- where the blocks are

  /** A block from its opening line to its closing fence, or to the end of the document. */
  datatype Range = Range(open: nat, close: nat)

  function CloseAt(lines: seq<string>, i: nat): (c: nat)
    requires i <= |lines|
    ensures i <= c <= |lines| && (c < |lines| ==> lines[c] == FENCE)
    ensures forall j :: i <= j < c ==> lines[j] != FENCE
    decreases |lines| - i
  {
    if i == |lines| || lines[i] == FENCE then i else CloseAt(lines, i + 1)
  }

  /** The ranges that the scan finds from line `i` on. */
  function Ranges(p: Patterns, lines: seq<string>, i: nat): seq<Range>
    decreases |lines| - i
  {
    if i >= |lines| then []
    else if !p.isOpen(lines[i]) then Ranges(p, lines, i + 1)
    else
      var c := CloseAt(lines, i + 1);
      [Range(i, c)] + Ranges(p, lines, c + 1)
  }

  // ----- what a block says

  /** The leading option lines and the content that follows them; one blank line between the two is dropped. */
  function BodyOf(p: Patterns, body: seq<string>): (map<string, string>, seq<string>) {
    if body == [] then (map[], [])
    else
      match p.option(body[0])
      case Some((key, value)) =>
        var (rest, content) := BodyOf(p, body[1..]);
        (map[key := value] + rest, content)
      case None => (map[], if Strip(body[0]) == "" then body[1..] else body)
  }

  function JoinLines(lines: seq<string>): string {
    if lines == [] then "" else if |lines| == 1 then lines[0] else lines[0] + "\n" + JoinLines(lines[1..])
  }

  function GetOr(options: map<string, string>, key: string, default: string): string {
    if key in options then options[key] else default
  }

  function MissingFields(options: map<string, string>, n: nat): seq<string>
    requires n <= |SYNC_FIELDS|
  {
    if n == 0 then []
    else MissingFields(options, n - 1) + (if SYNC_FIELDS[n - 1] in options then [] else [SYNC_FIELDS[n - 1]])
  }

  datatype Outcome = Found(block: Block) | Problem(diagnostic: Diagnostic)

  /** What a scanned block yields: a block, or one diagnostic. */
  function OutcomeFrom(startLine: nat, closed: bool, options: map<string, string>, content: seq<string>): Outcome {
    if !closed then Problem(UnclosedBlock(startLine))
    else
      var missing := MissingFields(options, |SYNC_FIELDS|);
      if missing != [] then
        Problem(MissingMetadata(startLine, missing, GetOr(options, "sync-yaml", "-"), GetOr(options, "sync-target", "-")))
      else
        MissingNone(options);
        Found(Block(startLine, Strip(JoinLines(content)),
                    options["sync-yaml"], options["sync-target"], options["sync-class"]))
  }

  function OutcomeOf(p: Patterns, lines: seq<string>, r: Range): Outcome
    requires r.open < r.close <= |lines|
  {
    var (options, content) := BodyOf(p, lines[r.open + 1..r.close]);
    OutcomeFrom(r.open + 1, r.close < |lines|, options, content)
  }

  /** Lines are joined by line breaks. */
  lemma {:induction false} JoinLinesIs(a: seq<string>, b: seq<string>)
    requires a != [] && b != []
    ensures JoinLines(a + b) == JoinLines(a) + "\n" + JoinLines(b)
    ensures forall line :: JoinLines([line]) == line
  {
    assert (a + b)[1..] == a[1..] + b;
    if |a| > 1 {
      JoinLinesIs(a[1..], b);
    } else {
      assert a[1..] + b == b;
    }
  }

  /** What a block yields, with the names of the three options written out. */
  lemma OutcomeFromIs(startLine: nat, closed: bool, options: map<string, string>, content: seq<string>)
    ensures var has := (key: string) => key in options;
            OutcomeFrom(startLine, closed, options, content)
            == if !closed then Problem(UnclosedBlock(startLine))
               else if has("sync-yaml") && has("sync-target") && has("sync-class") then
                 Found(Block(startLine, Strip(JoinLines(content)),
                             options["sync-yaml"], options["sync-target"], options["sync-class"]))
               else
                 Problem(MissingMetadata(startLine,
                           (if has("sync-yaml") then [] else ["sync-yaml"])
                           + (if has("sync-target") then [] else ["sync-target"])
                           + (if has("sync-class") then [] else ["sync-class"]),
                           if has("sync-yaml") then options["sync-yaml"] else "-",
                           if has("sync-target") then options["sync-target"] else "-"))
  {
    assert MissingFields(options, 0) == [];
    assert MissingFields(options, 1) == if "sync-yaml" in options then [] else ["sync-yaml"];
    assert MissingFields(options, 2) == MissingFields(options, 1) + (if "sync-target" in options then [] else ["sync-target"]);
    assert MissingFields(options, 3) == MissingFields(options, 2) + (if "sync-class" in options then [] else ["sync-class"]);
  }

  lemma MissingNone(options: map<string, string>)
    requires MissingFields(options, |SYNC_FIELDS|) == []
    ensures "sync-yaml" in options && "sync-target" in options && "sync-class" in options
  {
    assert MissingFields(options, 2) == [] && MissingFields(options, 1) == [];
    assert SYNC_FIELDS[0] in options && SYNC_FIELDS[1] in options && SYNC_FIELDS[2] in options;
  }

  ghost predicate Within(lines: seq<string>, rs: seq<Range>) {
    forall k :: 0 <= k < |rs| ==> rs[k].open < rs[k].close <= |lines|
  }

  function Outcomes(p: Patterns, lines: seq<string>, rs: seq<Range>): (r: seq<Outcome>)
    requires Within(lines, rs)
    ensures |r| == |rs|
  {
    seq(|rs|, k requires 0 <= k < |rs| => OutcomeOf(p, lines, rs[k]))
  }

  /** What the ranges of a document yield, in order. */
  function OutcomesIn(p: Patterns, lines: seq<string>): (r: seq<Outcome>)
    ensures |r| == |Ranges(p, lines, 0)|
  {
    RangesOrdered(p, lines, 0);
    Outcomes(p, lines, Ranges(p, lines, 0))
  }

  function BlocksIn(os: seq<Outcome>): seq<Block> {
    if os == [] then []
    else BlocksIn(os[..|os| - 1]) + (match os[|os| - 1] case Found(b) => [b] case Problem(_) => [])
  }

  function DiagnosticsIn(os: seq<Outcome>): seq<Diagnostic> {
    if os == [] then []
    else DiagnosticsIn(os[..|os| - 1]) + (match os[|os| - 1] case Found(_) => [] case Problem(d) => [d])
  }

  /** The diagnostics of a document: those of its ranges, or that it has none. */
  function DiagnosticsOf(p: Patterns, lines: seq<string>): seq<Diagnostic> {
    var outcomes := OutcomesIn(p, lines);
    if outcomes == [] then [NoTestBlock] else DiagnosticsIn(outcomes)
  }

  // ----- properties of the scan

  /** The ranges are increasing and disjoint, each starts at an opening line, and only the last may be unclosed. */
  lemma {:induction false} RangesOrdered(p: Patterns, lines: seq<string>, i: nat)
    ensures var rs := Ranges(p, lines, i);
            && Within(lines, rs)
            && (forall k :: 0 <= k < |rs| ==>
                  && i <= rs[k].open && p.isOpen(lines[rs[k].open])
                  && rs[k].close == CloseAt(lines, rs[k].open + 1))
            && (forall k, l :: 0 <= k < l < |rs| ==> rs[k].close < rs[l].open)
    decreases |lines| - i
  {
    if i < |lines| {
      if p.isOpen(lines[i]) {
        RangesOrdered(p, lines, CloseAt(lines, i + 1) + 1);
      } else {
        RangesOrdered(p, lines, i + 1);
      }
    }
  }

  /** Every opening line starts a range or lies inside one. */
  lemma {:induction false} OpeningsCovered(p: Patterns, lines: seq<string>, i: nat, j: nat) returns (k: nat)
    requires i <= j < |lines| && p.isOpen(lines[j])
    ensures var rs := Ranges(p, lines, i);
            k < |rs| && rs[k].open <= j <= rs[k].close && (!p.isOpen(FENCE) && j < |lines| ==> j < rs[k].close)
    decreases |lines| - i
  {
    if p.isOpen(lines[i]) {
      var c := CloseAt(lines, i + 1);
      if j <= c {
        k := 0;
      } else {
        k := OpeningsCovered(p, lines, c + 1, j);
        k := k + 1;
      }
    } else {
      k := OpeningsCovered(p, lines, i + 1, j);
    }
  }

  // ----- the loops

  /** The inner loop, from the line after the opening to the fence or the end. */
  method ScanBlock(p: Patterns, lines: seq<string>, start: nat)
    returns (lineIndex: nat, options: map<string, string>, contentLines: seq<string>)
    requires start <= |lines|
    ensures lineIndex == CloseAt(lines, start)
    ensures BodyOf(p, lines[start..lineIndex]) == (options, contentLines)
  {
    lineIndex, options, contentLines := start, map[], [];
    var scriptCodeStarted := false;
    ghost var close := CloseAt(lines, start);
    ghost var whole := BodyOf(p, lines[start..close]);
    assert map[] + whole.0 == whole.0;
    while lineIndex < |lines|
      invariant start <= lineIndex <= close == CloseAt(lines, lineIndex)
      invariant scriptCodeStarted ==> whole == (options, contentLines + lines[lineIndex..close])
      invariant !scriptCodeStarted ==>
                  && contentLines == []
                  && var (rest, content) := BodyOf(p, lines[lineIndex..close]);
                     whole == (options + rest, content)
      decreases |lines| - lineIndex
    {
      var line := lines[lineIndex];
      if line == FENCE { break; }
      assert lineIndex < close;
      ghost var body := lines[lineIndex..close];
      assert body[0] == line && body[1..] == lines[lineIndex + 1..close];
      if !scriptCodeStarted {
        var optionMatch := p.option(line);
        if optionMatch.Some? {
          OptionStep(options, optionMatch.value.0, optionMatch.value.1, BodyOf(p, body[1..]).0);
          options := options[optionMatch.value.0 := optionMatch.value.1];
          lineIndex := lineIndex + 1;
          continue;
        }
        assert options + map[] == options && contentLines + body[1..] == body[1..] && contentLines + body == body;
        if Strip(line) == "" {
          lineIndex := lineIndex + 1;
          scriptCodeStarted := true;
          continue;
        }
        scriptCodeStarted := true;
      }
      assert contentLines + body == contentLines + [line] + body[1..];
      contentLines := contentLines + [line];
      lineIndex := lineIndex + 1;
    }
    assert lines[lineIndex..close] == [] && contentLines + [] == contentLines && options + map[] == options;
  }

  lemma OptionStep(options: map<string, string>, key: string, value: string, rest: map<string, string>)
    ensures options + (map[key := value] + rest) == options[key := value] + rest
  {
  }

  /** One block, from its opening line on. */
  method ScanOne(p: Patterns, lines: seq<string>, i: nat) returns (close: nat, outcome: Outcome)
    requires i < |lines|
    ensures close == CloseAt(lines, i + 1) && outcome == OutcomeOf(p, lines, Range(i, close))
  {
    hide BodyOf, OutcomeFrom;
    var options, contentLines;
    close, options, contentLines := ScanBlock(p, lines, i + 1);
    outcome := OutcomeFrom(i + 1, close < |lines| && lines[close] == FENCE, options, contentLines);
  }

  /** `extract`: the blocks and the diagnostics of the ranges, in order. */
  method Extract(p: Patterns, lines: seq<string>) returns (blocks: seq<Block>, diagnostics: seq<Diagnostic>)
    ensures blocks == BlocksIn(OutcomesIn(p, lines)) && diagnostics == DiagnosticsOf(p, lines)
  {
    ghost var rs, outcomes := Ranges(p, lines, 0), OutcomesIn(p, lines);
    blocks, diagnostics := [], [];
    var foundTestBlock, lineIndex := false, 0;
    ghost var n := 0;
    assert rs[0..] == rs && BlocksIn(outcomes[..0]) == [] && DiagnosticsIn(outcomes[..0]) == [];
    hide BlocksIn, DiagnosticsIn, OutcomesIn, OutcomeOf;
    while lineIndex < |lines|
      invariant 0 <= n <= |rs| && foundTestBlock == (n > 0)
      invariant rs[n..] == Ranges(p, lines, lineIndex)
      invariant blocks == BlocksIn(outcomes[..n]) && diagnostics == DiagnosticsIn(outcomes[..n])
      decreases |lines| - lineIndex
    {
      if !p.isOpen(lines[lineIndex]) {
        lineIndex := lineIndex + 1;
        continue;
      }
      foundTestBlock := true;
      NextRange(p, lines, rs, n, lineIndex);
      OutcomeIs(p, lines, n);
      var close, outcome := ScanOne(p, lines, lineIndex);
      OutcomeStep(outcomes, n);
      n := n + 1;
      match outcome {
        case Found(block) => blocks := blocks + [block];
        case Problem(diagnostic) => diagnostics := diagnostics + [diagnostic];
      }
      lineIndex := close + 1;
      if close >= |lines| { break; }
    }
    assert rs[n..] == [];
    assert outcomes[..n] == outcomes;
    if !foundTestBlock {
      diagnostics := diagnostics + [NoTestBlock];
    }
  }

  lemma OutcomeIs(p: Patterns, lines: seq<string>, n: nat)
    requires n < |Ranges(p, lines, 0)|
    ensures var r := Ranges(p, lines, 0)[n];
            r.open < r.close <= |lines| && OutcomesIn(p, lines)[n] == OutcomeOf(p, lines, r)
  {
    RangesOrdered(p, lines, 0);
    hide OutcomeOf;
  }

  /** An opening line that the scan reaches is the start of the next range. */
  lemma NextRange(p: Patterns, lines: seq<string>, rs: seq<Range>, n: nat, i: nat)
    requires n <= |rs| && i < |lines| && p.isOpen(lines[i]) && rs[n..] == Ranges(p, lines, i)
    ensures var c := CloseAt(lines, i + 1);
            n < |rs| && rs[n] == Range(i, c) && rs[n + 1..] == Ranges(p, lines, c + 1)
  {
    assert rs[n] == rs[n..][0] && rs[n + 1..] == rs[n..][1..];
  }

  lemma OutcomeStep(outcomes: seq<Outcome>, n: nat)
    requires n < |outcomes|
    ensures BlocksIn(outcomes[..n + 1])
         == BlocksIn(outcomes[..n]) + (match outcomes[n] case Found(b) => [b] case Problem(_) => [])
    ensures DiagnosticsIn(outcomes[..n + 1])
         == DiagnosticsIn(outcomes[..n]) + (match outcomes[n] case Found(_) => [] case Problem(d) => [d])
  {
    assert outcomes[..n + 1][..n] == outcomes[..n];
  }

  // ----- a rendered block comes back unchanged

  /** The options that a list of option lines sets; a later line overrides an earlier one. */
  function OptionsOf(p: Patterns, optionLines: seq<string>): map<string, string>
    requires forall i :: 0 <= i < |optionLines| ==> p.option(optionLines[i]).Some?
  {
    if optionLines == [] then map[]
    else
      var (key, value) := p.option(optionLines[0]).value;
      map[key := value] + OptionsOf(p, optionLines[1..])
  }

  /** The last line that sets an option decides its value. */
  lemma {:induction false} LastOptionWins(p: Patterns, optionLines: seq<string>, k: nat)
    requires forall i :: 0 <= i < |optionLines| ==> p.option(optionLines[i]).Some?
    requires k < |optionLines|
    requires forall i :: k < i < |optionLines| ==> p.option(optionLines[i]).value.0 != p.option(optionLines[k]).value.0
    ensures var (key, value) := p.option(optionLines[k]).value;
            key in OptionsOf(p, optionLines) && OptionsOf(p, optionLines)[key] == value
    decreases |optionLines|
  {
    var rest := optionLines[1..];
    if k > 0 {
      LastOptionWins(p, rest, k - 1);
    } else {
      OptionsFrom(p, rest, p.option(optionLines[0]).value.0);
    }
  }

  /** Only option lines set options. */
  lemma {:induction false} OptionsFrom(p: Patterns, optionLines: seq<string>, key: string)
    requires forall i :: 0 <= i < |optionLines| ==> p.option(optionLines[i]).Some?
    ensures key in OptionsOf(p, optionLines) ==>
              exists i :: 0 <= i < |optionLines| && p.option(optionLines[i]).value.0 == key
    decreases |optionLines|
  {
    if optionLines != [] && key in OptionsOf(p, optionLines) && p.option(optionLines[0]).value.0 != key {
      OptionsFrom(p, optionLines[1..], key);
      var i :| 0 <= i < |optionLines[1..]| && p.option(optionLines[1..][i]).value.0 == key;
      assert p.option(optionLines[i + 1]).value.0 == key;
    }
  }

  /**
   Any body: its first `k` lines are options and the next one, if there is one, is not.  That line is part of the
   content unless it is blank.
   */
  lemma {:induction false} BodyIs(p: Patterns, body: seq<string>, k: nat)
    requires k <= |body| && (forall i :: 0 <= i < k ==> p.option(body[i]).Some?)
    requires k < |body| ==> p.option(body[k]) == None
    ensures BodyOf(p, body)
         == (OptionsOf(p, body[..k]), if k < |body| && Strip(body[k]) == "" then body[k + 1..] else body[k..])
    decreases k
  {
    if k > 0 {
      BodyIs(p, body[1..], k - 1);
      assert body[1..][..k - 1] == body[..k][1..];
      assert body[1..][k - 1..] == body[k..];
      if k < |body| { assert body[1..][k - 1] == body[k] && body[1..][k..] == body[k + 1..]; }
    } else {
      assert body[..0] == [];
    }
  }

  lemma RenderedBody(p: Patterns, optionLines: seq<string>, blank: string, content: seq<string>)
    requires forall i :: 0 <= i < |optionLines| ==> p.option(optionLines[i]).Some?
    requires p.option(blank) == None && Strip(blank) == ""
    ensures BodyOf(p, optionLines + [blank] + content) == (OptionsOf(p, optionLines), content)
  {
    var body, k := optionLines + [blank] + content, |optionLines|;
    assert body[..k] == optionLines && body[k] == blank && body[k + 1..] == content;
    BodyIs(p, body, k);
  }

  lemma {:induction false} CloseAtFirstFence(lines: seq<string>, i: nat, c: nat)
    requires i <= c < |lines| && lines[c] == FENCE && forall j :: i <= j < c ==> lines[j] != FENCE
    ensures CloseAt(lines, i) == c
    decreases c - i
  {
    if i < c { CloseAtFirstFence(lines, i + 1, c); }
  }

  // ----- documents put together

  /** Every block that is opened in the document is closed in it. */
  predicate AllClosed(p: Patterns, lines: seq<string>) {
    forall k :: 0 <= k < |Ranges(p, lines, 0)| ==> Ranges(p, lines, 0)[k].close < |lines|
  }

  function Shifted(r: Range, n: nat): Range {
    Range(r.open + n, r.close + n)
  }

  function ShiftedRanges(rs: seq<Range>, n: nat): (r: seq<Range>)
    ensures |r| == |rs|
  {
    seq(|rs|, k requires 0 <= k < |rs| => Shifted(rs[k], n))
  }

  function LaterDiagnostic(d: Diagnostic, n: nat): Diagnostic {
    match d
    case UnclosedBlock(line) => UnclosedBlock(line + n)
    case MissingMetadata(line, missing, yaml, target) => MissingMetadata(line + n, missing, yaml, target)
    case NoTestBlock => NoTestBlock
  }

  /** The same outcome `n` lines further down. */
  function Later(o: Outcome, n: nat): Outcome {
    match o
    case Found(b) => Found(b.(startLine := b.startLine + n))
    case Problem(d) => Problem(LaterDiagnostic(d, n))
  }

  function AllLater(os: seq<Outcome>, n: nat): (r: seq<Outcome>)
    ensures |r| == |os|
  {
    seq(|os|, k requires 0 <= k < |os| => Later(os[k], n))
  }

  lemma {:induction false} CloseAtShift(xs: seq<string>, ys: seq<string>, i: nat)
    requires i <= |ys|
    ensures CloseAt(xs + ys, |xs| + i) == |xs| + CloseAt(ys, i)
    decreases |ys| - i
  {
    if i < |ys| && ys[i] != FENCE { CloseAtShift(xs, ys, i + 1); }
  }

  lemma {:induction false} CloseAtPrefix(xs: seq<string>, ys: seq<string>, i: nat)
    requires i <= |xs|
    ensures if CloseAt(xs, i) < |xs| then CloseAt(xs + ys, i) == CloseAt(xs, i) else |xs| <= CloseAt(xs + ys, i)
    decreases |xs| - i
  {
    if i < |xs| && xs[i] != FENCE { CloseAtPrefix(xs, ys, i + 1); }
  }

  lemma {:induction false} RangesShift(p: Patterns, xs: seq<string>, ys: seq<string>, i: nat)
    ensures Ranges(p, xs + ys, |xs| + i) == ShiftedRanges(Ranges(p, ys, i), |xs|)
    decreases |ys| - i
  {
    if i < |ys| {
      assert (xs + ys)[|xs| + i] == ys[i];
      if p.isOpen(ys[i]) {
        CloseAtShift(xs, ys, i + 1);
        RangesShift(p, xs, ys, CloseAt(ys, i + 1) + 1);
      } else {
        RangesShift(p, xs, ys, i + 1);
      }
    }
  }

  /** The ranges of a closed beginning stay as they are, whatever follows. */
  lemma {:induction false} RangesPrefix(p: Patterns, xs: seq<string>, ys: seq<string>, i: nat)
    requires i <= |xs| && forall k :: 0 <= k < |Ranges(p, xs, i)| ==> Ranges(p, xs, i)[k].close < |xs|
    ensures Ranges(p, xs + ys, i) == Ranges(p, xs, i) + Ranges(p, xs + ys, |xs|)
    decreases |xs| - i
  {
    if i < |xs| {
      assert (xs + ys)[i] == xs[i];
      if p.isOpen(xs[i]) {
        var c := CloseAt(xs, i + 1);
        var rest := Ranges(p, xs, c + 1);
        assert Ranges(p, xs, i) == [Range(i, c)] + rest;
        assert Ranges(p, xs, i)[0].close < |xs|;
        forall k | 0 <= k < |rest|
          ensures rest[k].close < |xs|
        {
          assert Ranges(p, xs, i)[k + 1] == rest[k];
        }
        CloseAtPrefix(xs, ys, i + 1);
        RangesPrefix(p, xs, ys, c + 1);
      } else {
        RangesPrefix(p, xs, ys, i + 1);
      }
    }
  }

  /** A block that the beginning leaves open hides every opening up to the next fence. */
  lemma {:induction false} OpenBlockHides(p: Patterns, xs: seq<string>, ys: seq<string>, i: nat, k: nat)
    requires i <= |xs| && k < |Ranges(p, xs, i)| && Ranges(p, xs, i)[k].close >= |xs|
    ensures forall l :: 0 <= l < |Ranges(p, xs + ys, i)| ==> Ranges(p, xs + ys, i)[l].open != |xs|
    decreases |xs| - i
  {
    var lines := xs + ys;
    assert i < |xs| && lines[i] == xs[i];
    if p.isOpen(xs[i]) {
      var c, d := CloseAt(xs, i + 1), CloseAt(lines, i + 1);
      CloseAtPrefix(xs, ys, i + 1);
      RangesOrdered(p, lines, d + 1);
      if c < |xs| {
        assert k > 0 && Ranges(p, xs, c + 1)[k - 1] == Ranges(p, xs, i)[k];
        OpenBlockHides(p, xs, ys, c + 1, k - 1);
      }
      forall l | 0 <= l < |Ranges(p, lines, i)|
        ensures Ranges(p, lines, i)[l].open != |xs|
      {
        if l > 0 { assert Ranges(p, lines, i)[l] == Ranges(p, lines, d + 1)[l - 1]; }
      }
    } else {
      OpenBlockHides(p, xs, ys, i + 1, k);
    }
  }

  /** Two documents put together yield what they yield, if the first one is closed. */
  lemma OutcomesConcat(p: Patterns, xs: seq<string>, ys: seq<string>)
    requires AllClosed(p, xs)
    ensures OutcomesIn(p, xs + ys) == OutcomesIn(p, xs) + AllLater(OutcomesIn(p, ys), |xs|)
  {
    hide OutcomesIn, OutcomeOf, Ranges, AllClosed;
    RangesConcat(p, xs, ys);
    var first, second := Ranges(p, xs, 0), Ranges(p, ys, 0);
    forall k | 0 <= k < |Ranges(p, xs + ys, 0)|
      ensures OutcomesIn(p, xs + ys)[k] == (OutcomesIn(p, xs) + AllLater(OutcomesIn(p, ys), |xs|))[k]
    {
      OutcomeIs(p, xs + ys, k);
      if k < |first| {
        OutcomeIs(p, xs, k);
        OutcomePrefix(p, xs, ys, first[k]);
      } else {
        OutcomeIs(p, ys, k - |first|);
        OutcomeShift(p, xs, ys, second[k - |first|]);
      }
    }
  }

  /** The ranges of two documents, one after the other; those of the first all end in it. */
  lemma RangesConcat(p: Patterns, xs: seq<string>, ys: seq<string>)
    requires AllClosed(p, xs)
    ensures Ranges(p, xs + ys, 0) == Ranges(p, xs, 0) + ShiftedRanges(Ranges(p, ys, 0), |xs|)
    ensures forall k :: 0 <= k < |Ranges(p, xs, 0)| ==> Ranges(p, xs, 0)[k].open < Ranges(p, xs, 0)[k].close < |xs|
  {
    RangesPrefix(p, xs, ys, 0);
    RangesShift(p, xs, ys, 0);
    RangesOrdered(p, xs, 0);
  }

  lemma OutcomePrefix(p: Patterns, xs: seq<string>, ys: seq<string>, r: Range)
    requires r.open < r.close < |xs|
    ensures OutcomeOf(p, xs + ys, r) == OutcomeOf(p, xs, r)
  {
    assert (xs + ys)[r.open + 1..r.close] == xs[r.open + 1..r.close];
  }

  lemma OutcomeShift(p: Patterns, xs: seq<string>, ys: seq<string>, r: Range)
    requires r.open < r.close <= |ys|
    ensures OutcomeOf(p, xs + ys, Shifted(r, |xs|)) == Later(OutcomeOf(p, ys, r), |xs|)
  {
    var s := Shifted(r, |xs|);
    assert (xs + ys)[s.open + 1..s.close] == ys[r.open + 1..r.close];
    hide BodyOf, MissingFields;
  }

  lemma {:induction false} BlocksConcat(a: seq<Outcome>, b: seq<Outcome>)
    ensures BlocksIn(a + b) == BlocksIn(a) + BlocksIn(b)
  {
    if b == [] {
      assert a + b == a;
    } else {
      assert (a + b)[..|a + b| - 1] == a + b[..|b| - 1];
      BlocksConcat(a, b[..|b| - 1]);
    }
  }

  // ----- rendered blocks come back unchanged

  /** A block as it is written: an opening line, option lines, a blank line, content and a fence. */
  datatype Rendered = Rendered(opening: string, optionLines: seq<string>, blank: string, content: seq<string>)

  /** The parts are what they are meant to be, no line looks like the fence, and all fields are there. */
  ghost predicate Renderable(p: Patterns, r: Rendered) {
    && p.isOpen(r.opening)
    && (forall i :: 0 <= i < |r.optionLines| ==> p.option(r.optionLines[i]).Some? && r.optionLines[i] != FENCE)
    && p.option(r.blank) == None && Strip(r.blank) == "" && r.blank != FENCE
    && (forall i :: 0 <= i < |r.content| ==> r.content[i] != FENCE)
    && MissingFields(OptionsOf(p, r.optionLines), |SYNC_FIELDS|) == []
  }

  function BodyLines(r: Rendered): seq<string> {
    r.optionLines + [r.blank] + r.content
  }

  function LinesOf(r: Rendered): (lines: seq<string>)
    ensures |lines| == |BodyLines(r)| + 2
  {
    [r.opening] + BodyLines(r) + [FENCE]
  }

  /** The block that was written, if its opening is on line `line`. */
  function BlockOf(p: Patterns, r: Rendered, line: nat): Block
    requires Renderable(p, r)
  {
    var options := OptionsOf(p, r.optionLines);
    MissingNone(options);
    Block(line, Strip(JoinLines(r.content)), options["sync-yaml"], options["sync-target"], options["sync-class"])
  }

  lemma RenderedAlone(p: Patterns, r: Rendered)
    requires Renderable(p, r)
    ensures OutcomesIn(p, LinesOf(r)) == [Found(BlockOf(p, r, 1))] && AllClosed(p, LinesOf(r))
  {
    var lines, body := LinesOf(r), BodyLines(r);
    var close := |body| + 1;
    assert lines[0] == r.opening && lines[close] == FENCE && lines[1..close] == body;
    forall j | 1 <= j < close
      ensures lines[j] != FENCE
    {
      assert lines[j] == body[j - 1];
      if j - 1 > |r.optionLines| { assert body[j - 1] == r.content[j - 1 - |r.optionLines| - 1]; }
    }
    CloseAtFirstFence(lines, 1, close);
    assert Ranges(p, lines, 0) == [Range(0, close)];
    RenderedBody(p, r.optionLines, r.blank, r.content);
    MissingNone(OptionsOf(p, r.optionLines));
  }

  /**
   A block written anywhere in a document is extracted at its position, with its line, fields and content, between the
   blocks of what is before and after it, if everything opened before it is closed.
   */
  lemma RenderedBlockRoundTrip(p: Patterns, before: seq<string>, r: Rendered, after: seq<string>)
    requires Renderable(p, r) && AllClosed(p, before)
    ensures var n := |before| + |LinesOf(r)|;
            BlocksIn(OutcomesIn(p, before + (LinesOf(r) + after)))
            == BlocksIn(OutcomesIn(p, before)) + [BlockOf(p, r, |before| + 1)] + BlocksIn(AllLater(OutcomesIn(p, after), n))
  {
    hide OutcomesIn, AllClosed, BlocksIn, AllLater, LinesOf, Renderable;
    var lines := LinesOf(r);
    RenderedAlone(p, r);
    OutcomesConcat(p, before, lines + after);
    OutcomesConcat(p, lines, after);
    BlocksAround(OutcomesIn(p, before), BlockOf(p, r, 1), OutcomesIn(p, after), |lines|, |before|);
  }

  lemma BlocksAround(first: seq<Outcome>, b: Block, rest: seq<Outcome>, m: nat, n: nat)
    ensures BlocksIn(first + AllLater([Found(b)] + AllLater(rest, m), n))
         == BlocksIn(first) + [b.(startLine := b.startLine + n)] + BlocksIn(AllLater(rest, n + m))
  {
    var found := Later(Found(b), n);
    LaterTwice(rest, m, n);
    assert AllLater([Found(b)] + AllLater(rest, m), n) == [found] + AllLater(rest, n + m);
    OneBlock(b.(startLine := b.startLine + n));
    hide BlocksIn, AllLater;
    BlocksConcat(first, [found] + AllLater(rest, n + m));
    BlocksConcat([found], AllLater(rest, n + m));
  }

  lemma OneBlock(b: Block)
    ensures BlocksIn([Found(b)]) == [b]
  {
    assert [Found(b)][..0] == [];
  }

  lemma LaterTwice(os: seq<Outcome>, m: nat, n: nat)
    ensures AllLater(AllLater(os, m), n) == AllLater(os, n + m)
  {
  }

  /** And only then: no block starts on its line if something before it is left open. */
  lemma RenderedBlockHidden(p: Patterns, before: seq<string>, r: Rendered, after: seq<string>, k: nat)
    requires Renderable(p, r) && !AllClosed(p, before)
    requires k < |OutcomesIn(p, before + (LinesOf(r) + after))|
    ensures OutcomesIn(p, before + (LinesOf(r) + after))[k] != Found(BlockOf(p, r, |before| + 1))
  {
    var l :| 0 <= l < |Ranges(p, before, 0)| && Ranges(p, before, 0)[l].close >= |before|;
    RangesOrdered(p, before, 0);
    OpenBlockHides(p, before, LinesOf(r) + after, 0, l);
    hide BodyOf, MissingFields;
  }

  /** A document that consists of rendered blocks, one after the other. */
  function DocumentOf(rs: seq<Rendered>): seq<string> {
    if rs == [] then [] else DocumentOf(rs[..|rs| - 1]) + LinesOf(rs[|rs| - 1])
  }

  /** The blocks of such a document, each on its own line. */
  ghost function BlocksOf(p: Patterns, rs: seq<Rendered>): (r: seq<Block>)
    requires forall i :: 0 <= i < |rs| ==> Renderable(p, rs[i])
    ensures |r| == |rs|
  {
    if rs == [] then []
    else
      var rest := rs[..|rs| - 1];
      BlocksOf(p, rest) + [BlockOf(p, rs[|rs| - 1], |DocumentOf(rest)| + 1)]
  }

  lemma {:induction false} DocumentBlocks(p: Patterns, rs: seq<Rendered>)
    requires forall i :: 0 <= i < |rs| ==> Renderable(p, rs[i])
    ensures AllClosed(p, DocumentOf(rs))
    ensures BlocksIn(OutcomesIn(p, DocumentOf(rs))) == BlocksOf(p, rs) && |OutcomesIn(p, DocumentOf(rs))| == |rs|
    decreases |rs|
  {
    if rs != [] {
      var rest, last := rs[..|rs| - 1], rs[|rs| - 1];
      DocumentBlocks(p, rest);
      assert forall i :: 0 <= i < |rest| ==> Renderable(p, rest[i]);
      hide Renderable, LinesOf, OutcomesIn, AllClosed, BlocksIn;
      OneMoreBlock(p, DocumentOf(rest), last);
    }
  }

  /**
   Any number of blocks come back, all of them and in order, and none of them has a diagnostic.  Only the
   document without a block has one, which says so.
   */
  lemma DocumentRoundTrip(p: Patterns, rs: seq<Rendered>)
    requires forall i :: 0 <= i < |rs| ==> Renderable(p, rs[i])
    ensures BlocksIn(OutcomesIn(p, DocumentOf(rs))) == BlocksOf(p, rs)
    ensures DiagnosticsOf(p, DocumentOf(rs)) == if rs == [] then [NoTestBlock] else []
  {
    hide Renderable, OutcomesIn, AllClosed, BlocksIn, BlocksOf, DocumentOf, DiagnosticsIn;
    DocumentBlocks(p, rs);
    OnlyBlocks(OutcomesIn(p, DocumentOf(rs)));
  }

  /** As many blocks as outcomes leave no diagnostic. */
  lemma {:induction false} OnlyBlocks(os: seq<Outcome>)
    ensures |BlocksIn(os)| + |DiagnosticsIn(os)| == |os|
  {
    if os != [] { OnlyBlocks(os[..|os| - 1]); }
  }

  // ----- a block that is hidden

  /** A pattern for opening lines and one for option lines that are easy to read. */
  const PLAIN := Patterns(line => line == "open", line => if line == "" then None else Some((line, line)))

  const PLAIN_BLOCK := Rendered("open", SYNC_FIELDS, "", [])

  lemma PlainIsRenderable()
    ensures Renderable(PLAIN, PLAIN_BLOCK)
  {
    var fields := SYNC_FIELDS;
    assert fields[0] != FENCE && fields[1] != FENCE && fields[2] != FENCE;
    assert fields[0] != "" && fields[1] != "" && fields[2] != "";
    var options := OptionsOf(PLAIN, fields);
    assert fields[1..][1..] == fields[2..] && fields[2..][1..] == [];
    assert OptionsOf(PLAIN, fields[2..]) == map[fields[2] := fields[2]] + map[];
    assert fields[0] in options && fields[1] in options && fields[2] in options;
  }

  /** After a line that opens a block and does not close it, a complete block is not found. */
  lemma OpenLineHidesBlock()
    ensures Renderable(PLAIN, PLAIN_BLOCK)
    ensures Found(BlockOf(PLAIN, PLAIN_BLOCK, 1)) in OutcomesIn(PLAIN, LinesOf(PLAIN_BLOCK))
    ensures Found(BlockOf(PLAIN, PLAIN_BLOCK, 2)) !in OutcomesIn(PLAIN, ["open"] + (LinesOf(PLAIN_BLOCK) + []))
  {
    PlainIsRenderable();
    RenderedAlone(PLAIN, PLAIN_BLOCK);
    var before, found := ["open"], Found(BlockOf(PLAIN, PLAIN_BLOCK, 2));
    assert Ranges(PLAIN, before, 0)[0] == Range(0, 1);
    assert !AllClosed(PLAIN, before);
    hide Renderable, OutcomesIn, LinesOf, BlockOf, AllClosed;
    var outcomes := OutcomesIn(PLAIN, before + (LinesOf(PLAIN_BLOCK) + []));
    forall k | 0 <= k < |outcomes|
      ensures outcomes[k] != found
    {
      RenderedBlockHidden(PLAIN, before, PLAIN_BLOCK, [], k);
    }
  }

  lemma OneMoreBlock(p: Patterns, xs: seq<string>, r: Rendered)
    requires AllClosed(p, xs) && Renderable(p, r)
    ensures AllClosed(p, xs + LinesOf(r)) && |OutcomesIn(p, xs + LinesOf(r))| == |OutcomesIn(p, xs)| + 1
    ensures BlocksIn(OutcomesIn(p, xs + LinesOf(r))) == BlocksIn(OutcomesIn(p, xs)) + [BlockOf(p, r, |xs| + 1)]
  {
    hide OutcomesIn, AllClosed, BlocksIn, LinesOf, Renderable;
    RenderedAlone(p, r);
    OutcomesConcat(p, xs, LinesOf(r));
    ClosedConcat(p, xs, LinesOf(r));
    var b := BlockOf(p, r, 1);
    assert AllLater([Found(b)], |xs|) == [Found(b.(startLine := |xs| + 1))];
    BlocksConcat(OutcomesIn(p, xs), [Found(b.(startLine := |xs| + 1))]);
    OneBlock(b.(startLine := |xs| + 1));
  }

  lemma ClosedConcat(p: Patterns, xs: seq<string>, ys: seq<string>)
    requires AllClosed(p, xs) && AllClosed(p, ys)
    ensures AllClosed(p, xs + ys)
  {
    RangesPrefix(p, xs, ys, 0);
    RangesShift(p, xs, ys, 0);
  }
}

/** The `sync-target` paths of the documentation linter: parsing them and following them into a YAML tree. */
module YamlPath {
  import opened Text

  datatype Failure = EmptyTarget | EmptyBracket | Unclosed | NoSegments | NotAList | OutOfRange | NotAMapping | MissingKey

  datatype Result<+T> = Ok(value: T) | Err(failure: Failure)

  datatype Segment = Name(text: string) | Index(n: nat)

  /** A YAML document as the loader returns it: scalars are text. */
  datatype Yaml = Scalar(text: string) | List(items: seq<Yaml>) | Mapping(entries: map<string, Yaml>)

  // ----- the character scanner

  /** Where the scanner is: outside brackets, inside them, or inside a quotation within them. */
  datatype Mode = Outside | InBracket | InQuote(quote: char)

  datatype Scan = Scan(segments: seq<Segment>, token: string, bracket: string, mode: Mode)

  /** The pending token becomes a segment, unless it is empty. */
  function Flush(st: Scan): Scan {
    if st.token == "" then st else st.(segments := st.segments + [Name(st.token)], token := "")
  }

  /** What the text between two brackets stands for. */
  function SegmentOf(text: string): Segment {
    if AllDigits(text) then Index(IntOf(text)) else Name(text)
  }

  function ScanChar(st: Scan, c: char): Result<Scan> {
    match st.mode
    case InQuote(q) => Ok(if c == q then st.(mode := InBracket) else st.(bracket := st.bracket + [c]))
    case InBracket =>
      if c == '\'' || c == '"' then Ok(st.(mode := InQuote(c)))
      else if c == ']' then
        var text := Strip(st.bracket);
        if text == "" then Err(EmptyBracket)
        else Ok(st.(segments := st.segments + [SegmentOf(text)], bracket := "", mode := Outside))
      else Ok(st.(bracket := st.bracket + [c]))
    case Outside =>
      if c == '.' then Ok(Flush(st))
      else if c == '[' then Ok(Flush(st).(mode := InBracket))
      else Ok(st.(token := st.token + [c]))
  }

  function ScanAll(st: Scan, s: string): Result<Scan>
    decreases |s|
  {
    if s == "" then Ok(st)
    else
      match ScanChar(st, s[0])
      case Err(e) => Err(e)
      case Ok(next) => ScanAll(next, s[1..])
  }

  function Finish(st: Scan): Result<seq<Segment>> {
    if st.mode != Outside then Err(Unclosed)
    else
      var segments := Flush(st).segments;
      if segments == [] then Err(NoSegments) else Ok(segments)
  }

  const START := Scan([], "", "", Outside)

  /** The segments of a target path. */
  function Parsed(path: string): Result<seq<Segment>> {
    if path == "" then Err(EmptyTarget)
    else
      match ScanAll(START, path)
      case Err(e) => Err(e)
      case Ok(st) => Finish(st)
  }

  /** `parse_segments`: one pass over the characters with mutable lists and flags. */
  method ParseSegments(path: string) returns (r: Result<seq<Segment>>)
    ensures r == Parsed(path)
  {
    if path == "" { return Err(EmptyTarget); }
    var segments: seq<Segment>, token, bracket := [], "", "";
    var inBracket, quoteChar := false, "";
    var i := 0;
    while i < |path|
      invariant 0 <= i <= |path| && |quoteChar| <= 1 && (!inBracket ==> quoteChar == "")
      invariant ScanAll(START, path) == ScanAll(Scan(segments, token, bracket, ModeOf(inBracket, quoteChar)), path[i..])
    {
      var c := path[i];
      assert path[i..][0] == c && path[i..][1..] == path[i + 1..];
      i := i + 1;
      if inBracket {
        if quoteChar != "" {
          if c == quoteChar[0] { quoteChar := ""; } else { bracket := bracket + [c]; }
        } else if c == '\'' || c == '"' {
          quoteChar := [c];
        } else if c == ']' {
          var text := Strip(bracket);
          if text == "" { return Err(EmptyBracket); }
          segments := segments + [if AllDigits(text) then Index(IntOf(text)) else Name(text)];
          bracket := "";
          inBracket := false;
        } else {
          bracket := bracket + [c];
        }
      } else if c == '.' {
        if token != "" { segments, token := segments + [Name(token)], ""; }
      } else if c == '[' {
        if token != "" { segments, token := segments + [Name(token)], ""; }
        inBracket := true;
      } else {
        token := token + [c];
      }
    }
    if quoteChar != "" || inBracket { return Err(Unclosed); }
    if token != "" { segments := segments + [Name(token)]; }
    if segments == [] { return Err(NoSegments); }
    return Ok(segments);
  }

  function ModeOf(inBracket: bool, quoteChar: string): Mode
    requires |quoteChar| <= 1
  {
    if !inBracket then Outside else if quoteChar == "" then InBracket else InQuote(quoteChar[0])
  }

  // ----- following a path

  function Follow(node: Yaml, segment: Segment): Result<Yaml> {
    match segment
    case Index(n) =>
      if !node.List? then Err(NotAList) else if n >= |node.items| then Err(OutOfRange) else Ok(node.items[n])
    case Name(key) =>
      if !node.Mapping? then Err(NotAMapping) else if key !in node.entries then Err(MissingKey) else Ok(node.entries[key])
  }

  /** Follows the segments one after the other; the first that cannot be followed is the error. */
  function Walk(root: Yaml, segments: seq<Segment>): Result<Yaml>
    decreases |segments|
  {
    if segments == [] then Ok(root)
    else
      match Follow(root, segments[0])
      case Err(e) => Err(e)
      case Ok(next) => Walk(next, segments[1..])
  }

  function Resolved(root: Yaml, path: string): Result<Yaml> {
    match Parsed(path)
    case Err(e) => Err(e)
    case Ok(segments) => Walk(root, segments)
  }

  /** `resolve`: parses the path and follows it. */
  method Resolve(root: Yaml, path: string) returns (r: Result<Yaml>)
    ensures r == Resolved(root, path)
  {
    var parsed := ParseSegments(path);
    if parsed.Err? { return Err(parsed.failure); }
    var segments, current := parsed.value, root;
    var i := 0;
    while i < |segments|
      invariant 0 <= i <= |segments|
      invariant Walk(root, segments) == Walk(current, segments[i..])
    {
      assert segments[i..][0] == segments[i] && segments[i..][1..] == segments[i + 1..];
      var next := Follow(current, segments[i]);
      if next.Err? { return Err(next.failure); }
      current := next.value;
      i := i + 1;
    }
    return Ok(current);
  }

  // ----- writing paths

  /** One step into a tree, as it is written in brackets: a quoted key or a list position. */
  datatype Accessor = Key(name: string, quote: char) | At(n: nat)

  /** The key can be written in the quotation marks chosen for it. */
  predicate Writable(a: Accessor) {
    a.Key? ==> (a.quote == '\'' || a.quote == '"') && a.quote !in a.name
  }

  function Written(a: Accessor): string {
    match a
    case Key(name, quote) => "[" + [quote] + name + [quote] + "]"
    case At(n) => "[" + Decimal(n) + "]"
  }

  function WrittenPath(path: seq<Accessor>): string {
    if path == [] then "" else Written(path[0]) + WrittenPath(path[1..])
  }

  function StepOf(a: Accessor): Segment {
    match a case Key(name, _) => Name(name) case At(n) => Index(n)
  }

  function StepsOf(path: seq<Accessor>): (r: seq<Segment>)
    ensures |r| == |path|
  {
    if path == [] then [] else [StepOf(path[0])] + StepsOf(path[1..])
  }

  /** A key that brackets do not change: trimmed, not empty, not a number. */
  predicate Faithful(name: string) {
    name != "" && Strip(name) == name && !AllDigits(name)
  }

  // ----- scanning what was written

  lemma {:induction false} ScanConcat(st: Scan, s: string, t: string)
    ensures ScanAll(st, s + t) == match ScanAll(st, s) case Err(e) => Err(e) case Ok(mid) => ScanAll(mid, t)
    decreases |s|
  {
    if s == "" {
      assert s + t == t;
    } else {
      assert (s + t)[0] == s[0] && (s + t)[1..] == s[1..] + t;
      if ScanChar(st, s[0]).Ok? { ScanConcat(ScanChar(st, s[0]).value, s[1..], t); }
    }
  }

  /** Quoted text is collected as it is. */
  lemma {:induction false} ScanQuoted(st: Scan, s: string)
    requires st.mode.InQuote? && st.mode.quote !in s
    ensures ScanAll(st, s) == Ok(st.(bracket := st.bracket + s))
    decreases |s|
  {
    if s == "" {
      assert st.bracket + s == st.bracket;
    } else {
      var c := s[0];
      assert c in s;
      ScanQuoted(st.(bracket := st.bracket + [c]), s[1..]);
      assert st.bracket + [c] + s[1..] == st.bracket + s;
    }
  }

  /** Unquoted digits in brackets are collected as they are. */
  lemma {:induction false} ScanDigits(st: Scan, s: string)
    requires st.mode == InBracket && forall i :: 0 <= i < |s| ==> IsDigit(s[i])
    ensures ScanAll(st, s) == Ok(st.(bracket := st.bracket + s))
    decreases |s|
  {
    if s == "" {
      assert st.bracket + s == st.bracket;
    } else {
      assert IsDigit(s[0]);
      ScanDigits(st.(bracket := st.bracket + [s[0]]), s[1..]);
      assert st.bracket + [s[0]] + s[1..] == st.bracket + s;
    }
  }

  /** Text without dots and opening brackets goes to the token. */
  lemma {:induction false} ScanToken(st: Scan, s: string)
    requires st.mode == Outside && '.' !in s && '[' !in s
    ensures ScanAll(st, s) == Ok(st.(token := st.token + s))
    decreases |s|
  {
    if s == "" {
      assert st.token + s == st.token;
    } else {
      var c := s[0];
      assert c in s;
      ScanToken(st.(token := st.token + [c]), s[1..]);
      assert st.token + [c] + s[1..] == st.token + s;
    }
  }

  lemma ScanOne(st: Scan, c: char)
    ensures ScanAll(st, [c]) == ScanChar(st, c)
  {
    assert [c][1..] == "";
  }

  /** What closing a bracket with the given text does to a scan that was outside before. */
  function Closed(st: Scan, text: string): Result<Scan> {
    if text == "" then Err(EmptyBracket)
    else Ok(Flush(st).(segments := Flush(st).segments + [SegmentOf(text)]))
  }

  /** A quoted key from its opening quotation mark to the closing bracket. */
  lemma ScanKeyInside(open: Scan, name: string, q: char)
    requires Writable(Key(name, q)) && open.mode == InBracket && open.bracket == ""
    ensures ScanAll(open, [q] + (name + ([q] + "]"))) == ScanChar(open.(bracket := name), ']')
  {
    hide ScanAll, Strip;
    var quoted := open.(mode := InQuote(q));
    var full := quoted.(bracket := name);
    ScanOne(open, q);
    ScanQuoted(quoted, name);
    assert quoted.bracket + name == name;
    ScanOne(full, q);
    ScanOne(open.(bracket := name), ']');
    ScanConcat(full, [q], "]");
    ScanConcat(quoted, name, [q] + "]");
    ScanConcat(open, [q], name + ([q] + "]"));
  }

  lemma ScanKey(st: Scan, name: string, q: char)
    requires Writable(Key(name, q)) && st.mode == Outside && st.bracket == ""
    ensures ScanAll(st, Written(Key(name, q))) == Closed(st, Strip(name))
  {
    hide ScanAll, Strip;
    var rest := [q] + (name + ([q] + "]"));
    assert Written(Key(name, q)) == "[" + rest;
    var open := Flush(st).(mode := InBracket);
    ScanOne(st, '[');
    ScanKeyInside(open, name, q);
    ScanConcat(st, "[", rest);
  }

  lemma DecimalSegment(n: nat)
    ensures AllDigits(Decimal(n)) && Strip(Decimal(n)) == Decimal(n) && SegmentOf(Decimal(n)) == Index(n)
  {
    DecimalRoundTrip(n);
    StripFixed(Decimal(n));
  }

  lemma ScanAt(st: Scan, n: nat)
    requires st.mode == Outside && st.bracket == ""
    ensures ScanAll(st, Written(At(n))) == Closed(st, Decimal(n)) && SegmentOf(Decimal(n)) == Index(n)
  {
    hide ScanAll, Strip, Decimal, IntOf;
    DecimalSegment(n);
    var open, rest := Flush(st).(mode := InBracket), Decimal(n) + "]";
    assert Written(At(n)) == "[" + rest;
    ScanOne(st, '[');
    ScanConcat(st, "[", rest);
    ScanDigits(open, Decimal(n));
    assert open.bracket + Decimal(n) == Decimal(n);
    ScanConcat(open, Decimal(n), "]");
    ScanOne(open.(bracket := Decimal(n)), ']');
  }

  // ----- round trips

  /** What the scanner makes of an accessor: the text in the brackets is trimmed, and digits become a position. */
  function Meaning(a: Accessor): Result<Segment> {
    match a
    case Key(name, _) => if Strip(name) == "" then Err(EmptyBracket) else Ok(SegmentOf(Strip(name)))
    case At(n) => Ok(Index(n))
  }

  /** The meanings in order, or the first error. */
  function Meanings(path: seq<Accessor>): (r: Result<seq<Segment>>)
    ensures r.Ok? ==> |r.value| == |path|
  {
    if path == [] then Ok([])
    else
      match Meaning(path[0])
      case Err(e) => Err(e)
      case Ok(segment) =>
        match Meanings(path[1..]) case Err(e) => Err(e) case Ok(rest) => Ok([segment] + rest)
  }

  /** The segments found so far, and then those that follow. */
  function Behind(st: Scan, more: Result<seq<Segment>>): Result<Scan> {
    match more case Err(e) => Err(e) case Ok(segments) => Ok(st.(segments := st.segments + segments))
  }

  lemma ScanStep(st: Scan, a: Accessor)
    requires st.mode == Outside && st.bracket == "" && st.token == "" && Writable(a)
    ensures ScanAll(st, Written(a)) == match Meaning(a)
                                       case Err(e) => Err(e)
                                       case Ok(segment) => Ok(st.(segments := st.segments + [segment]))
  {
    hide ScanAll, Strip;
    match a {
      case Key(name, q) => ScanKey(st, name, q);
      case At(n) => ScanAt(st, n);
    }
  }

  /** A written path is scanned to the meanings of its accessors. */
  lemma {:induction false} ScanPath(st: Scan, path: seq<Accessor>)
    requires st.mode == Outside && st.bracket == "" && st.token == ""
    requires forall i :: 0 <= i < |path| ==> Writable(path[i])
    ensures ScanAll(st, WrittenPath(path)) == Behind(st, Meanings(path))
    decreases |path|
  {
    hide Writable, Written, ScanChar, Meaning;
    if path == [] {
      assert st.segments + [] == st.segments;
    } else {
      hide ScanAll;
      ScanStep(st, path[0]);
      ScanConcat(st, Written(path[0]), WrittenPath(path[1..]));
      if Meaning(path[0]).Ok? {
        var segment := Meaning(path[0]).value;
        var next := st.(segments := st.segments + [segment]);
        ScanPath(next, path[1..]);
        if Meanings(path[1..]).Ok? {
          assert next.segments + Meanings(path[1..]).value == st.segments + ([segment] + Meanings(path[1..]).value);
        }
      }
    }
  }

  /** Every written path parses to the meanings of its accessors, or to the first error among them. */
  lemma WrittenPathMeans(path: seq<Accessor>)
    requires path != [] && forall i :: 0 <= i < |path| ==> Writable(path[i])
    ensures Parsed(WrittenPath(path)) == Meanings(path)
  {
    ScanPath(START, path);
    assert |Written(path[0])| > 0;
    hide ScanAll, Meanings;
    if Meanings(path).Ok? { assert START.segments + Meanings(path).value == Meanings(path).value; }
  }

  lemma {:induction false} MeaningsAreSteps(path: seq<Accessor>)
    ensures Meanings(path) == Ok(StepsOf(path)) <==> forall i :: 0 <= i < |path| && path[i].Key? ==> Faithful(path[i].name)
    decreases |path|
  {
    if path != [] {
      hide Strip;
      MeaningsAreSteps(path[1..]);
      var head := Meaning(path[0]) == Ok(StepOf(path[0]));
      assert head <==> (path[0].Key? ==> Faithful(path[0].name));
      assert Meanings(path) == Ok(StepsOf(path)) <==> head && Meanings(path[1..]) == Ok(StepsOf(path[1..])) by {
        if Meanings(path).Ok? {
          assert Meanings(path).value[1..] == Meanings(path[1..]).value && StepsOf(path)[1..] == StepsOf(path[1..]);
        }
      }
      hide Faithful, Meanings;
      assert (forall i :: 0 <= i < |path| && path[i].Key? ==> Faithful(path[i].name))
        <==> (path[0].Key? ==> Faithful(path[0].name))
             && forall i :: 0 <= i < |path[1..]| && path[1..][i].Key? ==> Faithful(path[1..][i].name) by {
        forall i | 0 < i < |path| ensures path[i] == path[1..][i - 1] { }
      }
    }
  }

  /** Writing a path in brackets and parsing it gives the path back exactly when every key survives its brackets. */
  lemma PathRoundTrip(path: seq<Accessor>)
    requires path != [] && forall i :: 0 <= i < |path| ==> Writable(path[i])
    ensures Parsed(WrittenPath(path)) == Ok(StepsOf(path))
       <==> forall i :: 0 <= i < |path| && path[i].Key? ==> Faithful(path[i].name)
  {
    WrittenPathMeans(path);
    MeaningsAreSteps(path);
  }

  /** A single quoted key parses to itself exactly when it is trimmed, not empty and not a number. */
  lemma KeyRoundTrip(name: string, q: char)
    requires Writable(Key(name, q))
    ensures Parsed(Written(Key(name, q))) == Ok([Name(name)]) <==> Faithful(name)
  {
    var path := Written(Key(name, q));
    assert |path| > 0;
    ScanKey(START, name, q);
    hide ScanAll, Strip;
    var text := Strip(name);
    if text != "" {
      assert START.segments + [SegmentOf(text)] == [SegmentOf(text)];
    }
  }

  /** `node` is reached from `root` by the given steps. */
  ghost predicate NodeAt(root: Yaml, path: seq<Accessor>, node: Yaml)
    decreases |path|
  {
    if path == [] then root == node
    else
      match path[0]
      case Key(name, _) => root.Mapping? && name in root.entries && NodeAt(root.entries[name], path[1..], node)
      case At(n) => root.List? && n < |root.items| && NodeAt(root.items[n], path[1..], node)
  }

  lemma {:induction false} WalkReaches(root: Yaml, path: seq<Accessor>, node: Yaml)
    ensures NodeAt(root, path, node) <==> Walk(root, StepsOf(path)) == Ok(node)
    decreases |path|
  {
    if path != [] {
      assert StepsOf(path)[1..] == StepsOf(path[1..]);
      match path[0] {
        case Key(name, _) => if root.Mapping? && name in root.entries { WalkReaches(root.entries[name], path[1..], node); }
        case At(n) => if root.List? && n < |root.items| { WalkReaches(root.items[n], path[1..], node); }
      }
    }
  }

  /** In every tree, resolving the written path of a node returns that node, and nothing else is returned. */
  lemma ResolveRoundTrip(root: Yaml, path: seq<Accessor>, node: Yaml)
    requires path != []
    requires forall i :: 0 <= i < |path| ==> Writable(path[i]) && (path[i].Key? ==> Faithful(path[i].name))
    ensures Resolved(root, WrittenPath(path)) == Ok(node) <==> NodeAt(root, path, node)
  {
    PathRoundTrip(path);
    WalkReaches(root, path, node);
  }

  // ----- dotted spelling

  /** A name that can be written without brackets. */
  predicate Plain(name: string) {
    name != "" && '.' !in name && '[' !in name
  }

  function Dotted(names: seq<string>): string
    requires names != []
  {
    if |names| == 1 then names[0] else names[0] + "." + Dotted(names[1..])
  }

  function Names(names: seq<string>): (r: seq<Segment>)
    ensures |r| == |names|
  {
    seq(|names|, i requires 0 <= i < |names| => Name(names[i]))
  }

  lemma {:induction false} ScanDotted(st: Scan, names: seq<string>)
    requires names != [] && st.mode == Outside && st.token == ""
    requires forall i :: 0 <= i < |names| ==> Plain(names[i])
    ensures ScanAll(st, Dotted(names)).Ok?
    ensures var end := ScanAll(st, Dotted(names)).value;
            end.mode == Outside && Flush(end).segments == st.segments + Names(names)
    decreases |names|
  {
    hide ScanAll, ScanChar;
    var one := st.(token := names[0]);
    ScanName(st, names[0]);
    if |names| > 1 {
      var next, rest := Flush(one), names[1..];
      ScanPastDot(st, names[0], Dotted(rest));
      assert Dotted(names) == names[0] + ("." + Dotted(rest));
      assert forall i :: 0 <= i < |rest| ==> rest[i] == names[i + 1];
      ScanDotted(next, rest);
      assert next.segments + Names(rest) == st.segments + Names(names);
    } else {
      assert st.segments + [Name(names[0])] == st.segments + Names(names);
    }
  }

  lemma ScanName(st: Scan, name: string)
    requires st.mode == Outside && st.token == "" && Plain(name)
    ensures ScanAll(st, name) == Ok(st.(token := name)) && name != ""
  {
    ScanToken(st, name);
    assert st.token + name == name;
  }

  lemma ScanPastDot(st: Scan, name: string, rest: string)
    requires ScanAll(st, name) == Ok(st.(token := name)) && st.mode == Outside
    ensures ScanAll(st, name + ("." + rest)) == ScanAll(Flush(st.(token := name)), rest)
  {
    hide ScanAll;
    ScanOne(st.(token := name), '.');
    ScanConcat(st.(token := name), ".", rest);
    ScanConcat(st, name, "." + rest);
  }

  function Bracketed(names: seq<string>, q: char): seq<Accessor> {
    seq(|names|, i requires 0 <= i < |names| => Key(names[i], q))
  }

  lemma {:induction false} StepsOfBracketed(names: seq<string>, q: char)
    ensures StepsOf(Bracketed(names, q)) == Names(names)
    decreases |names|
  {
    if names != [] {
      StepsOfBracketed(names[1..], q);
      assert Bracketed(names, q)[1..] == Bracketed(names[1..], q);
    }
  }

  /** The dotted spelling of plain names gives these names; their bracketed spelling does so exactly when all are faithful. */
  lemma SpellingsAgree(names: seq<string>, q: char)
    requires names != [] && forall i :: 0 <= i < |names| ==> Plain(names[i])
    ensures Parsed(Dotted(names)) == Ok(Names(names))
    ensures (forall i :: 0 <= i < |names| ==> Writable(Key(names[i], q))) ==>
              (Parsed(WrittenPath(Bracketed(names, q))) == Parsed(Dotted(names))
               <==> forall i :: 0 <= i < |names| ==> Faithful(names[i]))
  {
    hide Parsed, Faithful, Writable, Dotted, Plain, Names, WrittenPath, Bracketed;
    DottedParses(names);
    if forall i :: 0 <= i < |names| ==> Writable(Key(names[i], q)) { BracketedParses(names, q); }
  }

  lemma BracketedParses(names: seq<string>, q: char)
    requires names != [] && forall i :: 0 <= i < |names| ==> Writable(Key(names[i], q))
    ensures Parsed(WrittenPath(Bracketed(names, q))) == Ok(Names(names))
       <==> forall i :: 0 <= i < |names| ==> Faithful(names[i])
  {
    hide Parsed, Faithful, Writable, WrittenPath, StepsOf, Names;
    var path := Bracketed(names, q);
    assert forall i :: 0 <= i < |names| ==> path[i] == Key(names[i], q);
    PathRoundTrip(path);
    StepsOfBracketed(names, q);
  }

  lemma DottedParses(names: seq<string>)
    requires names != [] && forall i :: 0 <= i < |names| ==> Plain(names[i])
    ensures Parsed(Dotted(names)) == Ok(Names(names))
  {
    ScanDotted(START, names);
    assert START.segments + Names(names) == Names(names);
    assert |Dotted(names)| >= |names[0]| > 0;
    hide ScanAll, Names;
  }

  /** A quoted digit is parsed as a position, not as the key it was written for. */
  lemma QuotedDigitIsPosition()
    ensures Written(Key("0", '\'')) == "['0']" && Parsed("['0']") == Ok([Index(0)])
  {
    var path, zero := [Key("0", '\'')], "0";
    assert Written(path[0]) == "['0']";
    assert path[1..] == [] && WrittenPath(path) == "['0']" + "" == "['0']";
    StripFixed(zero);
    assert Strip(zero) == zero && AllDigits(zero);
    assert zero[..0] == "" && IntOf(zero) == 0;
    assert Meaning(path[0]) == Ok(Index(0)) && Meanings(path[1..]) == Ok([]);
    assert Meanings(path) == Ok([Index(0)] + []) && [Index(0)] + [] == [Index(0)];
    WrittenPathMeans(path);
  }
}

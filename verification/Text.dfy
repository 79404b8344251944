/** Text helpers with the meaning of Python's string methods on ASCII text. */
module Text {

  predicate IsSpace(c: char) {
    c == ' ' || '\t' <= c <= '\r' || '\U{1c}' <= c <= '\U{1f}'
  }

  predicate IsDigit(c: char) {
    '0' <= c <= '9'
  }

  /** `text.isdigit()`. */
  predicate AllDigits(s: string) {
    s != "" && forall i :: 0 <= i < |s| ==> IsDigit(s[i])
  }

  function StripLeft(s: string): (r: string)
    ensures |r| <= |s|
  {
    if s != "" && IsSpace(s[0]) then StripLeft(s[1..]) else s
  }

  function StripRight(s: string): (r: string)
    ensures |r| <= |s|
  {
    if s != "" && IsSpace(s[|s| - 1]) then StripRight(s[..|s| - 1]) else s
  }

  /** `text.strip()`. */
  function Strip(s: string): string {
    StripRight(StripLeft(s))
  }

  /** Stripping leaves exactly the texts alone that neither start nor end with white space. */
  lemma StripFixed(s: string)
    ensures Strip(s) == s <==> s == "" || (!IsSpace(s[0]) && !IsSpace(s[|s| - 1]))
  {
    if s != "" && IsSpace(s[0]) {
      assert |Strip(s)| < |s|;
    } else if s != "" && IsSpace(s[|s| - 1]) {
      assert |StripRight(s)| < |s|;
    }
  }

  predicate Blank(s: string) {
    forall i :: 0 <= i < |s| ==> IsSpace(s[i])
  }

  lemma {:induction false} StripLeftIs(s: string) returns (left: string)
    ensures s == left + StripLeft(s) && Blank(left) && (StripLeft(s) != "" ==> !IsSpace(StripLeft(s)[0]))
  {
    if s != "" && IsSpace(s[0]) {
      left := StripLeftIs(s[1..]);
      left := [s[0]] + left;
    } else {
      left := "";
    }
  }

  lemma {:induction false} StripRightIs(s: string) returns (right: string)
    ensures s == StripRight(s) + right && Blank(right)
    ensures StripRight(s) != "" ==> !IsSpace(StripRight(s)[|StripRight(s)| - 1]) && StripRight(s)[0] == s[0]
  {
    if s != "" && IsSpace(s[|s| - 1]) {
      right := StripRightIs(s[..|s| - 1]);
      right := right + [s[|s| - 1]];
    } else {
      right := "";
    }
  }

  /** Stripping takes away white space at both ends, all of it and nothing else. */
  lemma StripIs(s: string) returns (left: string, right: string)
    ensures s == left + Strip(s) + right && Blank(left) && Blank(right)
    ensures Strip(s) != "" ==> !IsSpace(Strip(s)[0]) && !IsSpace(Strip(s)[|Strip(s)| - 1])
  {
    left := StripLeftIs(s);
    right := StripRightIs(StripLeft(s));
  }

  /** `str(n)` for a natural number. */
  function Decimal(n: nat): (s: string)
    ensures s != ""
  {
    if n < 10 then [DigitChar(n)] else Decimal(n / 10) + [DigitChar(n % 10)]
  }

  function DigitChar(d: nat): (c: char)
    requires d < 10
    ensures IsDigit(c)
  {
    '0' + d as char
  }

  /** `int(text)` for a text of digits. */
  function IntOf(s: string): nat
    requires forall i :: 0 <= i < |s| ==> IsDigit(s[i])
  {
    if s == "" then 0
    else
      assert IsDigit(s[|s| - 1]);
      10 * IntOf(s[..|s| - 1]) + (s[|s| - 1] as nat - '0' as nat)
  }

  lemma {:induction false} DecimalRoundTrip(n: nat)
    ensures AllDigits(Decimal(n)) && IntOf(Decimal(n)) == n
  {
    if n >= 10 {
      DecimalRoundTrip(n / 10);
      var s := Decimal(n);
      assert s[..|s| - 1] == Decimal(n / 10);
    } else {
      var s := Decimal(n);
      assert s[..|s| - 1] == "";
    }
  }

  // ----- " ".join(text.split())

  function WordEnd(s: string): (n: nat)
    ensures n <= |s| && (s != "" && !IsSpace(s[0]) ==> 0 < n)
    ensures forall j :: 0 <= j < n ==> !IsSpace(s[j])
    ensures n < |s| ==> IsSpace(s[n])
  {
    if s == "" || IsSpace(s[0]) then 0 else 1 + WordEnd(s[1..])
  }

  function Words(s: string): seq<string>
    decreases |s|
  {
    if s == "" then []
    else if IsSpace(s[0]) then Words(s[1..])
    else [s[..WordEnd(s)]] + Words(s[WordEnd(s)..])
  }

  function Spaced(words: seq<string>): string {
    if words == [] then "" else if |words| == 1 then words[0] else words[0] + " " + Spaced(words[1..])
  }

  function Normalized(s: string): string {
    Spaced(Words(s))
  }

  predicate IsWord(w: string) {
    w != "" && forall j :: 0 <= j < |w| ==> !IsSpace(w[j])
  }

  /** White space is single blanks between other characters. */
  predicate IsNormal(s: string) {
    forall i :: 0 <= i < |s| && IsSpace(s[i]) ==> 0 < i && s[i] == ' ' && i + 1 < |s| && !IsSpace(s[i + 1])
  }

  lemma {:induction false} WordsAreWords(s: string)
    ensures forall k :: 0 <= k < |Words(s)| ==> IsWord(Words(s)[k])
    decreases |s|
  {
    if s != "" {
      if IsSpace(s[0]) { WordsAreWords(s[1..]); } else { WordsAreWords(s[WordEnd(s)..]); }
    }
  }

  lemma {:induction false} SpacedIsNormal(words: seq<string>)
    requires forall k :: 0 <= k < |words| ==> IsWord(words[k])
    ensures IsNormal(Spaced(words)) && (words != [] ==> Spaced(words) != "" && !IsSpace(Spaced(words)[0]))
  {
    if |words| > 1 {
      var rest := Spaced(words[1..]);
      SpacedIsNormal(words[1..]);
      var s, n := Spaced(words), |words[0]|;
      assert IsWord(words[0]) && s == words[0] + " " + rest;
      forall i | 0 <= i < |s| && IsSpace(s[i])
        ensures 0 < i && s[i] == ' ' && i + 1 < |s| && !IsSpace(s[i + 1])
      {
        if i == n {
          assert s[n + 1] == rest[0];
        } else if i > n {
          assert s[i] == rest[i - n - 1];
          assert s[i + 1] == rest[i - n];
        }
      }
    }
  }

  lemma NormalizedIsNormal(s: string)
    ensures IsNormal(Normalized(s))
  {
    WordsAreWords(s);
    SpacedIsNormal(Words(s));
  }

  lemma {:induction false} NormalStays(s: string)
    requires IsNormal(s)
    ensures Normalized(s) == s
    decreases |s|
  {
    if s != "" {
      var n := WordEnd(s);
      assert !IsSpace(s[0]);
      if n == |s| {
        OneWord(s);
      } else {
        NormalTail(s, n);
        NormalStays(s[n + 1..]);
        FirstWord(s);
        hide Words, WordEnd, IsNormal;
        assert s == s[..n] + " " + s[n + 1..];
      }
    }
  }

  lemma OneWord(s: string)
    requires s != "" && WordEnd(s) == |s|
    ensures Normalized(s) == s
  {
    assert s[..|s|] == s && s[|s|..] == "";
    assert Words(s) == [s];
  }

  lemma FirstWord(s: string)
    requires s != "" && !IsSpace(s[0]) && WordEnd(s) + 1 < |s| && !IsSpace(s[WordEnd(s) + 1])
    ensures Normalized(s) == s[..WordEnd(s)] + " " + Normalized(s[WordEnd(s) + 1..])
  {
    var n := WordEnd(s);
    var t := s[n + 1..];
    assert s[n..][1..] == t && t[0] == s[n + 1];
    assert Words(s[n..]) == Words(t) && Words(t) != [];
    assert Words(s) == [s[..n]] + Words(t);
    assert ([s[..n]] + Words(t))[1..] == Words(t);
  }

  lemma NormalTail(s: string, n: nat)
    requires IsNormal(s) && n < |s| && IsSpace(s[n])
    ensures 0 < n && n + 1 < |s| && s[n] == ' ' && !IsSpace(s[n + 1]) && IsNormal(s[n + 1..])
  {
    var t := s[n + 1..];
    forall i | 0 <= i < |t| && IsSpace(t[i])
      ensures 0 < i && t[i] == ' ' && i + 1 < |t| && !IsSpace(t[i + 1])
    {
      assert t[i] == s[n + 1 + i] && s[n + 1 + i + 1] == t[i + 1];
    }
  }

  /** Exactly the normal texts are left alone. */
  lemma NormalFixed(s: string)
    ensures Normalized(s) == s <==> IsNormal(s)
  {
    NormalizedIsNormal(s);
    if IsNormal(s) { NormalStays(s); }
  }

  /** The characters of a text that are not white space. */
  function Letters(s: string): string {
    if s == "" then "" else (if IsSpace(s[0]) then "" else [s[0]]) + Letters(s[1..])
  }

  lemma {:induction false} LettersConcat(s: string, t: string)
    ensures Letters(s + t) == Letters(s) + Letters(t)
  {
    if s == "" {
      assert s + t == t;
    } else {
      assert (s + t)[1..] == s[1..] + t;
      LettersConcat(s[1..], t);
    }
  }

  lemma {:induction false} LettersOfWord(w: string)
    requires forall j :: 0 <= j < |w| ==> !IsSpace(w[j])
    ensures Letters(w) == w
  {
    if w != "" { LettersOfWord(w[1..]); }
  }

  /** All words end to end. */
  function Joined(words: seq<string>): string {
    if words == [] then "" else words[0] + Joined(words[1..])
  }

  lemma {:induction false} WordsAreLetters(s: string)
    ensures Joined(Words(s)) == Letters(s)
    decreases |s|
  {
    if s != "" {
      if IsSpace(s[0]) {
        WordsAreLetters(s[1..]);
      } else {
        var n := WordEnd(s);
        assert s == s[..n] + s[n..];
        LettersConcat(s[..n], s[n..]);
        LettersOfWord(s[..n]);
        WordsAreLetters(s[n..]);
        assert ([s[..n]] + Words(s[n..]))[1..] == Words(s[n..]);
      }
    }
  }

  lemma {:induction false} WordEndIs(s: string, n: nat)
    requires n <= |s| && (forall j :: 0 <= j < n ==> !IsSpace(s[j])) && (n < |s| ==> IsSpace(s[n]))
    ensures WordEnd(s) == n
  {
    if n > 0 { WordEndIs(s[1..], n - 1); }
  }

  lemma {:induction false} WordsOfSpaced(words: seq<string>)
    requires forall k :: 0 <= k < |words| ==> IsWord(words[k])
    ensures Words(Spaced(words)) == words
  {
    if words != [] {
      var w, rest, s := words[0], words[1..], Spaced(words);
      assert IsWord(w) && s[..|w|] == w;
      WordEndIs(s, |w|);
      WordsOfSpaced(rest);
      assert Words(s) == [w] + Words(s[|w|..]);
      if rest == [] {
        assert s[|w|..] == "";
      } else {
        assert s[|w|..] == " " + Spaced(rest) && (" " + Spaced(rest))[1..] == Spaced(rest);
      }
      assert words == [w] + rest;
    }
  }

  /** Normalizing keeps the words, and so every character that is not white space, in order. */
  lemma NormalizedKeepsWords(s: string)
    ensures Words(Normalized(s)) == Words(s) && Letters(Normalized(s)) == Letters(s) == Joined(Words(s))
  {
    WordsAreWords(s);
    WordsOfSpaced(Words(s));
    WordsAreLetters(s);
    WordsAreLetters(Normalized(s));
  }

  lemma LeadingBlank(s: string)
    ensures Normalized(" " + s) == Normalized(s)
  {
    assert (" " + s)[1..] == s;
  }
}

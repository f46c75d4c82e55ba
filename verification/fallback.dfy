/** Stage 5: when no record could be recovered from the reply, the
    extractor reads the user's original text directly
    (the last resort of extraction_tool.py). */
module InputFallback {
  import opened Text

  // ---------------------------------------------------------------
  // The code: `re.search(r'\b(\d{8,12})\b', input_text)`
  // ---------------------------------------------------------------

  /** `s[i..i+n]` is a run of 8 to 12 digits with no word character
      immediately before or after it. */
  predicate BoundedRun(s: string, i: nat, n: nat) {
    && i + n <= |s| && 8 <= n <= 12
    && (forall k :: i <= k < i + n ==> IsDigit(s[k]))
    && WordStartAt(s, i) && WordEndAt(s, i + n)
  }

  /** The pattern tried at position `i`. The greedy `\d{8,12}` can only be
      followed by `\b` where the digits stop, so the whole digit run must
      be 8 to 12 long. */
  function CodeAt(s: string, i: nat): (r: Option<string>)
    ensures r.Some? ==> BoundedRun(s, i, |r.value|) && r.value == s[i..i + |r.value|]
  {
    if i < |s| && WordStartAt(s, i) then
      var n := RunLength(s, i, IsDigit);
      if 8 <= n <= 12 && WordEndAt(s, i + n) then Some(s[i..i + n]) else None
    else None
  }

  /** Every bounded run is seen by the matcher at its start. */
  lemma CodeAtComplete(s: string, i: nat, n: nat)
    requires BoundedRun(s, i, n)
    ensures CodeAt(s, i) == Some(s[i..i + n])
  {
    RunLengthUnique(s, i, n, IsDigit);
  }

  function FindCode(s: string): Option<Hit<string>> {
    Search(|s|, (i: nat) => CodeAt(s, i), 0)
  }

  /** What the fallback reports as the code: 8 to 12 digits. */
  lemma FoundCodeIsDigits(s: string)
    requires FindCode(s).Some?
    ensures var c := FindCode(s).value.capture;
      8 <= |c| <= 12 && AllDigits(c) && Trimmed(c)
  {
    var h := FindCode(s).value;
    assert CodeAt(s, h.pos) == Some(h.capture);
    var c := h.capture;
    forall k | 0 <= k < |c| ensures IsDigit(c[k]) {
      assert c[k] == s[h.pos + k];
    }
    DigitsAreTrimmed(c);
  }

  /** The fallback finds a code exactly when the input holds a bounded run
      of 8 to 12 digits, and the code it finds is the first such run. */
  lemma {:induction false} FindCodeIsFirstBoundedRun(s: string)
    ensures FindCode(s).Some? <==> exists i: nat, n: nat :: BoundedRun(s, i, n)
    ensures FindCode(s).Some? ==>
      var h := FindCode(s).value;
      && BoundedRun(s, h.pos, |h.capture|) && h.capture == s[h.pos..h.pos + |h.capture|]
      && forall j: nat, n: nat :: j < h.pos ==> !BoundedRun(s, j, n)
  {
    match FindCode(s) {
      case Some(h) =>
        assert ((i: nat) => CodeAt(s, i))(h.pos) == CodeAt(s, h.pos);
        forall j: nat, n: nat | j < h.pos ensures !BoundedRun(s, j, n) {
          assert ((i: nat) => CodeAt(s, i))(j) == CodeAt(s, j);
          if BoundedRun(s, j, n) {
            CodeAtComplete(s, j, n);
          }
        }
      case None =>
        forall i: nat, n: nat | BoundedRun(s, i, n) ensures false {
          assert ((k: nat) => CodeAt(s, k))(i) == CodeAt(s, i);
          CodeAtComplete(s, i, n);
        }
    }
  }

  /** No position inside a run of 13 or more digits starts a match, so such
      a run never yields a code, not even a prefix of it. */
  lemma LongRunNeverMatches(s: string, i: nat, n: nat)
    requires n >= 13 && i + n <= |s|
    requires forall k :: i <= k < i + n ==> IsDigit(s[k])
    ensures forall j :: i <= j < i + n ==> CodeAt(s, j).None?
  {
    forall j | i <= j < i + n ensures CodeAt(s, j).None? {
      if j == i {
        assert RunLength(s, i, IsDigit) >= 13 by { RunLengthAtLeast(s, i, 13, IsDigit); }
      } else {
        assert IsDigit(s[j - 1]);
      }
    }
  }

  /** A run of `m` characters satisfying `p` makes the run length at
      least `m`. */
  lemma {:induction false} RunLengthAtLeast(s: string, i: nat, m: nat, p: char -> bool)
    requires i + m <= |s|
    requires forall k :: i <= k < i + m ==> p(s[k])
    ensures RunLength(s, i, p) >= m
    decreases m
  {
    if m > 0 {
      RunLengthAtLeast(s, i + 1, m - 1, p);
    }
  }

  /** An input whose digit runs are all shorter than 8 (a code split into
      hyphen-separated groups, a phone extension, a zip code) yields no
      code. */
  lemma ShortRunsYieldNoCode(s: string)
    requires forall i :: 0 <= i < |s| ==> RunLength(s, i, IsDigit) < 8
    ensures FindCode(s).None?
  {
    FindCodeIsFirstBoundedRun(s);
    forall i: nat, n: nat | BoundedRun(s, i, n) ensures false {
      RunLengthUnique(s, i, n, IsDigit);
    }
  }

  // ---------------------------------------------------------------
  // The description patterns, on the lower-cased input
  // ---------------------------------------------------------------

  predicate IsNotTerminator(c: char) { c != '.' && c != '!' && c != '?' }

  /** `description\s+([^.!?]+)` tried at position `i`. Greedy `\s+` takes
      all the whitespace; when nothing but a terminator follows it gives
      back one whitespace character for the capture, if it has two. */
  function DescriptionAt(s: string, i: nat): Option<string> {
    if !IsPrefixAt("description", s, i) then None else DescriptionAfter(s, i + 11)
  }

  /** The `\s+([^.!?]+)` part, tried right after the keyword at `j`. */
  function DescriptionAfter(s: string, j: nat): Option<string>
    requires j <= |s|
  {
    var w := RunLength(s, j, IsSpace);
    if w == 0 then None
    else
      var n := RunLength(s, j + w, IsNotTerminator);
      if n >= 1 then Some(s[j + w..j + w + n])
      else if w >= 2 then Some(s[j + w - 1..j + w])
      else None
  }

  /** The terminator-free stretch after the keyword is its whitespace
      followed by the terminator-free stretch after that whitespace. */
  lemma NonTerminatorRunSplits(s: string, j: nat)
    requires j <= |s|
    ensures var w := RunLength(s, j, IsSpace);
      RunLength(s, j, IsNotTerminator) == w + RunLength(s, j + w, IsNotTerminator)
  {
    var w := RunLength(s, j, IsSpace);
    var n := RunLength(s, j + w, IsNotTerminator);
    forall k | j <= k < j + w + n ensures IsNotTerminator(s[k]) {
      if k < j + w { assert IsSpace(s[k]); }
    }
    RunLengthUnique(s, j, w + n, IsNotTerminator);
  }

  /** The first pattern matches at a "description" exactly when whitespace
      follows it and the character after that is no terminator. */
  lemma DescriptionAtMatches(s: string, i: nat)
    requires IsPrefixAt("description", s, i)
    ensures var j := i + 11;
      DescriptionAt(s, i).Some? <==>
        (j + 1 < |s| && IsSpace(s[j]) && IsNotTerminator(s[j + 1]))
  {
    var j := i + 11;
    var w := RunLength(s, j, IsSpace);
    if w == 1 {
      assert j + 1 == |s| || !IsSpace(s[j + 1]);
    } else if w >= 2 {
      assert IsSpace(s[j + 1]);
    }
  }

  /** The stripped capture of the first pattern is the stripped text from
      the keyword up to the next `.`, `!`, `?` or the end. */
  lemma DescriptionAtCapture(s: string, i: nat)
    requires DescriptionAt(s, i).Some?
    ensures var j := i + 11;
      Strip(DescriptionAt(s, i).value) == Strip(s[j..j + RunLength(s, j, IsNotTerminator)])
  {
    var j := i + 11;
    var c := DescriptionAt(s, i).value;
    var e := RunLength(s, j, IsNotTerminator);
    var a := CaptureStart(s, j, c);
    StripAfterSpace(s, j, a, e, c);
  }

  /** Where the capture of `DescriptionAt` begins, counted from the end of
      the keyword: it runs from there to the end of the terminator-free
      stretch, and only whitespace comes before it. */
  lemma CaptureStart(s: string, j: nat, c: string) returns (a: nat)
    requires j <= |s| && DescriptionAfter(s, j) == Some(c)
    ensures var e := RunLength(s, j, IsNotTerminator);
      && j + e <= |s| && a <= e && SpaceBetween(s, j, j + a) && c == s[j + a..j + e]
  {
    var w := RunLength(s, j, IsSpace);
    NonTerminatorRunSplits(s, j);
    if RunLength(s, j + w, IsNotTerminator) >= 1 {
      a := w;
      assert c == s[j + w..j + w + RunLength(s, j + w, IsNotTerminator)];
    } else {
      a := w - 1;
      assert c == s[j + w - 1..j + w];
    }
  }

  /** Whitespace in front of a stretch of `s` does not change its strip. */
  lemma StripAfterSpace(s: string, j: nat, w: nat, e: nat, c: string)
    requires j + e <= |s| && w <= e && SpaceBetween(s, j, j + w)
    requires c == s[j + w..j + e]
    ensures Strip(c) == Strip(s[j..j + e])
  {
    var u := s[j..j + e];
    assert SpaceBetween(u, 0, w) by {
      forall k | 0 <= k < w ensures IsSpace(u[k]) { assert u[k] == s[j + k]; }
    }
    assert c == u[w..];
    StripSkipsSpace(u, w, c);
  }

  /** `and\s+the\s+description\s+([^.!?]+)` tried at position `i`: "and",
      whitespace, "the", whitespace, and then the first pattern. */
  function AndTheDescriptionAt(s: string, i: nat): (r: Option<string>)
    ensures r.Some? ==> exists k: nat :: i < k <= |s| && DescriptionAt(s, k) == r
  {
    if !IsPrefixAt("and", s, i) then None
    else
      var w1 := RunLength(s, i + 3, IsSpace);
      if w1 == 0 || !IsPrefixAt("the", s, i + 3 + w1) then None
      else
        var w2 := RunLength(s, i + 6 + w1, IsSpace);
        if w2 == 0 then None
        else
          var k := i + 6 + w1 + w2;
          if k <= |s| then DescriptionAt(s, k) else None
  }

  /** `re.search` of the first description pattern. */
  function FindDescription(s: string): Option<Hit<string>> {
    Search(|s|, (i: nat) => DescriptionAt(s, i), 0)
  }

  /** `re.search` of the second description pattern. */
  function FindAndTheDescription(s: string): Option<Hit<string>> {
    Search(|s|, (i: nat) => AndTheDescriptionAt(s, i), 0)
  }

  /** The loop over the two patterns: the first one that matches gives the
      description, stripped. */
  function PatternDescription(low: string): string {
    match FindDescription(low)
    case Some(h) => Strip(h.capture)
    case None =>
      match FindAndTheDescription(low)
      case Some(h) => Strip(h.capture)
      case None => ""
  }

  /** Wherever the second pattern matches, so does the first. */
  lemma FirstPatternCoversSecond(low: string)
    requires FindAndTheDescription(low).Some?
    ensures FindDescription(low).Some?
  {
    var h := FindAndTheDescription(low).value;
    assert ((i: nat) => AndTheDescriptionAt(low, i))(h.pos) == AndTheDescriptionAt(low, h.pos);
    var k: nat :| k <= |low| && DescriptionAt(low, k) == Some(h.capture);
    assert ((i: nat) => DescriptionAt(low, i))(k) == DescriptionAt(low, k);
  }

  /** The second pattern is redundant: it is tried only when the first
      found nothing, and then it finds nothing either. */
  lemma SecondPatternRedundant(low: string)
    ensures PatternDescription(low) ==
      match FindDescription(low)
      case Some(h) => Strip(h.capture)
      case None => ""
  {
    if FindAndTheDescription(low).Some? {
      FirstPatternCoversSecond(low);
    }
  }

  // ---------------------------------------------------------------
  // The food-noun lexicon: `re.findall(r'\b(?:chips?|fries?|...)\b', low)`
  // ---------------------------------------------------------------

  /** The alternatives of the pattern in the order the regex engine tries
      them: each optional trailing `s` is tried present first. */
  const Alternatives: seq<string> := [
    "chips", "chip", "fries", "frie", "cereal", "cookies", "cookie",
    "snacks", "snack", "food", "product", "crackers", "cracker",
    "candy", "chocolate", "soda", "drink"]

  /** The words the pattern accepts. */
  const Lexicon: set<string> := {
    "chip", "chips", "frie", "fries", "cereal", "cookie", "cookies",
    "snack", "snacks", "food", "product", "cracker", "crackers",
    "candy", "chocolate", "soda", "drink"}

  predicate AllWordChars(w: string) {
    forall k :: 0 <= k < |w| ==> IsWordChar(w[k])
  }

  /** Alternatives a `\b...\b` pattern can use: non-empty words. */
  predicate WordAlternatives(alts: seq<string>) {
    forall k :: 0 <= k < |alts| ==> |alts[k]| > 0 && AllWordChars(alts[k])
  }

  lemma LexiconIsWords()
    ensures forall w :: w in Lexicon ==> |w| > 0 && Trimmed(w) && AllWordChars(w)
  {
  }

  lemma AlternativesAreLexicon()
    ensures WordAlternatives(Alternatives)
    ensures forall w :: w in Alternatives <==> w in Lexicon
  {
  }

  /** The first alternative that occurs at `i` and ends at a word
      boundary. */
  function FirstAlternative(s: string, i: nat, alts: seq<string>): (r: Option<string>)
    ensures r.Some? ==> r.value in alts && IsPrefixAt(r.value, s, i) && WordEndAt(s, i + |r.value|)
    decreases |alts|
  {
    if |alts| == 0 then None
    else if IsPrefixAt(alts[0], s, i) && WordEndAt(s, i + |alts[0]|) then Some(alts[0])
    else FirstAlternative(s, i, alts[1..])
  }

  /** When exactly the alternatives equal to `t` can match, the first
      match is `t` if it is an alternative at all. */
  lemma {:induction false} FirstAlternativeIs(s: string, i: nat, alts: seq<string>, t: string)
    requires forall k :: 0 <= k < |alts| ==>
      (IsPrefixAt(alts[k], s, i) && WordEndAt(s, i + |alts[k]|) <==> alts[k] == t)
    ensures FirstAlternative(s, i, alts) == if t in alts then Some(t) else None
    decreases |alts|
  {
    if |alts| > 0 {
      assert forall k :: 0 <= k < |alts[1..]| ==> alts[1..][k] == alts[k + 1];
      FirstAlternativeIs(s, i, alts[1..], t);
      assert t in alts <==> alts[0] == t || t in alts[1..] by {
        assert alts == [alts[0]] + alts[1..];
      }
    }
  }

  /** The pattern tried at position `i`. */
  function WordAt(s: string, i: nat, alts: seq<string>): Option<string> {
    if i <= |s| && WordStartAt(s, i) then FirstAlternative(s, i, alts) else None
  }

  /** `re.findall` from position `i`: after a match the scan resumes where
      it ended, otherwise one position further. */
  function FindAllFrom(s: string, i: nat, alts: seq<string>): seq<string>
    requires WordAlternatives(alts)
    decreases |s| + 1 - i
  {
    if i > |s| then []
    else match WordAt(s, i, alts)
      case Some(w) => [w] + FindAllFrom(s, i + |w|, alts)
      case None => FindAllFrom(s, i + 1, alts)
  }

  /** Reference reading of the same thing: split the text into maximal
      runs of word characters, and keep those that are alternatives. */
  function WordsFrom(s: string, i: nat): seq<string>
    decreases |s| - i
  {
    if i >= |s| then []
    else if !IsWordChar(s[i]) then WordsFrom(s, i + 1)
    else
      var n := RunLength(s, i, IsWordChar);
      [s[i..i + n]] + WordsFrom(s, i + n)
  }

  function KeepIn(ws: seq<string>, alts: seq<string>): (r: seq<string>)
    ensures forall k :: 0 <= k < |r| ==> r[k] in alts
    decreases |ws|
  {
    if |ws| == 0 then []
    else (if ws[0] in alts then [ws[0]] else []) + KeepIn(ws[1..], alts)
  }

  lemma KeepInCons(w: string, ws: seq<string>, alts: seq<string>)
    ensures KeepIn([w] + ws, alts) == (if w in alts then [w] else []) + KeepIn(ws, alts)
  {
    assert ([w] + ws)[1..] == ws;
  }

  lemma WordCharsAt(s: string, i: nat, w: string)
    requires AllWordChars(w) && IsPrefixAt(w, s, i)
    ensures forall m :: i <= m < i + |w| ==> IsWordChar(s[m])
  {
    forall m | i <= m < i + |w| ensures IsWordChar(s[m]) {
      assert s[m] == s[i..i + |w|][m - i];
    }
  }

  /** At the start of a word, an alternative made of word characters
      matches, up to a word boundary, exactly when it is that whole word. */
  lemma AlternativeMatchesWholeWord(s: string, i: nat, w: string)
    requires |w| > 0 && AllWordChars(w)
    requires i < |s| && IsWordChar(s[i])
    ensures IsPrefixAt(w, s, i) && WordEndAt(s, i + |w|) <==>
      w == s[i..i + RunLength(s, i, IsWordChar)]
  {
    if IsPrefixAt(w, s, i) && WordEndAt(s, i + |w|) {
      MatchIsWholeWord(s, i, w);
    }
    if w == s[i..i + RunLength(s, i, IsWordChar)] {
      WholeWordMatches(s, i, w);
    }
  }

  lemma MatchIsWholeWord(s: string, i: nat, w: string)
    requires AllWordChars(w) && IsPrefixAt(w, s, i) && WordEndAt(s, i + |w|)
    ensures w == s[i..i + RunLength(s, i, IsWordChar)]
  {
    WordCharsAt(s, i, w);
    RunLengthUnique(s, i, |w|, IsWordChar);
  }

  lemma WholeWordMatches(s: string, i: nat, w: string)
    requires i <= |s| && w == s[i..i + RunLength(s, i, IsWordChar)]
    ensures IsPrefixAt(w, s, i) && WordEndAt(s, i + |w|)
  {
  }

  /** At the start of a word, the pattern matches exactly that whole word,
      and only if it is an alternative. */
  lemma WordAtWordStart(s: string, i: nat, alts: seq<string>)
    requires WordAlternatives(alts)
    requires i < |s| && IsWordChar(s[i]) && WordStartAt(s, i)
    ensures var t := s[i..i + RunLength(s, i, IsWordChar)];
      WordAt(s, i, alts) == if t in alts then Some(t) else None
  {
    var t := s[i..i + RunLength(s, i, IsWordChar)];
    forall k | 0 <= k < |alts|
      ensures IsPrefixAt(alts[k], s, i) && WordEndAt(s, i + |alts[k]|) <==> alts[k] == t
    {
      AlternativeMatchesWholeWord(s, i, alts[k]);
    }
    FirstAlternativeIs(s, i, alts, t);
  }

  /** At the start of a word the scan takes the word if it is an
      alternative, and in either case resumes after the word. */
  lemma FindAllAtWord(s: string, i: nat, alts: seq<string>)
    requires WordAlternatives(alts)
    requires i < |s| && IsWordChar(s[i]) && WordStartAt(s, i)
    ensures var n := RunLength(s, i, IsWordChar);
      var t := s[i..i + n];
      FindAllFrom(s, i, alts) == (if t in alts then [t] else []) + FindAllFrom(s, i + n, alts)
  {
    var n := RunLength(s, i, IsWordChar);
    var t := s[i..i + n];
    WordAtWordStart(s, i, alts);
    if t !in alts && n > 1 {
      SkipWordTail(s, i, n, i + 1, alts);
    }
  }

  /** Inside a word no match can start. */
  lemma {:induction false} SkipWordTail(s: string, i: nat, n: nat, j: nat, alts: seq<string>)
    requires WordAlternatives(alts)
    requires i < j <= i + n <= |s|
    requires forall k :: i <= k < i + n ==> IsWordChar(s[k])
    ensures FindAllFrom(s, j, alts) == FindAllFrom(s, i + n, alts)
    decreases i + n - j
  {
    if j < i + n {
      assert IsWordChar(s[j - 1]);
      SkipWordTail(s, i, n, j + 1, alts);
    }
  }

  /** At a position where no word is cut in two, scanning with the regex
      and keeping the alternatives among the words agree. */
  lemma {:induction false} FindAllIsWordFilter(s: string, i: nat, alts: seq<string>)
    requires WordAlternatives(alts)
    requires i <= |s|
    requires i == 0 || i == |s| || !IsWordChar(s[i - 1]) || !IsWordChar(s[i])
    ensures FindAllFrom(s, i, alts) == KeepIn(WordsFrom(s, i), alts)
    decreases |s| - i
  {
    if i == |s| {
      assert WordAt(s, i, alts).None?;
      assert FindAllFrom(s, i, alts) == FindAllFrom(s, i + 1, alts) == [];
      assert FindAllFrom(s, i, alts) == KeepIn(WordsFrom(s, i), alts);
    } else if !IsWordChar(s[i]) {
      assert WordAt(s, i, alts).None?;
      assert FindAllFrom(s, i, alts) == FindAllFrom(s, i + 1, alts);
      assert WordsFrom(s, i) == WordsFrom(s, i + 1);
      FindAllIsWordFilter(s, i + 1, alts);
      assert FindAllFrom(s, i, alts) == KeepIn(WordsFrom(s, i), alts);
    } else {
      var n := RunLength(s, i, IsWordChar);
      var t := s[i..i + n];
      var ws := WordsFrom(s, i + n);
      assert WordsFrom(s, i) == [t] + ws;
      FindAllAtWord(s, i, alts);
      KeepInCons(t, ws, alts);
      assert i + n == |s| || !IsWordChar(s[i + n]);
      FindAllIsWordFilter(s, i + n, alts);
      assert FindAllFrom(s, i, alts) == KeepIn(WordsFrom(s, i), alts);
    }
  }

  /** The lexicon words of the text, in order, repeats kept. */
  function LexiconWords(low: string): seq<string>
  {
    AlternativesAreLexicon();
    FindAllFrom(low, 0, Alternatives)
  }

  /** The words `re.findall` returns are the words of the text (maximal
      runs of word characters) that are in the lexicon, in order of
      occurrence and with repeats. */
  lemma LexiconWordsAreWordSplit(low: string)
    ensures forall k :: 0 <= k < |LexiconWords(low)| ==> LexiconWords(low)[k] in Lexicon
    ensures LexiconWords(low) == KeepIn(WordsFrom(low, 0), Alternatives)
  {
    AlternativesAreLexicon();
    FindAllIsWordFilter(low, 0, Alternatives);
  }

  /** Joining non-empty words that start and end without whitespace
      leaves no whitespace at either end. */
  lemma {:induction false} JoinTrimmed(ws: seq<string>)
    requires forall k :: 0 <= k < |ws| ==> |ws[k]| > 0 && Trimmed(ws[k])
    ensures Trimmed(Join(ws, " "))
    ensures |ws| > 0 ==> |Join(ws, " ")| > 0
    decreases |ws|
  {
    if |ws| > 1 {
      JoinTrimmed(ws[1..]);
      var rest := Join(ws[1..], " ");
      assert Join(ws, " ") == ws[0] + " " + rest;
      assert (ws[0] + " " + rest)[0] == ws[0][0];
      assert (ws[0] + " " + rest)[|ws[0] + " " + rest| - 1] == rest[|rest| - 1];
    }
  }

  /** The description the fallback reports: the pattern description, or
      else the lexicon words joined by single spaces. */
  function FallbackDescription(input: string): (d: string)
    ensures Trimmed(d)
  {
    var low := Lower(input);
    var pd := PatternDescription(low);
    if pd != "" then pd
    else
      LexiconJoinTrimmed(low);
      Join(LexiconWords(low), " ")
  }

  lemma LexiconJoinTrimmed(low: string)
    ensures Trimmed(Join(LexiconWords(low), " "))
  {
    var ws := LexiconWords(low);
    LexiconWordsAreWordSplit(low);
    LexiconIsWords();
    assert forall k :: 0 <= k < |ws| ==> ws[k] in Lexicon;
    JoinTrimmed(ws);
  }

  /** The fallback description, read off the lower-cased input: the
      stripped capture of the first "description" pattern, unless there is
      none or it strips to nothing; then the lexicon words among the
      input's words, in order and with repeats, joined by single spaces. */
  lemma FallbackDescriptionMeaning(input: string)
    ensures var low := Lower(input);
      var listed := Join(KeepIn(WordsFrom(low, 0), Alternatives), " ");
      FallbackDescription(input) ==
        match FindDescription(low)
        case Some(h) => if Strip(h.capture) != "" then Strip(h.capture) else listed
        case None => listed
  {
    var low := Lower(input);
    SecondPatternRedundant(low);
    LexiconWordsAreWordSplit(low);
  }

  /** Lower-casing keeps the sentence terminators where they were, so the
      description patterns cut the lower-cased text where the input has
      its `.`, `!` and `?`. */
  lemma LowerKeepsTerminators(s: string)
    ensures forall i :: 0 <= i < |s| ==> (IsNotTerminator(Lower(s)[i]) <==> IsNotTerminator(s[i]))
  {
  }

  /** The noun list is joined with single spaces: splitting the joined
      text on ' ' gives back exactly the nouns found. */
  lemma LexiconJoinSplits(low: string)
    requires |LexiconWords(low)| > 0
    ensures SplitOn(Join(LexiconWords(low), " "), ' ') == LexiconWords(low)
  {
    var ws := LexiconWords(low);
    LexiconWordsAreWordSplit(low);
    LexiconIsWords();
    forall k, i | 0 <= k < |ws| && 0 <= i < |ws[k]| ensures ws[k][i] != ' ' {
      assert ws[k] in Lexicon;
      assert IsWordChar(ws[k][i]);
    }
    JoinSplitRoundTrip(ws, ' ');
  }
}

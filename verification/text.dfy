/** String helpers shared by the extraction stages: Python's whitespace
    classification and `str.strip`, `str.replace`, prefix tests, the
    regex character classes the fixed patterns use, and a leftmost
    search that mirrors `re.search` over match positions. */
module Text {

  datatype Option<+T> = None | Some(value: T)

  /** A match found by `Search`: where it starts and what it captured. */
  datatype Hit<+T> = Hit(pos: nat, capture: T)

  /** Python's `str.isspace` (and the `\s` class of a `str` pattern): the
      characters whose bidirectional class is WS, B or S, or whose general
      category is Zs. */
  predicate IsSpace(c: char) {
    var n := c as int;
    (9 <= n <= 13) || (28 <= n <= 32) || n == 0x85 || n == 0xA0 || n == 0x1680
    || (0x2000 <= n <= 0x200A) || n == 0x2028 || n == 0x2029 || n == 0x202F
    || n == 0x205F || n == 0x3000
  }

  /** On ASCII the whitespace is tab, line feed, vertical tab, form feed,
      carriage return, the four separators 0x1C-0x1F and the space. */
  lemma AsciiSpaces(c: char)
    requires c as int < 128
    ensures IsSpace(c) <==> c in "\t\n\U{000B}\U{000C}\r\U{001C}\U{001D}\U{001E}\U{001F} "
  {
  }

  /** Every character of `s[i..j]` is whitespace. */
  predicate SpaceBetween(s: string, i: nat, j: nat)
    requires i <= j <= |s|
  {
    forall k :: i <= k < j ==> IsSpace(s[k])
  }

  /** No whitespace at either end (vacuously true of the empty string). */
  predicate Trimmed(s: string) {
    |s| == 0 || (!IsSpace(s[0]) && !IsSpace(s[|s| - 1]))
  }

  /** Number of whitespace characters `str.lstrip()` would remove. */
  function LeadingSpaces(s: string): (a: nat)
    ensures a <= |s| && SpaceBetween(s, 0, a)
    ensures a == |s| || !IsSpace(s[a])
  {
    RunLength(s, 0, IsSpace)
  }

  function TrimEnd(s: string, a: nat, b: nat): (e: nat)
    requires a <= b <= |s|
    ensures a <= e <= b && SpaceBetween(s, e, b)
    ensures e == a || !IsSpace(s[e - 1])
    decreases b
  {
    if a < b && IsSpace(s[b - 1]) then TrimEnd(s, a, b - 1) else b
  }

  /** Python's `str.strip()` with no argument: the infix of `s` left once
      the whitespace at both ends is cut off. */
  function Strip(s: string): (r: string)
    ensures Trimmed(r)
    ensures LeadingSpaces(s) + |r| <= |s|
    ensures r == s[LeadingSpaces(s)..LeadingSpaces(s) + |r|]
    ensures SpaceBetween(s, LeadingSpaces(s) + |r|, |s|)
  {
    var a := LeadingSpaces(s);
    s[a..TrimEnd(s, a, |s|)]
  }

  /** Cutting whitespace from both ends leaves exactly one possible
      result: any trimmed infix `r == s[a..b]` framed by whitespace is
      `Strip(s)`. */
  lemma StripUnique(s: string, a: nat, b: nat, r: string)
    requires a <= b <= |s| && r == s[a..b]
    requires SpaceBetween(s, 0, a) && SpaceBetween(s, b, |s|) && Trimmed(r)
    ensures Strip(s) == r
  {
    var t := Strip(s);
    var e := LeadingSpaces(s) + |t|;
    if a < b {
      assert r[0] == s[a];
      RunLengthUnique(s, 0, a, IsSpace);
      assert LeadingSpaces(s) == a;
      assert r[b - 1 - a] == s[b - 1];
      assert e > a ==> t[|t| - 1] == s[e - 1];
      if e < b {
        assert false;
      }
      if e > b {
        assert false;
      }
    } else {
      RunLengthUnique(s, 0, |s|, IsSpace);
    }
  }

  /** Whitespace in front of a text does not change its strip. */
  lemma StripSkipsSpace(t: string, w: nat, c: string)
    requires w <= |t| && SpaceBetween(t, 0, w) && c == t[w..]
    ensures Strip(c) == Strip(t)
  {
    var a := LeadingSpaces(c);
    var r := Strip(c);
    SpaceInSuffix(t, w, c, 0, a);
    SpaceInSuffix(t, w, c, a + |r|, |c|);
    InfixOfSuffix(t, w, c, a, a + |r|, r);
    StripUnique(t, w + a, w + a + |r|, r);
  }

  lemma SpaceInSuffix(t: string, w: nat, c: string, x: nat, y: nat)
    requires w <= |t| && c == t[w..] && x <= y <= |c| && SpaceBetween(c, x, y)
    requires x == 0 ==> SpaceBetween(t, 0, w)
    ensures x == 0 ==> SpaceBetween(t, 0, w + y)
    ensures SpaceBetween(t, w + x, w + y)
  {
    assert forall k :: w + x <= k < w + y ==> t[k] == c[k - w];
  }

  lemma InfixOfSuffix(t: string, w: nat, c: string, x: nat, y: nat, r: string)
    requires w <= |t| && c == t[w..] && x <= y <= |c| && r == c[x..y]
    ensures r == t[w + x..w + y]
  {
  }

  /** Stripping is idempotent. */
  lemma StripIdempotent(s: string)
    ensures Strip(Strip(s)) == Strip(s)
  {
    var r := Strip(s);
    assert r[0..|r|] == r;
    StripUnique(r, 0, |r|, r);
  }

  predicate IsPrefix(p: string, s: string) {
    |p| <= |s| && s[..|p|] == p
  }

  /** Python's `str.startswith` for the substring starting at `i`. */
  predicate IsPrefixAt(p: string, s: string, i: nat) {
    i + |p| <= |s| && s[i..i + |p|] == p
  }

  predicate IsSuffix(p: string, s: string) {
    |p| <= |s| && s[|s| - |p|..] == p
  }

  /** Python's `str.replace(pat, rep)`: occurrences are found left to
      right and never overlap. */
  function ReplaceAll(s: string, pat: string, rep: string): string
    requires |pat| > 0
    decreases |s|
  {
    if |s| == 0 then s
    else if IsPrefix(pat, s) then rep + ReplaceAll(s[|pat|..], pat, rep)
    else [s[0]] + ReplaceAll(s[1..], pat, rep)
  }

  /** Replacing a pattern by itself changes nothing. */
  lemma {:induction false} ReplaceSelfIsIdentity(s: string, pat: string)
    requires |pat| > 0
    ensures ReplaceAll(s, pat, pat) == s
    decreases |s|
  {
    if |s| == 0 {
    } else if IsPrefix(pat, s) {
      ReplaceSelfIsIdentity(s[|pat|..], pat);
      assert s == pat + s[|pat|..];
    } else {
      ReplaceSelfIsIdentity(s[1..], pat);
      assert s == [s[0]] + s[1..];
    }
  }

  /** A pattern that does not occur leaves the string unchanged. */
  lemma {:induction false} ReplaceAbsentIsIdentity(s: string, pat: string, rep: string)
    requires |pat| > 0
    requires forall i :: 0 <= i <= |s| ==> !IsPrefixAt(pat, s, i)
    ensures ReplaceAll(s, pat, rep) == s
    decreases |s|
  {
    if |s| == 0 {
    } else {
      assert !IsPrefixAt(pat, s, 0);
      assert !IsPrefix(pat, s) by {
        if |pat| <= |s| { assert s[0..|pat|] == s[..|pat|]; }
      }
      forall i | 0 <= i <= |s[1..]|
        ensures !IsPrefixAt(pat, s[1..], i)
      {
        assert !IsPrefixAt(pat, s, i + 1);
        if i + |pat| <= |s[1..]| {
          assert s[1..][i..i + |pat|] == s[i + 1..i + 1 + |pat|];
        }
      }
      ReplaceAbsentIsIdentity(s[1..], pat, rep);
      assert s == [s[0]] + s[1..];
    }
  }

  /** `s` with every occurrence of `c` deleted. */
  function Without(s: string, c: char): (r: string)
    ensures |r| <= |s|
    ensures forall i :: 0 <= i < |r| ==> r[i] != c
  {
    if |s| == 0 then s
    else if s[0] == c then Without(s[1..], c)
    else [s[0]] + Without(s[1..], c)
  }

  lemma WithoutAppend(a: string, b: string, c: char)
    ensures Without(a + b, c) == Without(a, c) + Without(b, c)
  {
    if |a| == 0 {
      assert a + b == b;
    } else {
      assert (a + b)[1..] == a[1..] + b;
    }
  }

  const BackslashQuote: string := "\\\""
  const Quote: string := "\""

  /** Turning `\"` into `"` only ever deletes backslashes: with the
      backslashes taken out, input and output agree character for
      character, and the output is never longer. */
  lemma {:induction false} UnescapeDeletesOnlyBackslashes(s: string)
    ensures Without(ReplaceAll(s, BackslashQuote, Quote), '\\') == Without(s, '\\')
    ensures |ReplaceAll(s, BackslashQuote, Quote)| <= |s|
    decreases |s|
  {
    if |s| == 0 {
    } else if IsPrefix(BackslashQuote, s) {
      var rest := s[2..];
      UnescapeDeletesOnlyBackslashes(rest);
      assert s == BackslashQuote + rest;
      WithoutAppend(BackslashQuote, rest, '\\');
      WithoutAppend(Quote, ReplaceAll(rest, BackslashQuote, Quote), '\\');
    } else {
      UnescapeDeletesOnlyBackslashes(s[1..]);
      assert s == [s[0]] + s[1..];
      WithoutAppend([s[0]], s[1..], '\\');
      WithoutAppend([s[0]], ReplaceAll(s[1..], BackslashQuote, Quote), '\\');
    }
  }

  /** Every `\"` becomes `"`: un-escaping a text around one `\"` un-escapes
      each side on its own and puts a bare quote between them. With
      `ReplaceAbsentIsIdentity` for the pieces free of `\"`, this fixes
      the result for every input. */
  lemma {:induction false} UnescapeSplits(a: string, b: string)
    ensures ReplaceAll(a + BackslashQuote + b, BackslashQuote, Quote) ==
      ReplaceAll(a, BackslashQuote, Quote) + Quote + ReplaceAll(b, BackslashQuote, Quote)
    decreases |a|
  {
    if |a| == 0 {
      assert a + BackslashQuote + b == BackslashQuote + b;
      UnescapeAtFront(b);
    } else if IsPrefix(BackslashQuote, a) {
      UnescapeSplits(a[2..], b);
      assert a == BackslashQuote + a[2..];
      SplitsAfterEscape(a[2..], b);
    } else {
      UnescapeSplits(a[1..], b);
      assert a == [a[0]] + a[1..];
      assert !(a[0] == '\\' && |a| > 1 && a[1] == '"') by {
        if |a| > 1 { assert a[..2] == [a[0], a[1]]; }
      }
      SplitsAfterChar(a[0], a[1..], b);
    }
  }

  /** One step of `UnescapeSplits`: a `\"` in front of the left side. */
  lemma SplitsAfterEscape(t: string, b: string)
    requires ReplaceAll(t + BackslashQuote + b, BackslashQuote, Quote) ==
      ReplaceAll(t, BackslashQuote, Quote) + Quote + ReplaceAll(b, BackslashQuote, Quote)
    ensures ReplaceAll(BackslashQuote + t + BackslashQuote + b, BackslashQuote, Quote) ==
      ReplaceAll(BackslashQuote + t, BackslashQuote, Quote) + Quote + ReplaceAll(b, BackslashQuote, Quote)
  {
    var u := t + BackslashQuote + b;
    ConsAssoc(BackslashQuote, t, b);
    UnescapeAtFront(t);
    UnescapeAtFront(u);
  }

  /** One step of `UnescapeSplits`: a character in front of the left side
      that does not open a `\"`. */
  lemma SplitsAfterChar(c: char, t: string, b: string)
    requires !(c == '\\' && |t| > 0 && t[0] == '"')
    requires ReplaceAll(t + BackslashQuote + b, BackslashQuote, Quote) ==
      ReplaceAll(t, BackslashQuote, Quote) + Quote + ReplaceAll(b, BackslashQuote, Quote)
    ensures ReplaceAll([c] + t + BackslashQuote + b, BackslashQuote, Quote) ==
      ReplaceAll([c] + t, BackslashQuote, Quote) + Quote + ReplaceAll(b, BackslashQuote, Quote)
  {
    var u := t + BackslashQuote + b;
    ConsAssoc([c], t, b);
    FrontOfQuoted(t, b);
    UnescapeSkipsFront(c, t);
    UnescapeSkipsFront(c, u);
  }

  lemma ConsAssoc(p: string, t: string, b: string)
    ensures p + t + BackslashQuote + b == p + (t + BackslashQuote + b)
  {
  }

  lemma FrontOfQuoted(t: string, b: string)
    ensures var u := t + BackslashQuote + b;
      |u| > 0 && u[0] == (if |t| == 0 then '\\' else t[0])
  {
  }

  /** A leading `\"` becomes `"`. */
  lemma UnescapeAtFront(t: string)
    ensures ReplaceAll(BackslashQuote + t, BackslashQuote, Quote) ==
      Quote + ReplaceAll(t, BackslashQuote, Quote)
  {
    var s := BackslashQuote + t;
    assert IsPrefix(BackslashQuote, s) && s[2..] == t;
  }

  /** A first character that does not open a `\"` is kept. */
  lemma UnescapeSkipsFront(c: char, t: string)
    requires !(c == '\\' && |t| > 0 && t[0] == '"')
    ensures ReplaceAll([c] + t, BackslashQuote, Quote) ==
      [c] + ReplaceAll(t, BackslashQuote, Quote)
  {
    var s := [c] + t;
    assert !IsPrefix(BackslashQuote, s) by {
      if |s| >= 2 { assert s[..2][0] == c && s[..2][1] == t[0]; }
    }
    assert s[1..] == t;
  }

  /** `j` with the double quotes at the marked positions written as `\"`:
      a reply whose quotes were escaped, all of them or only some. */
  function EscapeQuotes(j: string, marks: seq<bool>): (r: string)
    requires |marks| == |j|
    ensures |r| >= |j|
    ensures |j| > 0 ==> r[0] == (if j[0] == '"' && marks[0] then '\\' else j[0])
    ensures |j| > 0 ==> r[|r| - 1] == j[|j| - 1]
    decreases |j|
  {
    if |j| == 0 then j
    else (if j[0] == '"' && marks[0] then BackslashQuote else [j[0]]) + EscapeQuotes(j[1..], marks[1..])
  }

  /** Un-escaping recovers a text with no `\"` of its own from any partial
      escaping of its quotes. */
  lemma {:induction false} UnescapeInvertsEscape(j: string, marks: seq<bool>)
    requires |marks| == |j|
    requires NoEscapedQuote(j)
    ensures ReplaceAll(EscapeQuotes(j, marks), BackslashQuote, Quote) == j
    decreases |j|
  {
    if |j| > 0 {
      NoEscapedQuoteTail(j);
      UnescapeInvertsEscape(j[1..], marks[1..]);
      var rest := EscapeQuotes(j[1..], marks[1..]);
      if j[0] == '"' && marks[0] {
        UnescapeAtFront(rest);
      } else {
        EscapedTailFront(j, marks);
        UnescapeSkipsFront(j[0], rest);
      }
      assert j == [j[0]] + j[1..];
    }
  }

  /** `s` holds no `\"`. */
  predicate NoEscapedQuote(s: string) {
    forall i :: 0 <= i <= |s| ==> !IsPrefixAt(BackslashQuote, s, i)
  }

  lemma NoEscapedQuoteTail(j: string)
    requires |j| > 0 && NoEscapedQuote(j)
    ensures NoEscapedQuote(j[1..])
  {
    forall i | 0 <= i <= |j[1..]|
      ensures !IsPrefixAt(BackslashQuote, j[1..], i)
    {
      assert !IsPrefixAt(BackslashQuote, j, i + 1);
      if i + 2 <= |j[1..]| {
        assert j[1..][i..i + 2] == j[i + 1..i + 3];
      }
    }
  }

  /** Past a character kept as it is, the escaped rest of a text with no
      `\"` cannot complete a `\"` with it. */
  lemma EscapedTailFront(j: string, marks: seq<bool>)
    requires |marks| == |j| && |j| > 0 && NoEscapedQuote(j)
    requires !(j[0] == '"' && marks[0])
    ensures var rest := EscapeQuotes(j[1..], marks[1..]);
      !(j[0] == '\\' && |rest| > 0 && rest[0] == '"')
  {
    if j[0] == '\\' && |j| > 1 {
      assert !IsPrefixAt(BackslashQuote, j, 0);
      assert j[0..2] == [j[0], j[1]];
    }
  }

  predicate IsDigit(c: char) { '0' <= c <= '9' }

  predicate AllDigits(s: string) {
    forall i :: 0 <= i < |s| ==> IsDigit(s[i])
  }

  /** Digits are not whitespace, so a digit string is its own strip. */
  lemma DigitsAreTrimmed(s: string)
    requires AllDigits(s)
    ensures Trimmed(s)
  {
    if |s| > 0 {
      assert IsDigit(s[0]) && IsDigit(s[|s| - 1]);
    }
  }

  /** The `\w` class, restricted to ASCII: letters, digits and `_`. */
  predicate IsWordChar(c: char) {
    IsDigit(c) || ('a' <= c <= 'z') || ('A' <= c <= 'Z') || c == '_'
  }

  /** `\b` before position `i`, given that `s[i]` is a word character. */
  predicate WordStartAt(s: string, i: nat)
    requires i <= |s|
  {
    i == 0 || !IsWordChar(s[i - 1])
  }

  /** `\b` at position `e`, given that `s[e-1]` is a word character. */
  predicate WordEndAt(s: string, e: nat)
    requires e <= |s|
  {
    e == |s| || !IsWordChar(s[e])
  }

  /** Length of the longest run of characters satisfying `p` starting at `i`. */
  function RunLength(s: string, i: nat, p: char -> bool): (n: nat)
    requires i <= |s|
    ensures i + n <= |s|
    ensures forall k :: i <= k < i + n ==> p(s[k])
    ensures i + n == |s| || !p(s[i + n])
    decreases |s| - i
  {
    if i < |s| && p(s[i]) then 1 + RunLength(s, i + 1, p) else 0
  }

  /** A run of characters satisfying `p` that `p` cannot extend has the
      length `RunLength` reports. */
  lemma {:induction false} RunLengthUnique(s: string, i: nat, n: nat, p: char -> bool)
    requires i + n <= |s|
    requires forall k :: i <= k < i + n ==> p(s[k])
    requires i + n == |s| || !p(s[i + n])
    ensures RunLength(s, i, p) == n
    decreases n
  {
    if n > 0 {
      RunLengthUnique(s, i + 1, n - 1, p);
    }
  }

  predicate IsUpper(c: char) { 'A' <= c <= 'Z' }

  /** Python's `str.lower()`, restricted to ASCII letters. No capital is
      left; every other character stays where it was, so digits,
      whitespace, word characters and punctuation sit at the same places
      as in the input; a capital becomes its own small letter. */
  function Lower(s: string): (r: string)
    ensures |r| == |s|
    ensures forall i :: 0 <= i < |r| ==> !IsUpper(r[i])
    ensures forall i :: 0 <= i < |s| && !IsUpper(s[i]) ==> r[i] == s[i]
    ensures forall i :: 0 <= i < |s| && IsUpper(s[i]) ==>
      'a' <= r[i] <= 'z' && r[i] as int - s[i] as int == 'a' as int - 'A' as int
    ensures forall i :: 0 <= i < |s| ==>
      && (IsDigit(r[i]) <==> IsDigit(s[i]))
      && (IsSpace(r[i]) <==> IsSpace(s[i]))
      && (IsWordChar(r[i]) <==> IsWordChar(s[i]))
  {
    seq(|s|, i requires 0 <= i < |s| =>
      if IsUpper(s[i]) then (s[i] as int + 32) as char else s[i])
  }

  /** Lower-casing twice is lower-casing once. */
  lemma LowerIdempotent(s: string)
    ensures Lower(Lower(s)) == Lower(s)
  {
    var r := Lower(s);
    assert forall i :: 0 <= i < |r| ==> Lower(r)[i] == r[i];
  }

  /** Python's `sep.join(words)`. */
  function Join(words: seq<string>, sep: string): (r: string)
    ensures |words| == 0 ==> r == ""
    ensures |words| == 1 ==> r == words[0]
    decreases |words|
  {
    if |words| == 0 then ""
    else if |words| == 1 then words[0]
    else words[0] + sep + Join(words[1..], sep)
  }

  /** Python's `s.split(c)` for a one-character separator: the pieces
      between separators, an empty piece wherever two are adjacent or one
      is at an end; the empty text is one empty piece. */
  function SplitOn(s: string, c: char): (r: seq<string>)
    ensures |r| > 0
    decreases |s|
  {
    if |s| == 0 then [""]
    else if s[0] == c then [""] + SplitOn(s[1..], c)
    else
      var rest := SplitOn(s[1..], c);
      [[s[0]] + rest[0]] + rest[1..]
  }

  /** A separator-free word in front of a text joins the first piece. */
  lemma {:induction false} SplitAfterWord(w: string, t: string, c: char)
    requires forall i :: 0 <= i < |w| ==> w[i] != c
    ensures SplitOn(w + t, c) == [w + SplitOn(t, c)[0]] + SplitOn(t, c)[1..]
    decreases |w|
  {
    var x := SplitOn(t, c);
    if |w| == 0 {
      assert w + t == t;
      assert w + x[0] == x[0];
      assert [x[0]] + x[1..] == x;
    } else {
      assert (w + t)[0] == w[0];
      assert (w + t)[1..] == w[1..] + t;
      SplitAfterWord(w[1..], t, c);
      assert [w[0]] + (w[1..] + x[0]) == w + x[0];
    }
  }

  /** Joining separator-free words with `c` and splitting on `c` gives
      the words back, so the join puts exactly one separator between
      consecutive words and none anywhere else. */
  lemma {:induction false} JoinSplitRoundTrip(ws: seq<string>, c: char)
    requires |ws| > 0
    requires forall k, i :: 0 <= k < |ws| && 0 <= i < |ws[k]| ==> ws[k][i] != c
    ensures SplitOn(Join(ws, [c]), c) == ws
    decreases |ws|
  {
    var w := ws[0];
    if |ws| == 1 {
      SplitAfterWord(w, "", c);
      assert w + "" == w;
    } else {
      var rest := Join(ws[1..], [c]);
      JoinSplitRoundTrip(ws[1..], c);
      var t := [c] + rest;
      SplitAfterWord(w, t, c);
      assert t[0] == c && t[1..] == rest;
      assert SplitOn(t, c) == [""] + SplitOn(rest, c);
      assert SplitOn(t, c)[0] == "" && SplitOn(t, c)[1..] == ws[1..];
      assert w + "" == w;
      assert Join(ws, [c]) == w + t;
      assert ws == [w] + ws[1..];
    }
  }

  /** The leftmost position in `from..n` at which `at` matches, the way
      `re.search` tries each start position in turn. */
  function Search<T>(n: nat, at: nat -> Option<T>, from: nat): (r: Option<Hit<T>>)
    ensures r.Some? ==> from <= r.value.pos <= n && at(r.value.pos) == Some(r.value.capture)
    ensures r.Some? ==> forall j :: from <= j < r.value.pos ==> at(j).None?
    ensures r.None? ==> forall j :: from <= j <= n ==> at(j).None?
    decreases n + 1 - from
  {
    if from > n then None
    else match at(from)
      case Some(c) => Some(Hit(from, c))
      case None => Search(n, at, from + 1)
  }
}

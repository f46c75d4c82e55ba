/** Stage 3 of the reply parser: the "aggressive cleaning" applied to
    the model's reply before a second `json.loads` attempt. */
module Cleaning {
  import opened Text

  const JsonFence: string := "```json"
  const Fence: string := "```"

  /** Drop a leading "```json", then a leading "```", then
      a trailing "```", each only if present. Only the ends are cut: at
      most ten characters in front and three behind. */
  function StripFences(c: string): (r: string)
    ensures exists a: nat, b: nat :: a <= 10 && b <= 3 && CutEnds(c, a, b, r)
  {
    var a1 := if IsPrefix(JsonFence, c) then 7 else 0;
    var c1 := c[a1..];
    var a2 := if IsPrefix(Fence, c1) then 3 else 0;
    var c2 := c1[a2..];
    var b := if IsSuffix(Fence, c2) then 3 else 0;
    assert c2 == c[a1 + a2..];
    assert CutEnds(c, a1 + a2, b, c2[..|c2| - b]);
    c2[..|c2| - b]
  }

  /** `r` is `c` with `a` characters cut in front and `b` behind. */
  predicate CutEnds(c: string, a: nat, b: nat, r: string) {
    a + b <= |c| && r == c[a..|c| - b]
  }

  /** Position of the first `c` in `s` at or after `from`. */
  function FirstIndexOf(s: string, c: char, from: nat): (r: Option<nat>)
    requires from <= |s|
    ensures r.Some? ==> from <= r.value < |s| && s[r.value] == c
    ensures r.Some? ==> forall k :: from <= k < r.value ==> s[k] != c
    ensures r.None? ==> forall k :: from <= k < |s| ==> s[k] != c
    decreases |s| - from
  {
    if from == |s| then None
    else if s[from] == c then Some(from)
    else FirstIndexOf(s, c, from + 1)
  }

  /** Position of the last `c` in `s`. */
  function LastIndexOf(s: string, c: char): (r: Option<nat>)
    ensures r.Some? ==> r.value < |s| && s[r.value] == c
    ensures r.Some? ==> forall k :: r.value < k < |s| ==> s[k] != c
    ensures r.None? ==> forall k :: 0 <= k < |s| ==> s[k] != c
    decreases |s|
  {
    if |s| == 0 then None
    else if s[|s| - 1] == c then Some(|s| - 1)
    else LastIndexOf(s[..|s| - 1], c)
  }

  /** `re.search(r'(\{.*\})', s, re.DOTALL)`: the leftmost `{` that has a
      `}` somewhere after it, and, `.*` being greedy, the last `}`. The
      match exists exactly when some `{` precedes some `}`. */
  function BraceSpan(s: string): (r: Option<Hit<string>>)
    ensures r.None? <==> forall i, j :: 0 <= i < j < |s| && s[i] == '{' ==> s[j] != '}'
    ensures r.Some? ==>
      var i, t := r.value.pos, r.value.capture;
      && i + |t| <= |s| && t == s[i..i + |t|]
      && |t| >= 2 && t[0] == '{' && t[|t| - 1] == '}'
      && (forall k :: 0 <= k < i ==> s[k] != '{')
      && (forall k :: i + |t| <= k < |s| ==> s[k] != '}')
  {
    match (FirstIndexOf(s, '{', 0), LastIndexOf(s, '}'))
    case (Some(i), Some(j)) =>
      if i < j then Some(Hit(i, s[i..j + 1])) else None
    case _ => None
  }

  /** Keep the brace span if there is one, otherwise the whole text. */
  function SpanOrSelf(c: string): string {
    match BraceSpan(c)
    case Some(h) => h.capture
    case None => c
  }

  /** The escape repair as written: `\"` becomes `"`, then four
      replacements that each put a quoted key back in place of itself,
      then a strip. */
  function RepairEscapes(c: string): string {
    var c1 := ReplaceAll(c, BackslashQuote, Quote);
    var c2 := ReplaceAll(c1, "\"upc\"", "\"upc\"");
    var c3 := ReplaceAll(c2, "\"description\"", "\"description\"");
    var c4 := ReplaceAll(c3, "\"confidence\"", "\"confidence\"");
    var c5 := ReplaceAll(c4, "\"found_upc\"", "\"found_upc\"");
    Strip(c5)
  }

  /** The text handed to the second `json.loads`: stripped, unfenced,
      cut to its brace span and repaired, in that order. */
  function Clean(content: string): string {
    RepairEscapes(SpanOrSelf(StripFences(Strip(content))))
  }

  /** The four key replacements are no-ops: only the un-escaping of `\"`
      and the final strip have any effect. */
  lemma RepairIgnoresKeyReplacements(c: string)
    ensures RepairEscapes(c) == Strip(ReplaceAll(c, BackslashQuote, Quote))
  {
    var c1 := ReplaceAll(c, BackslashQuote, Quote);
    ReplaceSelfIsIdentity(c1, "\"upc\"");
    ReplaceSelfIsIdentity(c1, "\"description\"");
    ReplaceSelfIsIdentity(c1, "\"confidence\"");
    ReplaceSelfIsIdentity(c1, "\"found_upc\"");
  }

  /** A text that already looks like a bare JSON object: it opens with `{`,
      closes with `}` and holds no `\"`. */
  predicate BareObject(j: string) {
    && |j| >= 2 && j[0] == '{' && j[|j| - 1] == '}'
    && NoEscapedQuote(j)
  }

  /** Text with no `{` before the object and no `}` after it does not
      disturb the brace span: it is exactly the object. */
  lemma SpanOfFramed(p: string, j: string, q: string)
    requires |j| >= 2 && j[0] == '{' && j[|j| - 1] == '}'
    requires forall k :: 0 <= k < |p| ==> p[k] != '{'
    requires forall k :: 0 <= k < |q| ==> q[k] != '}'
    ensures BraceSpan(p + j + q) == Some(Hit(|p|, j))
  {
    var s := p + j + q;
    assert s[|p|] == '{' && s[|p| + |j| - 1] == '}';
    assert forall k :: 0 <= k < |p| ==> s[k] == p[k];
    assert forall k :: |p| + |j| <= k < |s| ==> s[k] == q[k - |p| - |j|];
    assert FirstIndexOf(s, '{', 0) == Some(|p|);
    assert LastIndexOf(s, '}') == Some(|p| + |j| - 1);
    assert s[|p|..|p| + |j|] == j;
  }

  /** Trimmed text opening with `{` and closing with `}` carries no fence. */
  lemma NoFencesAroundBraces(j: string)
    requires |j| >= 2 && j[0] == '{' && j[|j| - 1] == '}'
    ensures StripFences(j) == j
  {
    assert !IsPrefix(JsonFence, j) by {
      if |j| >= 7 { assert j[..7][0] == j[0]; }
    }
    assert !IsPrefix(Fence, j) by {
      if |j| >= 3 { assert j[..3][0] == j[0]; }
    }
    assert !IsSuffix(Fence, j) by {
      if |j| >= 3 { assert j[|j| - 3..][2] == j[|j| - 1]; }
    }
  }

  /** Repairing escapes leaves a bare object alone. */
  lemma RepairKeepsBareObject(j: string)
    requires BareObject(j)
    ensures RepairEscapes(j) == j
  {
    RepairIgnoresKeyReplacements(j);
    ReplaceAbsentIsIdentity(j, BackslashQuote, Quote);
    assert j[0..|j|] == j;
    StripUnique(j, 0, |j|, j);
  }

  /** A bare object passes through cleaning unchanged. */
  lemma CleanKeepsBareObject(j: string)
    requires BareObject(j)
    ensures Clean(j) == j
  {
    assert j[0..|j|] == j;
    StripUnique(j, 0, |j|, j);
    NoFencesAroundBraces(j);
    SpanOfFramed("", j, "");
    assert "" + j + "" == j;
    RepairKeepsBareObject(j);
  }

  /** Under a "```json" fence, with no `{` or backquote before the object
      and no `}` after it, removing the fences leaves the framed object. */
  lemma FencesAroundFramed(p: string, j: string, q: string)
    requires |j| >= 2 && j[0] == '{'
    requires forall k :: 0 <= k < |p| ==> p[k] != '`'
    ensures StripFences(JsonFence + p + j + q + Fence) == p + j + q
  {
    var s := JsonFence + p + j + q + Fence;
    assert s[..7] == JsonFence;
    var c1 := s[7..];
    assert c1 == p + j + q + Fence;
    assert c1[0] != '`' by {
      if |p| > 0 { assert c1[0] == p[0]; } else { assert c1[0] == j[0]; }
    }
    assert !IsPrefix(Fence, c1) by {
      assert c1[..3][0] == c1[0];
    }
    assert c1[|c1| - 3..] == Fence;
    assert c1[..|c1| - 3] == p + j + q;
  }

  /** Under a plain "```" fence (no language tag), with no backquote
      before the object and no `j` right after the fence, only the plain
      fence and the closing one are cut. */
  lemma FencesAroundPlain(p: string, j: string, q: string)
    requires |j| >= 2 && j[0] == '{'
    requires forall k :: 0 <= k < |p| ==> p[k] != '`'
    requires |p| == 0 || p[0] != 'j'
    ensures StripFences(Fence + p + j + q + Fence) == p + j + q
  {
    var s := Fence + p + j + q + Fence;
    assert s[3] != 'j' by {
      if |p| > 0 { assert s[3] == p[0]; } else { assert s[3] == j[0]; }
    }
    assert !IsPrefix(JsonFence, s) by {
      if |s| >= 7 { assert s[..7][3] == s[3]; }
    }
    assert s[..3] == Fence;
    var c2 := s[3..];
    assert c2 == p + j + q + Fence;
    assert c2[|c2| - 3..] == Fence;
    assert c2[..|c2| - 3] == p + j + q;
  }

  /** A reply opening with "```json```" loses both openings, one after the
      other: first the "```json", then the "```" that follows it. */
  lemma DoubleOpeningFence(t: string)
    ensures StripFences(JsonFence + Fence + t + Fence) == t
  {
    var s := JsonFence + Fence + t + Fence;
    assert s[..7] == JsonFence;
    var c1 := s[7..];
    assert c1 == Fence + t + Fence;
    assert c1[..3] == Fence;
    var c2 := c1[3..];
    assert c2 == t + Fence;
    assert c2[|c2| - 3..] == Fence;
    assert c2[..|c2| - 3] == t;
  }

  /** Text without a backquote carries no fence at all. */
  lemma NoBackquoteNoFences(c: string)
    requires forall k :: 0 <= k < |c| ==> c[k] != '`'
    ensures StripFences(c) == c
  {
    assert !IsPrefix(JsonFence, c) by {
      if |c| >= 7 { assert c[..7][0] == c[0]; }
    }
    assert !IsPrefix(Fence, c) by {
      if |c| >= 3 { assert c[..3][0] == c[0]; }
    }
    assert !IsSuffix(Fence, c) by {
      if |c| >= 3 { assert c[|c| - 3..][2] == c[|c| - 1]; }
    }
  }

  /** A bare object wrapped in a "```json" fence, with any text that has no
      `{` or backquote between the opening fence and the object, and any
      text without `}` between the object and the closing fence, cleans to
      the object itself. */
  lemma CleanUnwrapsFencedObject(p: string, j: string, q: string)
    requires BareObject(j)
    requires forall k :: 0 <= k < |p| ==> p[k] != '{' && p[k] != '`'
    requires forall k :: 0 <= k < |q| ==> q[k] != '}'
    ensures Clean(JsonFence + p + j + q + Fence) == j
  {
    var s := JsonFence + p + j + q + Fence;
    assert s[0] == '`' && s[|s| - 1] == '`';
    assert s[0..|s|] == s;
    StripUnique(s, 0, |s|, s);
    FencesAroundFramed(p, j, q);
    SpanOfFramed(p, j, q);
    RepairKeepsBareObject(j);
  }

  /** The same under a plain "```" fence: the stray text in front must
      also not open with `j`, or "```j..." would not be cut this way. */
  lemma CleanUnwrapsPlainFencedObject(p: string, j: string, q: string)
    requires BareObject(j)
    requires forall k :: 0 <= k < |p| ==> p[k] != '{' && p[k] != '`'
    requires |p| == 0 || p[0] != 'j'
    requires forall k :: 0 <= k < |q| ==> q[k] != '}'
    ensures Clean(Fence + p + j + q + Fence) == j
  {
    var s := Fence + p + j + q + Fence;
    assert s[0] == '`' && s[|s| - 1] == '`';
    assert s[0..|s|] == s;
    StripUnique(s, 0, |s|, s);
    FencesAroundPlain(p, j, q);
    SpanOfFramed(p, j, q);
    RepairKeepsBareObject(j);
  }
  /** Repairing escapes undoes any escaping of a bare object's quotes, all
      of them or only some. */
  lemma RepairUnescapesObject(j: string, marks: seq<bool>)
    requires BareObject(j) && |marks| == |j|
    ensures RepairEscapes(EscapeQuotes(j, marks)) == j
  {
    RepairIgnoresKeyReplacements(EscapeQuotes(j, marks));
    UnescapeInvertsEscape(j, marks);
    assert j[0..|j|] == j;
    StripUnique(j, 0, |j|, j);
  }

  /** A bare object whose quotes were escaped, all or only some, cleans
      back to the object. */
  lemma CleanUnescapesObject(j: string, marks: seq<bool>)
    requires BareObject(j) && |marks| == |j|
    ensures Clean(EscapeQuotes(j, marks)) == j
  {
    var e := EscapeQuotes(j, marks);
    CleanOfBraced(e);
    RepairUnescapesObject(j, marks);
  }

  /** Text opening with `{` and closing with `}` only goes through the
      repair. */
  lemma CleanOfBraced(e: string)
    requires |e| >= 2 && e[0] == '{' && e[|e| - 1] == '}'
    ensures Clean(e) == RepairEscapes(e)
  {
    assert e[0..|e|] == e;
    StripUnique(e, 0, |e|, e);
    NoFencesAroundBraces(e);
    SpanOfFramed("", e, "");
    assert "" + e + "" == e;
  }

  /** The same inside a "```json" fence, with stray text around the
      object as in `CleanUnwrapsFencedObject`. */
  lemma CleanUnwrapsEscapedFencedObject(p: string, j: string, marks: seq<bool>, q: string)
    requires BareObject(j) && |marks| == |j|
    requires forall k :: 0 <= k < |p| ==> p[k] != '{' && p[k] != '`'
    requires forall k :: 0 <= k < |q| ==> q[k] != '}'
    ensures Clean(JsonFence + p + EscapeQuotes(j, marks) + q + Fence) == j
  {
    var e := EscapeQuotes(j, marks);
    assert e[0] == '{' && e[|e| - 1] == '}';
    var s := JsonFence + p + e + q + Fence;
    assert s[0] == '`' && s[|s| - 1] == '`';
    assert s[0..|s|] == s;
    StripUnique(s, 0, |s|, s);
    FencesAroundFramed(p, e, q);
    SpanOfFramed(p, e, q);
    RepairUnescapesObject(j, marks);
  }
}

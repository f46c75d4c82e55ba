/** Stage 4 of the reply parser: pulling the four fields out of a reply
    that no JSON parser accepted, one regular expression per field
    (the field patterns of extraction_tool.py). */
module FieldRegex {
  import opened Text
  import opened JsonData

  /** The quoted key and its colon, as the patterns spell it: `"key":`. */
  function KeyLabel(key: string): string {
    Quote + key + "\":"
  }

  predicate IsNotQuote(c: char) { c != '"' }

  /** `s[m..]` spells the quote-free text `v` and then a `"`. */
  predicate ClosedText(s: string, m: nat, v: string) {
    && m + |v| < |s|
    && s[m..m + |v|] == v
    && (forall n :: 0 <= n < |v| ==> v[n] != '"')
    && s[m + |v|] == '"'
  }

  /** `s[j..]` spells `w` whitespace characters, `"`, and the closed text `v`. */
  predicate QuotedShape(s: string, j: nat, w: nat, v: string) {
    && j + w < |s|
    && SpaceBetween(s, j, j + w)
    && s[j + w] == '"'
    && ClosedText(s, j + w + 1, v)
  }

  /** `s[i..]` spells the key label (`"key":`, see `KeyLabel`), `w`
      whitespace characters, `"`, the quote-free text `v` and a closing
      `"`: one occurrence of the pattern `"key":\s*"([^"]*)"` capturing
      `v`. The patterns are stated for any label, the key's being one. */
  predicate StringFieldShape(s: string, keyLabel: string, i: nat, w: nat, v: string) {
    IsPrefixAt(keyLabel, s, i) && QuotedShape(s, i + |keyLabel|, w, v)
  }

  /** The pattern `"key":\s*"([^"]*)"` tried at position `i`. */
  function StringFieldAt(s: string, keyLabel: string, i: nat): (r: Option<string>)
    ensures r.Some? ==> i + |keyLabel| <= |s|
    ensures r.Some? ==>
      StringFieldShape(s, keyLabel, i, RunLength(s, i + |keyLabel|, IsSpace), r.value)
  {
    if !IsPrefixAt(keyLabel, s, i) then None
    else QuotedAfter(s, i + |keyLabel|)
  }

  /** The `\s*"([^"]*)"` part, tried right after the key at `j`. */
  function QuotedAfter(s: string, j: nat): (r: Option<string>)
    requires j <= |s|
    ensures r.Some? ==> QuotedShape(s, j, RunLength(s, j, IsSpace), r.value)
  {
    var k := j + RunLength(s, j, IsSpace);
    if k < |s| && s[k] == '"' then QuotedText(s, k + 1) else None
  }

  /** The `([^"]*)"` part: the quote-free run at `m`, if a `"` ends it. */
  function QuotedText(s: string, m: nat): (r: Option<string>)
    requires m <= |s|
    ensures r.Some? ==> ClosedText(s, m, r.value)
  {
    var e := m + RunLength(s, m, IsNotQuote);
    if e < |s| then Some(s[m..e]) else None
  }

  lemma QuotedTextComplete(s: string, m: nat, v: string)
    requires ClosedText(s, m, v)
    ensures QuotedText(s, m) == Some(v)
  {
    forall n | m <= n < m + |v| ensures IsNotQuote(s[n]) {
      assert s[n] == s[m..m + |v|][n - m];
    }
    RunLengthUnique(s, m, |v|, IsNotQuote);
  }

  lemma QuotedAfterComplete(s: string, j: nat, w: nat, v: string)
    requires QuotedShape(s, j, w, v)
    ensures QuotedAfter(s, j) == Some(v)
  {
    RunLengthUnique(s, j, w, IsSpace);
    QuotedTextComplete(s, j + w + 1, v);
  }

  /** Every occurrence of the pattern is found: the whitespace and the
      captured text are each as long as they can be, so they are the ones
      the matcher picks. */
  lemma StringFieldComplete(s: string, keyLabel: string, i: nat, w: nat, v: string)
    requires StringFieldShape(s, keyLabel, i, w, v)
    ensures StringFieldAt(s, keyLabel, i) == Some(v)
  {
    QuotedAfterComplete(s, i + |keyLabel|, w, v);
  }

  /** `re.search` for the string-valued field with this key label. */
  function FindString(s: string, keyLabel: string): Option<Hit<string>> {
    Search(|s|, (i: nat) => StringFieldAt(s, keyLabel, i), 0)
  }

  /** `s[j..]` spells `w` whitespace characters and then the word `true`
      or `false` according to `b`. */
  predicate WordShape(s: string, j: nat, w: nat, b: bool) {
    && j + w <= |s|
    && SpaceBetween(s, j, j + w)
    && IsPrefixAt(if b then "true" else "false", s, j + w)
  }

  /** `s[i..]` spells the key label, `w` whitespace characters and then the
      word `true` or `false` according to `b`. */
  predicate BoolFieldShape(s: string, keyLabel: string, i: nat, w: nat, b: bool) {
    IsPrefixAt(keyLabel, s, i) && WordShape(s, i + |keyLabel|, w, b)
  }

  /** The pattern `"key":\s*(true|false)` tried at position `i`; the
      capture is reported as whether it reads `true`. */
  function BoolFieldAt(s: string, keyLabel: string, i: nat): (r: Option<bool>)
    ensures r.Some? ==> i + |keyLabel| <= |s|
    ensures r.Some? ==>
      BoolFieldShape(s, keyLabel, i, RunLength(s, i + |keyLabel|, IsSpace), r.value)
  {
    if !IsPrefixAt(keyLabel, s, i) then None
    else WordAfter(s, i + |keyLabel|)
  }

  /** The `\s*(true|false)` part, tried right after the key at `j`. */
  function WordAfter(s: string, j: nat): (r: Option<bool>)
    requires j <= |s|
    ensures r.Some? ==> WordShape(s, j, RunLength(s, j, IsSpace), r.value)
  {
    var k := j + RunLength(s, j, IsSpace);
    if IsPrefixAt("true", s, k) then Some(true)
    else if IsPrefixAt("false", s, k) then Some(false)
    else None
  }

  lemma WordAfterComplete(s: string, j: nat, w: nat, b: bool)
    requires WordShape(s, j, w, b)
    ensures WordAfter(s, j) == Some(b)
  {
    var k := j + w;
    var word := if b then "true" else "false";
    assert s[k] == word[0] by { assert s[k..k + |word|][0] == s[k]; }
    RunLengthUnique(s, j, w, IsSpace);
    if !b {
      assert !IsPrefixAt("true", s, k) by {
        if k + 4 <= |s| { assert s[k..k + 4][0] == s[k]; }
      }
    }
  }

  lemma BoolFieldComplete(s: string, keyLabel: string, i: nat, w: nat, b: bool)
    requires BoolFieldShape(s, keyLabel, i, w, b)
    ensures BoolFieldAt(s, keyLabel, i) == Some(b)
  {
    WordAfterComplete(s, i + |keyLabel|, w, b);
  }

  /** `re.search` for the boolean field with this key label. */
  function FindBool(s: string, keyLabel: string): Option<Hit<bool>> {
    Search(|s|, (i: nat) => BoolFieldAt(s, keyLabel, i), 0)
  }

  /** The record stage 4 builds from the raw reply, if the `upc` pattern
      matched; missing fields default to "", "Medium" and false. */
  function FieldRecord(content: string): Option<JsonValue> {
    match FindString(content, KeyLabel("upc"))
    case None => None
    case Some(u) =>
      var desc := match FindString(content, KeyLabel("description"))
        case Some(h) => h.capture
        case None => "";
      var conf := match FindString(content, KeyLabel("confidence"))
        case Some(h) => h.capture
        case None => "Medium";
      var found := match FindBool(content, KeyLabel("found_upc"))
        case Some(h) => h.capture
        case None => false;
      Some(Object(FieldMap(u.capture, desc, conf, found)))
  }

  /** The dictionary built from the field captures, with defaults for
      the fields that were not found. */
  function FieldMap(upc: string, desc: string, conf: string, found: bool): (m: map<string, Value>)
    ensures m.Keys == {"upc", "description", "confidence", "found_upc"}
    ensures m["upc"] == Str(upc) && m["description"] == Str(desc)
    ensures m["confidence"] == Str(conf) && m["found_upc"] == Bool(found)
  {
    map["upc" := Str(upc), "description" := Str(desc),
        "confidence" := Str(conf), "found_upc" := Bool(found)]
  }

  /** Stage 4 yields a record exactly when the reply holds a
      `"upc": "<quote-free text>"` pair. */
  lemma {:induction false} FieldRecordNeedsUpcPair(content: string)
    ensures FieldRecord(content).Some? <==>
      exists i: nat, w: nat, v: string :: StringFieldShape(content, KeyLabel("upc"), i, w, v)
  {
    if FieldRecord(content).Some? {
      var u := FindString(content, KeyLabel("upc")).value;
      var w := RunLength(content, u.pos + |KeyLabel("upc")|, IsSpace);
      assert StringFieldShape(content, KeyLabel("upc"), u.pos, w, u.capture);
    } else {
      assert FindString(content, KeyLabel("upc")).None?;
      forall i: nat, w: nat, v: string | StringFieldShape(content, KeyLabel("upc"), i, w, v)
        ensures false
      {
        assert i <= |content|;
        assert ((j: nat) => StringFieldAt(content, KeyLabel("upc"), j))(i) == StringFieldAt(content, KeyLabel("upc"), i);
        StringFieldComplete(content, KeyLabel("upc"), i, w, v);
      }
    }
  }

  /** A string field the search finds occurs in the text as the pattern
      describes. */
  lemma FindStringSound(s: string, keyLabel: string)
    requires FindString(s, keyLabel).Some?
    ensures exists i: nat, w: nat :: StringFieldShape(s, keyLabel, i, w, FindString(s, keyLabel).value.capture)
  {
    var h := FindString(s, keyLabel).value;
    assert StringFieldShape(s, keyLabel, h.pos,
      RunLength(s, h.pos + |keyLabel|, IsSpace), h.capture);
  }

  lemma FindBoolSound(s: string, keyLabel: string)
    requires FindBool(s, keyLabel).Some?
    ensures exists i: nat, w: nat :: BoolFieldShape(s, keyLabel, i, w, FindBool(s, keyLabel).value.capture)
  {
    var h := FindBool(s, keyLabel).value;
    assert BoolFieldShape(s, keyLabel, h.pos,
      RunLength(s, h.pos + |keyLabel|, IsSpace), h.capture);
  }

  /** `v` is the capture of the leftmost occurrence of the string-field
      pattern with this key label. */
  ghost predicate FirstStringField(s: string, keyLabel: string, v: string) {
    exists i: nat, w: nat ::
      && StringFieldShape(s, keyLabel, i, w, v)
      && forall j: nat, w': nat, v': string :: j < i ==> !StringFieldShape(s, keyLabel, j, w', v')
  }

  ghost predicate NoStringField(s: string, keyLabel: string) {
    forall i: nat, w: nat, v: string :: !StringFieldShape(s, keyLabel, i, w, v)
  }

  /** `b` is the word of the leftmost occurrence of the boolean-field
      pattern with this key label. */
  ghost predicate FirstBoolField(s: string, keyLabel: string, b: bool) {
    exists i: nat, w: nat ::
      && BoolFieldShape(s, keyLabel, i, w, b)
      && forall j: nat, w': nat, b': bool :: j < i ==> !BoolFieldShape(s, keyLabel, j, w', b')
  }

  ghost predicate NoBoolField(s: string, keyLabel: string) {
    forall i: nat, w: nat, b: bool :: !BoolFieldShape(s, keyLabel, i, w, b)
  }

  /** `re.search` for a string field finds nothing exactly when the
      pattern occurs nowhere, and otherwise the capture of its leftmost
      occurrence. */
  lemma FindStringIsFirst(s: string, keyLabel: string)
    ensures FindString(s, keyLabel).None? <==> NoStringField(s, keyLabel)
    ensures FindString(s, keyLabel).Some? ==>
      FirstStringField(s, keyLabel, FindString(s, keyLabel).value.capture)
  {
    var at := (i: nat) => StringFieldAt(s, keyLabel, i);
    match FindString(s, keyLabel) {
      case Some(h) =>
        assert at(h.pos) == StringFieldAt(s, keyLabel, h.pos);
        forall j: nat, w': nat, v': string | j < h.pos
          ensures !StringFieldShape(s, keyLabel, j, w', v')
        {
          assert at(j) == StringFieldAt(s, keyLabel, j);
          if StringFieldShape(s, keyLabel, j, w', v') {
            StringFieldComplete(s, keyLabel, j, w', v');
          }
        }
        assert StringFieldShape(s, keyLabel, h.pos, RunLength(s, h.pos + |keyLabel|, IsSpace), h.capture);
      case None =>
        forall i: nat, w: nat, v: string | StringFieldShape(s, keyLabel, i, w, v) ensures false {
          assert at(i) == StringFieldAt(s, keyLabel, i);
          StringFieldComplete(s, keyLabel, i, w, v);
        }
    }
  }

  /** The same for the boolean field. */
  lemma FindBoolIsFirst(s: string, keyLabel: string)
    ensures FindBool(s, keyLabel).None? <==> NoBoolField(s, keyLabel)
    ensures FindBool(s, keyLabel).Some? ==>
      FirstBoolField(s, keyLabel, FindBool(s, keyLabel).value.capture)
  {
    var at := (i: nat) => BoolFieldAt(s, keyLabel, i);
    match FindBool(s, keyLabel) {
      case Some(h) =>
        assert at(h.pos) == BoolFieldAt(s, keyLabel, h.pos);
        forall j: nat, w': nat, b': bool | j < h.pos
          ensures !BoolFieldShape(s, keyLabel, j, w', b')
        {
          assert at(j) == BoolFieldAt(s, keyLabel, j);
          if BoolFieldShape(s, keyLabel, j, w', b') {
            BoolFieldComplete(s, keyLabel, j, w', b');
          }
        }
        assert BoolFieldShape(s, keyLabel, h.pos, RunLength(s, h.pos + |keyLabel|, IsSpace), h.capture);
      case None =>
        forall i: nat, w: nat, b: bool | BoolFieldShape(s, keyLabel, i, w, b) ensures false {
          assert at(i) == BoolFieldAt(s, keyLabel, i);
          BoolFieldComplete(s, keyLabel, i, w, b);
        }
    }
  }

  /** What the stage-4 record holds: the four keys; the `upc` of the
      leftmost `"upc": "..."` pair of the reply; the `description` and
      the `confidence` of their leftmost pairs, or "" and "Medium" when
      the reply has none; the word of the leftmost `"found_upc":` pair, or
      false when there is none. */
  lemma FieldRecordContents(content: string)
    requires FieldRecord(content).Some?
    ensures FieldRecord(content).value.Object?
    ensures var m := FieldRecord(content).value.fields;
      && m.Keys == {"upc", "description", "confidence", "found_upc"}
      && m["upc"].Str? && m["description"].Str? && m["confidence"].Str?
      && m["found_upc"].Bool?
      && FirstStringField(content, KeyLabel("upc"), m["upc"].s)
      && (NoStringField(content, KeyLabel("description")) ==> m["description"] == Str(""))
      && (!NoStringField(content, KeyLabel("description")) ==>
            FirstStringField(content, KeyLabel("description"), m["description"].s))
      && (NoStringField(content, KeyLabel("confidence")) ==> m["confidence"] == Str("Medium"))
      && (!NoStringField(content, KeyLabel("confidence")) ==>
            FirstStringField(content, KeyLabel("confidence"), m["confidence"].s))
      && (NoBoolField(content, KeyLabel("found_upc")) ==> m["found_upc"] == Bool(false))
      && (!NoBoolField(content, KeyLabel("found_upc")) ==>
            FirstBoolField(content, KeyLabel("found_upc"), m["found_upc"].b))
  {
    FindStringIsFirst(content, KeyLabel("upc"));
    FindStringIsFirst(content, KeyLabel("description"));
    FindStringIsFirst(content, KeyLabel("confidence"));
    FindBoolIsFirst(content, KeyLabel("found_upc"));
  }

  /** The record's `found_upc` is true only where the reply spells
      `"found_upc":`, optional whitespace, `true`. */
  lemma FieldRecordFlag(content: string)
    requires FieldRecord(content).Some?
    ensures FieldRecord(content).value.Object?
    ensures var m := FieldRecord(content).value.fields;
      "found_upc" in m && m["found_upc"].Bool? &&
      (m["found_upc"] == Bool(true) ==>
        exists i: nat, w: nat :: BoolFieldShape(content, KeyLabel("found_upc"), i, w, true))
  {
    if FindBool(content, KeyLabel("found_upc")).Some? {
      FindBoolSound(content, KeyLabel("found_upc"));
    }
  }
}

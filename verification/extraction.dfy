/** `UPCExtractionTool._run` in extraction_tool.py: ask the
    model for a JSON record, recover a record from its reply through an
    ordered chain of parse attempts, fall back to reading the user's text,
    and validate the outcome. */
module Extraction {
  import opened Text
  import opened JsonData
  import Cleaning
  import FieldRegex
  import InputFallback

  /** What `self.model.invoke` produced: a reply whose content is text, a
      reply whose content is not a string (a list of content blocks), or
      an exception. */
  datatype Reply = TextReply(content: string) | NonTextReply | InvokeError

  /** What a JSON parser did with a text: raised, or returned a value. */
  datatype Parse = ParseError | Parsed(value: JsonValue)

  /** The tool's collaborators. `model` is `None` when no model was
      configured; the prompt built around the input is fixed, so the
      model is a function of the input text. `parseStrict` stands for
      `JsonOutputParser.parse`, `loadJson` for `json.loads`. */
  datatype Extractor = Extractor(
    model: Option<string -> Reply>,
    parseStrict: string -> Parse,
    loadJson: string -> Parse)

  /** Which error record was produced, by the text of its "error" field:
      "No model provided for extraction", "All parsing methods failed:
      ...", "All extraction methods failed: ...", "Extraction failed: ...". */
  datatype Failure = NoModel | AllParsingFailed | AllExtractionFailed | ExtractionFailed

  /** The record's "message" field, or its "error" field. */
  datatype Note = Message(text: string) | Error(failure: Failure)

  /** The JSON object the tool returns (before `json.dumps`). */
  datatype Report = Report(
    success: bool,
    upc: string,
    description: string,
    confidence: Value,
    note: Note)

  /** The shape shared by every error record. */
  function FailureReport(f: Failure): (r: Report)
    ensures !r.success && r.upc == "" && r.description == ""
    ensures r.confidence == Str("Low") && r.note == Error(f)
  {
    Report(false, "", "", Str("Low"), Error(f))
  }

  const NoUpcMessage: string := "No valid UPC found in input"

  function SuccessMessage(upc: string, description: string): string {
    "Extracted UPC: " + upc + ", Description: " + description
  }

  function FallbackMessage(upc: string, description: string): string {
    "Extracted via input fallback: UPC=" + upc + ", Description=" + description
  }

  /** Each message opens with its fixed lead-in followed by the code and
      closes with the description. */
  lemma MessagesNameCodeAndDescription(upc: string, description: string)
    ensures IsPrefix("Extracted UPC: " + upc, SuccessMessage(upc, description))
    ensures IsSuffix(", Description: " + description, SuccessMessage(upc, description))
    ensures IsPrefix("Extracted via input fallback: UPC=" + upc, FallbackMessage(upc, description))
    ensures IsSuffix(", Description=" + description, FallbackMessage(upc, description))
  {
  }

  // ---------------------------------------------------------------
  // The ordered parse chain
  // ---------------------------------------------------------------

  datatype Stage = StrictParser | DirectJson | CleanedJson | FieldPatterns

  /** The order the stages are tried in. */
  function Rank(st: Stage): nat {
    match st
    case StrictParser => 0
    case DirectJson => 1
    case CleanedJson => 2
    case FieldPatterns => 3
  }

  /** What each of the four stages makes of the reply text; `None` where
      the stage raised. */
  datatype Attempts = Attempts(
    strict: Option<JsonValue>,
    direct: Option<JsonValue>,
    cleaned: Option<JsonValue>,
    fields: Option<JsonValue>)
  {
    function At(st: Stage): Option<JsonValue> {
      match st
      case StrictParser => strict
      case DirectJson => direct
      case CleanedJson => cleaned
      case FieldPatterns => fields
    }
  }

  /** The four stages applied to the reply text: `JsonOutputParser.parse`,
      `json.loads`, `json.loads` of the cleaned text, and the field
      patterns. */
  function TryStages(ex: Extractor, content: string): Attempts {
    Attempts(
      ParsedValue(ex.parseStrict(content)),
      ParsedValue(ex.loadJson(content)),
      ParsedValue(ex.loadJson(Cleaning.Clean(content))),
      FieldRegex.FieldRecord(content))
  }

  function ParsedValue(p: Parse): Option<JsonValue> {
    match p
    case ParseError => None
    case Parsed(v) => Some(v)
  }

  /** A record and the stage that produced it. */
  datatype Recovered = Recovered(stage: Stage, value: JsonValue)

  /** The nested try/except chain: the record of the earliest
      stage that does not fail, and none if all four fail. */
  function ParseReply(a: Attempts): (r: Option<Recovered>)
    ensures r.None? <==> forall st: Stage :: a.At(st).None?
    ensures r.Some? ==> a.At(r.value.stage) == Some(r.value.value)
    ensures r.Some? ==> forall st: Stage :: Rank(st) < Rank(r.value.stage) ==> a.At(st).None?
  {
    match a.strict
    case Some(v) =>
      assert a.At(StrictParser) == Some(v);
      Some(Recovered(StrictParser, v))
    case None =>
      match a.direct
      case Some(v) =>
        assert a.At(DirectJson) == Some(v);
        assert forall st: Stage :: Rank(st) < Rank(DirectJson) ==> a.At(st).None?;
        Some(Recovered(DirectJson, v))
      case None =>
        match a.cleaned
        case Some(v) =>
          assert a.At(CleanedJson) == Some(v);
          assert forall st: Stage :: Rank(st) < Rank(CleanedJson) ==> a.At(st).None?;
          Some(Recovered(CleanedJson, v))
        case None =>
          match a.fields
          case Some(v) =>
            assert a.At(FieldPatterns) == Some(v);
            assert forall st: Stage :: Rank(st) < Rank(FieldPatterns) ==> a.At(st).None?;
            Some(Recovered(FieldPatterns, v))
          case None =>
            assert forall st: Stage :: a.At(st).None?;
            None
  }

  /** The chain's pick is determined by the attempts alone: a stage that
      succeeds after every earlier one failed is the one picked. */
  lemma ParseReplyPicks(a: Attempts, st: Stage, v: JsonValue)
    requires a.At(st) == Some(v)
    requires forall e: Stage :: Rank(e) < Rank(st) ==> a.At(e).None?
    ensures ParseReply(a) == Some(Recovered(st, v))
  {
    var r := ParseReply(a).value;
    if Rank(r.stage) < Rank(st) {
      assert false;
    } else if Rank(st) < Rank(r.stage) {
      assert false;
    }
    assert r.stage == st;
  }

  // ---------------------------------------------------------------
  // Post-parse validation
  // ---------------------------------------------------------------

  /** Validate a recovered record. A non-object has no `.get`, and a
      non-string `upc` or `description` has no `.strip()`: both raise and
      end in the "Extraction failed" record. */
  function Validate(v: JsonValue): (r: Report)
    ensures r.success ==> |r.upc| >= 8
    ensures Trimmed(r.upc) && Trimmed(r.description)
    ensures r.note.Error? ==> r == FailureReport(ExtractionFailed)
    ensures v.NotObject? ==> r == FailureReport(ExtractionFailed)
    ensures v.Object? && (!Get(v.fields, "upc", Str("")).Str? || !Get(v.fields, "description", Str("")).Str?) ==>
      r == FailureReport(ExtractionFailed)
    ensures r.note.Message? ==>
      r.note.text == if r.success then SuccessMessage(r.upc, r.description) else NoUpcMessage
  {
    match v
    case NotObject => FailureReport(ExtractionFailed)
    case Object(m) =>
      var u := Get(m, "upc", Str(""));
      var d := Get(m, "description", Str(""));
      if !u.Str? || !d.Str? then FailureReport(ExtractionFailed)
      else
        var upc := Strip(u.s);
        var description := Strip(d.s);
        var confidence := Get(m, "confidence", Str("Medium"));
        var found := Truthy(Get(m, "found_upc", Bool(false))) && |upc| >= 8;
        Report(found, upc, description, confidence,
               Message(if found then SuccessMessage(upc, description) else NoUpcMessage))
  }

  /** The model's own `found_upc` is never trusted alone: a record succeeds
      exactly when its flag is truthy and its stripped code has at least
      8 characters. Code and description come back stripped and the
      confidence verbatim, with "", "" and "Medium" for missing keys. */
  lemma ValidateObject(m: map<string, Value>)
    requires Get(m, "upc", Str("")).Str? && Get(m, "description", Str("")).Str?
    ensures var r := Validate(Object(m));
      && r.upc == Strip(Get(m, "upc", Str("")).s)
      && r.description == Strip(Get(m, "description", Str("")).s)
      && r.confidence == Get(m, "confidence", Str("Medium"))
      && (r.success <==> Truthy(Get(m, "found_upc", Bool(false))) && |r.upc| >= 8)
      && r.note.Message?
  {
  }

  /** A record whose model says `found_upc: true` but whose code is
      shorter than 8 characters once stripped is reported as not found. */
  lemma ShortCodeNotFound(m: map<string, Value>, code: string)
    requires "upc" in m && m["upc"] == Str(code) && |Strip(code)| < 8
    requires Get(m, "description", Str("")).Str?
    requires "found_upc" in m && m["found_upc"] == Bool(true)
    ensures !Validate(Object(m)).success
    ensures Validate(Object(m)).note == Message(NoUpcMessage)
  {
  }

  /** A record with none of the four keys validates to the defaults. */
  lemma EmptyRecordDefaults()
    ensures Validate(Object(map[])) ==
      Report(false, "", "", Str("Medium"), Message(NoUpcMessage))
  {
    assert Strip("") == "";
  }

  // ---------------------------------------------------------------
  // The input fallback record
  // ---------------------------------------------------------------

  function InputFallbackReport(input: string): (r: Report)
    ensures r.success ==> 8 <= |r.upc| <= 12 && AllDigits(r.upc)
    ensures Trimmed(r.upc) && Trimmed(r.description)
  {
    var description := InputFallback.FallbackDescription(input);
    match InputFallback.FindCode(input)
    case Some(h) =>
      InputFallback.FoundCodeIsDigits(input);
      var code := h.capture;
      Report(true, code, description, Str("Medium"), Message(FallbackMessage(code, description)))
    case None => FailureReport(AllParsingFailed)
  }

  /** The fallback succeeds, with confidence "Medium", exactly when the
      input holds a run of 8 to 12 digits with no word character on either
      side; its code is the first such run and its description the
      fallback description. Otherwise it is the "All parsing methods
      failed" record. */
  lemma InputFallbackReportMeaning(input: string)
    ensures var r := InputFallbackReport(input);
      && (r.success <==> exists i: nat, n: nat :: InputFallback.BoundedRun(input, i, n))
      && (r.success ==>
          exists i: nat ::
            && InputFallback.BoundedRun(input, i, |r.upc|)
            && r.upc == input[i..i + |r.upc|]
            && (forall j: nat, n: nat :: j < i ==> !InputFallback.BoundedRun(input, j, n)))
      && (r.success ==> r.confidence == Str("Medium")
                        && r.description == InputFallback.FallbackDescription(input)
                        && r.note == Message(FallbackMessage(r.upc, r.description)))
      && (!r.success ==> r == FailureReport(AllParsingFailed))
  {
    InputFallback.FindCodeIsFirstBoundedRun(input);
    var r := InputFallbackReport(input);
    match InputFallback.FindCode(input)
    case Some(h) =>
      assert r.upc == h.capture;
      assert InputFallback.BoundedRun(input, h.pos, |r.upc|);
    case None =>
  }

  // ---------------------------------------------------------------
  // The tool
  // ---------------------------------------------------------------

  /** `UPCExtractionTool._run(input_text)`. */
  function Run(ex: Extractor, input: string): (r: Report)
    ensures ex.model.None? ==> r == FailureReport(NoModel)
    ensures ex.model.Some? && ex.model.value(input).InvokeError? ==> r == FailureReport(ExtractionFailed)
    ensures ex.model.Some? && ex.model.value(input).NonTextReply? ==> r == FailureReport(AllExtractionFailed)
    ensures r.success ==> |r.upc| >= 8
    ensures Trimmed(r.upc) && Trimmed(r.description)
    ensures r.note.Error? ==> r == FailureReport(r.note.failure)
    ensures r.success ==> r.note.Message?
  {
    match ex.model
    case None => FailureReport(NoModel)
    case Some(invoke) =>
      match invoke(input)
      case InvokeError => FailureReport(ExtractionFailed)
      // Stages 1-3 raise on a non-string, and so does stage 4's
      // `re.search`, which lands in the `except Exception as e4` record.
      case NonTextReply => FailureReport(AllExtractionFailed)
      case TextReply(content) =>
        match ParseReply(TryStages(ex, content))
        case Some(rec) => Validate(rec.value)
        case None => InputFallbackReport(input)
  }

  /** The stages run strictly in order: the record validated is the one
      from the earliest stage that did not fail. */
  lemma RunValidatesEarliestStage(ex: Extractor, input: string, content: string,
                                  st: Stage, v: JsonValue)
    requires ex.model.Some? && ex.model.value(input) == TextReply(content)
    requires TryStages(ex, content).At(st) == Some(v)
    requires forall e: Stage :: Rank(e) < Rank(st) ==> TryStages(ex, content).At(e).None?
    ensures Run(ex, input) == Validate(v)
  {
    ParseReplyPicks(TryStages(ex, content), st, v);
    RunOfReply(ex, input, content);
  }

  /** A text reply is handed to the chain; its pick is validated, and the
      input is read only when there is none. */
  lemma RunOfReply(ex: Extractor, input: string, content: string)
    requires ex.model.Some? && ex.model.value(input) == TextReply(content)
    ensures var p := ParseReply(TryStages(ex, content));
      && (p.Some? ==> Run(ex, input) == Validate(p.value.value))
      && (p.None? ==> Run(ex, input) == InputFallbackReport(input))
  {
  }

  /** The input text is read only when every one of the four stages
      failed on the reply. */
  lemma RunFallsBackOnlyWhenAllStagesFail(ex: Extractor, input: string, content: string)
    requires ex.model.Some? && ex.model.value(input) == TextReply(content)
    ensures (forall st: Stage :: TryStages(ex, content).At(st).None?) ==>
      Run(ex, input) == InputFallbackReport(input)
    ensures (exists st: Stage :: TryStages(ex, content).At(st).Some?) ==>
      exists st: Stage, v :: TryStages(ex, content).At(st) == Some(v) && Run(ex, input) == Validate(v)
  {
    var a := TryStages(ex, content);
    RunOfReply(ex, input, content);
    if ParseReply(a).Some? {
      var r := ParseReply(a).value;
      assert a.At(r.stage) == Some(r.value) && Run(ex, input) == Validate(r.value);
    }
  }

  /** A reply the field patterns rescue still goes through validation, so
      it succeeds only if the reply literally spells `"found_upc":` and
      `true`, and the stripped code has at least 8 characters. */
  lemma FieldStageStillValidated(ex: Extractor, input: string, content: string)
    requires ex.model.Some? && ex.model.value(input) == TextReply(content)
    requires ex.parseStrict(content) == ParseError && ex.loadJson(content) == ParseError
    requires ex.loadJson(Cleaning.Clean(content)) == ParseError
    requires FieldRegex.FieldRecord(content).Some?
    ensures var r := Run(ex, input);
      r.success ==>
        && |r.upc| >= 8
        && exists i: nat, w: nat :: FieldRegex.BoolFieldShape(content, FieldRegex.KeyLabel("found_upc"), i, w, true)
  {
    var a := TryStages(ex, content);
    assert a.strict.None? && a.direct.None? && a.cleaned.None? && a.fields.Some?;
    assert ParseReply(a) == Some(Recovered(FieldPatterns, a.fields.value));
    RunOfReply(ex, input, content);
    FieldRecordValidated(content);
  }

  /** The stage-4 record validates to success only if the reply spells out
      `"found_upc":` followed by `true`. */
  lemma FieldRecordValidated(content: string)
    requires FieldRegex.FieldRecord(content).Some?
    ensures Validate(FieldRegex.FieldRecord(content).value).success ==>
      exists i: nat, w: nat :: FieldRegex.BoolFieldShape(content, FieldRegex.KeyLabel("found_upc"), i, w, true)
  {
    var v := FieldRegex.FieldRecord(content).value;
    FieldRegex.FieldRecordFlag(content);
    ValidatedFlagIsTrue(v.fields);
  }

  /** A record whose `found_upc` is a boolean succeeds only if it is `true`. */
  lemma ValidatedFlagIsTrue(m: map<string, Value>)
    requires "found_upc" in m && m["found_upc"].Bool?
    ensures Validate(Object(m)).success ==> m["found_upc"] == Bool(true)
  {
  }

  /** A reply that wraps a bare JSON object in a "```json" fence (with stray
      text that has no braces or backquotes before the object and no `}`
      after it) is recovered as though the object had been returned
      alone and read by `json.loads`, once both parsers reject the fenced
      text. */
  lemma FencedReplyRecovered(ex: Extractor, input: string, p: string, j: string, q: string,
                             v: JsonValue)
    requires Cleaning.BareObject(j)
    requires forall k :: 0 <= k < |p| ==> p[k] != '{' && p[k] != '`'
    requires forall k :: 0 <= k < |q| ==> q[k] != '}'
    requires ex.model.Some?
    requires ex.model.value(input) == TextReply(Cleaning.JsonFence + p + j + q + Cleaning.Fence)
    requires ex.parseStrict(Cleaning.JsonFence + p + j + q + Cleaning.Fence) == ParseError
    requires ex.loadJson(Cleaning.JsonFence + p + j + q + Cleaning.Fence) == ParseError
    requires ex.loadJson(j) == Parsed(v)
    ensures Run(ex, input) == Validate(v)
  {
    var content := Cleaning.JsonFence + p + j + q + Cleaning.Fence;
    Cleaning.CleanUnwrapsFencedObject(p, j, q);
    CleanedStageRecovers(ex, input, content, j, v);
  }

  /** A reply holding a bare JSON object with its quotes escaped as `\"`,
      all or only some, is recovered as though the object had been returned
      unescaped and read by `json.loads`, once both parsers reject it. */
  lemma EscapedReplyRecovered(ex: Extractor, input: string, j: string, marks: seq<bool>,
                              v: JsonValue)
    requires Cleaning.BareObject(j) && |marks| == |j|
    requires ex.model.Some?
    requires ex.model.value(input) == TextReply(EscapeQuotes(j, marks))
    requires ex.parseStrict(EscapeQuotes(j, marks)) == ParseError
    requires ex.loadJson(EscapeQuotes(j, marks)) == ParseError
    requires ex.loadJson(j) == Parsed(v)
    ensures Run(ex, input) == Validate(v)
  {
    Cleaning.CleanUnescapesObject(j, marks);
    CleanedStageRecovers(ex, input, EscapeQuotes(j, marks), j, v);
  }

  /** Once both parsers reject the reply, a cleaned text that `json.loads`
      accepts decides the outcome. */
  lemma CleanedStageRecovers(ex: Extractor, input: string, content: string, j: string,
                             v: JsonValue)
    requires ex.model.Some? && ex.model.value(input) == TextReply(content)
    requires ex.parseStrict(content) == ParseError && ex.loadJson(content) == ParseError
    requires Cleaning.Clean(content) == j && ex.loadJson(j) == Parsed(v)
    ensures Run(ex, input) == Validate(v)
  {
    var a := TryStages(ex, content);
    assert a.strict.None? && a.direct.None? && a.cleaned == Some(v);
    assert ParseReply(a) == Some(Recovered(CleanedJson, v));
    RunOfReply(ex, input, content);
  }

  /** When the model's reply yields nothing, the tool succeeds exactly
      when the user's text holds a bounded run of 8 to 12 digits. */
  lemma UnreadableReplyFallsBackToInput(ex: Extractor, input: string, content: string)
    requires ex.model.Some? && ex.model.value(input) == TextReply(content)
    requires forall st: Stage :: TryStages(ex, content).At(st).None?
    ensures Run(ex, input).success <==>
      exists i: nat, n: nat :: InputFallback.BoundedRun(input, i, n)
    ensures Run(ex, input).success ==> Run(ex, input).confidence == Str("Medium")
  {
    RunFallsBackOnlyWhenAllStagesFail(ex, input, content);
    InputFallbackReportMeaning(input);
  }
}

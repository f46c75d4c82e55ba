# UPC assistant: extraction tool and agent loop

This project models two deterministic parts of a UPC product-information
assistant built on LangChain and LangGraph, and proves properties of them.

**The UPC extraction tool** (`UPCExtractionTool._run`). The tool asks a
language model to return a JSON record for the user's text. The record holds
`upc`, `description`, `confidence` and `found_upc`. The tool then tries to
recover such a record from the reply with an ordered chain of attempts:

1. LangChain's `JsonOutputParser`;
2. `json.loads` on the raw reply;
3. `json.loads` after aggressive cleaning: strip the reply, remove code
   fences, cut from the first `{` to the last `}`, and un-escape `\"`;
4. one regular expression per field, run on the raw reply.

If the field patterns find no `upc` pair, the tool falls back to reading the
user's own text. It looks for an 8-12 digit run there, and takes a
description from two "description" patterns or else from a list of food
nouns. A recovered record is validated before it is reported:
`success = found_upc and len(upc) >= 8`, with the code and description
stripped. There are fixed error records for a missing model and for each
exception path.

**The agent loop** (`build_graph`). This is a two-node LangGraph state
machine. The assistant node calls the tool-bound model on the system prompt
followed by the history, and appends the reply. The `should_continue` router
sends the run to the tools node when that reply asks for tool calls, and to
the end otherwise. The tools node runs each call, appends one tool message
per call, and hands back to the assistant.

Modules:

- `Text` (text.dfy): Python's `str.isspace`/`str.strip`, `str.replace`,
  `str.lower`, `str.join`, the `\d`/`\w`/`\b` classes, and a leftmost
  `re.search` over match positions.
- `JsonData` (jsondata.dfy): the parsed records and `dict.get`.
- `Cleaning` (cleaning.dfy): attempt 3.
- `FieldRegex` (fieldregex.dfy): attempt 4.
- `InputFallback` (fallback.dfy): the reading of the user's text.
- `Extraction` (extraction.dfy): the chain, validation and the result
  records.
- `AgentGraph` (graph.dfy): the agent loop.

Collaborators the code calls but does not define are parameters:

- the language model of the extraction tool (`Extractor.model`, a function
  of the input text, or `None`);
- the two JSON parsers (`Extractor.parseStrict`, `Extractor.loadJson`);
- the tool-bound reasoning model and the tool node's dispatch
  (`Agent.model`, `Agent.dispatch`).

## Model

| member | source | states |
|---|---|---|
| `Text.IsSpace` | src/utils/extraction_tool.py:181 | `str.isspace` and the `\s` class; on ASCII it is exactly tab, line feed, vertical tab, form feed, carriage return, 0x1C-0x1F and space, as `Text.AsciiSpaces` states, and `Text.Strip` and `Text.RunLength` use it |
| `Text.AsciiSpaces` | src/utils/extraction_tool.py:181 | on ASCII the whitespace is exactly tab, line feed, vertical tab, form feed, carriage return, 0x1C-0x1F and the space |
| `Text.Strip` | src/utils/extraction_tool.py:258-259 | `str.strip()`: the result has no whitespace at either end, and it is the infix of the input that remains after the leading whitespace, with only whitespace after it |
| `Text.StripUnique` | src/utils/extraction_tool.py:181 | any infix with no whitespace at its ends and only whitespace before and after it is the strip, so the strip is uniquely determined; text already trimmed is its own strip |
| `Text.StripIdempotent` | src/utils/extraction_tool.py:258-259 | stripping an already stripped text changes nothing |
| `Text.StripSkipsSpace` | src/utils/extraction_tool.py:225 | whitespace in front of a text does not change its strip |
| `Text.ReplaceSelfIsIdentity` | src/utils/extraction_tool.py:176-179 | `s.replace(p, p)` is `s` for every non-empty `p` |
| `Text.ReplaceAll` | src/utils/extraction_tool.py:175-179 | `str.replace` as written; its meaning is stated by `Text.ReplaceAbsentIsIdentity` (no occurrence: unchanged), `Text.UnescapeSplits` (each `\"` becomes `"`, the text around it un-escaped on its own), `Text.UnescapeInvertsEscape` and `Text.ReplaceSelfIsIdentity` |
| `Text.ReplaceAbsentIsIdentity` | src/utils/extraction_tool.py:175 | `s.replace(p, q)` is `s` when `p` occurs nowhere in `s` |
| `Text.UnescapeDeletesOnlyBackslashes` | src/utils/extraction_tool.py:175 | replacing `\"` by `"` only deletes backslashes: with backslashes removed, input and output agree, and the output is never longer; which backslashes go is stated by `Text.UnescapeSplits` |
| `Text.UnescapeSplits` | src/utils/extraction_tool.py:175 | un-escaping a text around one `\"` un-escapes each side separately and puts a bare `"` between them; with `Text.ReplaceAbsentIsIdentity` this fixes the result of `replace('\\"', '"')` for every input |
| `Text.UnescapeInvertsEscape` | src/utils/extraction_tool.py:175 | a text with no `\"` of its own is recovered from any escaping of its quotes as `\"`, all of them or only some |
| `Text.RunLength` | src/utils/extraction_tool.py:215-217 | the length of the maximal run of characters with a property from a position: all of them have it, and the next one does not |
| `Text.RunLengthUnique` | src/utils/extraction_tool.py:215-217 | any run of such characters that cannot be extended has exactly that length |
| `Text.Lower` | src/utils/extraction_tool.py:223 | `str.lower()` on ASCII: same length; no upper-case letter remains; every other character is kept; each upper-case letter becomes the letter the same distance from 'a'; digits, whitespace and word characters stay where they were |
| `Text.LowerIdempotent` | src/utils/extraction_tool.py:223 | lower-casing text a second time changes nothing |
| `Text.Join` | src/utils/extraction_tool.py:230 | `" ".join`: no words give "", and one word gives that word |
| `Text.SplitOn` | src/utils/extraction_tool.py:230 | reference definition of `str.split` on one character, the inverse of the join: it always gives at least one piece |
| `Text.SplitAfterWord` | src/utils/extraction_tool.py:230 | splitting a word free of the separator followed by more text glues the word onto the first piece of the rest |
| `Text.JoinSplitRoundTrip` | src/utils/extraction_tool.py:230 | joining a non-empty list of words free of the separator character and splitting the result on it gives back exactly those words |
| `Text.Search` | src/utils/extraction_tool.py:197-200 | `re.search`: the hit is the leftmost start position at which the pattern matches; if there is no hit, it matches nowhere |
| `Text.DigitsAreTrimmed` | src/utils/extraction_tool.py:235 | a digit string has no whitespace at either end |
| `Cleaning.StripFences` | src/utils/extraction_tool.py:161-166 | removing the fences only cuts the ends: at most ten characters in front and three behind |
| `Cleaning.NoFencesAroundBraces` | src/utils/extraction_tool.py:161-166 | text that opens with `{` and closes with `}` carries no fence and is left unchanged |
| `Cleaning.FencesAroundFramed` | src/utils/extraction_tool.py:161-166 | a "```json" … "```" wrapper is removed when no backquote follows the opening fence before the object |
| `Cleaning.FencesAroundPlain` | src/utils/extraction_tool.py:161-166 | under a plain "```" fence, with no backquote before the object and stray text not opening with `j`, only the opening and closing fences are cut |
| `Cleaning.DoubleOpeningFence` | src/utils/extraction_tool.py:161-166 | a reply opening with "```json```" loses both openings in turn, and the closing fence too |
| `Cleaning.NoBackquoteNoFences` | src/utils/extraction_tool.py:161-166 | text without a backquote carries no fence and is left unchanged |
| `Cleaning.FirstIndexOf` | src/utils/extraction_tool.py:170 | the first position of a character at or after a start, or none if it does not occur there |
| `Cleaning.LastIndexOf` | src/utils/extraction_tool.py:170 | the last position of a character, or none if it does not occur |
| `Cleaning.BraceSpan` | src/utils/extraction_tool.py:170-172 | `(\{.*\})` with DOTALL matches exactly when some `{` precedes some `}`; it then spans from the first `{` to the last `}` |
| `Cleaning.SpanOrSelf` | src/utils/extraction_tool.py:170-173 | keeps the brace span when there is one, otherwise the text; its meaning is stated by `Cleaning.BraceSpan` and `Cleaning.SpanOfFramed` |
| `Cleaning.SpanOfFramed` | src/utils/extraction_tool.py:170-172 | with no `{` before an object and no `}` after it, the brace span is exactly that object |
| `Cleaning.RepairIgnoresKeyReplacements` | src/utils/extraction_tool.py:175-181 | the four quoted-key replacements are no-ops: repair is un-escaping `\"` and then stripping |
| `Cleaning.RepairEscapes` | src/utils/extraction_tool.py:175-181 | the repair as written; its meaning is stated by `Cleaning.RepairIgnoresKeyReplacements`, `Cleaning.RepairKeepsBareObject` and `Cleaning.RepairUnescapesObject` |
| `Cleaning.RepairKeepsBareObject` | src/utils/extraction_tool.py:175-181 | a bare object (braces at both ends, no `\"`) survives the repair unchanged |
| `Cleaning.CleanKeepsBareObject` | src/utils/extraction_tool.py:158-181 | cleaning a bare object returns it unchanged |
| `Cleaning.CleanUnwrapsFencedObject` | src/utils/extraction_tool.py:158-181 | cleaning a "```json"-fenced bare object, with stray text without braces or backquotes before it and without `}` after it, yields exactly the object |
| `Cleaning.CleanUnwrapsPlainFencedObject` | src/utils/extraction_tool.py:158-181 | the same for a plain "```" fence, when the stray text before the object does not open with `j` |
| `Cleaning.RepairUnescapesObject` | src/utils/extraction_tool.py:175-181 | the repair turns a bare object whose quotes were escaped as `\"`, all or only some, back into the object |
| `Cleaning.CleanUnescapesObject` | src/utils/extraction_tool.py:158-181 | cleaning a bare object whose quotes were escaped, all or only some, returns the object |
| `Cleaning.CleanUnwrapsEscapedFencedObject` | src/utils/extraction_tool.py:158-181 | the same inside a "```json" fence with stray text around the object, as for `Cleaning.CleanUnwrapsFencedObject` |
| `Cleaning.Clean` | src/utils/extraction_tool.py:158-181 | the whole cleaning as written; its meaning is stated by `Cleaning.CleanKeepsBareObject`, `Cleaning.CleanUnwrapsFencedObject`, `Cleaning.CleanUnwrapsPlainFencedObject`, `Cleaning.CleanUnescapesObject` and `Cleaning.CleanUnwrapsEscapedFencedObject` |
| `FieldRegex.StringFieldAt` | src/utils/extraction_tool.py:197-199 | when `"key":\s*"([^"]*)"` matches at a position, the text there is the label, whitespace, a quote, the quote-free capture and a closing quote |
| `FieldRegex.QuotedAfter` | src/utils/extraction_tool.py:197-199 | a match of `\s*"([^"]*)"` is greedy whitespace, a quote, the capture and a quote |
| `FieldRegex.QuotedText` | src/utils/extraction_tool.py:197-199 | a match of `([^"]*)"` is quote-free text closed by a quote |
| `FieldRegex.QuotedTextComplete` | src/utils/extraction_tool.py:197-199 | every quote-free text closed by a quote is matched, with that capture |
| `FieldRegex.QuotedAfterComplete` | src/utils/extraction_tool.py:197-199 | every whitespace-quote-text-quote shape is matched, with that capture |
| `FieldRegex.StringFieldComplete` | src/utils/extraction_tool.py:197-199 | every occurrence of the string-field shape is matched at its position, with that capture |
| `FieldRegex.BoolFieldAt` | src/utils/extraction_tool.py:200 | when the `"found_upc":` pattern (whitespace, then `true` or `false`) matches at a position, the text there is the label, whitespace and the literal word captured |
| `FieldRegex.WordAfter` | src/utils/extraction_tool.py:200 | a match of the whitespace-then-`true`-or-`false` part is greedy whitespace followed by the captured word |
| `FieldRegex.WordAfterComplete` | src/utils/extraction_tool.py:200 | every whitespace-then-`true`/`false` shape is matched, with that word |
| `FieldRegex.BoolFieldComplete` | src/utils/extraction_tool.py:200 | every occurrence of the boolean-field shape is matched at its position, with that word |
| `FieldRegex.FieldMap` | src/utils/extraction_tool.py:203-208 | the stage-4 dictionary has exactly the four keys, with string values for the three text fields and a boolean for `found_upc` |
| `FieldRegex.FieldRecordNeedsUpcPair` | src/utils/extraction_tool.py:197-213 | stage 4 produces a record exactly when the reply contains a `"upc": "<quote-free text>"` pair |
| `FieldRegex.FieldRecord` | src/utils/extraction_tool.py:197-209 | the stage-4 record as written; its meaning is stated by `FieldRegex.FieldRecordNeedsUpcPair` and `FieldRegex.FieldRecordContents` |
| `FieldRegex.FindStringSound` | src/utils/extraction_tool.py:197-199 | a string field the search reports does occur in the reply with that capture |
| `FieldRegex.FindBoolSound` | src/utils/extraction_tool.py:200 | a boolean field the search reports does occur in the reply with that word |
| `FieldRegex.FindStringIsFirst` | src/utils/extraction_tool.py:197-199 | the search for a string field finds nothing exactly when the pattern occurs nowhere in the reply, and otherwise reports the capture of its leftmost occurrence |
| `FieldRegex.FindBoolIsFirst` | src/utils/extraction_tool.py:200 | the search for the boolean field finds nothing exactly when the pattern occurs nowhere, and otherwise reports the word of its leftmost occurrence |
| `FieldRegex.FindString` | src/utils/extraction_tool.py:197-199 | `re.search` for a string field; its meaning is stated by `FieldRegex.FindStringIsFirst` and `FieldRegex.FindStringSound` |
| `FieldRegex.FindBool` | src/utils/extraction_tool.py:200 | `re.search` for the boolean field; its meaning is stated by `FieldRegex.FindBoolIsFirst` and `FieldRegex.FindBoolSound` |
| `FieldRegex.FieldRecordContents` | src/utils/extraction_tool.py:197-208 | the stage-4 record has exactly the four keys; `upc` is the capture of the leftmost `"upc"` pair of the reply; `description` and `confidence` are the captures of their leftmost pairs, or "" and "Medium" exactly when the reply has no such pair; `found_upc` is the word of the leftmost `"found_upc":` pair, or false when there is none |
| `FieldRegex.FieldRecordFlag` | src/utils/extraction_tool.py:200-208 | the record's `found_upc` is true only where the reply spells `"found_upc":`, optional whitespace, `true` |
| `InputFallback.CodeAt` | src/utils/extraction_tool.py:215 | a match of `\b(\d{8,12})\b` at a position is a digit run of 8 to 12 with no word character on either side |
| `InputFallback.CodeAtComplete` | src/utils/extraction_tool.py:215 | every such bounded run is matched at its start |
| `InputFallback.FindCodeIsFirstBoundedRun` | src/utils/extraction_tool.py:215 | a code is found exactly when the input holds a bounded 8-12 digit run, and the code is the leftmost such run |
| `InputFallback.FindCode` | src/utils/extraction_tool.py:215 | `re.search` for the code; its meaning is stated by `InputFallback.FindCodeIsFirstBoundedRun` |
| `InputFallback.FoundCodeIsDigits` | src/utils/extraction_tool.py:215 | the code found is 8 to 12 digits with no whitespace |
| `InputFallback.LongRunNeverMatches` | src/utils/extraction_tool.py:215 | no position inside a run of 13 or more digits starts a match |
| `InputFallback.RunLengthAtLeast` | src/utils/extraction_tool.py:215 | a run of `m` qualifying characters makes the run length at least `m` |
| `InputFallback.ShortRunsYieldNoCode` | src/utils/extraction_tool.py:215 | when every digit run is shorter than 8 (hyphen-separated groups, say), no code is found |
| `InputFallback.NonTerminatorRunSplits` | src/utils/extraction_tool.py:217 | the terminator-free stretch after the keyword is its whitespace followed by the terminator-free stretch after that whitespace |
| `InputFallback.DescriptionAtMatches` | src/utils/extraction_tool.py:217 | `description\s+([^.!?]+)` matches at a "description" exactly when whitespace follows it and the next character is not `.`, `!` or `?` |
| `InputFallback.DescriptionAtCapture` | src/utils/extraction_tool.py:217-225 | the stripped capture is the stripped text from the keyword up to the next `.`, `!`, `?` or the end |
| `InputFallback.DescriptionAt` | src/utils/extraction_tool.py:217 | the first description pattern tried at one position; its meaning is stated by `InputFallback.DescriptionAtMatches` and `InputFallback.DescriptionAtCapture` |
| `InputFallback.DescriptionAfter` | src/utils/extraction_tool.py:217 | the `\s+([^.!?]+)` part after the keyword, with greedy `\s+` giving back one whitespace character when only a terminator follows; its meaning is stated by `InputFallback.DescriptionAtMatches`, `InputFallback.DescriptionAtCapture` and `InputFallback.CaptureStart` |
| `InputFallback.CaptureStart` | src/utils/extraction_tool.py:217 | the capture ends where the terminator-free stretch ends, and only whitespace precedes it after the keyword, despite the greedy `\s+` giving a character back |
| `InputFallback.StripAfterSpace` | src/utils/extraction_tool.py:225 | the capture and the whole stretch after the keyword strip to the same text |
| `InputFallback.AndTheDescriptionAt` | src/utils/extraction_tool.py:218 | any match of the second pattern is also a match of the first pattern, with the same capture, at a later position |
| `InputFallback.FindDescription` | src/utils/extraction_tool.py:222-223 | `re.search` of the first description pattern: the leftmost `InputFallback.DescriptionAt` match, none exactly when there is none (`Text.Search`); `InputFallback.FirstPatternCoversSecond` relates it to the second |
| `InputFallback.FindAndTheDescription` | src/utils/extraction_tool.py:222-223 | `re.search` of the second description pattern, leftmost as `Text.Search` states; `InputFallback.FirstPatternCoversSecond` and `InputFallback.SecondPatternRedundant` show it never decides the result |
| `InputFallback.FirstPatternCoversSecond` | src/utils/extraction_tool.py:216-226 | wherever the second description pattern matches, the first matches too |
| `InputFallback.SecondPatternRedundant` | src/utils/extraction_tool.py:216-226 | the pattern loop's result is decided by the first pattern alone |
| `InputFallback.PatternDescription` | src/utils/extraction_tool.py:216-226 | the loop over both description patterns; its meaning is stated by `InputFallback.SecondPatternRedundant` and `InputFallback.FallbackDescriptionMeaning` |
| `InputFallback.LexiconIsWords` | src/utils/extraction_tool.py:229 | every lexicon word is non-empty, has no whitespace at either end and is made of word characters only |
| `InputFallback.LowerKeepsTerminators` | src/utils/extraction_tool.py:217-223 | lower-casing leaves each position's standing as a capture terminator of the description patterns unchanged |
| `InputFallback.LexiconJoinSplits` | src/utils/extraction_tool.py:229-230 | the space-joined lexicon words split on spaces give back the same words, so the fallback's join loses nothing |
| `InputFallback.AlternativesAreLexicon` | src/utils/extraction_tool.py:229 | the alternatives, in the order the regex tries them, are word-character words and are exactly the lexicon |
| `InputFallback.FirstAlternative` | src/utils/extraction_tool.py:229 | the alternative taken at a position occurs there and ends at a word boundary |
| `InputFallback.FirstAlternativeIs` | src/utils/extraction_tool.py:229 | when only one text can match, the alternation takes it if it is one of the alternatives |
| `InputFallback.KeepIn` | src/utils/extraction_tool.py:229 | filtering a word list keeps only words among the alternatives |
| `InputFallback.KeepInCons` | src/utils/extraction_tool.py:229 | filtering works word by word from the front |
| `InputFallback.WordCharsAt` | src/utils/extraction_tool.py:229 | a word-character alternative occurring in the text covers only word characters |
| `InputFallback.AlternativeMatchesWholeWord` | src/utils/extraction_tool.py:229 | at a word start, an alternative matches up to a word boundary exactly when it is the whole word |
| `InputFallback.MatchIsWholeWord` | src/utils/extraction_tool.py:229 | a bounded match of an alternative is the whole word |
| `InputFallback.WordAtWordStart` | src/utils/extraction_tool.py:229 | at a word start the pattern matches that whole word, and only if it is in the lexicon |
| `InputFallback.WordAt` | src/utils/extraction_tool.py:229 | the `\b(?:...)\b` alternation tried at one position; its meaning is stated by `InputFallback.WordAtWordStart` (at a word start: the whole word, if it is a lexicon word) and `InputFallback.SkipWordTail` (nothing inside a word) |
| `InputFallback.FindAllAtWord` | src/utils/extraction_tool.py:229 | at a word start `re.findall` takes the word if it is in the lexicon, and resumes after the word either way |
| `InputFallback.SkipWordTail` | src/utils/extraction_tool.py:229 | no match can start inside a word |
| `InputFallback.FindAllIsWordFilter` | src/utils/extraction_tool.py:229 | scanning with `re.findall` equals splitting the text into words and keeping the lexicon words |
| `InputFallback.FindAllFrom` | src/utils/extraction_tool.py:229 | `re.findall` over the lexicon alternation; its meaning is stated by `InputFallback.FindAllIsWordFilter` |
| `InputFallback.LexiconWords` | src/utils/extraction_tool.py:229 | the noun list; its meaning is stated by `InputFallback.LexiconWordsAreWordSplit` |
| `InputFallback.LexiconWordsAreWordSplit` | src/utils/extraction_tool.py:229 | the noun list is the input's lexicon words, in order of occurrence, with repeats |
| `InputFallback.JoinTrimmed` | src/utils/extraction_tool.py:230 | joining non-empty trimmed words with single spaces leaves no whitespace at either end |
| `InputFallback.LexiconJoinTrimmed` | src/utils/extraction_tool.py:230 | the joined noun list has no whitespace at either end |
| `InputFallback.FallbackDescription` | src/utils/extraction_tool.py:216-230 | the fallback description has no whitespace at either end |
| `InputFallback.FallbackDescriptionMeaning` | src/utils/extraction_tool.py:216-230 | the fallback description is the stripped capture of the first "description" pattern on the lower-cased input; if there is none, or it strips to "", it is the input's lexicon words joined by spaces |
| `Extraction.FailureReport` | src/utils/extraction_tool.py:29-35 | every error record has success false, upc "", description "", confidence "Low", and names its error |
| `Extraction.SuccessMessage` | src/utils/extraction_tool.py:268 | the message of a validated success; `Extraction.MessagesNameCodeAndDescription` states its shape and `Extraction.Validate` where it is used |
| `Extraction.FallbackMessage` | src/utils/extraction_tool.py:238 | the message of an input-fallback success; `Extraction.MessagesNameCodeAndDescription` states its shape and `Extraction.InputFallbackReportMeaning` where it is used |
| `Extraction.MessagesNameCodeAndDescription` | src/utils/extraction_tool.py:238-268 | each message opens with its fixed lead-in and the code, and closes with its description label and the description |
| `Extraction.ParseReply` | src/utils/extraction_tool.py:139-213 | the chain yields a record exactly when some stage succeeds; the record is that of the earliest successful stage, and every earlier stage failed |
| `Extraction.TryStages` | src/utils/extraction_tool.py:139-213 | the four parsing stages' results; how they are combined is stated by `Extraction.ParseReplyPicks` and `Extraction.RunValidatesEarliestStage` |
| `Extraction.ParseReplyPicks` | src/utils/extraction_tool.py:139-213 | a stage that succeeds after all earlier ones failed is the one whose record is taken |
| `Extraction.Validate` | src/utils/extraction_tool.py:257-281 | validation succeeds only with a code of at least 8 characters; code and description are stripped; the message is the success text or "No valid UPC found in input"; a non-object or a non-string field gives the "Extraction failed" record |
| `Extraction.ValidateObject` | src/utils/extraction_tool.py:258-268 | for an object with string fields: the code and description are stripped, confidence passes through with default "Medium", and success holds exactly when `found_upc` is truthy and the stripped code has 8 or more characters |
| `Extraction.ShortCodeNotFound` | src/utils/extraction_tool.py:261-268 | a record whose model says `found_upc: true` but whose stripped code is shorter than 8 is not a success and says "No valid UPC found in input" |
| `Extraction.EmptyRecordDefaults` | src/utils/extraction_tool.py:258-268 | a record with none of the keys validates to success false, "", "", "Medium" |
| `Extraction.ValidatedFlagIsTrue` | src/utils/extraction_tool.py:261 | a record with a boolean `found_upc` succeeds only if the flag is true |
| `Extraction.InputFallbackReport` | src/utils/extraction_tool.py:232-247 | a fallback success carries an 8-12 digit code; code and description have no whitespace at either end |
| `Extraction.InputFallbackReportMeaning` | src/utils/extraction_tool.py:215-247 | the fallback succeeds, with confidence "Medium" and the fallback message, exactly when the input holds a bounded 8-12 digit run; its code is the first such run; otherwise it is the "All parsing methods failed" record |
| `Extraction.Run` | src/utils/extraction_tool.py:18-281 | with no model, the no-model record; a failing invoke gives the "Extraction failed" record; a non-text reply gives the "All extraction methods failed" record; a success always has a code of at least 8 characters and a message; code and description are always stripped |
| `Extraction.RunOfReply` | src/utils/extraction_tool.py:139-247 | for a text reply, the chain's record is validated, and the input fallback is used only when the chain yields nothing |
| `Extraction.RunValidatesEarliestStage` | src/utils/extraction_tool.py:139-271 | the result is the validation of the earliest stage that did not fail |
| `Extraction.RunFallsBackOnlyWhenAllStagesFail` | src/utils/extraction_tool.py:139-247 | the input text is read exactly when all four stages failed; otherwise the result validates some stage's record |
| `Extraction.FieldRecordValidated` | src/utils/extraction_tool.py:197-264 | a stage-4 record validates to success only if the reply spells `"found_upc":` followed by `true` |
| `Extraction.FieldStageStillValidated` | src/utils/extraction_tool.py:194-264 | a reply rescued by the field patterns still goes through validation: success needs a code of 8 or more characters and a literal `"found_upc": true` in the reply |
| `Extraction.CleanedStageRecovers` | src/utils/extraction_tool.py:139-185 | once both parsers reject the reply, a cleaned text that `json.loads` accepts decides the result |
| `Extraction.FencedReplyRecovered` | src/utils/extraction_tool.py:155-185 | a "```json"-fenced bare object that both parsers reject is recovered as if the object had been returned alone |
| `Extraction.EscapedReplyRecovered` | src/utils/extraction_tool.py:155-185 | a bare object whose quotes were escaped as `\"`, all or only some, that both parsers reject is recovered by cleaning and validated as the unescaped object |
| `Extraction.UnreadableReplyFallsBackToInput` | src/utils/extraction_tool.py:211-247 | when no stage recovers a record, the tool succeeds, with confidence "Medium", exactly when the user's text holds a bounded 8-12 digit run |
| `AgentGraph.Priority` | src/utils/graph.py:29-37 | each tool's position in the tool belt, which holds it there and nowhere else |
| `AgentGraph.ToolBeltOrder` | src/utils/graph.py:29-37 | the belt lists each of the six tools exactly once, the extraction tool first |
| `AgentGraph.AddMessages` | src/utils/graph.py:42 | the reducer keeps the old history as a prefix and puts the update after it |
| `AgentGraph.AssistantStep` | src/utils/graph.py:53-154 | the assistant appends exactly one message, the model's response to the system prompt followed by the history, and keeps the history before it |
| `AgentGraph.Answer` | src/utils/graph.py:150-153 | the model's reply to the system prompt plus the history, as a message; what the assistant does with it is stated by `AgentGraph.AssistantStep` |
| `AgentGraph.ToolResults` | src/utils/graph.py:157 | one tool message per requested call, in order, each holding the dispatched output and the call's id |
| `AgentGraph.ToolsStep` | src/utils/graph.py:157 | the tools node keeps the history and appends one result per call of the last model message |
| `AgentGraph.Route` | src/utils/graph.py:45-50 | `should_continue` goes to the tools exactly when the last message has tool calls, and otherwise to the end |
| `AgentGraph.Next` | src/utils/graph.py:163-175 | every transition follows an edge of the graph |
| `AgentGraph.Successors` | src/utils/graph.py:167-175 | the fixed and conditional edges; `AgentGraph.EdgesOfGraph` states which nodes reach which, and `AgentGraph.Next` that every transition follows one |
| `AgentGraph.EdgesOfGraph` | src/utils/graph.py:167-175 | the run enters at the assistant; the tools return to the assistant; only the assistant can reach the end; nothing returns to the start |
| `AgentGraph.DriveExtends` | src/utils/graph.py:42 | the history only grows: every message present at the start keeps its place |
| `AgentGraph.AssistantThenTools` | src/utils/graph.py:150-157 | an assistant step followed by a tools step adds exactly one round |
| `AgentGraph.FinishedRunIsRounds` | src/utils/graph.py:163-178 | a run from the assistant that reaches the end has added exactly a sequence of rounds |
| `AgentGraph.RoundsStep` | src/utils/graph.py:163-178 | a round in front of the rounds of the longer history gives rounds of the shorter one |
| `AgentGraph.RoundsFinish` | src/utils/graph.py:163-178 | conversely, a sequence of rounds ending in an answer without calls is what the run produces, given one unit of fuel per added message |
| `AgentGraph.FuelMonotone` | src/utils/graph.py:163-175 | a fact about the model's own fuel bound, which the graph does not have (its loop between the assistant and the tools has no iteration cap): a run that finishes within some fuel finishes the same way with any more fuel, so the bound only cuts runs short and never changes their outcome |
| `AgentGraph.FinishesIffRounds` | src/utils/graph.py:163-178 | a run from the assistant finishes with a given history for some fuel exactly when that history is the input followed by rounds |
| `AgentGraph.Drive` | src/utils/graph.py:163-181 | the compiled graph's run; its meaning is stated by `AgentGraph.DriveExtends`, `AgentGraph.FinishesIffRounds` and `AgentGraph.OutOfFuelKeepsCallingTools` |
| `AgentGraph.Invoke` | src/utils/graph.py:163-181 | `react_graph.invoke` from the start node: the returned history holds the input messages, unchanged and in front, and what the run added after them |
| `AgentGraph.RoundsShape` | src/utils/graph.py:45-157 | in the rounds, every model message answers the system prompt plus the history before it; every other message is a tool result; no system message is stored; the last message is an answer without calls |
| `AgentGraph.RoundMembers` | src/utils/graph.py:150-157 | within a round only the first message is the model's |
| `AgentGraph.RoundsAnswers` | src/utils/graph.py:150-154 | every model message in the rounds is the answer to the history before it |
| `AgentGraph.RoundsKinds` | src/utils/graph.py:150-157 | every added message is a model message or a tool message |
| `AgentGraph.RoundsLast` | src/utils/graph.py:45-50 | the last added message is a model answer without tool calls |
| `AgentGraph.FinishedEndsWithAnswer` | src/utils/graph.py:45-50 | whenever the loop terminates, the last message is the model's answer to the history before it, with no tool calls, and no system message was added |
| `AgentGraph.OutOfFuelKeepsCallingTools` | src/utils/graph.py:45-50 | a run that exhausts its fuel added only model messages that ask for tools |
| `AgentGraph.AddedMessage` | src/utils/graph.py:45-157 | a message added by the first step of an unfinished run is a tool result, or an answer that routed on to the tools |

## Left out

- Prompt texts (the extraction prompt and its format instructions, the
  assistant's system prompt) are opaque. The extraction model is a function
  of the input text, and the assistant's prompt is a parameter.
- The language models, `JsonOutputParser.parse`, `json.loads`, and the tools
  behind the tool node are oracle parameters. Their behaviour is not visible
  in this code.
- The exception texts that the source embeds in its error records
  (`{e1}, {e2}, ...`) are reduced to which record was produced. So is the
  text of `str(e)`. `json.dumps` is left out: `Report` is the dictionary
  before serialisation.
- `Extraction.Validate`: `success` is a boolean. When the parsed `found_upc`
  is falsy, the source stores that falsy value itself (for example `""` or
  `0`) in `"success"`, and the model reports `false`.
- `\d`, `\w`, `\b` and `str.lower()` are modelled on ASCII only. Python's
  Unicode digits, letters and case mappings beyond ASCII are left out.
  Whitespace follows Python's full `str.isspace` set.
- `Cleaning.StripFences`: its contract says only that the ends are cut,
  at most ten characters in front and three behind. The exact cuts are
  stated only for these shapes: text with no backquote
  (`Cleaning.NoBackquoteNoFences`), text that opens with `{` and closes
  with `}` (`Cleaning.NoFencesAroundBraces`), a "```json" wrapper
  (`Cleaning.FencesAroundFramed`), a plain "```" wrapper
  (`Cleaning.FencesAroundPlain`) and a "```json```" double opening
  (`Cleaning.DoubleOpeningFence`). Other shapes have no exact statement,
  for example a plain fence followed by text that starts with `j`, or a
  backquote inside the stray text.
- Debug printing (`self.debug`), the `IPython` graph display, `get_model`,
  `bind_tools` and the tools' construction are I/O or library set-up.
- The `add_messages` replace-by-id branch is left out. Every update this
  graph produces is a new message, so the reducer appends.
- `ToolNode` internals are left out: parallel execution, error wrapping and
  argument validation. The dispatch oracle gives each call's output text.
- LangGraph's recursion limit is left out. The graph itself has no iteration
  cap; `AgentGraph.Drive` takes a fuel bound so that a run is a function, and
  a run that exhausts it is reported as `OutOfFuel`.
- An empty input history is excluded by a requires. The assistant reads
  `messages[-1]` (src/utils/graph.py:55), which raises `IndexError` on an
  empty list.
- A failing model call in the graph is left out. `model.invoke` at
  src/utils/graph.py:153 can raise, and the exception then propagates out
  of `react_graph.invoke`. `AgentGraph` treats the model as a total oracle,
  so every run ends `Finished` or `OutOfFuel` and there is no "raised"
  outcome. The extraction side does model its own model-call failure, as
  `InvokeError`.
- The UPC validator, check-digit calculator, USDA and Tavily tools are not
  part of this model. Their sources are not present; they appear only as
  names in the tool belt.
- The HTTP application (src/api/app.py) and the RAG pipeline
  (src/utils/rag_graph.py, src/utils/rag_tool.py) are not part of this
  model. They are I/O plumbing and remote calls.

# Olympiad problem bank: a Dafny model of its local logic

The olympiad problem bank is a single-page application. It asks a language
model for olympiad problems, solutions, Lean 4 code and diagrams, and keeps
the problems it saves in a library. That library is shown as a workflow
board and can be shared through a link. The model reply and the browser are
outside this model. What remains is deterministic logic, and this project
models it:

- **Prompts and reply decomposition** (`GeminiPrompts`, `GeminiService`):
  - the style-guide block and the idea, sketch and refinement prompts;
  - the fallback texts for an empty reply or a failed call;
  - splitting a reply on its marker strings into solution and Lean code, or into JSXGraph and Asymptote code;
  - stripping the code fences from each half.

  JavaScript's `split` (every occurrence), `replace` with a string (first
  occurrence only), a global regular expression (every non-overlapping
  match, left to right) and `trim` are modelled in `JsString`. The call to
  the model is a parameter: the `Reply` datatype holds either the text or a
  failure.
- **The library store** (`Library`): a class holding the list of saved problems and the current view. It covers:
  - loading at start-up;
  - save (prepend);
  - delete by id;
  - status change by id;
  - importing a shared list, which puts first the records whose ids are new.
- **The workflow board** (`Board`):
  - the four columns;
  - the effective status (Draft when the status is missing or empty);
  - column membership, badge counts and the "Drop here" placeholder;
  - the drag state, a class with one field.
- **The ideation session** (`Ideation`): a class over the session state. It models:
  - every handler: reset, generate, sketch, refine, details, verification and save;
  - the "needs a diagram" predicate;
  - extraction of the title by `/\*\*Title\*\*:\s*(.*)/`;
  - the record built on save.
- **Math delimiter normalisation** (`MathRenderer`): the four global replaces of `processContent`, proved equal to a one-pass rewrite (`Normalize`).
- **The share link** (`ShareLink`, `UriComponent`, `Base64`):
  - `encodeURIComponent` over UTF-8, and `decodeURIComponent`;
  - `btoa` and `atob` as in RFC 4648 section 4, with the forgiving decoding of the HTML standard (white space removed, padding optional);
  - the link that is built from these, and its decoding at start-up.

`Types` holds the records and enumerations of `types.ts`.

## Model

| member | source | states |
|---|---|---|
| Types.StatusLabelInjective | types.ts:14-19 | distinct workflow statuses have distinct labels |
| JsString.IndexOf | services/geminiService.ts:153 | the first occurrence: `Some(i)` exactly when the pattern occurs at `i` and at no earlier index; `None` exactly when it does not occur |
| JsString.IndexOfAgreeingPrefix | services/geminiService.ts:153 | texts that agree up to the end of the first occurrence have the same first occurrence |
| JsString.IndexOfMarked | services/geminiService.ts:153 | a pattern that first occurs at the end of `a + p` is still first found there whatever follows |
| JsString.UpToMarked | services/geminiService.ts:153 | the piece up to the first marker of `a + p + rest` is `a` |
| JsString.Split | services/geminiService.ts:153 | `split` yields at least one part; exactly one when the separator is absent; no part contains the separator |
| JsString.JoinSplit | services/geminiService.ts:153 | joining the parts with the separator gives back the text |
| JsString.SplitFirstTwo | services/geminiService.ts:158-160 | part 0 is the text before the first occurrence; part 1 runs up to the second occurrence or the end |
| JsString.ReplaceAllAbsent | services/geminiService.ts:167 | a global replace of an absent pattern changes nothing |
| JsString.ReplaceAllNoLonger | components/MathRenderer.tsx:41 | a replacement no longer than its pattern never lengthens the text |
| JsString.ReplaceAllPrefixFree | components/MathRenderer.tsx:41 | characters that cannot start the pattern pass through unchanged |
| JsString.TrimStart | components/IdeationView.tsx:113 | drops exactly the leading white space |
| JsString.TrimEnd | services/geminiService.ts:159 | drops exactly the trailing white space |
| JsString.TrimSpec | services/geminiService.ts:159-160 | the trimmed text sits in the original with only white space on either side |
| JsString.TrimEnds | services/geminiService.ts:159-160 | a trimmed text is empty or starts and ends with non-white-space |
| JsString.TrimEmpty | components/IdeationView.tsx:68 | trimming gives the empty text exactly when the text is all white space |
| JsString.TrimIsInfix | services/geminiService.ts:159-160 | the trimmed text occurs in the original |
| JsString.TrimUntouched | services/geminiService.ts:167 | a text without white space at either end is its own trim |
| JsString.TrimIdempotent | services/geminiService.ts:167 | trimming twice is trimming once |
| JsString.TrimKeepsAbsence | services/geminiService.ts:167 | trimming cannot create an occurrence |
| JsString.ToLower | components/IdeationView.tsx:92 | same length; each character is lower-cased in place |
| GeminiPrompts.StyleGuideDefaults | services/geminiService.ts:10-17 | no style gives ""; an empty notation becomes "Standard IMO" and an empty convention "Standard"; non-empty ones are kept |
| GeminiPrompts.IdeaPromptNamesParameters | services/geminiService.ts:26-28 | the idea prompt contains the topic and the difficulty labels |
| GeminiPrompts.IdeaPromptHasFocus | services/geminiService.ts:29 | a non-empty focus area puts "Focus specifically on: <area>." into the prompt |
| GeminiPrompts.IdeaPromptWithoutFocus | services/geminiService.ts:26-39 | with an empty focus area the prompt contains no "Focus specifically on: ", if the style fields do not contain it either |
| GeminiPrompts.StyleGuideFreeOfFocusLead | services/geminiService.ts:10-17 | the style block adds no focus clause of its own |
| GeminiPrompts.StyleBlockFreeOfFocusLead | services/geminiService.ts:13-16 | the filled-in style lines contain no focus clause when their fields do not |
| GeminiPrompts.IdeaFormatFreeOfFocusLead | services/geminiService.ts:30-39 | the fixed instructions of the idea prompt contain no focus clause |
| GeminiPrompts.SketchPromptCarriesInputs | services/geminiService.ts:61-75 | the sketch prompt contains the sketch and the style block verbatim |
| GeminiPrompts.RefinePromptCarriesInputs | services/geminiService.ts:98-106 | the refinement prompt contains the statement and the request verbatim |
| GeminiService.TextOr | services/geminiService.ts:50-54 | the reply text when non-empty, the empty-reply fallback when empty, the failure text when the call fails; never empty |
| GeminiService.RemoveEachAbsent | services/geminiService.ts:167 | removing fence openers that do not occur changes nothing |
| GeminiService.NoDoubleTickStart | services/geminiService.ts:167 | a text not starting with two backticks still does not after every fence is removed |
| GeminiService.RemoveFencesLeavesNone | services/geminiService.ts:167 | after the global removal of "```" no "```" remains |
| GeminiService.StripFencesClean | services/geminiService.ts:167 | stripped code has no "```" and no white space at either end |
| GeminiService.StripFencesIdempotent | services/geminiService.ts:167 | stripping twice is stripping once |
| GeminiService.StripFencesNoBackticks | services/geminiService.ts:167 | a text without backticks or surrounding white space is left as it is |
| GeminiService.StrippedIsClean | services/geminiService.ts:167 | stripped code is clean: no fence, no outer white space, unchanged by stripping again |
| GeminiService.SplitHalvesWithMarker | services/geminiService.ts:153-160 | with the marker: first half = before the first marker, first lead removed, trimmed; second half = up to the second marker, trimmed |
| GeminiService.SplitHalvesWithoutMarker | services/geminiService.ts:158-164 | the split fails exactly when the marker is absent |
| GeminiService.SplitHalvesOfPieces | services/geminiService.ts:153-160 | for `a + marker + b + marker + tail` the halves come from `a` and `b`, and `tail` after a second marker is lost |
| GeminiService.SolutionAndLeanWithMarker | services/geminiService.ts:153-160 | the solution is the trimmed text before the first marker, without the first solution marker; the Lean code is the stripped text up to the second marker |
| GeminiService.SolutionAndLeanOfPieces | services/geminiService.ts:153-160 | Lean text after a second marker is dropped |
| GeminiService.NoLeanUnchanged | services/geminiService.ts:163-167 | stripping leaves the no-Lean comment as it is |
| GeminiService.SolutionAndLeanWithoutMarker | services/geminiService.ts:161-167 | without the marker, the solution is the raw reply, untrimmed, and the Lean code is the no-Lean comment |
| GeminiService.SolutionAndLeanOnFailure | services/geminiService.ts:170-173 | a failed call gives ("Error generating solution.", "-- Error"), which differs from the split of an empty reply |
| GeminiService.LeanOpenersAreFences | services/geminiService.ts:167 | the Lean openers are fence openers |
| GeminiService.LeanErrorClean | services/geminiService.ts:172 | the error Lean text is clean |
| GeminiService.LeanIsClean | services/geminiService.ts:150-173 | whatever the reply, the Lean code has no fence and no surrounding white space |
| GeminiService.DiagramsWithMarker | services/geminiService.ts:244-259 | the two halves around the first Asymptote marker, stripped with their own openers |
| GeminiService.ParseErrorUnchanged | services/geminiService.ts:252-259 | stripping leaves the parse-error comment as it is |
| GeminiService.DiagramsWithoutMarker | services/geminiService.ts:252-259 | without the marker both codes are "// Error parsing response" |
| GeminiService.DiagramOpenersAreFences | services/geminiService.ts:258-259 | the JSXGraph and Asymptote openers are fence openers |
| GeminiService.EmptyIsClean | services/geminiService.ts:262-264 | the empty code of a failed call is clean |
| GeminiService.DiagramsAreClean | services/geminiService.ts:241-264 | whatever the reply, both diagram codes have no fence and no surrounding white space |
| Library.Without | App.tsx:55-57 | exactly the records whose id differs, never more of them |
| Library.WithStatus | App.tsx:63-65 | same length and order; records with the id get the status; every other field and every other record is unchanged |
| Library.Ids | App.tsx:31 | exactly the ids of the list |
| Library.Unknown | App.tsx:32 | exactly the incoming records whose id is not known |
| Library.Loaded | App.tsx:11-18 | nothing stored gives []; a stored array gives its records; a value that fails to parse gives []; a value that parses to a non-array is replaced by [] (see Left out) |
| Library.WithoutAppend | App.tsx:56 | delete keeps the survivors in order |
| Library.WithoutAbsent | App.tsx:56 | deleting an id that no record has changes nothing |
| Library.WithoutCount | App.tsx:56 | delete removes every record with the id |
| Library.UnknownAppend | App.tsx:32 | import keeps the incoming order |
| Library.UnknownAllNew | App.tsx:31-32 | when no incoming id is known, every incoming record is kept |
| Library.UnknownAllKnown | App.tsx:31-32 | when every incoming id is known, nothing is added |
| Library.MergeSpec | App.tsx:30-34 | the old list follows unchanged; the records before it are exactly the incoming ones with new ids |
| Library.MergeAllKnown | App.tsx:30-34 | importing only known ids leaves the list unchanged |
| Library.MergeKeepsIncomingDuplicates | App.tsx:31-33 | two incoming records with the same new id are both kept |
| Library.Store.constructor | App.tsx:11-18 | the loaded list and the ideation view |
| Library.Store.Save | App.tsx:50-53 | the problem is put first, the old list follows, and the library view is shown |
| Library.Store.Delete | App.tsx:55-57 | the list without the id; the view is unchanged |
| Library.Store.ChangeStatus | App.tsx:63-65 | the list with the status set on the id; the view is unchanged |
| Library.Store.ImportShared | App.tsx:21-43 | a decoded array, once confirmed, is merged and the library is shown; otherwise nothing changes |
| Board.ColumnsInOrder | components/SavedLibrary.tsx:29-34 | Draft, Refining, Verified, Shortlist Ready, each headed by its own label |
| Board.EffectiveStatus | components/SavedLibrary.tsx:79 | the record's status when present and non-empty, otherwise Draft |
| Board.InColumn | components/SavedLibrary.tsx:84 | exactly the records whose effective status is the column's |
| Board.Unplaced | components/SavedLibrary.tsx:84 | exactly the records whose effective status is none of the four |
| Board.InColumnAppend | components/SavedLibrary.tsx:84 | a column keeps library order |
| Board.ExactlyOneColumn | components/SavedLibrary.tsx:29-34 | a record with one of the four statuses is in exactly one column; any other record is in none |
| Board.CountsAddUp | components/SavedLibrary.tsx:79 | the four badge counts and the unplaced records add up to the library size |
| Board.PlaceholderIffEmpty | components/SavedLibrary.tsx:99 | the placeholder shows exactly when no record is filed under the column |
| Board.StatusChangeMovesCard | App.tsx:63-65 | after a status change, every record with the id is in the chosen column |
| Board.DragState.constructor | components/SavedLibrary.tsx:18 | nothing is being dragged |
| Board.DragState.DragStart | components/SavedLibrary.tsx:36-39 | the dragged id is recorded |
| Board.DragState.Drop | components/SavedLibrary.tsx:41-47 | a request for (dragged id, column) exactly when a non-empty id is recorded and a handler exists; the id is cleared in every case |
| MathRenderer.ReplacementTexts | components/MathRenderer.tsx:41 | the replacement "$$$" inserts two dollars and "$" one |
| MathRenderer.NormalizeNoPairs | components/MathRenderer.tsx:41 | the one-pass rewrite leaves no delimiter pair |
| MathRenderer.NormalizeFixed | components/MathRenderer.tsx:41 | the rewrite is the identity exactly on texts without delimiter pairs |
| MathRenderer.NormalizeNoLonger | components/MathRenderer.tsx:41 | the rewrite never lengthens the text |
| MathRenderer.NormalizeAppend | components/MathRenderer.tsx:41 | characters outside rewritten pairs are kept, in order |
| MathRenderer.PassOverPair | components/MathRenderer.tsx:41 | one global replace rewrites a leading pair that is its pattern and keeps any other |
| MathRenderer.PassOverBackslash | components/MathRenderer.tsx:41 | a backslash that starts no pair passes one replace unchanged |
| MathRenderer.PassesOverPair | components/MathRenderer.tsx:41 | the four replaces turn a leading pair into its dollars |
| MathRenderer.PassesOverChar | components/MathRenderer.tsx:41 | the four replaces keep a leading character that starts no pair |
| MathRenderer.ProcessContentIsNormalize | components/MathRenderer.tsx:35-42 | `processContent` equals the one-pass rewrite |
| MathRenderer.ProcessContentNoDelimiters | components/MathRenderer.tsx:41 | the output contains none of `\[`, `\]`, `\(`, `\)` |
| MathRenderer.ProcessContentIdempotent | components/MathRenderer.tsx:35-42 | applying it twice is applying it once |
| MathRenderer.ProcessContentNoLonger | components/MathRenderer.tsx:35-42 | the output is never longer than the input |
| MathRenderer.ProcessContentUnchanged | components/MathRenderer.tsx:35-42 | unchanged exactly when there is no delimiter pair, in particular without backslashes |
| UriComponent.Utf8 | components/ProblemCard.tsx:16 | one to four octets, each below 256 |
| UriComponent.Utf8Lead | components/ProblemCard.tsx:16 | one octet exactly below 0x80; otherwise the lead's leading ones give the length and the rest are continuation octets |
| UriComponent.Utf8ValueOfTwo | App.tsx:26 | the two-octet form decodes to the code point |
| UriComponent.Utf8ValueOfThree | App.tsx:26 | the three-octet form decodes to the code point |
| UriComponent.Utf8ValueOfFour | App.tsx:26 | the four-octet form decodes to the code point |
| UriComponent.Utf8ValueOfUtf8 | App.tsx:26 | decoding the UTF-8 octets of a code point gives it back |
| UriComponent.HexRoundTrip | App.tsx:26 | the upper-case hex digit of a value reads back as the value |
| UriComponent.Escape | components/ProblemCard.tsx:16 | "%" then two hex digits whose value, high digit first, is the octet |
| UriComponent.Escapes | components/ProblemCard.tsx:16 | three characters per octet |
| UriComponent.Encode | components/ProblemCard.tsx:16 | never shorter than the input |
| UriComponent.EscapesAscii | components/ProblemCard.tsx:16 | escapes are ASCII |
| UriComponent.EncodeAscii | components/ProblemCard.tsx:16 | the encoded text is ASCII only, so `btoa` accepts it |
| UriComponent.EncodeUnreserved | components/ProblemCard.tsx:16 | a text of unreserved characters is its own encoding |
| UriComponent.Octet | App.tsx:26 | a parsed escape covers three characters and yields an octet |
| UriComponent.Octets | App.tsx:26 | n parsed escapes yield n octets |
| UriComponent.OctetOfEscape | App.tsx:26 | an escape parses back to its octet |
| UriComponent.OctetsOfEscapes | App.tsx:26 | a run of escapes parses back to its octets |
| UriComponent.DecodeEncodeChar | App.tsx:26 | decoding an encoded character followed by anything gives the character, then the decoding of the rest |
| UriComponent.DecodeEncode | App.tsx:26 | `decodeURIComponent(encodeURIComponent(s)) == s` |
| UriComponent.DecodeWithoutPercent | App.tsx:26 | a text without "%" decodes to itself |
| UriComponent.DecodeBadEscape | App.tsx:26 | a "%" not followed by two hex digits makes decoding fail |
| Base64.SextetChar | components/ProblemCard.tsx:16 | a value below 64 maps into the base64 alphabet |
| Base64.CharSextet | App.tsx:26 | an alphabet character maps to a value below 64 |
| Base64.SextetCharInverse | App.tsx:26 | the two alphabet maps are inverse |
| Base64.EncodeTriple | components/ProblemCard.tsx:16 | three octets become four alphabet characters |
| Base64.Unpadded | components/ProblemCard.tsx:16 | the unpadded encoding uses the alphabet, and its length is never 1 modulo 4 |
| Base64.EncodeLength | components/ProblemCard.tsx:16 | the encoding has four characters per started group of three octets |
| Base64.EncodeShape | components/ProblemCard.tsx:16 | a multiple of four characters, from the alphabet or "=" |
| Base64.UnpaddedSize | components/ProblemCard.tsx:16 | four characters per full group; a partial group of n octets takes n + 1 |
| Base64.Latin1Bytes | components/ProblemCard.tsx:16 | `btoa` accepts the text exactly when every character is below 256, and then takes their values as octets |
| Base64.Latin1String | App.tsx:26 | `atob` turns each octet into the character with that value |
| Base64.RemoveAsciiWhiteSpace | App.tsx:26 | no ASCII white space remains; a text without any is unchanged |
| Base64.DecodeQuad | App.tsx:26 | four alphabet characters decode to three octets |
| Base64.DecodeChars | App.tsx:26 | decoding never gives more octets than characters |
| Base64.Atob | App.tsx:26 | a successful `atob` gives no more octets than characters |
| Base64.BitsRoundTrip | App.tsx:26 | the four sextets of three octets reassemble the octets |
| Base64.TripleRoundTrip | App.tsx:26 | decoding an encoded group gives back its three octets |
| Base64.DecodeLastTwo | App.tsx:26 | a final group of three characters decodes to two octets |
| Base64.DecodeLastOne | App.tsx:26 | a final group of two characters decodes to one octet |
| Base64.DecodeUnpadded | App.tsx:26 | decoding the unpadded encoding gives back the octets |
| Base64.AtobEncode | App.tsx:26 | `atob` of the padded encoding gives back the octets |
| Base64.KeptByRemoval | App.tsx:26 | removing white space keeps every other character |
| Base64.AtobRejectsForeign | App.tsx:26 | a character outside the alphabet, white space and "=" makes `atob` fail |
| Base64.AtobRejectsLoneChar | App.tsx:26 | a text whose length is 1 modulo 4 makes `atob` fail |
| Base64.AtobBtoa | App.tsx:26 | `atob(btoa(s))` gives back `s` for every text `btoa` accepts |
| ShareLink.ShareDataDefined | components/ProblemCard.tsx:16 | `btoa(encodeURIComponent(json))` never throws, uses only the base64 alphabet and "=", and is empty only for the empty JSON |
| ShareLink.DecodeShareData | App.tsx:26 | `decodeURIComponent(atob(data))` gives back the shared JSON |
| ShareLink.LinkShape | components/ProblemCard.tsx:14-17 | the link is origin + path name + "?data=" + the encoded payload, and the payload decodes from it |
| ShareLink.SharedProblemOffered | App.tsx:24-28 | a shared problem is offered for import as the one-element list holding exactly it, given that JSON parsing inverts stringification |
| ShareLink.NothingOffered | App.tsx:24-41 | a missing, empty or undecodable parameter offers nothing |
| Ideation.LowerOccursAt | components/IdeationView.tsx:92 | the lower-cased text holds a word at an index exactly when the text has it there in some capitalisation |
| Ideation.LowerContains | components/IdeationView.tsx:92 | the lower-cased text contains a word exactly when the text mentions it somewhere in some capitalisation |
| Ideation.MentionNeedsDiagram | components/IdeationView.tsx:92 | "triangle" or "circle" in any capitalisation anywhere in the text calls for diagrams, whatever the topic |
| Ideation.NoMentionNoDiagram | components/IdeationView.tsx:92 | conversely, outside Geometry, a text mentioning neither word in any capitalisation calls for none |
| Ideation.NeedsDiagramIgnoresCase | components/IdeationView.tsx:92 | the rule gives the same answer for a text and its lower-cased form |
| Ideation.CapitalsNeedDiagram | components/IdeationView.tsx:92 | "TRIANGLE", all in capitals, calls for diagrams |
| Ideation.UntilLineEnd | components/IdeationView.tsx:113 | the longest prefix without a line terminator |
| Ideation.TitleCapture | components/IdeationView.tsx:113 | a capture exists exactly when the text contains "**Title**:" |
| Ideation.TitleCaptureSpec | components/IdeationView.tsx:113 | after the first label: white space, which may span lines, then the one-line title, possibly empty, then a line end or the end |
| Ideation.TitleAfterBlankLines | components/IdeationView.tsx:113 | `\s*` crosses blank lines, so the title comes from a later line |
| Ideation.TitleFallback | components/IdeationView.tsx:114 | without the label: "<topic> Problem" in generate mode, "Custom Problem" in sketch mode |
| Ideation.Session.constructor | components/IdeationView.tsx:23-47 | generate mode, Number Theory, medium, empty texts, the preview tab, not busy |
| Ideation.Session.SetInputs | components/IdeationView.tsx:143-192 | the selections change and nothing else |
| Ideation.Session.SetRefinementPrompt | components/IdeationView.tsx:200 | the request changes and nothing else |
| Ideation.Session.SelectTab | components/IdeationView.tsx:210-216 | the tab changes and nothing else |
| Ideation.Session.ResetOutputs | components/IdeationView.tsx:49-57 | all six derived texts are emptied and the preview tab is shown |
| Ideation.Session.GenerateIdea | components/IdeationView.tsx:59-65 | outputs reset, the text is the reply to the idea prompt, not busy |
| Ideation.Session.ProcessSketch | components/IdeationView.tsx:67-74 | an all-white-space sketch changes nothing; otherwise outputs reset and the text is the reply to the sketch prompt |
| Ideation.Session.Refine | components/IdeationView.tsx:76-83 | a no-op when the text or the request is empty; otherwise the text is rewritten and the request cleared; the derived texts are kept |
| Ideation.Session.GenerateDetails | components/IdeationView.tsx:85-100 | solution and Lean code from the service result; diagrams from theirs only when needed, otherwise kept; similars and stress test kept; the solution tab |
| Ideation.Session.RunVerification | components/IdeationView.tsx:102-110 | similars and stress test from their replies; the verification tab |
| Ideation.Session.Save | components/IdeationView.tsx:112-133 | a Draft tagged with the mode; the text and all six derived texts copied; topic and difficulty as selected, or Algebra and medium in sketch mode |
| Ideation.SavedLandsInDraft | components/IdeationView.tsx:122 | a saved record heads the Draft column and is in no other column |

## Left out

- Browser I/O is not modelled: localStorage, `window.location`, `history.replaceState`, the clipboard, and the `window.open` export page (App.tsx:67-129, `exportJSON` in SavedLibrary.tsx). The stored text and the query parameter are inputs. `confirm` becomes the `confirmed` argument. `alert` only reports and changes no state.
- The calls to the language model are not modelled: the API key, the model names and the thinking budgets. A reply is a parameter, either the reply text or a failure. The prompts of the solution, diagram, similar-problem and stress-test requests are not modelled either, because their replies enter the session directly as parameters.
- `JSON.stringify` and `JSON.parse` are parameters. The elements of a parsed array are taken to be records, because the source does not validate them.
- Library.Loaded: the source keeps a stored value that parses to something other than an array, such as `null` or an object (App.tsx:14). It then fails when that value is used as an array: the first save throws at App.tsx:51, and the library view throws at SavedLibrary.tsx:79. The list here holds only records, so the model substitutes the empty list for such a value and does not capture the later failures.
- Library.Store.ImportShared: the query parameter is taken as the exact text appended to the link. `URLSearchParams` turns a "+" into a space (section 5.1 of the WHATWG URL Standard). A base64 payload containing "+" therefore reaches `atob` altered, and that import fails or yields other text. For example, "ab~" percent-encodes to itself and has the base64 "YWJ+". The round trip is proved only at the level of the strings. Other query escapes such as "%2B" are not modelled.
- UriComponent.Encode: code points are scalars. Lone surrogate halves make `encodeURIComponent` throw; they are not modelled.
- JsString.ToLower: ASCII letters only. Other scripts do not occur in the two words it is tested against.
- Async interleavings, React render scheduling and button disabled states are not modelled. Each handler runs to completion atomically, so the busy flag is only seen false afterwards.
- components/GeometryVisualizer.tsx is not modelled: it runs model-returned code through JSXGraph. The KaTeX polling, the timers and `renderMathInElement` are not modelled either.
- Ideation.Session.GenerateDetails: takes the two service results, the values of `GenerateSolutionAndLean` and `GenerateGeometryDiagrams` for their replies, as parameters and not the replies themselves, to keep its proof small. The properties of those results, such as `LeanIsClean` and `DiagramsAreClean`, are proved in `GeminiService`.
- `Date.now()` ids and time stamps are parameters of `Save`. Nothing guarantees that they are unique.
- Ideation.Session: the source keeps each field in its own state hook. Here the selections are grouped into `Inputs` and the six derived texts into `Outputs`.

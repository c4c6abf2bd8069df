/**
 * The prompt templates of the model client (services/geminiService.ts):
 * the style-guide block, the generation prompt with its optional focus
 * clause, the sketch prompt and the refinement prompt. Each is a fixed
 * interpolation of its parameters; the texts below are the source's
 * template literals, line breaks and indentation included.
 */
module GeminiPrompts {
  import opened Wrappers
  import opened JsString
  import opened Types

  datatype StyleGuide = StyleGuide(notation: string, geometryConvention: string)

  const StyleTitle := "\n    Style Constraints:\n    "
  const NotationLabel := "- Notation Preference: "
  const ConventionLabel := "- Geometry Convention: "
  const LineBreak := "\n    "
  const DefaultNotation := "Standard IMO"
  const DefaultConvention := "Standard"

  /** `formatStyleGuide`: empty without a style guide; otherwise the two preferences, each replaced by its default when empty. */
  function FormatStyleGuide(style: Option<StyleGuide>): string {
    match style
    case None => ""
    case Some(g) =>
      StyleTitle + NotationLabel + OrDefault(g.notation, DefaultNotation) + LineBreak
      + ConventionLabel + OrDefault(g.geometryConvention, DefaultConvention) + LineBreak
  }

  /** What `formatStyleGuide` promises: nothing without a guide; with one, each preference, or its default when empty, is stated after its label. */
  lemma StyleGuideDefaults(style: Option<StyleGuide>)
    ensures style.None? ==> FormatStyleGuide(style) == ""
    ensures style.Some? ==>
      Contains(FormatStyleGuide(style), NotationLabel
        + (if style.value.notation == "" then "Standard IMO" else style.value.notation))
    ensures style.Some? ==>
      Contains(FormatStyleGuide(style), ConventionLabel
        + (if style.value.geometryConvention == "" then "Standard" else style.value.geometryConvention))
  {
    if style.Some? {
      var n := OrDefault(style.value.notation, DefaultNotation);
      var c := OrDefault(style.value.geometryConvention, DefaultConvention);
      ContainsAdjacent(StyleTitle, NotationLabel, n);
      ContainsAppend(StyleTitle + NotationLabel + n, LineBreak + ConventionLabel + c + LineBreak, NotationLabel + n);
      assert FormatStyleGuide(style) == StyleTitle + NotationLabel + n + (LineBreak + ConventionLabel + c + LineBreak);
      ContainsAdjacent(StyleTitle + NotationLabel + n + LineBreak, ConventionLabel, c);
      ContainsAppend(StyleTitle + NotationLabel + n + LineBreak + ConventionLabel + c, LineBreak, ConventionLabel + c);
    }
  }

  const IdeaIntro := "\n    Generate a unique IMO-level problem in "
  const IdeaDifficulty := ".\n    Difficulty level: "
  const IdeaAfterDifficulty := ".\n    "
  const IdeaNovelty := "\n    \n    The problem "
    + "should be novel, or a clever "
    + "disguise of a known result. \n    "
  const IdeaLatex := "Provide the problem title and "
    + "the statement clearly in LaTeX."
    + "\n    \n    "
  const IdeaBody := IdeaNovelty + IdeaLatex
  const FormatHead := "Format:\n    "
    + "**Title**: [Title]\n    "
    + "**Statement**: [Problem Statement]"
  const FormatConcept := "\n    **Concept**: "
    + "[Brief explanation of the core "
    + "idea]\n  "
  const IdeaFormat := FormatHead + FormatConcept

  const FocusLead := "Focus specifically on: "

  /** The focus clause of the generation prompt: present only for a non-empty focus area. */
  function FocusClause(focusArea: string): string {
    if focusArea == "" then "" else FocusLead + focusArea + "."
  }

  /** The prompt that `generateProblemIdea` sends. */
  function IdeaPrompt(topic: Topic, difficulty: Difficulty, focusArea: string, style: Option<StyleGuide>): string {
    IdeaIntro + topic.Label() + IdeaDifficulty + difficulty.Label() + IdeaAfterDifficulty
    + FocusClause(focusArea) + LineBreak + FormatStyleGuide(style) + IdeaBody + IdeaFormat
  }

  /** The generation prompt names the topic and the difficulty. */
  lemma IdeaPromptNamesParameters(topic: Topic, difficulty: Difficulty, focusArea: string, style: Option<StyleGuide>)
    ensures Contains(IdeaPrompt(topic, difficulty, focusArea, style), topic.Label())
    ensures Contains(IdeaPrompt(topic, difficulty, focusArea, style), difficulty.Label())
  {
    var t := topic.Label();
    var d := difficulty.Label();
    var f := FocusClause(focusArea);
    var sg := FormatStyleGuide(style);
    ContainsSelf(t);
    ContainsPrepend(IdeaIntro, t, t);
    ContainsAppend(IdeaIntro + t, IdeaDifficulty, t);
    ContainsAppend(IdeaIntro + t + IdeaDifficulty, d, t);
    ContainsSelf(d);
    ContainsPrepend(IdeaIntro + t + IdeaDifficulty, d, d);
    var x := IdeaIntro + t + IdeaDifficulty + d;
    ContainsAppend(x, IdeaAfterDifficulty, t);
    ContainsAppend(x, IdeaAfterDifficulty, d);
    ContainsAppend(x + IdeaAfterDifficulty, f, t);
    ContainsAppend(x + IdeaAfterDifficulty, f, d);
    ContainsAppend(x + IdeaAfterDifficulty + f, LineBreak, t);
    ContainsAppend(x + IdeaAfterDifficulty + f, LineBreak, d);
    ContainsAppend(x + IdeaAfterDifficulty + f + LineBreak, sg, t);
    ContainsAppend(x + IdeaAfterDifficulty + f + LineBreak, sg, d);
    ContainsAppend(x + IdeaAfterDifficulty + f + LineBreak + sg, IdeaBody, t);
    ContainsAppend(x + IdeaAfterDifficulty + f + LineBreak + sg, IdeaBody, d);
    ContainsAppend(x + IdeaAfterDifficulty + f + LineBreak + sg + IdeaBody, IdeaFormat, t);
    ContainsAppend(x + IdeaAfterDifficulty + f + LineBreak + sg + IdeaBody, IdeaFormat, d);
  }

  /** The user-typed parts of a style guide do not themselves spell the focus lead. */
  predicate StyleFreeOfFocusLead(style: Option<StyleGuide>) {
    style.None? || (!Contains(style.value.notation, FocusLead) && !Contains(style.value.geometryConvention, FocusLead))
  }

  lemma StyleLabelsLackF()
    ensures 'F' !in StyleTitle + NotationLabel && 'F' !in ConventionLabel
  {
  }

  /** A line break and the focus lead share no character at their starts. */
  lemma LineBreakApartFromFocusLead()
    ensures LineBreak != [] && LineBreak[0] !in FocusLead && FocusLead[0] !in LineBreak
  {
  }

  /** The style-guide block around two preferences that lack the focus lead lacks it too. */
  lemma StyleBlockFreeOfFocusLead(n: string, c: string)
    requires !Contains(n, FocusLead) && !Contains(c, FocusLead)
    ensures !Contains(StyleTitle + NotationLabel + n + LineBreak + ConventionLabel + c + LineBreak, FocusLead)
  {
    StyleLabelsLackF();
    LineBreakApartFromFocusLead();
    NoContainsPrefix(StyleTitle + NotationLabel, n, FocusLead);
    NoContainsAround2(StyleTitle + NotationLabel + n, LineBreak, ConventionLabel, c, FocusLead);
    MissingCharNoContains(LineBreak, FocusLead, 0);
    NoContainsJoin(StyleTitle + NotationLabel + n + LineBreak + ConventionLabel + c, LineBreak, FocusLead);
  }

  /** The style-guide block holds no focus lead unless the user typed it. */
  lemma StyleGuideFreeOfFocusLead(style: Option<StyleGuide>)
    requires StyleFreeOfFocusLead(style)
    ensures !Contains(FormatStyleGuide(style), FocusLead)
  {
    match style
    case None =>
      assert !OccursAt("", FocusLead, 0);
    case Some(g) =>
      MissingCharNoContains(DefaultNotation, FocusLead, 0);
      MissingCharNoContains(DefaultConvention, FocusLead, 0);
      StyleBlockFreeOfFocusLead(OrDefault(g.notation, DefaultNotation), OrDefault(g.geometryConvention, DefaultConvention));
  }

  lemma LabelsLackF(topic: Topic, difficulty: Difficulty)
    ensures 'F' !in topic.Label() && 'F' !in difficulty.Label()
  {
    match topic
    case Algebra =>
    case Combinatorics =>
    case Geometry =>
    case NumberTheory =>
  }

  lemma IdeaIntroLacksF()
    ensures 'F' !in IdeaIntro
  {
  }

  lemma IdeaLinksLackF()
    ensures 'F' !in IdeaDifficulty && 'F' !in IdeaAfterDifficulty && 'F' !in LineBreak
  {
  }

  /** The fixed text of the generation prompt before the style guide holds no 'F'. */
  lemma IdeaHeadLacksF(topic: Topic, difficulty: Difficulty)
    ensures 'F' !in IdeaIntro + topic.Label() + IdeaDifficulty + difficulty.Label() + IdeaAfterDifficulty + "" + LineBreak
  {
    LabelsLackF(topic, difficulty);
    IdeaIntroLacksF();
    IdeaLinksLackF();
  }

  lemma IdeaNoveltyLacksF()
    ensures IdeaNovelty[0] == '\n' && 'F' !in IdeaNovelty
  {
  }

  lemma IdeaLatexLacksF()
    ensures 'F' !in IdeaLatex
  {
  }

  /** The body of the generation prompt starts a new line and holds no 'F'. */
  lemma IdeaBodyLacksF()
    ensures IdeaBody[0] == '\n' && 'F' !in IdeaBody
  {
    IdeaNoveltyLacksF();
    IdeaLatexLacksF();
  }

  lemma FormatHeadLacksY()
    ensures 'y' !in FormatHead
  {
  }

  lemma FormatConceptLacksY()
    ensures 'y' !in FormatConcept
  {
  }

  /** The answer format of the generation prompt holds no focus lead: it has no 'y'. */
  lemma IdeaFormatFreeOfFocusLead()
    ensures !Contains(IdeaFormat, FocusLead)
  {
    FormatHeadLacksY();
    FormatConceptLacksY();
    MissingCharNoContains(IdeaFormat, FocusLead, 17);
  }

  /** A non-empty focus area is named in the generation prompt after the focus lead. */
  lemma IdeaPromptHasFocus(topic: Topic, difficulty: Difficulty, focusArea: string, style: Option<StyleGuide>)
    requires focusArea != ""
    ensures Contains(IdeaPrompt(topic, difficulty, focusArea, style), "Focus specifically on: " + focusArea + ".")
  {
    var f := FocusClause(focusArea);
    var sg := FormatStyleGuide(style);
    var head := IdeaIntro + topic.Label() + IdeaDifficulty + difficulty.Label() + IdeaAfterDifficulty;
    ContainsSelf(f);
    ContainsPrepend(head, f, f);
    ContainsAppend(head + f, LineBreak, f);
    ContainsAppend(head + f + LineBreak, sg, f);
    ContainsAppend(head + f + LineBreak + sg, IdeaBody, f);
    ContainsAppend(head + f + LineBreak + sg + IdeaBody, IdeaFormat, f);
  }

  /**
   * Without a focus area the generation prompt holds no focus lead at all
   * (unless the user typed it into the style guide).
   */
  lemma IdeaPromptWithoutFocus(topic: Topic, difficulty: Difficulty, style: Option<StyleGuide>)
    requires StyleFreeOfFocusLead(style)
    ensures !Contains(IdeaPrompt(topic, difficulty, "", style), "Focus specifically on: ")
  {
    var sg := FormatStyleGuide(style);
    var w := IdeaIntro + topic.Label() + IdeaDifficulty + difficulty.Label() + IdeaAfterDifficulty + "" + LineBreak;
    StyleGuideFreeOfFocusLead(style);
    IdeaHeadLacksF(topic, difficulty);
    IdeaBodyLacksF();
    IdeaFormatFreeOfFocusLead();
    NoContainsPrefix(w, sg, FocusLead);
    NoContainsAround(w + sg, IdeaBody, IdeaFormat, FocusLead);
  }

  const SketchIntro := "\n    The user has provided a rough sketch, idea, "
    + "or configuration for a math problem:\n    \""
  const SketchClose := "\"\n    "
  const SketchTasks := "\n\n    1. Analyze this idea. Is it well-defined? "
    + "Does it correspond to a known theorem?\n    "
    + "2. Formalize this into a rigorous IMO-style problem statement. \n    "
    + "3. If the original idea is too simple, suggest a generalization "
    + "or a harder variant suitable for an Olympiad.\n    "
    + "4. Provide the result in the standard format.\n\n    "
  const SketchFormat := "Format:\n    **Title**: [Proposed Title]\n    "
    + "**Statement**: [Formal Problem Statement in LaTeX]\n    "
    + "**Notes**: [Comments on how the sketch was adapted/formalized]\n  "

  /** The prompt that `generateProblemFromSketch` sends: the sketch in quotes, then the style guide. */
  function SketchPrompt(userSketch: string, style: Option<StyleGuide>): string {
    SketchIntro + userSketch + SketchClose + FormatStyleGuide(style) + SketchTasks + SketchFormat
  }

  /** The sketch prompt carries the sketch verbatim and the style-guide block. */
  lemma SketchPromptCarriesInputs(userSketch: string, style: Option<StyleGuide>)
    ensures Contains(SketchPrompt(userSketch, style), userSketch)
    ensures Contains(SketchPrompt(userSketch, style), FormatStyleGuide(style))
  {
    var sg := FormatStyleGuide(style);
    ContainsSelf(userSketch);
    ContainsPrepend(SketchIntro, userSketch, userSketch);
    ContainsAppend(SketchIntro + userSketch, SketchClose, userSketch);
    ContainsAppend(SketchIntro + userSketch + SketchClose, sg, userSketch);
    ContainsAppend(SketchIntro + userSketch + SketchClose + sg, SketchTasks, userSketch);
    ContainsAppend(SketchIntro + userSketch + SketchClose + sg + SketchTasks, SketchFormat, userSketch);
    ContainsSelf(sg);
    ContainsPrepend(SketchIntro + userSketch + SketchClose, sg, sg);
    ContainsAppend(SketchIntro + userSketch + SketchClose + sg, SketchTasks, sg);
    ContainsAppend(SketchIntro + userSketch + SketchClose + sg + SketchTasks, SketchFormat, sg);
  }

  const RefineIntro := "\n    Current Problem Statement:\n    "
  const RefineRequest := "\n\n    Request: "
  const RefineTail := "\n\n    Please rewrite the problem statement based on the request. \n    "
    + "Then, provide a brief commentary on what changed and why it improves "
    + "the problem or meets the criteria.\n  "

  /** The prompt that `refineProblem` sends: the current statement, then the request. */
  function RefinePrompt(currentStatement: string, instruction: string): string {
    RefineIntro + currentStatement + RefineRequest + instruction + RefineTail
  }

  /** The refinement prompt carries the statement and the request verbatim. */
  lemma RefinePromptCarriesInputs(currentStatement: string, instruction: string)
    ensures Contains(RefinePrompt(currentStatement, instruction), currentStatement)
    ensures Contains(RefinePrompt(currentStatement, instruction), instruction)
  {
    ContainsSelf(currentStatement);
    ContainsPrepend(RefineIntro, currentStatement, currentStatement);
    ContainsAppend(RefineIntro + currentStatement, RefineRequest, currentStatement);
    ContainsAppend(RefineIntro + currentStatement + RefineRequest, instruction, currentStatement);
    ContainsAppend(RefineIntro + currentStatement + RefineRequest + instruction, RefineTail, currentStatement);
    ContainsSelf(instruction);
    ContainsPrepend(RefineIntro + currentStatement + RefineRequest, instruction, instruction);
    ContainsAppend(RefineIntro + currentStatement + RefineRequest + instruction, RefineTail, instruction);
  }
}

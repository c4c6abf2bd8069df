/**
 * The ideation view: a session holding the selections (mode, topic,
 * difficulty, focus area, style guide, sketch), the current problem text,
 * the six texts derived from it (solution, Lean code, similar problems,
 * stress test, JSXGraph and Asymptote code), the active tab, the pending
 * refinement request and the busy flag. Each handler asks the model and
 * stores what comes back; the model is a parameter, either a function from
 * prompt to reply (for the prompts this model states) or the reply itself.
 */
module Ideation {
  import opened Wrappers
  import opened JsString
  import opened Types
  import opened GeminiPrompts
  import opened GeminiService
  import Board

  datatype Mode = Generate | Sketch {
    function Label(): string {
      match this
      case Generate => "generate"
      case Sketch => "sketch"
    }
  }

  datatype Tab = Preview | SolutionTab | LeanTab | VerificationTab | DiagramTab

  /** What the user has chosen and typed. */
  datatype Inputs = Inputs(
    mode: Mode, topic: Topic, difficulty: Difficulty, focusArea: string,
    notation: string, geometryConvention: string, userSketch: string)

  /** The six texts derived from the current problem. */
  datatype Outputs = Outputs(
    solution: string, leanCode: string, similars: string, stressTest: string,
    jsxGraphCode: string, asymptoteCode: string)

  const NoOutputs := Outputs("", "", "", "", "", "")

  // ---------------------------------------------------------------------
  // The diagram predicate
  // ---------------------------------------------------------------------

  /** Diagrams are asked for for Geometry, or when the lower-cased text mentions a triangle or a circle. */
  predicate NeedsDiagram(topic: Topic, text: string) {
    topic == Geometry || Contains(ToLower(text), "triangle") || Contains(ToLower(text), "circle")
  }

  /** `word` occurs at `i` in `text` in some capitalisation: lower-casing that stretch spells it. */
  predicate MentionsAt(text: string, word: string, i: int) {
    0 <= i && i + |word| <= |text| && forall k | 0 <= k < |word| :: LowerChar(text[i + k]) == word[k]
  }

  /** The lower-cased text holds a word at `i` exactly when the text mentions it there in some capitalisation. */
  lemma LowerOccursAt(text: string, word: string, i: int)
    ensures OccursAt(ToLower(text), word, i) <==> MentionsAt(text, word, i)
  {
    var t := ToLower(text);
    if 0 <= i && i + |word| <= |text| {
      if MentionsAt(text, word, i) {
        assert t[i..i + |word|] == word by {
          forall k | 0 <= k < |word|
            ensures t[i..i + |word|][k] == word[k]
          {
            assert t[i + k] == LowerChar(text[i + k]);
          }
        }
      }
      if OccursAt(t, word, i) {
        forall k | 0 <= k < |word|
          ensures LowerChar(text[i + k]) == word[k]
        {
          assert t[i..i + |word|][k] == word[k];
        }
      }
    }
  }

  /** The lower-cased text contains a word exactly when the text mentions it somewhere in some capitalisation. */
  lemma LowerContains(text: string, word: string)
    ensures Contains(ToLower(text), word) <==> exists i :: MentionsAt(text, word, i)
  {
    var t := ToLower(text);
    if Contains(t, word) {
      var i :| 0 <= i <= |t| && OccursAt(t, word, i);
      LowerOccursAt(text, word, i);
    }
    if exists i :: MentionsAt(text, word, i) {
      var i :| MentionsAt(text, word, i);
      LowerOccursAt(text, word, i);
      assert 0 <= i <= |t| && OccursAt(t, word, i);
    }
  }

  /** A mention of a triangle or a circle, in any capitalisation ("Triangle", "CIRCLE"), calls for diagrams. */
  lemma MentionNeedsDiagram(topic: Topic, text: string, word: string, i: nat)
    requires word == "triangle" || word == "circle"
    requires MentionsAt(text, word, i)
    ensures NeedsDiagram(topic, text)
  {
    LowerContains(text, word);
  }

  /** Conversely, outside Geometry, a text mentioning neither word in any capitalisation calls for no diagrams. */
  lemma NoMentionNoDiagram(topic: Topic, text: string)
    requires topic != Geometry
    requires forall i :: !MentionsAt(text, "triangle", i) && !MentionsAt(text, "circle", i)
    ensures !NeedsDiagram(topic, text)
  {
    LowerContains(text, "triangle");
    LowerContains(text, "circle");
  }

  /** A problem written in capitals is treated as its lower-case form: the rule ignores case. */
  lemma NeedsDiagramIgnoresCase(topic: Topic, text: string)
    ensures NeedsDiagram(topic, text) == NeedsDiagram(topic, ToLower(text))
  {
    assert ToLower(ToLower(text)) == ToLower(text);
  }

  /** "TRIANGLE", all in capitals, calls for diagrams whatever the topic. */
  lemma CapitalsNeedDiagram(topic: Topic)
    ensures NeedsDiagram(topic, "TRIANGLE")
  {
    MentionNeedsDiagram(topic, "TRIANGLE", "triangle", 0);
  }

  // ---------------------------------------------------------------------
  // Title extraction
  // ---------------------------------------------------------------------

  const TitleLabel := "**Title**:"

  /** The text up to its first line terminator. */
  function UntilLineEnd(s: string): (r: string)
    ensures |r| <= |s| && r == s[..|r|]
    ensures forall k | 0 <= k < |r| :: !IsLineTerminator(r[k])
    ensures |r| == |s| || IsLineTerminator(s[|r|])
  {
    if s == [] || IsLineTerminator(s[0]) then [] else [s[0]] + UntilLineEnd(s[1..])
  }

  /**
   * The capture of `/\*\*Title\*\*:\s*(.*)/`: after the first `**Title**:`,
   * white space (line ends included) is skipped and the rest of that line
   * is taken, possibly empty; None when the label does not occur.
   */
  function TitleCapture(text: string): (r: Option<string>)
    ensures r.Some? <==> Contains(text, TitleLabel)
  {
    match IndexOf(text, TitleLabel)
    case None => None
    case Some(i) => Some(UntilLineEnd(TrimStart(text[i + |TitleLabel|..])))
  }

  /** The title of a saved problem: the capture, or "<topic> Problem" (generate mode) or "Custom Problem". */
  function Title(text: string, mode: Mode, topic: Topic): string {
    match TitleCapture(text)
    case Some(t) => t
    case None => (if mode == Generate then topic.Label() else "Custom") + " Problem"
  }

  /**
   * The capture after the first label is white space, then the title, then
   * the end of the text or a line end: the title is one line, starts with
   * no white space, and may be empty.
   */
  lemma TitleCaptureSpec(text: string, i: nat)
    requires IndexOf(text, TitleLabel) == Some(i)
    ensures var rest := text[i + |TitleLabel|..];
      var t := TitleCapture(text).value;
      LineAfterSpace(rest, rest[..|rest| - |TrimStart(rest)|], t, TrimStart(rest)[|t|..])
  {
    var rest := text[i + |TitleLabel|..];
    var u := TrimStart(rest);
    CaptureShape(rest, u, UntilLineEnd(u));
  }

  /** `rest` is white space `ws`, then the one-line `t` not starting with white space, then the end or a line end. */
  predicate LineAfterSpace(rest: string, ws: string, t: string, tail: string) {
    rest == ws + t + tail
    && AllWhiteSpace(ws)
    && (t == [] || !IsWhiteSpace(t[0]))
    && (forall k | 0 <= k < |t| :: !IsLineTerminator(t[k]))
    && (tail == [] || IsLineTerminator(tail[0]))
  }

  lemma CaptureShape(rest: string, u: string, t: string)
    requires u == TrimStart(rest) && t == UntilLineEnd(u)
    ensures LineAfterSpace(rest, rest[..|rest| - |u|], t, u[|t|..])
  {
    CaptureSplits(rest, u, t);
    CaptureEdges(rest, u, t);
    LinePieces(rest, rest[..|rest| - |u|], u, t, u[|t|..]);
  }

  /** The skipped white space, the title and the rest of the line make up the text after the label. */
  lemma CaptureSplits(rest: string, u: string, t: string)
    requires u == TrimStart(rest) && t == UntilLineEnd(u)
    ensures u == t + u[|t|..]
    ensures rest == rest[..|rest| - |u|] + t + u[|t|..]
  {
    ThreeParts(rest, u, t);
  }

  /** What surrounds the title: skipped white space before it, a line end or the end after it. */
  lemma CaptureEdges(rest: string, u: string, t: string)
    requires u == TrimStart(rest) && t == UntilLineEnd(u)
    ensures AllWhiteSpace(rest[..|rest| - |u|]) && (u == [] || !IsWhiteSpace(u[0]))
    ensures forall k | 0 <= k < |t| :: !IsLineTerminator(t[k])
    ensures |t| == |u| || IsLineTerminator(u[|t|])
  {
    TrimStartSkipsSpace(rest);
  }

  /** The shape of a capture, from facts about its pieces alone. */
  lemma LinePieces(rest: string, ws: string, u: string, t: string, tail: string)
    requires rest == ws + t + tail && u == t + tail
    requires AllWhiteSpace(ws) && (u == [] || !IsWhiteSpace(u[0]))
    requires forall k | 0 <= k < |t| :: !IsLineTerminator(t[k])
    requires |t| == |u| || IsLineTerminator(u[|t|])
    ensures LineAfterSpace(rest, ws, t, tail)
  {
    if t != [] {
      assert t[0] == u[0];
    }
    if tail != [] {
      assert tail[0] == u[|t|];
    }
  }

  lemma ThreeParts(rest: string, u: string, t: string)
    requires |u| <= |rest| && u == rest[|rest| - |u|..] && |t| <= |u| && t == u[..|t|]
    ensures u == t + u[|t|..]
    ensures rest == rest[..|rest| - |u|] + t + u[|t|..]
  {
    assert u == t + u[|t|..];
  }

  /** The label at the start, blank lines, then a title line: the title is taken from the later line. */
  lemma TitleAfterBlankLines(ws: string, name: string, tail: string)
    requires AllWhiteSpace(ws)
    requires name != [] && !IsWhiteSpace(name[0])
    requires forall k | 0 <= k < |name| :: !IsLineTerminator(name[k])
    requires tail == [] || IsLineTerminator(tail[0])
    ensures TitleCapture(TitleLabel + ws + name + tail) == Some(name)
  {
    var rest := ws + (name + tail);
    assert TitleLabel + ws + name + tail == TitleLabel + rest;
    IndexOfAtStart(TitleLabel, rest);
    assert (TitleLabel + rest)[|TitleLabel|..] == rest;
    TrimStartOver(ws, name + tail);
    UntilLineEndOver(name, tail);
  }

  lemma {:induction false} TrimStartOver(ws: string, s: string)
    requires AllWhiteSpace(ws)
    requires s != [] && !IsWhiteSpace(s[0])
    ensures TrimStart(ws + s) == s
  {
    if ws != [] {
      assert (ws + s)[1..] == ws[1..] + s;
      TrimStartOver(ws[1..], s);
    } else {
      assert ws + s == s;
    }
  }

  lemma {:induction false} UntilLineEndOver(name: string, tail: string)
    requires forall k | 0 <= k < |name| :: !IsLineTerminator(name[k])
    requires tail == [] || IsLineTerminator(tail[0])
    ensures UntilLineEnd(name + tail) == name
  {
    if name != [] {
      assert (name + tail)[1..] == name[1..] + tail;
      UntilLineEndOver(name[1..], tail);
    } else {
      assert name + tail == tail;
    }
  }

  /** Without the label, the title falls back to the topic (generate mode) or "Custom". */
  lemma TitleFallback(text: string, mode: Mode, topic: Topic)
    requires !Contains(text, TitleLabel)
    ensures Title(text, mode, topic) == (if mode == Generate then topic.Label() + " Problem" else "Custom Problem")
  {
  }

  // ---------------------------------------------------------------------
  // The session
  // ---------------------------------------------------------------------

  /**
   * The state of the view. The source keeps each field in its own state
   * hook; here the selections and the derived texts are grouped into the
   * `Inputs` and `Outputs` records.
   */
  class Session {
    var inputs: Inputs
    var text: string
    var outputs: Outputs
    var activeTab: Tab
    var refinementPrompt: string
    var isGenerating: bool

    /** The style guide the session passes to the prompts. */
    function Style(): Option<StyleGuide>
      reads this
    {
      Some(StyleGuide(inputs.notation, inputs.geometryConvention))
    }

    /** A fresh session: generate mode, Number Theory, medium difficulty, everything else empty, the preview tab. */
    constructor()
      ensures inputs == Inputs(Generate, NumberTheory, Medium, "", "", "", "")
      ensures outputs == NoOutputs && text == "" && refinementPrompt == ""
      ensures activeTab == Preview && !isGenerating
    {
      inputs := Inputs(Generate, NumberTheory, Medium, "", "", "", "");
      text := "";
      outputs := NoOutputs;
      activeTab := Preview;
      refinementPrompt := "";
      isGenerating := false;
    }

    /** The form controls: mode buttons, selects and text fields. */
    method SetInputs(newInputs: Inputs)
      modifies this
      ensures inputs == newInputs
      ensures text == old(text) && outputs == old(outputs) && activeTab == old(activeTab)
      ensures refinementPrompt == old(refinementPrompt) && isGenerating == old(isGenerating)
    {
      inputs := newInputs;
    }

    /** The refinement request field. */
    method SetRefinementPrompt(request: string)
      modifies this
      ensures refinementPrompt == request
      ensures inputs == old(inputs) && text == old(text) && outputs == old(outputs)
      ensures activeTab == old(activeTab) && isGenerating == old(isGenerating)
    {
      refinementPrompt := request;
    }

    /** The tab buttons. */
    method SelectTab(tab: Tab)
      modifies this
      ensures activeTab == tab
      ensures inputs == old(inputs) && text == old(text) && outputs == old(outputs)
      ensures refinementPrompt == old(refinementPrompt) && isGenerating == old(isGenerating)
    {
      activeTab := tab;
    }

    /** Clear the six derived texts and return to the preview tab. */
    method ResetOutputs()
      modifies this
      ensures outputs == NoOutputs && activeTab == Preview
      ensures inputs == old(inputs) && text == old(text)
      ensures refinementPrompt == old(refinementPrompt) && isGenerating == old(isGenerating)
    {
      outputs := NoOutputs;
      activeTab := Preview;
    }

    /** Generate a problem from the selections: outputs cleared, then the reply to the idea prompt becomes the text. */
    method GenerateIdea(ask: string -> Reply)
      modifies this
      ensures text == IdeaText(ask(IdeaPrompt(old(inputs).topic, old(inputs).difficulty, old(inputs).focusArea, old(Style()))))
      ensures outputs == NoOutputs && activeTab == Preview && !isGenerating
      ensures inputs == old(inputs) && refinementPrompt == old(refinementPrompt)
    {
      isGenerating := true;
      ResetOutputs();
      text := IdeaText(ask(IdeaPrompt(inputs.topic, inputs.difficulty, inputs.focusArea, Style())));
      isGenerating := false;
    }

    /**
     * Turn the sketch into a problem; a sketch that is empty once trimmed
     * (that is, all white space, by `TrimEmpty`) changes nothing.
     */
    method ProcessSketch(ask: string -> Reply)
      modifies this
      ensures AllWhiteSpace(old(inputs).userSketch) ==>
        text == old(text) && outputs == old(outputs) && activeTab == old(activeTab) && isGenerating == old(isGenerating)
      ensures !AllWhiteSpace(old(inputs).userSketch) ==>
        text == SketchText(ask(SketchPrompt(old(inputs).userSketch, old(Style()))))
        && outputs == NoOutputs && activeTab == Preview && !isGenerating
      ensures inputs == old(inputs) && refinementPrompt == old(refinementPrompt)
    {
      if !AllWhiteSpace(inputs.userSketch) {
        isGenerating := true;
        ResetOutputs();
        text := SketchText(ask(SketchPrompt(inputs.userSketch, Style())));
        isGenerating := false;
      }
    }

    /**
     * Rewrite the text following the refinement request, which is then
     * cleared; the derived texts and the tab are kept. Nothing happens
     * when the text or the request is empty.
     */
    method Refine(ask: string -> Reply)
      modifies this
      ensures old(text) == "" || old(refinementPrompt) == "" ==>
        text == old(text) && refinementPrompt == old(refinementPrompt) && isGenerating == old(isGenerating)
      ensures old(text) != "" && old(refinementPrompt) != "" ==>
        text == RefineText(ask(RefinePrompt(old(text), old(refinementPrompt))))
        && refinementPrompt == "" && !isGenerating
      ensures outputs == old(outputs) && activeTab == old(activeTab) && inputs == old(inputs)
    {
      if text == "" || refinementPrompt == "" {
        return;
      }
      isGenerating := true;
      text := RefineText(ask(RefinePrompt(text, refinementPrompt)));
      refinementPrompt := "";
      isGenerating := false;
    }

    /**
     * Solution and Lean code from what `generateSolutionAndLean` returned
     * (`GenerateSolutionAndLean` of its reply); when the problem calls for
     * diagrams, the JSXGraph and Asymptote code from what
     * `generateGeometryDiagrams` returned (otherwise they are kept); then
     * the solution tab.
     */
    method GenerateDetails(details: SolutionAndLean, diagrams: Diagrams)
      modifies this
      ensures outputs.solution == details.solution && outputs.leanCode == details.lean
      ensures if NeedsDiagram(old(inputs).topic, old(text))
        then outputs.jsxGraphCode == diagrams.jsxGraph && outputs.asymptoteCode == diagrams.asymptote
        else outputs.jsxGraphCode == old(outputs).jsxGraphCode && outputs.asymptoteCode == old(outputs).asymptoteCode
      ensures outputs.similars == old(outputs).similars && outputs.stressTest == old(outputs).stressTest
      ensures activeTab == SolutionTab && !isGenerating
      ensures inputs == old(inputs) && text == old(text) && refinementPrompt == old(refinementPrompt)
    {
      isGenerating := true;
      var solution, leanCode := details.solution, details.lean;
      var jsxGraphCode, asymptoteCode := outputs.jsxGraphCode, outputs.asymptoteCode;
      if NeedsDiagram(inputs.topic, text) {
        jsxGraphCode, asymptoteCode := diagrams.jsxGraph, diagrams.asymptote;
      }
      outputs := outputs.(solution := solution, leanCode := leanCode,
        jsxGraphCode := jsxGraphCode, asymptoteCode := asymptoteCode);
      isGenerating := false;
      activeTab := SolutionTab;
    }

    /** Similar problems and the stress test from their replies; then the verification tab. */
    method RunVerification(similarsReply: Reply, stressReply: Reply)
      modifies this
      ensures outputs == old(outputs).(similars := SimilarsText(similarsReply), stressTest := StressTestText(stressReply))
      ensures activeTab == VerificationTab && !isGenerating
      ensures inputs == old(inputs) && text == old(text) && refinementPrompt == old(refinementPrompt)
    {
      isGenerating := true;
      var sim := SimilarsText(similarsReply);
      var stress := StressTestText(stressReply);
      outputs := outputs.(similars := sim, stressTest := stress);
      isGenerating := false;
      activeTab := VerificationTab;
    }

    /**
     * The record handed to the library on save: a Draft tagged with the
     * mode, the current text and derived texts copied as they are, the
     * topic and difficulty chosen in generate mode (Algebra and medium in
     * sketch mode); the id and time stamp are given.
     */
    method Save(id: string, now: int) returns (p: Problem)
      ensures p.title == Title(text, inputs.mode, inputs.topic)
      ensures p.status == Some("Draft") && p.tags == [inputs.mode.Label()]
      ensures p.topic == (if inputs.mode == Generate then inputs.topic else Algebra)
      ensures p.difficulty == (if inputs.mode == Generate then inputs.difficulty else Medium)
      ensures p.statement == text && p.id == id && p.created == now && p.notes.None?
      ensures p.solution == Some(outputs.solution) && p.leanCode == Some(outputs.leanCode)
      ensures p.similars == Some(outputs.similars) && p.stressTest == Some(outputs.stressTest)
      ensures p.jsxGraphCode == Some(outputs.jsxGraphCode) && p.asymptoteCode == Some(outputs.asymptoteCode)
    {
      var generate := inputs.mode == Generate;
      p := Problem(
        id := id,
        title := Title(text, inputs.mode, inputs.topic),
        statement := text,
        topic := if generate then inputs.topic else Algebra,
        difficulty := if generate then inputs.difficulty else Medium,
        status := Some(Draft.Label()),
        solution := Some(outputs.solution),
        leanCode := Some(outputs.leanCode),
        notes := None,
        created := now,
        tags := [inputs.mode.Label()],
        jsxGraphCode := Some(outputs.jsxGraphCode),
        asymptoteCode := Some(outputs.asymptoteCode),
        similars := Some(outputs.similars),
        stressTest := Some(outputs.stressTest));
    }
  }

  /** A record saved from the session lands on the Draft column of the board, first in it, and on no other column. */
  lemma SavedLandsInDraft(p: Problem, ps: seq<Problem>)
    requires p.status == Some("Draft")
    ensures Board.InColumn([p] + ps, Draft) == [p] + Board.InColumn(ps, Draft)
    ensures forall s: ProblemStatus | s != Draft :: p !in Board.InColumn([p] + ps, s)
  {
    Board.InColumnAppend([p], ps, Draft);
    assert Board.InColumn([p], Draft) == [p];
  }
}

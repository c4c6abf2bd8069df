/**
 * The local logic of the model client: the fallback texts that stand in for an empty reply or a failed call, and the
 * decomposition of a raw reply into (solution, Lean code) and
 * (JSXGraph code, Asymptote code) by marker strings, followed by the
 * removal of Markdown code fences.
 *
 * The call to the model itself is not modelled: each operation takes the
 * outcome of the call as a `Reply` parameter.
 */
module GeminiService {
  import opened Wrappers
  import opened JsString

  /** The outcome of one call to the model: the reply's text (`response.text`, "" when absent) or a thrown error. */
  datatype Reply = Replied(text: string) | CallFailed

  /** Text for a reply that callers display as is: the reply's text, or the fallback for an empty reply or a failed call. */
  function TextOr(reply: Reply, whenEmpty: string, whenFailed: string): (t: string)
    requires whenEmpty != "" && whenFailed != ""
    ensures t != ""
    ensures reply.Replied? && reply.text != "" ==> t == reply.text
    ensures reply.Replied? && reply.text == "" ==> t == whenEmpty
    ensures reply.CallFailed? ==> t == whenFailed
  {
    match reply
    case Replied(text) => OrDefault(text, whenEmpty)
    case CallFailed => whenFailed
  }

  /** `generateProblemIdea`, `generateProblemFromSketch`, `refineProblem`, `checkSimilars`, `stressTestProblem`: the text each returns. */
  function IdeaText(reply: Reply): string {
    TextOr(reply, "Failed to generate problem.", "Error generating problem. Please check your API key or try again.")
  }

  function SketchText(reply: Reply): string {
    TextOr(reply, "Failed to process sketch.", "Error processing sketch.")
  }

  function RefineText(reply: Reply): string {
    TextOr(reply, "Failed to refine problem.", "Error refining problem.")
  }

  function SimilarsText(reply: Reply): string {
    TextOr(reply, "No similars found.", "Error checking similars.")
  }

  function StressTestText(reply: Reply): string {
    TextOr(reply, "Stress test failed.", "Error running stress test.")
  }

  // ---------------------------------------------------------------------
  // Code-fence removal
  // ---------------------------------------------------------------------

  const Fence := "```"

  /** Fence openers that hold the bare fence as a prefix, as every opener the service strips does. */
  predicate AreFenceOpeners(openers: seq<string>) {
    forall k | 0 <= k < |openers| :: |openers[k]| >= 3 && openers[k][..3] == Fence
  }

  /**
   * Each pattern in turn removed everywhere (`.replace(/p/g, "")`, chained);
   * removing the empty pattern leaves the text as it is.
   */
  function RemoveEach(s: string, patterns: seq<string>): string
    decreases |patterns|
  {
    if patterns == [] then s
    else if patterns[0] == [] then RemoveEach(s, patterns[1..])
    else RemoveEach(ReplaceAll(s, patterns[0], ""), patterns[1..])
  }

  /** Removing patterns that do not occur changes nothing. */
  lemma {:induction false} RemoveEachAbsent(s: string, patterns: seq<string>)
    requires forall k | 0 <= k < |patterns| :: patterns[k] != [] ==> !Contains(s, patterns[k])
    ensures RemoveEach(s, patterns) == s
  {
    if patterns != [] {
      if patterns[0] != [] {
        ReplaceAllAbsent(s, patterns[0], "");
      }
      RemoveEachAbsent(s, patterns[1..]);
    }
  }

  /**
   * The clean-up applied to extracted code: every listed fence opener is
   * removed, then every bare fence, then white space at both ends.
   */
  function StripFences(s: string, openers: seq<string>): string
  {
    Trim(ReplaceAll(RemoveEach(s, openers), Fence, ""))
  }

  /** A text that does not start with two backticks keeps that property through fence removal. */
  lemma NoDoubleTickStart(t: string)
    requires !(|t| >= 2 && t[0] == '`' && t[1] == '`')
    ensures var u := ReplaceAll(t, Fence, ""); !(|u| >= 2 && u[0] == '`' && u[1] == '`')
  {
    if t != [] && !(3 <= |t| && t[..3] == Fence) && t[0] == '`' && |t| >= 2 {
      assert !(3 <= |t[1..]| && t[1..][..3] == Fence) by {
        assert t[1..][0] == t[1];
      }
    }
  }

  /**
   * Removing every bare fence leaves none behind. A fence could only
   * re-form across a removed one if the text before it ended with a
   * backtick, and then the removed fence would not have been the leftmost.
   */
  lemma {:induction false} RemoveFencesLeavesNone(s: string)
    ensures !Contains(ReplaceAll(s, Fence, ""), Fence)
    decreases |s|
  {
    if s == [] {
      assert !OccursAt([], Fence, 0);
    } else if 3 <= |s| && s[..3] == Fence {
      RemoveFencesLeavesNone(s[3..]);
      assert ReplaceAll(s, Fence, "") == ReplaceAll(s[3..], Fence, "");
    } else {
      var x := ReplaceAll(s[1..], Fence, "");
      RemoveFencesLeavesNone(s[1..]);
      assert ReplaceAll(s, Fence, "") == [s[0]] + x;
      if s[0] == '`' {
        NoDoubleTickStart(s[1..]);
        if |x| >= 2 {
          assert ([s[0]] + x)[1] == x[0] && ([s[0]] + x)[2] == x[1];
        }
      }
      NoContainsCons(s[0], x, Fence);
    }
  }

  /** Fence stripping leaves no fence and no white space at either end. */
  lemma StripFencesClean(s: string, openers: seq<string>)
    ensures !Contains(StripFences(s, openers), Fence)
    ensures var t := StripFences(s, openers); t == [] || (!IsWhiteSpace(t[0]) && !IsWhiteSpace(t[|t| - 1]))
  {
    var u := ReplaceAll(RemoveEach(s, openers), Fence, "");
    RemoveFencesLeavesNone(RemoveEach(s, openers));
    TrimKeepsAbsence(u, Fence);
    TrimEnds(u);
  }

  /** Fence stripping is idempotent when every opener starts with a bare fence. */
  lemma StripFencesIdempotent(s: string, openers: seq<string>)
    requires AreFenceOpeners(openers)
    ensures StripFences(StripFences(s, openers), openers) == StripFences(s, openers)
  {
    var t := StripFences(s, openers);
    StripFencesClean(s, openers);
    forall k | 0 <= k < |openers| ensures !Contains(t, openers[k]) {
      if Contains(t, openers[k]) {
        ContainsPrefixOfPattern(t, openers[k], 3);
      }
    }
    RemoveEachAbsent(t, openers);
    ReplaceAllAbsent(t, Fence, "");
    TrimUntouched(t);
  }

  /** A constant text without backticks passes through fence stripping unchanged when it has no white space at its ends. */
  lemma StripFencesNoBackticks(s: string, openers: seq<string>)
    requires AreFenceOpeners(openers)
    requires '`' !in s
    requires s == [] || (!IsWhiteSpace(s[0]) && !IsWhiteSpace(s[|s| - 1]))
    ensures StripFences(s, openers) == s
  {
    forall k | 0 <= k < |openers| ensures !Contains(s, openers[k]) {
      assert openers[k][0] == openers[k][..3][0];
      MissingCharNoContains(s, openers[k], 0);
    }
    RemoveEachAbsent(s, openers);
    MissingCharNoContains(s, Fence, 0);
    ReplaceAllAbsent(s, Fence, "");
    TrimUntouched(s);
  }

  /** Cleaned code: no fence, no white space at either end, and a fixed point of fence stripping. */
  predicate IsClean(t: string, openers: seq<string>) {
    !Contains(t, Fence)
    && (t == [] || (!IsWhiteSpace(t[0]) && !IsWhiteSpace(t[|t| - 1])))
    && StripFences(t, openers) == t
  }

  /** Whatever is stripped with fence openers comes out clean. */
  lemma StrippedIsClean(s: string, openers: seq<string>)
    requires AreFenceOpeners(openers)
    ensures IsClean(StripFences(s, openers), openers)
  {
    StripFencesClean(s, openers);
    StripFencesIdempotent(s, openers);
  }

  /** A fence followed by a language name is a fence opener. */
  lemma FenceOpener(name: string)
    ensures |Fence + name| >= 3 && (Fence + name)[..3] == Fence
  {
  }

  // ---------------------------------------------------------------------
  // Marker split shared by both decompositions
  // ---------------------------------------------------------------------

  /** The two trimmed pieces of a reply cut at a marker. */
  datatype Halves = Halves(before: string, after: string)

  /**
   * `text.split(marker)`; when that gives more than one part, the first
   * part without the first `lead` marker and trimmed, and the second part
   * trimmed. Parts after the second are never looked at.
   */
  function SplitHalves(text: string, marker: string, lead: string): Option<Halves>
    requires marker != [] && lead != []
  {
    var parts := Split(text, marker);
    if |parts| > 1 then Some(Halves(Trim(ReplaceFirst(parts[0], lead, "")), Trim(parts[1])))
    else None
  }

  /**
   * With the marker present, the first half comes from the text before its
   * first occurrence and the second half from the text between the first
   * and the second occurrence (or the end).
   */
  lemma SplitHalvesWithMarker(text: string, marker: string, lead: string, i: nat)
    requires marker != [] && lead != []
    requires IndexOf(text, marker) == Some(i)
    ensures SplitHalves(text, marker, lead)
      == Some(Halves(Trim(ReplaceFirst(text[..i], lead, "")), Trim(UpTo(text[i + |marker|..], marker))))
  {
    SplitFirstTwo(text, marker, i);
  }

  /** Without the marker there are no halves. */
  lemma SplitHalvesWithoutMarker(text: string, marker: string, lead: string)
    requires marker != [] && lead != []
    ensures SplitHalves(text, marker, lead) == None <==> !Contains(text, marker)
  {
  }

  /** The pieces of `a + marker + rest` around the marker. */
  lemma PiecesAround(a: string, marker: string, rest: string)
    ensures (a + marker + rest)[..|a|] == a
    ensures (a + marker + rest)[|a| + |marker|..] == rest
  {
  }

  /**
   * When the marker first occurs right after `a` and next right after `b`,
   * the halves are `a` (without the lead marker) and `b`, trimmed: whatever
   * follows the second occurrence is dropped.
   */
  lemma SplitHalvesOfPieces(a: string, b: string, tail: string, marker: string, lead: string)
    requires marker != [] && lead != []
    requires IndexOf(a + marker, marker) == Some(|a|)
    requires IndexOf(b + marker, marker) == Some(|b|)
    ensures SplitHalves(a + marker + (b + marker + tail), marker, lead)
      == Some(Halves(Trim(ReplaceFirst(a, lead, "")), Trim(b)))
  {
    var rest := b + marker + tail;
    var text := a + marker + rest;
    assert IndexOf(text, marker) == Some(|a|) by {
      IndexOfMarked(a, marker, rest);
    }
    assert text[..|a|] == a && UpTo(text[|a| + |marker|..], marker) == b by {
      PiecesAround(a, marker, rest);
      UpToMarked(b, marker, tail);
    }
    SplitHalvesWithMarker(text, marker, lead, |a|);
  }

  // ---------------------------------------------------------------------
  // generateSolutionAndLean
  // ---------------------------------------------------------------------

  const SolutionMarker := "SPLIT_MARKER_SOLUTION"
  const LeanMarker := "SPLIT_MARKER_LEAN"
  const NoLean := "-- No Lean " + "code generated " + "successfully."
  const LeanOpeners := [Fence + "lean"]

  datatype SolutionAndLean = SolutionAndLean(solution: string, lean: string)

  /**
   * The reply of `generateSolutionAndLean` taken apart: the halves at the
   * Lean marker, or the raw reply and the no-code notice; fences are then
   * stripped from the Lean part only.
   */
  function SplitSolutionAndLean(text: string): SolutionAndLean {
    match SplitHalves(text, LeanMarker, SolutionMarker)
    case Some(h) => SolutionAndLean(h.before, StripFences(h.after, LeanOpeners))
    case None => SolutionAndLean(text, StripFences(NoLean, LeanOpeners))
  }

  /** `generateSolutionAndLean`: the fixed error pair when the call fails. */
  function GenerateSolutionAndLean(reply: Reply): SolutionAndLean {
    match reply
    case CallFailed => SolutionAndLean("Error generating solution.", "-- Error")
    case Replied(text) => SplitSolutionAndLean(text)
  }

  /**
   * With the Lean marker present, the solution is the text before its first
   * occurrence, without the first solution marker, trimmed (and never
   * fence-stripped); the Lean code is the text between the first and the
   * second occurrence (or the end), trimmed and fence-stripped.
   */
  lemma SolutionAndLeanWithMarker(text: string, i: nat)
    requires IndexOf(text, LeanMarker) == Some(i)
    ensures SplitSolutionAndLean(text) == SolutionAndLean(
      Trim(ReplaceFirst(text[..i], SolutionMarker, "")),
      StripFences(Trim(UpTo(text[i + |LeanMarker|..], LeanMarker)), LeanOpeners))
  {
    SplitHalvesWithMarker(text, LeanMarker, SolutionMarker, i);
  }

  /**
   * Lean text after a second Lean marker is lost: when the marker first
   * occurs right after `a` and next right after `b`, the solution comes
   * from `a` and the Lean code from `b` alone.
   */
  lemma SolutionAndLeanOfPieces(a: string, b: string, tail: string)
    requires IndexOf(a + LeanMarker, LeanMarker) == Some(|a|)
    requires IndexOf(b + LeanMarker, LeanMarker) == Some(|b|)
    ensures SplitSolutionAndLean(a + LeanMarker + (b + LeanMarker + tail)) == SolutionAndLean(
      Trim(ReplaceFirst(a, SolutionMarker, "")), StripFences(Trim(b), LeanOpeners))
  {
    SplitHalvesOfPieces(a, b, tail, LeanMarker, SolutionMarker);
  }

  /** The no-code notice passes through fence stripping unchanged. */
  lemma NoLeanUnchanged()
    ensures StripFences(NoLean, LeanOpeners) == NoLean
  {
    assert '`' !in "-- No Lean " && '`' !in "code generated " && '`' !in "successfully.";
    assert !IsWhiteSpace(NoLean[0]) && !IsWhiteSpace(NoLean[|NoLean| - 1]);
    LeanOpenersAreFences();
    StripFencesNoBackticks(NoLean, LeanOpeners);
  }

  /** Without the Lean marker (an empty reply included) the solution is the raw reply, untrimmed, and the Lean part is the fixed notice. */
  lemma SolutionAndLeanWithoutMarker(text: string)
    requires !Contains(text, LeanMarker)
    ensures SplitSolutionAndLean(text) == SolutionAndLean(text, NoLean)
  {
    SplitHalvesWithoutMarker(text, LeanMarker, SolutionMarker);
    NoLeanUnchanged();
  }

  /** A failed call yields the two fixed error texts, whatever else the model would have said. */
  lemma SolutionAndLeanOnFailure()
    ensures GenerateSolutionAndLean(CallFailed) == SolutionAndLean("Error generating solution.", "-- Error")
    ensures GenerateSolutionAndLean(CallFailed) != SplitSolutionAndLean("")
  {
    SolutionAndLeanWithoutMarker("");
  }

  lemma LeanOpenersAreFences()
    ensures AreFenceOpeners(LeanOpeners)
  {
    FenceOpener("lean");
  }

  /** The Lean code of a failed call is already clean. */
  lemma LeanErrorClean()
    ensures IsClean("-- Error", LeanOpeners)
  {
    LeanOpenersAreFences();
    MissingCharNoContains("-- Error", Fence, 0);
    StripFencesNoBackticks("-- Error", LeanOpeners);
  }

  /** In every case the Lean code holds no fence and no white space at its ends, and cleaning it again changes nothing. */
  lemma LeanIsClean(reply: Reply)
    ensures IsClean(GenerateSolutionAndLean(reply).lean, LeanOpeners)
  {
    match reply
    case CallFailed =>
      LeanErrorClean();
    case Replied(text) =>
      var lean := match SplitHalves(text, LeanMarker, SolutionMarker)
        case Some(h) => h.after
        case None => NoLean;
      LeanOpenersAreFences();
      StrippedIsClean(lean, LeanOpeners);
  }

  // ---------------------------------------------------------------------
  // generateGeometryDiagrams
  // ---------------------------------------------------------------------

  const JsxMarker := "SPLIT_MARKER_JSX"
  const AsyMarker := "SPLIT_MARKER_ASY"
  const ParseError := "// Error parsing response"
  const JsxOpeners := [Fence + "javascript", Fence + "js"]
  const AsyOpeners := [Fence + "asy"]

  datatype Diagrams = Diagrams(jsxGraph: string, asymptote: string)

  /**
   * The reply of `generateGeometryDiagrams` taken apart: the halves at the
   * Asymptote marker, or the parse-error comment twice; each is then
   * stripped of its own fences.
   */
  function SplitDiagrams(text: string): Diagrams {
    match SplitHalves(text, AsyMarker, JsxMarker)
    case Some(h) => Diagrams(StripFences(h.before, JsxOpeners), StripFences(h.after, AsyOpeners))
    case None => Diagrams(StripFences(ParseError, JsxOpeners), StripFences(ParseError, AsyOpeners))
  }

  /** `generateGeometryDiagrams`: two empty codes when the call fails. */
  function GenerateGeometryDiagrams(reply: Reply): Diagrams {
    match reply
    case CallFailed => Diagrams("", "")
    case Replied(text) => SplitDiagrams(text)
  }

  /** With the Asymptote marker present, JSXGraph code comes from before it (first JSX marker removed) and Asymptote code from between it and the next one. */
  lemma DiagramsWithMarker(text: string, i: nat)
    requires IndexOf(text, AsyMarker) == Some(i)
    ensures SplitDiagrams(text) == Diagrams(
      StripFences(Trim(ReplaceFirst(text[..i], JsxMarker, "")), JsxOpeners),
      StripFences(Trim(UpTo(text[i + |AsyMarker|..], AsyMarker)), AsyOpeners))
  {
    SplitHalvesWithMarker(text, AsyMarker, JsxMarker, i);
  }

  /** The parse-error comment passes through either fence stripping unchanged. */
  lemma ParseErrorUnchanged()
    ensures StripFences(ParseError, JsxOpeners) == ParseError
    ensures StripFences(ParseError, AsyOpeners) == ParseError
  {
    assert '`' !in ParseError;
    assert !IsWhiteSpace(ParseError[0]) && !IsWhiteSpace(ParseError[|ParseError| - 1]);
    DiagramOpenersAreFences();
    StripFencesNoBackticks(ParseError, JsxOpeners);
    StripFencesNoBackticks(ParseError, AsyOpeners);
  }

  /** Without the Asymptote marker both parts are the parse-error comment. */
  lemma DiagramsWithoutMarker(text: string)
    requires !Contains(text, AsyMarker)
    ensures SplitDiagrams(text) == Diagrams(ParseError, ParseError)
  {
    SplitHalvesWithoutMarker(text, AsyMarker, JsxMarker);
    ParseErrorUnchanged();
  }

  lemma DiagramOpenersAreFences()
    ensures AreFenceOpeners(JsxOpeners) && AreFenceOpeners(AsyOpeners)
  {
    FenceOpener("javascript");
    FenceOpener("js");
    FenceOpener("asy");
  }

  /** The empty codes of a failed call are clean. */
  lemma EmptyIsClean(openers: seq<string>)
    requires AreFenceOpeners(openers)
    ensures IsClean("", openers)
  {
    StripFencesNoBackticks("", openers);
  }

  /** In every case both diagram codes hold no fence and no white space at their ends, and stripping them again changes nothing. */
  lemma DiagramsAreClean(reply: Reply)
    ensures IsClean(GenerateGeometryDiagrams(reply).jsxGraph, JsxOpeners)
    ensures IsClean(GenerateGeometryDiagrams(reply).asymptote, AsyOpeners)
  {
    DiagramOpenersAreFences();
    match reply
    case CallFailed =>
      EmptyIsClean(JsxOpeners);
      EmptyIsClean(AsyOpeners);
    case Replied(text) =>
      var h := match SplitHalves(text, AsyMarker, JsxMarker)
        case Some(h) => h
        case None => Halves(ParseError, ParseError);
      StrippedIsClean(h.before, JsxOpeners);
      StrippedIsClean(h.after, AsyOpeners);
  }
}

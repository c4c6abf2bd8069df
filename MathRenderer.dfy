/**
 * `processContent` of the math renderer (components/MathRenderer.tsx):
 * before the text is handed to the TeX auto-renderer, the bracket
 * delimiters `\[ \]` become display-math `$$` and the parenthesis
 * delimiters `\( \)` become inline-math `$`, by four chained global
 * replacements.
 *
 * The four passes are proved equal to one left-to-right scan, `Normalize`,
 * which rewrites each delimiter pair where it stands and keeps every other
 * character; the properties of the rewrite are proved about the scan.
 */
module MathRenderer {
  import opened JsString

  const OpenDisplay := "\\["
  const CloseDisplay := "\\]"
  const OpenInline := "\\("
  const CloseInline := "\\)"

  /** A replacement text whose `$` signs are never followed by a character that would start another `$` pattern. */
  predicate PlainDollars(r: string) {
    forall i | 0 <= i < |r| - 1 :: r[i] == '$' ==> r[i + 1] !in "&`'<0123456789"
  }

  /**
   * The replacement text that `String.prototype.replace` inserts for a
   * replacement pattern without capture or match references: each `$$`
   * stands for one `$`, and any other character stands for itself.
   */
  function ExpandDollars(r: string): string
    requires PlainDollars(r)
    decreases |r|
  {
    if r == [] then []
    else if |r| >= 2 && r[0] == '$' && r[1] == '$' then "$" + ExpandDollars(r[2..])
    else [r[0]] + ExpandDollars(r[1..])
  }

  /** The two replacement patterns of `processContent`: `'$$$'` inserts two dollars, `'$'` one. */
  lemma ReplacementTexts()
    ensures PlainDollars("$$$") && ExpandDollars("$$$") == "$$"
    ensures PlainDollars("$") && ExpandDollars("$") == "$"
  {
    assert "$$$"[2..] == "$";
    assert "$"[1..] == [];
  }

  /** `processContent`: the four global replacements, in the source's order. */
  function ProcessContent(text: string): string {
    ReplacementTexts();
    var display := ExpandDollars("$$$");
    var inline := ExpandDollars("$");
    ReplaceAll(ReplaceAll(ReplaceAll(ReplaceAll(text, OpenDisplay, display), CloseDisplay, display),
      OpenInline, inline), CloseInline, inline)
  }

  /** A delimiter pair: a backslash, then one of the four bracket characters. */
  predicate IsPairAt(s: string, i: int) {
    0 <= i && i + 1 < |s| && s[i] == '\\' && s[i + 1] in "[]()"
  }

  /** What a delimiter pair becomes: `$$` for brackets, `$` for parentheses. */
  function PairReplacement(b: char): string {
    if b == '[' || b == ']' then "$$" else "$"
  }

  /** The reference rewrite: one left-to-right scan that replaces each delimiter pair where it stands. */
  function Normalize(s: string): string
    decreases |s|
  {
    if s == [] then []
    else if IsPairAt(s, 0) then PairReplacement(s[1]) + Normalize(s[2..])
    else [s[0]] + Normalize(s[1..])
  }

  /** A text in which no delimiter pair occurs. */
  predicate NoPairs(s: string) {
    forall i | 0 <= i < |s| :: !IsPairAt(s, i)
  }

  // ---------------------------------------------------------------------
  // The scan
  // ---------------------------------------------------------------------

  /** The scan's output starts with the input's first character, or with a dollar. */
  lemma NormalizeHead(s: string)
    ensures s == [] <==> Normalize(s) == []
    ensures s != [] ==> Normalize(s)[0] == s[0] || Normalize(s)[0] == '$'
  {
  }

  /** A text with a non-pair character in front keeps that property in front of the scan's output. */
  lemma NoPairsCons(c: char, x: string)
    requires NoPairs(x)
    requires c == '\\' ==> x == [] || x[0] !in "[]()"
    ensures NoPairs([c] + x)
  {
    forall i | 0 <= i < |[c] + x| ensures !IsPairAt([c] + x, i) {
      if i > 0 {
        assert !IsPairAt(x, i - 1);
      }
    }
  }

  /** Every delimiter pair is gone from the scan's output. */
  lemma {:induction false} NormalizeNoPairs(s: string)
    ensures NoPairs(Normalize(s))
    decreases |s|
  {
    if s == [] {
    } else if IsPairAt(s, 0) {
      NormalizeNoPairs(s[2..]);
      var rest := Normalize(s[2..]);
      var d := PairReplacement(s[1]);
      if d == "$$" {
        NoPairsCons('$', rest);
        NoPairsCons('$', ['$'] + rest);
        assert d + rest == ['$'] + (['$'] + rest);
      } else {
        NoPairsCons('$', rest);
      }
    } else {
      NormalizeNoPairs(s[1..]);
      NormalizeHead(s[1..]);
      NoPairsCons(s[0], Normalize(s[1..]));
    }
  }

  /** The scan leaves a text unchanged exactly when the text holds no delimiter pair. */
  lemma {:induction false} NormalizeFixed(s: string)
    ensures Normalize(s) == s <==> NoPairs(s)
    decreases |s|
  {
    NormalizeNoPairs(s);
    if s != [] && !IsPairAt(s, 0) && NoPairs(s) {
      assert NoPairs(s[1..]) by {
        forall i | 0 <= i < |s[1..]| ensures !IsPairAt(s[1..], i) {
          assert !IsPairAt(s, i + 1);
        }
      }
      NormalizeFixed(s[1..]);
      assert s == [s[0]] + s[1..];
    }
  }

  /** The scan never lengthens the text. */
  lemma {:induction false} NormalizeNoLonger(s: string)
    ensures |Normalize(s)| <= |s|
    decreases |s|
  {
    if s != [] {
      if IsPairAt(s, 0) {
        NormalizeNoLonger(s[2..]);
      } else {
        NormalizeNoLonger(s[1..]);
      }
    }
  }

  /**
   * The rewrite is local: a text cut where no pair straddles the cut (the
   * first piece does not end in a backslash) is rewritten piece by piece,
   * so every character outside a rewritten pair is kept, in order.
   */
  lemma {:induction false} NormalizeAppend(a: string, b: string)
    requires a == [] || a[|a| - 1] != '\\'
    ensures Normalize(a + b) == Normalize(a) + Normalize(b)
    decreases |a|
  {
    if a == [] {
      assert a + b == b;
    } else if IsPairAt(a, 0) {
      assert (a + b)[2..] == a[2..] + b;
      assert IsPairAt(a + b, 0);
      NormalizeAppend(a[2..], b);
    } else {
      assert (a + b)[1..] == a[1..] + b;
      assert !IsPairAt(a + b, 0);
      NormalizeAppend(a[1..], b);
    }
  }

  // ---------------------------------------------------------------------
  // The four passes equal the scan
  // ---------------------------------------------------------------------

  /** The four passes with their replacement texts expanded. */
  function FourPasses(s: string): string {
    ReplaceAll(ReplaceAll(ReplaceAll(ReplaceAll(s, OpenDisplay, "$$"), CloseDisplay, "$$"), OpenInline, "$"), CloseInline, "$")
  }

  /** A delimiter pattern: a backslash and one bracket character. */
  predicate IsDelimiter(p: string) {
    |p| == 2 && p[0] == '\\' && p[1] in "[]()"
  }

  /** One pass over a leading pair: the pair is replaced if it is this pass's pattern and kept otherwise. */
  lemma PassOverPair(q: string, t: string, p: string, r: string)
    requires IsDelimiter(q) && IsDelimiter(p)
    ensures ReplaceAll(q + t, p, r) == (if q == p then r else q) + ReplaceAll(t, p, r)
  {
    if q == p {
      ReplaceAllAtPattern(t, p, r);
    } else {
      assert q + t == [q[0]] + ([q[1]] + t);
      assert ([q[0]] + ([q[1]] + t))[..2] == q;
      ReplaceAllCons(q[0], [q[1]] + t, p, r);
      ReplaceAllCons(q[1], t, p, r);
      assert [q[0]] + ([q[1]] + ReplaceAll(t, p, r)) == q + ReplaceAll(t, p, r);
    }
  }

  /** One pass over a lone backslash whose follower is no bracket character: the backslash is kept, and so is that property. */
  lemma PassOverBackslash(u: string, p: string, r: string)
    requires IsDelimiter(p) && r != [] && r[0] !in "[]()"
    requires u == [] || u[0] !in "[]()"
    ensures ReplaceAll(['\\'] + u, p, r) == ['\\'] + ReplaceAll(u, p, r)
    ensures ReplaceAll(u, p, r) == [] || ReplaceAll(u, p, r)[0] !in "[]()"
  {
    if u != [] {
      assert ([p[0]] + u)[..2] == [p[0], u[0]];
    }
    ReplaceAllCons('\\', u, p, r);
    ReplaceAllHead(u, p, r);
  }

  /** The four passes over a leading delimiter pair. */
  lemma PassesOverPair(q: string, t: string)
    requires IsDelimiter(q)
    ensures FourPasses(q + t) == PairReplacement(q[1]) + FourPasses(t)
  {
    var u1 := ReplaceAll(t, OpenDisplay, "$$");
    var u2 := ReplaceAll(u1, CloseDisplay, "$$");
    var u3 := ReplaceAll(u2, OpenInline, "$");
    PassOverPair(q, t, OpenDisplay, "$$");
    if q == OpenDisplay {
      ReplaceAllPrefixFree("$$", u1, CloseDisplay, "$$");
      ReplaceAllPrefixFree("$$", u2, OpenInline, "$");
      ReplaceAllPrefixFree("$$", u3, CloseInline, "$");
    } else {
      PassOverPair(q, u1, CloseDisplay, "$$");
      if q == CloseDisplay {
        ReplaceAllPrefixFree("$$", u2, OpenInline, "$");
        ReplaceAllPrefixFree("$$", u3, CloseInline, "$");
      } else {
        PassOverPair(q, u2, OpenInline, "$");
        if q == OpenInline {
          ReplaceAllPrefixFree("$", u3, CloseInline, "$");
        } else {
          PassOverPair(q, u3, CloseInline, "$");
          assert q == CloseInline;
        }
      }
    }
  }

  /** The four passes over a leading character that starts no pair. */
  lemma PassesOverChar(c: char, t: string)
    requires !IsPairAt([c] + t, 0)
    ensures FourPasses([c] + t) == [c] + FourPasses(t)
  {
    var u1 := ReplaceAll(t, OpenDisplay, "$$");
    var u2 := ReplaceAll(u1, CloseDisplay, "$$");
    var u3 := ReplaceAll(u2, OpenInline, "$");
    if c == '\\' {
      assert t == [] || t[0] !in "[]()" by {
        if t != [] {
          assert ([c] + t)[1] == t[0];
        }
      }
      PassOverBackslash(t, OpenDisplay, "$$");
      PassOverBackslash(u1, CloseDisplay, "$$");
      PassOverBackslash(u2, OpenInline, "$");
      PassOverBackslash(u3, CloseInline, "$");
    } else {
      ReplaceAllPrefixFree([c], t, OpenDisplay, "$$");
      ReplaceAllPrefixFree([c], u1, CloseDisplay, "$$");
      ReplaceAllPrefixFree([c], u2, OpenInline, "$");
      ReplaceAllPrefixFree([c], u3, CloseInline, "$");
    }
  }

  /** The four chained replacements of `processContent` compute the one-pass scan. */
  lemma {:induction false} ProcessContentIsNormalize(s: string)
    ensures ProcessContent(s) == FourPasses(s) == Normalize(s)
    decreases |s|
  {
    ReplacementTexts();
    if s != [] {
      if IsPairAt(s, 0) {
        assert s == s[..2] + s[2..];
        assert IsDelimiter(s[..2]);
        PassesOverPair(s[..2], s[2..]);
        ProcessContentIsNormalize(s[2..]);
      } else {
        assert s == [s[0]] + s[1..];
        PassesOverChar(s[0], s[1..]);
        ProcessContentIsNormalize(s[1..]);
      }
    }
  }

  // ---------------------------------------------------------------------
  // What `processContent` promises
  // ---------------------------------------------------------------------

  /** No `\[`, `\]`, `\(` or `\)` survives. */
  lemma ProcessContentNoDelimiters(s: string)
    ensures !Contains(ProcessContent(s), OpenDisplay) && !Contains(ProcessContent(s), CloseDisplay)
    ensures !Contains(ProcessContent(s), OpenInline) && !Contains(ProcessContent(s), CloseInline)
  {
    var t := ProcessContent(s);
    ProcessContentIsNormalize(s);
    NormalizeNoPairs(s);
    forall q | q in [OpenDisplay, CloseDisplay, OpenInline, CloseInline] ensures !Contains(t, q) {
      if Contains(t, q) {
        var i :| 0 <= i <= |t| && OccursAt(t, q, i);
        assert t[i..i + 2] == q;
        assert t[i] == q[0] && t[i + 1] == q[1];
        assert IsPairAt(t, i);
      }
    }
  }

  /** Rewriting twice is rewriting once. */
  lemma ProcessContentIdempotent(s: string)
    ensures ProcessContent(ProcessContent(s)) == ProcessContent(s)
  {
    ProcessContentIsNormalize(s);
    ProcessContentIsNormalize(ProcessContent(s));
    NormalizeNoPairs(s);
    NormalizeFixed(Normalize(s));
  }

  /** The output is never longer than the input. */
  lemma ProcessContentNoLonger(s: string)
    ensures |ProcessContent(s)| <= |s|
  {
    ProcessContentIsNormalize(s);
    NormalizeNoLonger(s);
  }

  /** A text is returned unchanged exactly when it holds no delimiter pair; in particular any text without a backslash is. */
  lemma ProcessContentUnchanged(s: string)
    ensures ProcessContent(s) == s <==> NoPairs(s)
    ensures '\\' !in s ==> ProcessContent(s) == s
  {
    ProcessContentIsNormalize(s);
    NormalizeFixed(s);
  }
}

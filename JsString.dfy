/**
 * The JavaScript string operations the application relies on, with their
 * exact ECMAScript semantics for literal (non-empty) patterns:
 *   `indexOf` / `includes`, `split` on a string separator, `replace` with a
 *   string pattern (first occurrence only), `replace` with a global regular
 *   expression that is a literal (every non-overlapping occurrence, scanning
 *   left to right), and `trim`.
 */
module JsString {
  import opened Wrappers

  /** `p` occurs in `s` starting at index `i`. */
  predicate OccursAt(s: string, p: string, i: int) {
    0 <= i && i + |p| <= |s| && s[i..i + |p|] == p
  }

  /** `s.includes(p)` */
  predicate Contains(s: string, p: string) {
    exists i | 0 <= i <= |s| :: OccursAt(s, p, i)
  }

  /** A slice of a slice is a slice of the original. */
  lemma SliceOfSlice(s: string, a: int, b: int, i: int, j: int)
    requires 0 <= a <= b <= |s| && 0 <= i <= j <= b - a
    ensures s[a..b][i..j] == s[a + i..a + j]
  {
    assert forall k :: 0 <= k < j - i ==> s[a..b][i..j][k] == s[a + i..a + j][k];
  }

  lemma OccursShift(s: string, p: string, i: int)
    requires s != [] && 0 <= i
    ensures OccursAt(s, p, i + 1) <==> OccursAt(s[1..], p, i)
  {
    if i + 1 + |p| <= |s| {
      SliceOfSlice(s, 1, |s|, i, i + |p|);
    }
  }

  /** An occurrence in `[c] + x` is either at the front or is an occurrence in `x`. */
  lemma ContainsCons(c: char, x: string, p: string)
    requires Contains([c] + x, p)
    ensures OccursAt([c] + x, p, 0) || Contains(x, p)
  {
    var i :| 0 <= i <= |[c] + x| && OccursAt([c] + x, p, i);
    if i > 0 {
      OccursShift([c] + x, p, i - 1);
      assert ([c] + x)[1..] == x;
      assert OccursAt(x, p, i - 1);
    }
  }

  /** A text with a character in front holds a pattern only at the front or in the rest. */
  lemma NoContainsCons(c: char, x: string, p: string)
    requires !OccursAt([c] + x, p, 0) && !Contains(x, p)
    ensures !Contains([c] + x, p)
  {
    if Contains([c] + x, p) {
      ContainsCons(c, x, p);
    }
  }

  /** An occurrence inside `x` is an occurrence inside `[c] + x`. */
  lemma ContainsConsBack(c: char, x: string, p: string)
    requires Contains(x, p)
    ensures Contains([c] + x, p)
  {
    var i :| 0 <= i <= |x| && OccursAt(x, p, i);
    OccursShift([c] + x, p, i);
    assert ([c] + x)[1..] == x;
    assert OccursAt([c] + x, p, i + 1);
  }

  /** A substring of a text is part of the text: whatever it contains, the text contains. */
  lemma ContainsInfix(s: string, a: int, b: int, p: string)
    requires 0 <= a <= b <= |s| && Contains(s[a..b], p)
    ensures Contains(s, p)
  {
    var i :| 0 <= i <= b - a && OccursAt(s[a..b], p, i);
    SliceOfSlice(s, a, b, i, i + |p|);
    assert OccursAt(s, p, a + i);
  }

  /** Prepending text that does not hold the pattern's first character creates no occurrence. */
  lemma {:induction false} NoContainsPrefix(r: string, x: string, p: string)
    requires p != [] && p[0] !in r && !Contains(x, p)
    ensures !Contains(r + x, p)
  {
    if r != [] {
      assert p[0] !in r[1..] by {
        forall k | 0 <= k < |r| - 1 ensures r[1..][k] != p[0] {
          assert r[1..][k] == r[k + 1];
        }
      }
      NoContainsPrefix(r[1..], x, p);
      var y := r[1..] + x;
      assert r + x == [r[0]] + y;
      if Contains([r[0]] + y, p) {
        ContainsCons(r[0], y, p);
        assert false;
      }
    } else {
      assert r + x == x;
    }
  }

  lemma ContainsSelf(p: string)
    ensures Contains(p, p)
  {
    assert OccursAt(p, p, 0);
  }

  /** Text appended after an occurrence keeps it. */
  lemma ContainsAppend(x: string, y: string, p: string)
    requires Contains(x, p)
    ensures Contains(x + y, p)
  {
    var i :| 0 <= i <= |x| && OccursAt(x, p, i);
    SliceOfSlice(x + y, 0, |x|, i, i + |p|);
    assert (x + y)[..|x|] == x;
    assert OccursAt(x + y, p, i);
  }

  /** Text prepended before an occurrence keeps it. */
  lemma ContainsPrepend(x: string, y: string, p: string)
    requires Contains(y, p)
    ensures Contains(x + y, p)
  {
    var i :| 0 <= i <= |y| && OccursAt(y, p, i);
    SliceOfSlice(x + y, |x|, |x + y|, i, i + |p|);
    assert (x + y)[|x|..] == y;
    assert OccursAt(x + y, p, |x| + i);
  }

  /** Two adjacent pieces of a concatenation occur in it together. */
  lemma ContainsAdjacent(a: string, b: string, c: string)
    ensures Contains(a + b + c, b + c)
  {
    assert a + b + c == a + (b + c);
    ContainsSelf(b + c);
    ContainsPrepend(a, b + c, b + c);
  }

  /**
   * No occurrence can start in a piece that lacks the pattern's first
   * character, nor run across a piece whose first character the pattern
   * lacks; so with such a piece `b` in the middle, `a + b + c` holds an
   * occurrence only if `a` or `c` does.
   */
  lemma NoContainsAround(a: string, b: string, c: string, p: string)
    requires p != [] && !Contains(a, p) && !Contains(c, p)
    requires b != [] && b[0] !in p && p[0] !in b
    ensures !Contains(a + b + c, p)
  {
    NoContainsPrefix(b, c, p);
    NoContainsJoin(a, b + c, p);
    assert a + b + c == a + (b + c);
  }

  /** `NoContainsAround` with the middle given in two pieces. */
  lemma NoContainsAround2(a: string, b1: string, b2: string, c: string, p: string)
    requires p != [] && !Contains(a, p) && !Contains(c, p)
    requires b1 != [] && b1[0] !in p && p[0] !in b1 && p[0] !in b2
    ensures !Contains(a + b1 + b2 + c, p)
  {
    NoContainsAround(a, b1 + b2, c, p);
    assert a + b1 + b2 + c == a + (b1 + b2) + c;
  }

  /**
   * Joining two texts that lack a pattern creates no occurrence when the
   * second starts with a character foreign to the pattern: an occurrence
   * across the seam would have to contain that character.
   */
  lemma NoContainsJoin(a: string, b: string, p: string)
    requires !Contains(a, p) && !Contains(b, p)
    requires b != [] && b[0] !in p
    ensures !Contains(a + b, p)
  {
    forall i | 0 <= i <= |a + b| ensures !OccursAt(a + b, p, i) {
      if i + |p| <= |a| {
        assert (a + b)[i..i + |p|] == a[i..i + |p|];
        assert !OccursAt(a, p, i);
      } else if i >= |a| && i + |p| <= |a + b| {
        assert (a + b)[i..i + |p|] == b[i - |a|..i - |a| + |p|];
        assert !OccursAt(b, p, i - |a|);
      } else if i + |p| <= |a + b| {
        assert (a + b)[i..i + |p|][|a| - i] == b[0] != p[|a| - i];
      }
    }
  }

  /** JavaScript's `s || d` on strings: the empty string is falsy. */
  function OrDefault(s: string, d: string): string {
    if s == "" then d else s
  }

  /** A text that lacks one of the pattern's characters does not contain the pattern. */
  lemma MissingCharNoContains(s: string, p: string, k: int)
    requires 0 <= k < |p| && p[k] !in s
    ensures !Contains(s, p)
  {
    forall i | 0 <= i <= |s| ensures !OccursAt(s, p, i) {
      if i + |p| <= |s| {
        assert s[i..i + |p|][k] == s[i + k];
      }
    }
  }

  /** A text that contains a longer pattern contains each of its prefixes too. */
  lemma ContainsPrefixOfPattern(s: string, p: string, n: nat)
    requires n <= |p| && Contains(s, p)
    ensures Contains(s, p[..n])
  {
    var i :| 0 <= i <= |s| && OccursAt(s, p, i);
    SliceOfSlice(s, i, i + |p|, 0, n);
    assert OccursAt(s, p[..n], i);
  }

  /** `s.indexOf(p)` for a non-empty pattern; None stands for -1. */
  function IndexOf(s: string, p: string): (r: Option<nat>)
    requires p != []
    ensures r.None? <==> !Contains(s, p)
    ensures r.Some? ==> OccursAt(s, p, r.value) && forall j :: 0 <= j < r.value ==> !OccursAt(s, p, j)
    decreases |s|
  {
    if |s| < |p| then
      None
    else if s[..|p|] == p then
      assert OccursAt(s, p, 0);
      Some(0)
    else
      match IndexOf(s[1..], p)
      case None =>
        assert forall i :: !OccursAt(s, p, i) by {
          forall i ensures !OccursAt(s, p, i) {
            if i > 0 { OccursShift(s, p, i - 1); }
          }
        }
        None
      case Some(k) =>
        assert forall j :: 0 <= j < k + 1 ==> !OccursAt(s, p, j) by {
          forall j | 0 <= j < k + 1 ensures !OccursAt(s, p, j) {
            if j > 0 { OccursShift(s, p, j - 1); }
          }
        }
        OccursShift(s, p, k);
        Some(k + 1)
  }

  /** The text before the first occurrence of a pattern holds no occurrence of it. */
  lemma BeforeFirstOccurrence(s: string, p: string, i: nat)
    requires p != [] && IndexOf(s, p) == Some(i)
    ensures !Contains(s[..i], p)
  {
    if Contains(s[..i], p) {
      var j :| 0 <= j <= i && OccursAt(s[..i], p, j);
      SliceOfSlice(s, 0, i, j, j + |p|);
      assert OccursAt(s, p, j);
    }
  }

  /** `indexOf` only looks as far as the first occurrence: texts that agree up to its end agree on it. */
  lemma {:induction false} IndexOfAgreeingPrefix(s: string, t: string, p: string, n: nat)
    requires p != [] && n <= |s| && n <= |t| && s[..n] == t[..n]
    requires IndexOf(s, p).Some? && IndexOf(s, p).value + |p| <= n
    ensures IndexOf(t, p) == IndexOf(s, p)
    decreases n
  {
    var i := IndexOf(s, p).value;
    assert s[..|p|] == s[..n][..|p|] && t[..|p|] == t[..n][..|p|];
    if i > 0 {
      assert s[1..][..n - 1] == s[1..n] == t[1..n] == t[1..][..n - 1];
      IndexOfAgreeingPrefix(s[1..], t[1..], p, n - 1);
    }
  }

  /** The piece of `s` up to the first occurrence of `p`, or all of `s` when there is none. */
  function UpTo(s: string, p: string): string
    requires p != []
  {
    match IndexOf(s, p)
    case None => s
    case Some(i) => s[..i]
  }

  /** A pattern at the start of a text is found there. */
  lemma IndexOfAtStart(p: string, rest: string)
    requires p != []
    ensures IndexOf(p + rest, p) == Some(0)
  {
    assert (p + rest)[..|p|] == p;
  }

  /** When `p` first occurs right after `a`, nothing that follows it moves that occurrence. */
  lemma IndexOfMarked(a: string, p: string, rest: string)
    requires p != [] && IndexOf(a + p, p) == Some(|a|)
    ensures IndexOf(a + p + rest, p) == Some(|a|)
  {
    var s := a + p;
    var t := s + rest;
    assert t[..|s|] == s[..|s|];
    IndexOfAgreeingPrefix(s, t, p, |s|);
  }

  /** When `p` first occurs right after `a`, the piece before it is `a`, whatever follows. */
  lemma UpToMarked(a: string, p: string, rest: string)
    requires p != [] && IndexOf(a + p, p) == Some(|a|)
    ensures UpTo(a + p + rest, p) == a
  {
    IndexOfMarked(a, p, rest);
    assert (a + p + rest)[..|a|] == a;
  }

  /**
   * `s.split(sep)` for a non-empty separator: `s` is cut at every
   * occurrence of `sep`, found left to right without overlap.
   */
  function Split(s: string, sep: string): (parts: seq<string>)
    requires sep != []
    ensures |parts| >= 1
    ensures |parts| == 1 <==> !Contains(s, sep)
    ensures forall k :: 0 <= k < |parts| ==> !Contains(parts[k], sep)
    decreases |s|
  {
    match IndexOf(s, sep)
    case None => [s]
    case Some(i) =>
      BeforeFirstOccurrence(s, sep, i);
      [s[..i]] + Split(s[i + |sep|..], sep)
  }

  /** `parts.join(sep)` */
  function Join(parts: seq<string>, sep: string): string {
    if |parts| <= 1 then (if parts == [] then "" else parts[0])
    else parts[0] + sep + Join(parts[1..], sep)
  }

  /** A text is its piece before `i`, the piece from `i` to `j` and the rest. */
  lemma ThreeSlices(s: string, i: int, j: int)
    requires 0 <= i <= j <= |s|
    ensures s == s[..i] + s[i..j] + s[j..]
  {
    assert s[..j] == s[..i] + s[i..j];
    assert s == s[..j] + s[j..];
  }

  /** Joining a piece in front of at least one more piece puts the separator between them. */
  lemma JoinCons(a: string, tail: seq<string>, sep: string)
    requires tail != []
    ensures Join([a] + tail, sep) == a + sep + Join(tail, sep)
  {
    assert ([a] + tail)[0] == a;
    assert ([a] + tail)[1..] == tail;
  }

  /** The pieces of a split: the text before the first separator, then the pieces of the text after it. */
  lemma SplitAt(s: string, sep: string, i: nat)
    requires sep != [] && IndexOf(s, sep) == Some(i)
    ensures Split(s, sep) == [s[..i]] + Split(s[i + |sep|..], sep)
  {
  }

  /** Splitting loses nothing: joining the pieces with the separator gives the text back. */
  lemma {:induction false} JoinSplit(s: string, sep: string)
    requires sep != []
    ensures Join(Split(s, sep), sep) == s
    decreases |s|
  {
    var found := IndexOf(s, sep);
    if found.Some? {
      var i := found.value;
      var rest := s[i + |sep|..];
      JoinSplit(rest, sep);
      SplitAt(s, sep, i);
      JoinCons(s[..i], Split(rest, sep), sep);
      ThreeSlices(s, i, i + |sep|);
    }
  }

  /** The first two pieces of a split are the text before the first separator and the text between the first and the second. */
  lemma SplitFirstTwo(s: string, sep: string, i: nat)
    requires sep != [] && IndexOf(s, sep) == Some(i)
    ensures |Split(s, sep)| > 1
    ensures Split(s, sep)[0] == s[..i]
    ensures Split(s, sep)[1] == UpTo(s[i + |sep|..], sep)
  {
    var rest := s[i + |sep|..];
    SplitAt(s, sep, i);
    var found := IndexOf(rest, sep);
    if found.Some? {
      SplitAt(rest, sep, found.value);
    }
  }

  /** `s.replace(p, r)` with a string pattern: only the first occurrence is replaced. */
  function ReplaceFirst(s: string, p: string, r: string): string
    requires p != []
  {
    match IndexOf(s, p)
    case None => s
    case Some(i) => s[..i] + r + s[i + |p|..]
  }

  /**
   * `s.replace(/p/g, r)` for a regular expression that matches the literal
   * text `p` and a replacement without `$` patterns: the match is tried at
   * each position from left to right, and scanning resumes after a match.
   */
  function ReplaceAll(s: string, p: string, r: string): string
    requires p != []
    decreases |s|
  {
    if s == [] then []
    else if |p| <= |s| && s[..|p|] == p then r + ReplaceAll(s[|p|..], p, r)
    else [s[0]] + ReplaceAll(s[1..], p, r)
  }

  /** Global replacement of a pattern that does not occur changes nothing. */
  lemma {:induction false} ReplaceAllAbsent(s: string, p: string, r: string)
    requires p != [] && !Contains(s, p)
    ensures ReplaceAll(s, p, r) == s
    decreases |s|
  {
    if s != [] {
      if |p| <= |s| && s[..|p|] == p {
        assert OccursAt(s, p, 0);
      }
      assert s == [s[0]] + s[1..];
      if Contains(s[1..], p) {
        ContainsConsBack(s[0], s[1..], p);
      }
      ReplaceAllAbsent(s[1..], p, r);
    }
  }

  /** Global replacement never lengthens a text when the replacement is no longer than the pattern. */
  lemma {:induction false} ReplaceAllNoLonger(s: string, p: string, r: string)
    requires p != [] && |r| <= |p|
    ensures |ReplaceAll(s, p, r)| <= |s|
    decreases |s|
  {
    if s != [] {
      if |p| <= |s| && s[..|p|] == p {
        ReplaceAllNoLonger(s[|p|..], p, r);
      } else {
        ReplaceAllNoLonger(s[1..], p, r);
      }
    }
  }

  /** Where the pattern does not start the text, its first character is kept as is. */
  lemma ReplaceAllCons(c: char, u: string, p: string, r: string)
    requires p != [] && !(|p| <= |[c] + u| && ([c] + u)[..|p|] == p)
    ensures ReplaceAll([c] + u, p, r) == [c] + ReplaceAll(u, p, r)
  {
    assert ([c] + u)[1..] == u;
  }

  /** A pattern at the start of the text is replaced, and scanning resumes after it. */
  lemma ReplaceAllAtPattern(t: string, p: string, r: string)
    requires p != []
    ensures ReplaceAll(p + t, p, r) == r + ReplaceAll(t, p, r)
  {
    assert (p + t)[..|p|] == p;
    assert (p + t)[|p|..] == t;
  }

  /** A prefix without the pattern's first character passes through global replacement untouched. */
  lemma {:induction false} ReplaceAllPrefixFree(x: string, t: string, p: string, r: string)
    requires p != [] && p[0] !in x
    ensures ReplaceAll(x + t, p, r) == x + ReplaceAll(t, p, r)
    decreases |x|
  {
    if x != [] {
      var rt := ReplaceAll(t, p, r);
      assert x + t == [x[0]] + (x[1..] + t);
      ReplaceAllCons(x[0], x[1..] + t, p, r);
      ReplaceAllPrefixFree(x[1..], t, p, r);
      calc {
        ReplaceAll(x + t, p, r);
        ReplaceAll([x[0]] + (x[1..] + t), p, r);
        [x[0]] + ReplaceAll(x[1..] + t, p, r);
        [x[0]] + (x[1..] + rt);
        { assert x == [x[0]] + x[1..]; }
        x + rt;
      }
    } else {
      assert x + t == t;
    }
  }

  /** The first character of a global replacement's result: the text's own, or the replacement's. */
  lemma ReplaceAllHead(t: string, p: string, r: string)
    requires p != [] && r != []
    ensures t == [] ==> ReplaceAll(t, p, r) == []
    ensures t != [] ==> (ReplaceAll(t, p, r) != []
      && (ReplaceAll(t, p, r)[0] == t[0] || ReplaceAll(t, p, r)[0] == r[0]))
  {
  }

  /** The ECMAScript WhiteSpace and LineTerminator code points: what `trim` strips and `\s` matches. */
  predicate IsWhiteSpace(c: char) {
    c == '\t' || c == '\n' || c == '\U{000B}' || c == '\U{000C}' || c == '\r' || c == ' '
    || c == '\U{00A0}' || c == '\U{1680}' || ('\U{2000}' <= c <= '\U{200A}')
    || c == '\U{2028}' || c == '\U{2029}' || c == '\U{202F}' || c == '\U{205F}'
    || c == '\U{3000}' || c == '\U{FEFF}'
  }

  /** The ECMAScript LineTerminator code points: what the regular expression `.` does not match. */
  predicate IsLineTerminator(c: char) {
    c == '\n' || c == '\r' || c == '\U{2028}' || c == '\U{2029}'
  }

  predicate AllWhiteSpace(s: string) {
    forall k :: 0 <= k < |s| ==> IsWhiteSpace(s[k])
  }

  /** `s.trimStart()`: the longest suffix of `s` that does not start with white space. */
  function TrimStart(s: string): (t: string)
    ensures |t| <= |s| && t == s[|s| - |t|..]
    ensures forall k | 0 <= k < |s| - |t| :: IsWhiteSpace(s[k])
    ensures t == [] || !IsWhiteSpace(t[0])
    decreases |s|
  {
    if s != [] && IsWhiteSpace(s[0]) then
      var t := TrimStart(s[1..]);
      assert s[1..][|s| - 1 - |t|..] == s[|s| - |t|..];
      t
    else
      s
  }

  /** What `trimStart` skips is white space. */
  lemma TrimStartSkipsSpace(s: string)
    ensures AllWhiteSpace(s[..|s| - |TrimStart(s)|])
  {
    var n := |s| - |TrimStart(s)|;
    assert forall k | 0 <= k < n :: s[..n][k] == s[k];
  }

  /** `s.trimEnd()`: the longest prefix of `s` that does not end with white space. */
  function TrimEnd(s: string): (t: string)
    ensures |t| <= |s| && t == s[..|t|]
    ensures forall k | |t| <= k < |s| :: IsWhiteSpace(s[k])
    ensures t == [] || !IsWhiteSpace(t[|t| - 1])
    decreases |s|
  {
    if s != [] && IsWhiteSpace(s[|s| - 1]) then
      var front := s[..|s| - 1];
      var t := TrimEnd(front);
      assert front[..|t|] == s[..|t|];
      t
    else
      s
  }

  /** `s.trim()` */
  function Trim(s: string): string {
    TrimEnd(TrimStart(s))
  }

  /** `t` sits in `s` at index `i` with only white space before and after it. */
  predicate Flanked(s: string, i: int, t: string) {
    0 <= i <= |s| - |t| && s[i..i + |t|] == t
    && (forall k | 0 <= k < i :: IsWhiteSpace(s[k]))
    && (forall k | i + |t| <= k < |s| :: IsWhiteSpace(s[k]))
  }

  /** A prefix `t` of the suffix `s[i..]`, with white space before `i` and after `t`, is flanked by white space. */
  lemma FlankedPrefixOfSuffix(s: string, i: nat, u: string, t: string)
    requires i <= |s| && u == s[i..] && |t| <= |u| && t == u[..|t|]
    requires forall k | 0 <= k < i :: IsWhiteSpace(s[k])
    requires forall k | |t| <= k < |u| :: IsWhiteSpace(u[k])
    ensures Flanked(s, i, t)
  {
    assert s[i..i + |t|] == t;
    forall k | i + |t| <= k < |s| ensures IsWhiteSpace(s[k]) {
      assert s[k] == u[k - i];
    }
  }

  /** `trim` removes only white space: its result sits in `s` with only white space around it. */
  lemma TrimSpec(s: string)
    ensures exists i :: Flanked(s, i, Trim(s))
  {
    var u := TrimStart(s);
    FlankedPrefixOfSuffix(s, |s| - |u|, u, TrimEnd(u));
    assert Flanked(s, |s| - |u|, Trim(s));
  }

  /** What `trim` returns neither starts nor ends with white space. */
  lemma TrimEnds(s: string)
    ensures Trim(s) == [] || (!IsWhiteSpace(Trim(s)[0]) && !IsWhiteSpace(Trim(s)[|Trim(s)| - 1]))
  {
    var u := TrimStart(s);
    var t := TrimEnd(u);
    if t != [] {
      assert t[0] == u[0];
    }
  }

  /** `trim` leaves nothing exactly when the text is all white space (so `!s.trim()` tests for a blank text). */
  lemma TrimEmpty(s: string)
    ensures Trim(s) == [] <==> AllWhiteSpace(s)
  {
    var u := TrimStart(s);
    if u != [] {
      assert !IsWhiteSpace(s[|s| - |u|]);
    } else {
      assert s[..|s|] == s;
    }
  }

  /** What `trim` returns occurs in the original text. */
  lemma TrimIsInfix(s: string)
    ensures Contains(s, Trim(s))
  {
    var u := TrimStart(s);
    var t := TrimEnd(u);
    var i := |s| - |u|;
    assert s[i..i + |t|] == u[..|t|];
    assert OccursAt(s, t, i);
  }

  /** Trimming a text with no white space at its ends changes nothing; in particular `trim` is idempotent. */
  lemma TrimUntouched(s: string)
    requires s == [] || (!IsWhiteSpace(s[0]) && !IsWhiteSpace(s[|s| - 1]))
    ensures Trim(s) == s
  {
  }

  lemma TrimIdempotent(s: string)
    ensures Trim(Trim(s)) == Trim(s)
  {
    TrimEnds(s);
    TrimUntouched(Trim(s));
  }

  /** A text that contains no occurrence of a pattern still has none after trimming. */
  lemma TrimKeepsAbsence(s: string, p: string)
    requires !Contains(s, p)
    ensures !Contains(Trim(s), p)
  {
    var u := TrimStart(s);
    var t := TrimEnd(u);
    var i := |s| - |u|;
    assert s[i..i + |t|] == t by { assert s[i..i + |t|] == u[..|t|]; }
    if Contains(t, p) {
      ContainsInfix(s, i, i + |t|, p);
    }
  }

  /** ASCII `toLowerCase` of one character. */
  function LowerChar(c: char): char {
    if 'A' <= c <= 'Z' then (c as int + 32) as char else c
  }

  /** `s.toLowerCase()`, folding the letters A to Z. */
  function ToLower(s: string): (t: string)
    ensures |t| == |s|
    ensures forall k :: 0 <= k < |s| ==> t[k] == LowerChar(s[k])
  {
    seq(|s|, k requires 0 <= k < |s| => LowerChar(s[k]))
  }
}

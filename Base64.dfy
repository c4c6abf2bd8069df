/**
 * The browser's `btoa` and `atob`: base64 as in section 4 of RFC 4648
 * (alphabet A-Z a-z 0-9 + /, padding with `=`) between a string of byte
 * values (each character at most U+00FF) and its encoding, with `atob`
 * following the forgiving-base64 decoding of the WHATWG Infra Standard
 * (ASCII white space ignored, padding optional, leftover bits dropped).
 */
module Base64 {
  import opened Wrappers
  import opened Bytes

  /** A character of the base64 alphabet (padding excluded). */
  predicate IsBase64Char(c: char) {
    ('A' <= c <= 'Z') || ('a' <= c <= 'z') || ('0' <= c <= '9') || c == '+' || c == '/'
  }

  /** The alphabet character for a 6-bit value. */
  function SextetChar(v: byte): (c: char)
    requires v < 64
    ensures IsBase64Char(c)
  {
    if v < 26 then ('A' as int + v as int) as char
    else if v < 52 then ('a' as int + v as int - 26) as char
    else if v < 62 then ('0' as int + v as int - 52) as char
    else if v == 62 then '+'
    else '/'
  }

  /** The 6-bit value of an alphabet character. */
  function CharSextet(c: char): (v: byte)
    requires IsBase64Char(c)
    ensures v < 64
  {
    if 'A' <= c <= 'Z' then (c as int - 'A' as int) as byte
    else if 'a' <= c <= 'z' then (c as int - 'a' as int + 26) as byte
    else if '0' <= c <= '9' then (c as int - '0' as int + 52) as byte
    else if c == '+' then 62
    else 63
  }

  /** Each alphabet character stands for exactly one 6-bit value. */
  lemma SextetCharInverse(v: byte)
    requires v < 64
    ensures CharSextet(SextetChar(v)) == v
  {
  }

  // ---------------------------------------------------------------------
  // Encoding
  // ---------------------------------------------------------------------

  /** The four alphabet characters for three bytes. */
  function EncodeTriple(x: byte, y: byte, z: byte): (s: string)
    ensures |s| == 4 && forall k | 0 <= k < 4 :: IsBase64Char(s[k])
  {
    [SextetChar(x >> 2), SextetChar(((x & 3) << 4) | (y >> 4)),
     SextetChar(((y & 15) << 2) | (z >> 6)), SextetChar(z & 63)]
  }

  /**
   * The alphabet characters for the bytes, three bytes to four characters,
   * without padding; a last group of two bytes gives three characters and
   * one byte gives two, as if completed with zero bytes.
   */
  function Unpadded(b: seq<byte>): (s: string)
    ensures |s| % 4 != 1
    ensures forall k | 0 <= k < |s| :: IsBase64Char(s[k])
    decreases |b|
  {
    if |b| >= 3 then EncodeTriple(b[0], b[1], b[2]) + Unpadded(b[3..])
    else if |b| == 2 then EncodeTriple(b[0], b[1], 0)[..3]
    else if |b| == 1 then EncodeTriple(b[0], 0, 0)[..2]
    else []
  }

  /** The padding that completes the last group of four. */
  function Padding(b: seq<byte>): string {
    if |b| % 3 == 1 then "==" else if |b| % 3 == 2 then "=" else ""
  }

  /** Base64 encoding of a byte sequence, padded to a multiple of four characters. */
  function Encode(b: seq<byte>): string {
    Unpadded(b) + Padding(b)
  }

  /** Encoded text is four characters for every started group of three bytes. */
  lemma EncodeLength(b: seq<byte>)
    ensures |Encode(b)| == (|b| + 2) / 3 * 4
    ensures |Encode(b)| % 4 == 0
  {
    UnpaddedSize(b);
    GroupArithmetic(|b|);
  }

  /** Full groups give four characters each; a started group gives its characters plus padding, four in all. */
  lemma GroupArithmetic(n: nat)
    ensures var pad := if n % 3 == 1 then 2 else if n % 3 == 2 then 1 else 0;
      n / 3 * 4 + (if n % 3 == 0 then 0 else n % 3 + 1) + pad == (n + 2) / 3 * 4
    ensures (n + 2) / 3 * 4 % 4 == 0
  {
    var q, r := n / 3, n % 3;
    assert n == 3 * q + r;
    assert (n + 2) / 3 == (if r == 0 then q else q + 1);
  }

  /** Encoded text is a whole number of groups of four characters, each an alphabet character or padding. */
  lemma EncodeShape(b: seq<byte>)
    ensures |Encode(b)| % 4 == 0
    ensures forall k | 0 <= k < |Encode(b)| :: IsBase64Char(Encode(b)[k]) || Encode(b)[k] == '='
    ensures |Encode(b)| == (|b| + 2) / 3 * 4
  {
    EncodeLength(b);
    var u, e := Unpadded(b), Encode(b);
    forall k | 0 <= k < |e| ensures IsBase64Char(e[k]) || e[k] == '=' {
      if k < |u| {
        assert e[k] == u[k];
      } else {
        assert e[k] == Padding(b)[k - |u|];
      }
    }
  }

  lemma {:induction false} UnpaddedSize(b: seq<byte>)
    ensures |Unpadded(b)| == |b| / 3 * 4 + (if |b| % 3 == 0 then 0 else |b| % 3 + 1)
    decreases |b|
  {
    if |b| >= 3 {
      UnpaddedSize(b[3..]);
    }
  }

  /** The byte values of a string, or None when some character is beyond U+00FF. */
  function Latin1Bytes(s: string): (r: Option<seq<byte>>)
    ensures r.Some? <==> forall k | 0 <= k < |s| :: s[k] as int < 256
    ensures r.Some? ==> |r.value| == |s| && forall k | 0 <= k < |s| :: r.value[k] as int == s[k] as int
  {
    if forall k | 0 <= k < |s| :: s[k] as int < 256 then
      var b := seq(|s|, k requires 0 <= k < |s| => s[k] as int as byte);
      assert forall k | 0 <= k < |s| :: b[k] as int == s[k] as int by {
        forall k | 0 <= k < |s| ensures b[k] as int == s[k] as int {
          ByteValue(s[k] as int);
        }
      }
      Some(b)
    else None
  }

  /** The string whose characters have the given byte values (what `atob` returns). */
  function Latin1String(b: seq<byte>): (s: string)
    ensures |s| == |b| && forall k | 0 <= k < |b| :: s[k] as int == b[k] as int
  {
    seq(|b|, k requires 0 <= k < |b| => b[k] as int as char)
  }

  /** `btoa`: fails with InvalidCharacterError on a character beyond U+00FF, otherwise encodes the byte values. */
  function Btoa(s: string): Option<string> {
    match Latin1Bytes(s)
    case None => None
    case Some(b) => Some(Encode(b))
  }

  // ---------------------------------------------------------------------
  // Decoding
  // ---------------------------------------------------------------------

  /** The ASCII white space of the Infra Standard: tab, line feed, form feed, carriage return, space. */
  predicate IsAsciiWhiteSpace(c: char) {
    c == '\t' || c == '\n' || c == '\U{000C}' || c == '\r' || c == ' '
  }

  /** The text with its ASCII white space removed. */
  function RemoveAsciiWhiteSpace(s: string): (t: string)
    ensures |t| <= |s|
    ensures forall k | 0 <= k < |t| :: !IsAsciiWhiteSpace(t[k])
    ensures (forall k | 0 <= k < |s| :: !IsAsciiWhiteSpace(s[k])) ==> t == s
    decreases |s|
  {
    if s == [] then []
    else if IsAsciiWhiteSpace(s[0]) then RemoveAsciiWhiteSpace(s[1..])
    else [s[0]] + RemoveAsciiWhiteSpace(s[1..])
  }

  /** One or two trailing `=` removed from a text whose length is a multiple of four. */
  function DropPadding(t: string): (u: string)
    ensures |u| <= |t|
  {
    if |t| % 4 == 0 && |t| >= 2 && t[|t| - 1] == '=' && t[|t| - 2] == '=' then t[..|t| - 2]
    else if |t| % 4 == 0 && |t| >= 1 && t[|t| - 1] == '=' then t[..|t| - 1]
    else t
  }

  /** The three bytes of four alphabet characters. */
  function DecodeQuad(t: string): (b: seq<byte>)
    requires |t| == 4 && forall k | 0 <= k < 4 :: IsBase64Char(t[k])
    ensures |b| == 3
  {
    var a, b, c, d := CharSextet(t[0]), CharSextet(t[1]), CharSextet(t[2]), CharSextet(t[3]);
    [(a << 2) | (b >> 4), ((b & 15) << 4) | (c >> 2), ((c & 3) << 6) | d]
  }

  /**
   * The bytes of a sequence of alphabet characters, four characters to three
   * bytes; a last group of three characters gives two bytes and one of two
   * gives one, the leftover bits being dropped.
   */
  function DecodeChars(t: string): (b: seq<byte>)
    requires |t| % 4 != 1
    requires forall k | 0 <= k < |t| :: IsBase64Char(t[k])
    ensures |b| <= |t|
    decreases |t|
  {
    if |t| >= 4 then DecodeQuad(t[..4]) + DecodeChars(t[4..])
    else if |t| == 3 then DecodeQuad(t + "A")[..2]
    else if |t| == 2 then DecodeQuad(t + "AA")[..1]
    else []
  }

  /**
   * `atob` as the bytes it returns: white space removed, padding dropped,
   * failure (InvalidCharacterError) when one character would be left over
   * or a character is outside the alphabet.
   */
  function Atob(s: string): (r: Option<seq<byte>>)
    ensures r.Some? ==> |r.value| <= |s|
  {
    var t := DropPadding(RemoveAsciiWhiteSpace(s));
    if |t| % 4 == 1 then None
    else if exists k | 0 <= k < |t| :: !IsBase64Char(t[k]) then None
    else Some(DecodeChars(t))
  }

  // ---------------------------------------------------------------------
  // Round trip
  // ---------------------------------------------------------------------

  /** The bit fields of three bytes, reassembled, give the bytes back. */
  lemma BitsRoundTrip(x: byte, y: byte, z: byte)
    ensures (x >> 2) < 64 && (((x & 3) << 4) | (y >> 4)) < 64 && (((y & 15) << 2) | (z >> 6)) < 64 && (z & 63) < 64
    ensures ((x >> 2) << 2) | ((((x & 3) << 4) | (y >> 4)) >> 4) == x
    ensures (((((x & 3) << 4) | (y >> 4)) & 15) << 4) | ((((y & 15) << 2) | (z >> 6)) >> 2) == y
    ensures (((((y & 15) << 2) | (z >> 6)) & 3) << 6) | (z & 63) == z
  {
  }

  /** Three bytes survive the split into four 6-bit values and back. */
  lemma TripleRoundTrip(x: byte, y: byte, z: byte)
    ensures DecodeQuad(EncodeTriple(x, y, z)) == [x, y, z]
  {
    BitsRoundTrip(x, y, z);
    SextetCharInverse(x >> 2);
    SextetCharInverse(((x & 3) << 4) | (y >> 4));
    SextetCharInverse(((y & 15) << 2) | (z >> 6));
    SextetCharInverse(z & 63);
  }

  /** A leading group of four characters decodes on its own. */
  lemma DecodeGroup(g: string, rest: string)
    requires |g| == 4 && forall k | 0 <= k < 4 :: IsBase64Char(g[k])
    requires |rest| % 4 != 1 && forall k | 0 <= k < |rest| :: IsBase64Char(rest[k])
    ensures DecodeChars(g + rest) == DecodeQuad(g) + DecodeChars(rest)
  {
    assert (g + rest)[..4] == g;
    assert (g + rest)[4..] == rest;
  }

  /** The three characters for a last group of two bytes decode to those bytes. */
  lemma DecodeLastTwo(x: byte, y: byte)
    ensures DecodeChars(EncodeTriple(x, y, 0)[..3]) == [x, y]
  {
    var g := EncodeTriple(x, y, 0);
    assert g[..3] + "A" == g;
    TripleRoundTrip(x, y, 0);
  }

  /** The two characters for a last group of one byte decode to that byte. */
  lemma DecodeLastOne(x: byte)
    ensures DecodeChars(EncodeTriple(x, 0, 0)[..2]) == [x]
  {
    var g := EncodeTriple(x, 0, 0);
    assert g[..2] + "AA" == g;
    TripleRoundTrip(x, 0, 0);
  }

  /** A full first group decodes to the first three bytes, ahead of whatever the rest decodes to. */
  lemma DecodeUnpaddedStep(b: seq<byte>)
    requires |b| >= 3
    ensures DecodeChars(Unpadded(b)) == [b[0], b[1], b[2]] + DecodeChars(Unpadded(b[3..]))
  {
    var g := EncodeTriple(b[0], b[1], b[2]);
    DecodeGroup(g, Unpadded(b[3..]));
    TripleRoundTrip(b[0], b[1], b[2]);
  }

  /** A sequence of at least three elements is its first three followed by the rest. */
  lemma FirstThree<T>(s: seq<T>)
    requires |s| >= 3
    ensures s == [s[0], s[1], s[2]] + s[3..]
  {
  }

  /** Decoding the unpadded encoding gives the bytes back. */
  lemma {:induction false} DecodeUnpadded(b: seq<byte>)
    ensures DecodeChars(Unpadded(b)) == b
    decreases |b|
  {
    if |b| >= 3 {
      DecodeUnpaddedStep(b);
      DecodeUnpadded(b[3..]);
      FirstThree(b);
    } else if |b| == 2 {
      DecodeLastTwo(b[0], b[1]);
      assert b == [b[0], b[1]];
    } else if |b| == 1 {
      DecodeLastOne(b[0]);
      assert b == [b[0]];
    }
  }

  /** `atob` inverts base64 encoding: the bytes come back exactly. */
  lemma AtobEncode(b: seq<byte>)
    ensures Atob(Encode(b)) == Some(b)
  {
    var e := Encode(b);
    var u := Unpadded(b);
    EncodeShape(b);
    assert forall k | 0 <= k < |e| :: !IsAsciiWhiteSpace(e[k]);
    assert RemoveAsciiWhiteSpace(e) == e;
    assert DropPadding(e) == u by {
      if |b| % 3 == 1 {
        assert e[..|e| - 2] == u;
      } else if |b| % 3 == 2 {
        assert e[..|e| - 1] == u;
        if |u| >= 1 {
          assert e[|e| - 2] == u[|u| - 1];
        }
      } else {
        assert e == u;
        if |u| >= 1 {
          assert e[|e| - 1] == u[|u| - 1];
        }
      }
    }
    DecodeUnpadded(b);
  }

  /** A character other than white space survives its removal. */
  lemma {:induction false} KeptByRemoval(s: string, c: char)
    requires c in s && !IsAsciiWhiteSpace(c)
    ensures c in RemoveAsciiWhiteSpace(s)
    decreases |s|
  {
    if s[0] != c {
      KeptByRemoval(s[1..], c);
    }
  }

  /**
   * `atob` fails on any character that is neither white space, padding nor
   * in the alphabet, wherever it stands.
   */
  lemma AtobRejectsForeign(s: string, k: int)
    requires 0 <= k < |s| && !IsBase64Char(s[k]) && !IsAsciiWhiteSpace(s[k]) && s[k] != '='
    ensures Atob(s) == None
  {
    var t := RemoveAsciiWhiteSpace(s);
    KeptByRemoval(s, s[k]);
    var u := DropPadding(t);
    assert s[k] in u by {
      var i :| 0 <= i < |t| && t[i] == s[k];
      assert i < |u|;
      assert u[i] == t[i];
    }
  }

  /** `atob` fails when one character would be left over after the groups of four. */
  lemma AtobRejectsLoneChar(s: string)
    requires (forall k | 0 <= k < |s| :: !IsAsciiWhiteSpace(s[k]) && s[k] != '=') && |s| % 4 == 1
    ensures Atob(s) == None
  {
  }

  /** `atob(btoa(s))` gives back the byte values of any string `btoa` accepts. */
  lemma AtobBtoa(s: string)
    requires forall k | 0 <= k < |s| :: s[k] as int < 256
    ensures Btoa(s).Some?
    ensures Atob(Btoa(s).value).Some? && Latin1String(Atob(Btoa(s).value).value) == s
  {
    var b := Latin1Bytes(s).value;
    AtobEncode(b);
    assert Latin1String(b) == s;
  }
}

/**
 * `encodeURIComponent` and `decodeURIComponent` of ECMAScript (sections
 * 19.2.6.4 and 19.2.6.2 of ECMA-262): every character outside the
 * unreserved set A-Z a-z 0-9 - _ . ! ~ * ' ( ) is written as the `%XX`
 * escapes (upper-case hexadecimal) of its UTF-8 bytes (RFC 3629), and
 * decoding reverses this, failing (URIError) on a malformed escape or on
 * bytes that are not the UTF-8 encoding of one code point.
 * Characters are Unicode scalar values, so the lone surrogates JavaScript
 * strings may hold do not arise.
 */
module UriComponent {
  import opened Wrappers

  /** The characters `encodeURIComponent` leaves as they are. */
  predicate IsUnreserved(c: char) {
    ('A' <= c <= 'Z') || ('a' <= c <= 'z') || ('0' <= c <= '9')
    || c == '-' || c == '_' || c == '.' || c == '!' || c == '~'
    || c == '*' || c == '\'' || c == '(' || c == ')'
  }

  /** A Unicode scalar value: a code point that is not a surrogate. */
  predicate IsScalar(v: int) {
    (0 <= v < 0xD800) || (0xDFFF < v <= 0x10FFFF)
  }

  // ---------------------------------------------------------------------
  // UTF-8
  // ---------------------------------------------------------------------

  /** The UTF-8 bytes of a code point, one to four of them. */
  function Utf8(v: int): (b: seq<int>)
    requires IsScalar(v)
    ensures 1 <= |b| <= 4
    ensures forall k | 0 <= k < |b| :: 0 <= b[k] < 256
  {
    if v < 0x80 then [v]
    else if v < 0x800 then [0xC0 + v / 64, 0x80 + v % 64]
    else if v < 0x10000 then [0xE0 + v / 4096, 0x80 + (v / 64) % 64, 0x80 + v % 64]
    else [0xF0 + v / 0x40000, 0x80 + (v / 4096) % 64, 0x80 + (v / 64) % 64, 0x80 + v % 64]
  }

  /** The number of leading one bits of a byte, counted up to 5. */
  function LeadingOnes(b: int): (n: int)
    ensures 0 <= n <= 5
  {
    if b < 0x80 then 0
    else if b < 0xC0 then 1
    else if b < 0xE0 then 2
    else if b < 0xF0 then 3
    else if b < 0xF8 then 4
    else 5
  }

  /** The code point a lead byte with `n` leading ones and its continuation bytes spell. */
  function Utf8Value(os: seq<int>): int
    requires 2 <= |os| <= 4
  {
    if |os| == 2 then (os[0] % 32) * 64 + os[1] % 64
    else if |os| == 3 then (os[0] % 16) * 4096 + (os[1] % 64) * 64 + os[2] % 64
    else (os[0] % 8) * 0x40000 + (os[1] % 64) * 4096 + (os[2] % 64) * 64 + os[3] % 64
  }

  /**
   * The bytes are the UTF-8 encoding of one code point: a scalar value
   * written in its shortest form (so no overlong forms, no surrogates and
   * nothing beyond U+10FFFF).
   */
  predicate IsUtf8Of(os: seq<int>, v: int) {
    IsScalar(v) && Utf8(v) == os
  }

  /** The UTF-8 encoding of a code point begins with a byte announcing its length. */
  lemma Utf8Lead(v: int)
    requires IsScalar(v)
    ensures |Utf8(v)| == 1 <==> Utf8(v)[0] < 0x80
    ensures |Utf8(v)| > 1 ==> LeadingOnes(Utf8(v)[0]) == |Utf8(v)|
    ensures forall k | 1 <= k < |Utf8(v)| :: LeadingOnes(Utf8(v)[k]) == 1
  {
  }

  /** A two-byte encoding spells the code point back. */
  lemma Utf8ValueOfTwo(v: int)
    requires 0x80 <= v < 0x800
    ensures Utf8Value([0xC0 + v / 64, 0x80 + v % 64]) == v
  {
    var r0, q0 := v % 64, v / 64;
    assert v == q0 * 64 + r0;
    assert (0x80 + r0) % 64 == r0;
    assert (0xC0 + q0) % 32 == q0;
  }

  /** A three-byte encoding spells the code point back. */
  lemma Utf8ValueOfThree(v: int)
    requires 0x800 <= v < 0x10000
    ensures Utf8Value([0xE0 + v / 4096, 0x80 + (v / 64) % 64, 0x80 + v % 64]) == v
  {
    var r0, q0 := v % 64, v / 64;
    var r1, q1 := q0 % 64, q0 / 64;
    assert v == q0 * 64 + r0 && q0 == q1 * 64 + r1;
    assert v / 4096 == q1;
    assert (0x80 + r0) % 64 == r0 && (0x80 + r1) % 64 == r1;
    assert (0xE0 + q1) % 16 == q1;
  }

  /** A four-byte encoding spells the code point back. */
  lemma Utf8ValueOfFour(v: int)
    requires 0x10000 <= v <= 0x10FFFF
    ensures Utf8Value([0xF0 + v / 0x40000, 0x80 + (v / 4096) % 64, 0x80 + (v / 64) % 64, 0x80 + v % 64]) == v
  {
    var r0, q0 := v % 64, v / 64;
    var r1, q1 := q0 % 64, q0 / 64;
    var r2, q2 := q1 % 64, q1 / 64;
    assert v == q0 * 64 + r0 && q0 == q1 * 64 + r1 && q1 == q2 * 64 + r2;
    assert v / 4096 == q1 && v / 0x40000 == q2;
    assert (0x80 + r0) % 64 == r0 && (0x80 + r1) % 64 == r1 && (0x80 + r2) % 64 == r2;
    assert (0xF0 + q2) % 8 == q2;
  }

  /** The bytes of a multi-byte encoding spell the code point back. */
  lemma Utf8ValueOfUtf8(v: int)
    requires IsScalar(v) && v >= 0x80
    ensures Utf8Value(Utf8(v)) == v
  {
    if v < 0x800 {
      Utf8ValueOfTwo(v);
    } else if v < 0x10000 {
      Utf8ValueOfThree(v);
    } else {
      Utf8ValueOfFour(v);
    }
  }

  // ---------------------------------------------------------------------
  // Hexadecimal escapes
  // ---------------------------------------------------------------------

  /** The upper-case hexadecimal digit for a value below 16. */
  function HexDigit(v: int): (c: char)
    requires 0 <= v < 16
  {
    if v < 10 then ('0' as int + v) as char else ('A' as int + v - 10) as char
  }

  predicate IsHexDigit(c: char) {
    ('0' <= c <= '9') || ('A' <= c <= 'F') || ('a' <= c <= 'f')
  }

  /** The value of a hexadecimal digit of either case. */
  function HexValue(c: char): (v: int)
    requires IsHexDigit(c)
    ensures 0 <= v < 16
  {
    if '0' <= c <= '9' then c as int - '0' as int
    else if 'A' <= c <= 'F' then c as int - 'A' as int + 10
    else c as int - 'a' as int + 10
  }

  lemma HexRoundTrip(v: int)
    requires 0 <= v < 16
    ensures IsHexDigit(HexDigit(v)) && HexValue(HexDigit(v)) == v
  {
  }

  /** The escape `%XX` of one byte: a percent sign, then two hex digits that spell the byte. */
  function Escape(b: int): (s: string)
    requires 0 <= b < 256
    ensures |s| == 3 && s[0] == '%'
    ensures IsHexDigit(s[1]) && IsHexDigit(s[2]) && HexValue(s[1]) * 16 + HexValue(s[2]) == b
  {
    HexRoundTrip(b / 16);
    HexRoundTrip(b % 16);
    ['%', HexDigit(b / 16), HexDigit(b % 16)]
  }

  /** The escapes of a sequence of bytes, one after the other. */
  function Escapes(bs: seq<int>): (s: string)
    requires forall k | 0 <= k < |bs| :: 0 <= bs[k] < 256
    ensures |s| == 3 * |bs|
  {
    if bs == [] then [] else Escape(bs[0]) + Escapes(bs[1..])
  }

  // ---------------------------------------------------------------------
  // encodeURIComponent
  // ---------------------------------------------------------------------

  /** One character as `encodeURIComponent` writes it. */
  function EncodeChar(c: char): string {
    if IsUnreserved(c) then [c] else Escapes(Utf8(c as int))
  }

  /** `encodeURIComponent`: each character as `EncodeChar` writes it, in order. */
  function Encode(s: string): (r: string)
    ensures |r| >= |s|
  {
    if s == [] then [] else EncodeChar(s[0]) + Encode(s[1..])
  }

  /** Every character of an escape is ASCII. */
  lemma EscapesAscii(bs: seq<int>)
    requires forall k | 0 <= k < |bs| :: 0 <= bs[k] < 256
    ensures forall k | 0 <= k < |Escapes(bs)| :: Escapes(bs)[k] as int < 128
  {
    if bs != [] {
      EscapesAscii(bs[1..]);
      var e := Escapes(bs);
      assert e == Escape(bs[0]) + Escapes(bs[1..]);
    }
  }

  /** `encodeURIComponent` writes only ASCII characters, so its result is always accepted by `btoa`. */
  lemma {:induction false} EncodeAscii(s: string)
    ensures forall k | 0 <= k < |Encode(s)| :: Encode(s)[k] as int < 128
  {
    if s != [] {
      EncodeAscii(s[1..]);
      if !IsUnreserved(s[0]) {
        EscapesAscii(Utf8(s[0] as int));
      }
      var r := Encode(s);
      assert r == EncodeChar(s[0]) + Encode(s[1..]);
    }
  }

  /** A text of unreserved characters is left unchanged. */
  lemma {:induction false} EncodeUnreserved(s: string)
    requires forall k | 0 <= k < |s| :: IsUnreserved(s[k])
    ensures Encode(s) == s
  {
    if s != [] {
      EncodeUnreserved(s[1..]);
      assert s == [s[0]] + s[1..];
    }
  }

  // ---------------------------------------------------------------------
  // decodeURIComponent
  // ---------------------------------------------------------------------

  /** The byte an escape `%XX` at the start of the text stands for, or None when there is no such escape. */
  function Octet(s: string): (r: Option<int>)
    ensures r.Some? ==> |s| >= 3 && 0 <= r.value < 256
  {
    if |s| >= 3 && s[0] == '%' && IsHexDigit(s[1]) && IsHexDigit(s[2])
    then Some(HexValue(s[1]) * 16 + HexValue(s[2]))
    else None
  }

  /** The bytes of `n` consecutive escapes at the start of the text, or None when fewer follow. */
  function Octets(s: string, n: nat): (r: Option<seq<int>>)
    ensures r.Some? ==> |r.value| == n && |s| >= 3 * n
    ensures r.Some? ==> forall k | 0 <= k < n :: 0 <= r.value[k] < 256
  {
    if n == 0 then Some([])
    else match Octet(s)
      case None => None
      case Some(b) =>
        match Octets(s[3..], n - 1)
        case None => None
        case Some(rest) => Some([b] + rest)
  }

  function Prepend(c: char, r: Option<string>): Option<string> {
    match r
    case None => None
    case Some(t) => Some([c] + t)
  }

  /**
   * `decodeURIComponent`: characters other than `%` are kept; an escape of a
   * byte below 0x80 gives that character; an escape of a lead byte with
   * `n` (2 to 4) leading ones must be followed by `n - 1` further escapes and
   * the `n` bytes must be the UTF-8 encoding of one code point, which
   * replaces them. Anything else fails (URIError).
   */
  function Decode(s: string): (r: Option<string>)
    decreases |s|
  {
    if s == [] then Some([])
    else if s[0] != '%' then Prepend(s[0], Decode(s[1..]))
    else match Octet(s)
      case None => None
      case Some(b) =>
        if b < 0x80 then Prepend(b as char, Decode(s[3..]))
        else
          var n := LeadingOnes(b);
          if n == 1 || n > 4 then None
          else match Octets(s, n)
            case None => None
            case Some(os) =>
              var v := Utf8Value(os);
              if IsUtf8Of(os, v) then Prepend(v as char, Decode(s[3 * n..])) else None
  }

  /** An escape reads back as the byte it escapes. */
  lemma OctetOfEscape(b: int, rest: string)
    requires 0 <= b < 256
    ensures Octet(Escape(b) + rest) == Some(b)
  {
    HexRoundTrip(b / 16);
    HexRoundTrip(b % 16);
    var s := Escape(b) + rest;
    assert s[0] == '%' && s[1] == HexDigit(b / 16) && s[2] == HexDigit(b % 16);
  }

  /** Reading back escapes gives the bytes they escape. */
  lemma {:induction false} OctetsOfEscapes(bs: seq<int>, rest: string)
    requires forall k | 0 <= k < |bs| :: 0 <= bs[k] < 256
    ensures Octets(Escapes(bs) + rest, |bs|) == Some(bs)
  {
    if bs != [] {
      var tail := Escapes(bs[1..]) + rest;
      var s := Escapes(bs) + rest;
      assert s == Escape(bs[0]) + tail;
      OctetOfEscape(bs[0], tail);
      assert s[3..] == tail;
      OctetsOfEscapes(bs[1..], rest);
      assert bs == [bs[0]] + bs[1..];
    }
  }

  /** Decoding the encoding of one character followed by more text gives the character first. */
  lemma DecodeEncodeChar(c: char, rest: string)
    ensures Decode(EncodeChar(c) + rest) == Prepend(c, Decode(rest))
  {
    var s := EncodeChar(c) + rest;
    if !IsUnreserved(c) {
      var v := c as int;
      var bs := Utf8(v);
      Utf8Lead(v);
      OctetsOfEscapes(bs, rest);
      OctetsOfEscapes([bs[0]], Escapes(bs[1..]) + rest);
      assert Escapes(bs) == Escape(bs[0]) + Escapes(bs[1..]);
      assert Escapes([bs[0]]) == Escape(bs[0]);
      assert Octet(s) == Some(bs[0]);
      if |bs| == 1 {
        assert s[3..] == rest;
      } else {
        Utf8ValueOfUtf8(v);
        assert s[3 * |bs|..] == rest;
      }
    } else {
      assert s[1..] == rest;
    }
  }

  /** `decodeURIComponent` inverts `encodeURIComponent`. */
  lemma {:induction false} DecodeEncode(s: string)
    ensures Decode(Encode(s)) == Some(s)
  {
    if s != [] {
      DecodeEncodeChar(s[0], Encode(s[1..]));
      DecodeEncode(s[1..]);
      assert s == [s[0]] + s[1..];
    }
  }

  /** A text without `%` decodes to itself. */
  lemma {:induction false} DecodeWithoutPercent(s: string)
    requires forall k | 0 <= k < |s| :: s[k] != '%'
    ensures Decode(s) == Some(s)
  {
    if s != [] {
      DecodeWithoutPercent(s[1..]);
      assert s == [s[0]] + s[1..];
    }
  }

  /** A `%` not followed by two hexadecimal digits makes decoding fail. */
  lemma DecodeBadEscape(s: string)
    requires |s| >= 1 && s[0] == '%'
    requires |s| < 3 || !IsHexDigit(s[1]) || !IsHexDigit(s[2])
    ensures Decode(s) == None
  {
  }
}

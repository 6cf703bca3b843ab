/**
 * `encodeURIComponent` and `decodeURIComponent` (section 19.2.6 of
 * ECMA-262), which the handlers use to put a storage key into the last
 * segment of a URL and to read it back. A character outside the unreserved
 * set is written as the UTF-8 bytes of its code point (RFC 3629, section 3),
 * each as a `%HH` escape with upper-case hexadecimal digits (RFC 3986,
 * section 2.1). Strings are sequences of Unicode scalar values, so the
 * lone-surrogate error of the encoder cannot arise; every other error of the
 * decoder is `None`.
 */
module UriComponent {
  import opened Wrappers
  import opened Text

  /** The characters `encodeURIComponent` leaves as they are: ASCII letters,
      decimal digits and the marks `- _ . ! ~ * ' ( )`. */
  predicate IsUnreserved(c: char) {
    || IsAsciiAlnum(c)
    || c == '-' || c == '_' || c == '.' || c == '!' || c == '~'
    || c == '*' || c == '\'' || c == '(' || c == ')'
  }

  predicate IsHexDigit(c: char) {
    '0' <= c <= '9' || 'A' <= c <= 'F' || 'a' <= c <= 'f'
  }

  /** The value of a hexadecimal digit of either case. */
  function HexValue(c: char): (v: nat)
    requires IsHexDigit(c)
    ensures v < 16
  {
    if '0' <= c <= '9' then c as int - '0' as int
    else if 'A' <= c <= 'F' then c as int - 'A' as int + 10
    else c as int - 'a' as int + 10
  }

  /** The upper-case digit the encoder writes for `d`. */
  function HexDigit(d: nat): (c: char)
    requires d < 16
    ensures IsHexDigit(c) && HexValue(c) == d
    ensures '0' <= c <= '9' || 'A' <= c <= 'F'
  {
    if d < 10 then ('0' as int + d) as char else ('A' as int + d - 10) as char
  }

  /** The byte written by a `%XY` escape at the head of `s`, if one is there. */
  function EscapedByte(s: string): Option<Byte> {
    if |s| >= 3 && s[0] == '%' && IsHexDigit(s[1]) && IsHexDigit(s[2])
    then Some(HexValue(s[1]) * 16 + HexValue(s[2]))
    else None
  }

  /** The escape `%XY` of one byte; reading it back gives the byte. */
  function Escape(b: Byte): (e: string)
    ensures |e| == 3 && e[0] == '%'
    ensures forall t :: EscapedByte(e + t) == Some(b)
  {
    ['%', HexDigit(b / 16), HexDigit(b % 16)]
  }

  function EscapeAll(bytes: seq<Byte>): (s: string)
    ensures |s| == 3 * |bytes|
    decreases |bytes|
  {
    if bytes == [] then [] else Escape(bytes[0]) + EscapeAll(bytes[1..])
  }

  /** The UTF-8 encoding of one scalar value: one byte below U+0080, then
      two, three or four bytes with six payload bits in each continuation
      byte. */
  function Utf8(c: char): (bytes: seq<Byte>)
    ensures 1 <= |bytes| <= 4
  {
    var n := c as int;
    var q1, r1 := n / 64, n % 64;
    var q2, r2 := q1 / 64, q1 % 64;
    var q3, r3 := q2 / 64, q2 % 64;
    if n < 0x80 then [n]
    else if n < 0x800 then [0xC0 + q1, 0x80 + r1]
    else if n < 0x10000 then [0xE0 + q2, 0x80 + r2, 0x80 + r1]
    else [0xF0 + q3, 0x80 + r3, 0x80 + r2, 0x80 + r1]
  }

  /** How one character is written by the encoder. */
  function EncodeChar(c: char): (e: string)
    ensures |e| >= 1
  {
    if IsUnreserved(c) then [c] else EscapeAll(Utf8(c))
  }

  /** `encodeURIComponent`. */
  function Encode(s: string): (r: string)
    decreases |s|
  {
    if s == [] then [] else EncodeChar(s[0]) + Encode(s[1..])
  }

  /** The number of bytes a sequence announces by its first byte: 1 for
      `0xxxxxxx`, 2, 3 or 4 for `110xxxxx`, `1110xxxx`, `11110xxx`; 0 for a
      continuation byte or `11111xxx`, which start no sequence. */
  function SequenceLength(b: Byte): (n: nat)
    ensures n <= 4
  {
    if b < 0x80 then 1
    else if b < 0xC0 then 0
    else if b < 0xE0 then 2
    else if b < 0xF0 then 3
    else if b < 0xF8 then 4
    else 0
  }

  predicate IsContinuation(b: Byte) { 0x80 <= b < 0xC0 }

  /** `count` escapes at the head of `s`, each of a continuation byte. */
  function ContinuationBytes(s: string, count: nat): (r: Option<seq<Byte>>)
    ensures r.Some? ==> |r.value| == count && 3 * count <= |s|
    ensures r.Some? ==> forall i :: 0 <= i < count ==> IsContinuation(r.value[i])
    decreases count
  {
    if count == 0 then Some([])
    else match EscapedByte(s)
      case None => None
      case Some(b) =>
        if !IsContinuation(b) then None
        else match ContinuationBytes(s[3..], count - 1)
          case None => None
          case Some(rest) => Some([b] + rest)
  }

  /** The code point a multi-byte sequence writes. */
  function CodePoint(lead: Byte, cont: seq<Byte>): int
    requires 1 <= |cont| <= 3
  {
    if |cont| == 1 then (lead % 32) * 64 + cont[0] % 64
    else if |cont| == 2 then ((lead % 16) * 64 + cont[0] % 64) * 64 + cont[1] % 64
    else (((lead % 8) * 64 + cont[0] % 64) * 64 + cont[1] % 64) * 64 + cont[2] % 64
  }

  /** A code point a sequence of `n` bytes may write: not one a shorter
      sequence writes, not a surrogate, not above U+10FFFF. */
  predicate IsValidCodePoint(cp: int, n: nat) {
    && (n == 2 ==> 0x80 <= cp)
    && (n == 3 ==> 0x800 <= cp)
    && (n == 4 ==> 0x10000 <= cp)
    && cp <= 0x10FFFF
    && !(0xD800 <= cp <= 0xDFFF)
  }

  /** The character decoded at the head of `s` and the number of
      characters it took, or `None` where the decoder throws `URIError`. */
  function DecodeStep(s: string): (r: Option<(char, nat)>)
    requires s != []
    ensures r.Some? ==> 1 <= r.value.1 <= |s|
  {
    if s[0] != '%' then Some((s[0], 1))
    else match EscapedByte(s)
      case None => None
      case Some(b) =>
        var n := SequenceLength(b);
        if n == 0 then None
        else if n == 1 then Some((b as char, 3))
        else match ContinuationBytes(s[3..], n - 1)
          case None => None
          case Some(cont) =>
            var cp := CodePoint(b, cont);
            if IsValidCodePoint(cp, n) && 0 <= cp then Some((cp as char, 3 * n)) else None
  }

  /** `decodeURIComponent`: every escape is decoded (the set of escapes to
      preserve is empty); a malformed escape or byte sequence fails. */
  function Decode(s: string): (r: Option<string>)
    decreases |s|
  {
    if s == [] then Some([])
    else match DecodeStep(s)
      case None => None
      case Some((c, k)) =>
        match Decode(s[k..])
          case None => None
          case Some(rest) => Some([c] + rest)
  }

  /** Continuation bytes written by the encoder are read back. */
  lemma {:induction false} ContinuationBytesOfEscapes(cs: seq<Byte>, t: string)
    requires forall i :: 0 <= i < |cs| ==> IsContinuation(cs[i])
    ensures ContinuationBytes(EscapeAll(cs) + t, |cs|) == Some(cs)
    decreases |cs|
  {
    if cs != [] {
      EscapesOfBytes(cs, t);
      ContinuationBytesOfEscapes(cs[1..], t);
      assert [cs[0]] + cs[1..] == cs;
    }
  }

  lemma Utf8Two(n: int)
    requires 0x80 <= n < 0x800
    ensures var lead, cont := 0xC0 + n / 64, 0x80 + n % 64;
      && 0xC0 <= lead < 0xE0 && IsContinuation(cont)
      && (lead % 32) * 64 + cont % 64 == n
  {
    var q, r := n / 64, n % 64;
    assert n == q * 64 + r;
    assert (0xC0 + q) % 32 == q;
    assert (0x80 + r) % 64 == r;
  }

  lemma Utf8Three(n: int)
    requires 0x800 <= n < 0x10000
    ensures var q1, r1 := n / 64, n % 64;
      var q2, r2 := q1 / 64, q1 % 64;
      var lead, c1, c2 := 0xE0 + q2, 0x80 + r2, 0x80 + r1;
      && 0xE0 <= lead < 0xF0 && IsContinuation(c1) && IsContinuation(c2)
      && ((lead % 16) * 64 + c1 % 64) * 64 + c2 % 64 == n
  {
    var q1, r1 := n / 64, n % 64;
    var q2, r2 := q1 / 64, q1 % 64;
    assert n == q1 * 64 + r1;
    assert q1 == q2 * 64 + r2;
    assert q2 < 16;
    assert (0xE0 + q2) % 16 == q2;
    assert (0x80 + r2) % 64 == r2;
    assert (0x80 + r1) % 64 == r1;
  }

  lemma Utf8Four(n: int)
    requires 0x10000 <= n <= 0x10FFFF
    ensures var q1, r1 := n / 64, n % 64;
      var q2, r2 := q1 / 64, q1 % 64;
      var q3, r3 := q2 / 64, q2 % 64;
      var lead, c1, c2, c3 := 0xF0 + q3, 0x80 + r3, 0x80 + r2, 0x80 + r1;
      && 0xF0 <= lead < 0xF8 && IsContinuation(c1) && IsContinuation(c2) && IsContinuation(c3)
      && (((lead % 8) * 64 + c1 % 64) * 64 + c2 % 64) * 64 + c3 % 64 == n
  {
    var q1, r1 := n / 64, n % 64;
    var q2, r2 := q1 / 64, q1 % 64;
    var q3, r3 := q2 / 64, q2 % 64;
    assert n == q1 * 64 + r1;
    assert q1 == q2 * 64 + r2;
    assert q2 == q3 * 64 + r3;
    assert q3 < 8;
    assert (0xF0 + q3) % 8 == q3;
    assert (0x80 + r3) % 64 == r3;
    assert (0x80 + r2) % 64 == r2;
    assert (0x80 + r1) % 64 == r1;
  }

  /** What the decoder needs to know about the bytes of a character. */
  lemma Utf8Shape(c: char)
    ensures var bytes := Utf8(c);
      && SequenceLength(bytes[0]) == |bytes|
      && (forall i :: 1 <= i < |bytes| ==> IsContinuation(bytes[i]))
      && (|bytes| == 1 ==> bytes[0] == c as int)
      && (|bytes| > 1 ==> CodePoint(bytes[0], bytes[1..]) == c as int)
      && (|bytes| > 1 ==> IsValidCodePoint(c as int, |bytes|))
  {
    var n := c as int;
    if n < 0x80 {
    } else if n < 0x800 {
      Utf8Two(n);
    } else if n < 0x10000 {
      Utf8Three(n);
    } else {
      Utf8Four(n);
    }
  }

  /** The escapes of a byte sequence start with the escape of its first
      byte, followed by those of the rest. */
  lemma EscapesOfBytes(bytes: seq<Byte>, t: string)
    requires bytes != []
    ensures var s := EscapeAll(bytes) + t;
      && s != [] && s[0] == '%' && EscapedByte(s) == Some(bytes[0])
      && s[3..] == EscapeAll(bytes[1..]) + t
  {
    var e := Escape(bytes[0]);
    var tail := EscapeAll(bytes[1..]) + t;
    ConcatAssoc(e, EscapeAll(bytes[1..]), t);
    assert (e + tail)[3..] == tail;
  }

  /** The decoder reads back, at the head, the character the encoder wrote. */
  lemma DecodeStepOfEncodeChar(c: char, t: string)
    ensures EncodeChar(c) + t != []
    ensures DecodeStep(EncodeChar(c) + t) == Some((c, |EncodeChar(c)|))
  {
    if !IsUnreserved(c) {
      var bytes := Utf8(c);
      Utf8Shape(c);
      EscapesOfBytes(bytes, t);
      if |bytes| > 1 {
        ContinuationBytesOfEscapes(bytes[1..], t);
      }
    }
  }

  /** A single decode undoes the encoding. */
  lemma {:induction false} DecodeEncode(s: string)
    ensures Decode(Encode(s)) == Some(s)
    decreases |s|
  {
    if s != [] {
      var e, rest := EncodeChar(s[0]), Encode(s[1..]);
      DecodeStepOfEncodeChar(s[0], rest);
      DropPrefix(e, rest);
      DecodeEncode(s[1..]);
      HeadTail(s);
      assert Encode(s) == e + rest;
    }
  }

  /** What the encoder writes: unreserved characters, `%` and upper-case
      hexadecimal digits. In particular it never writes `/`. */
  predicate IsEncoded(c: char) {
    IsUnreserved(c) || c == '%' || 'A' <= c <= 'F'
  }

  lemma EscapeAllChars(bytes: seq<Byte>)
    ensures forall c :: c in EscapeAll(bytes) ==> IsEncoded(c)
    decreases |bytes|
  {
    if bytes != [] {
      EscapeAllChars(bytes[1..]);
    }
  }

  lemma EncodeCharChars(c: char)
    ensures forall x :: x in EncodeChar(c) ==> IsEncoded(x)
  {
    if !IsUnreserved(c) {
      EscapeAllChars(Utf8(c));
    }
  }

  lemma {:induction false} EncodeChars(s: string)
    ensures forall c :: c in Encode(s) ==> IsEncoded(c)
    ensures '/' !in Encode(s)
    decreases |s|
  {
    if s != [] {
      EncodeChars(s[1..]);
      EncodeCharChars(s[0]);
      assert Encode(s) == EncodeChar(s[0]) + Encode(s[1..]);
    }
    assert !IsEncoded('/');
  }

  /** The encoding is never shorter than the input, and it has the same
      length exactly when every character is unreserved, in which case it
      is the input itself. */
  lemma {:induction false} EncodeLength(s: string)
    ensures |Encode(s)| >= |s|
    ensures |Encode(s)| == |s| <==> forall i :: 0 <= i < |s| ==> IsUnreserved(s[i])
    ensures (forall i :: 0 <= i < |s| ==> IsUnreserved(s[i])) ==> Encode(s) == s
    decreases |s|
  {
    if s != [] {
      EncodeLength(s[1..]);
      assert forall i :: 1 <= i < |s| ==> s[1..][i - 1] == s[i];
      assert s == [s[0]] + s[1..];
    }
  }

  /** The encoding is the input exactly when every character is unreserved. */
  lemma EncodeIsIdentity(s: string)
    ensures Encode(s) == s <==> forall i :: 0 <= i < |s| ==> IsUnreserved(s[i])
  {
    EncodeLength(s);
  }
}

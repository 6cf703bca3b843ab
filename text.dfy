/**
 * String helpers shared by the key derivations: the ECMAScript character
 * classes the regular expressions use, decimal rendering as template strings
 * print integers, and `String.prototype.split` on a one-character separator.
 * A JavaScript string is modelled as a sequence of Unicode scalar values.
 */
module Text {

  /** An octet of a file body or of an encoded character. */
  type Byte = b: int | 0 <= b < 256

  /** ECMA-262 WhiteSpace and LineTerminator code points: what `\s` matches
      and what `String.prototype.trim` removes (Zs as of Unicode 15). */
  predicate IsWhiteSpace(c: char) {
    || c == '\t' || c == '\U{000B}' || c == '\U{000C}' || c == ' '
    || c == '\U{00A0}' || c == '\U{FEFF}' || c == '\U{1680}'
    || ('\U{2000}' <= c <= '\U{200A}')
    || c == '\U{202F}' || c == '\U{205F}' || c == '\U{3000}'
    || c == '\n' || c == '\r' || c == '\U{2028}' || c == '\U{2029}'
  }

  predicate IsAsciiDigit(c: char) { '0' <= c <= '9' }

  predicate IsAsciiLetter(c: char) { 'a' <= c <= 'z' || 'A' <= c <= 'Z' }

  /** The class `[a-zA-Z0-9]`. */
  predicate IsAsciiAlnum(c: char) { IsAsciiLetter(c) || IsAsciiDigit(c) }

  /** ASCII case folding; every other character is left alone. */
  function AsciiLower(c: char): (l: char)
    ensures 'A' <= c <= 'Z' ==> 'a' <= l <= 'z'
    ensures !('A' <= c <= 'Z') ==> l == c
  {
    if 'A' <= c <= 'Z' then (c as int + 32) as char else c
  }

  /** Concatenation regrouped; stated once so that proofs need not rediscover it. */
  lemma ConcatAssoc<T>(a: seq<T>, b: seq<T>, c: seq<T>)
    ensures a + (b + c) == (a + b) + c
  {
  }

  /** A prefix one element longer is the prefix followed by that element. */
  lemma PrefixSnoc<T>(s: seq<T>, i: nat)
    requires i < |s|
    ensures s[..i + 1] == s[..i] + [s[i]]
  {
  }

  /** A sequence is its prefix followed by the rest. */
  lemma PrefixSuffix<T>(s: seq<T>, k: nat)
    requires k <= |s|
    ensures s[..k] + s[k..] == s
  {
  }

  /** A nonempty sequence is its first element followed by the rest. */
  lemma HeadTail<T>(s: seq<T>)
    requires s != []
    ensures [s[0]] + s[1..] == s
  {
  }

  /** What follows a prefix of a concatenation. */
  lemma DropPrefix<T>(a: seq<T>, b: seq<T>)
    ensures (a + b)[|a|..] == b
  {
  }

  /** A nonempty sequence is its front followed by its last element. */
  lemma InitLast<T>(s: seq<T>)
    requires |s| >= 1
    ensures s[..|s| - 1] + [s[|s| - 1]] == s
  {
  }

  /** `String.prototype.startsWith`. */
  predicate StartsWith(s: string, prefix: string) {
    |prefix| <= |s| && s[..|prefix|] == prefix
  }

  predicate AllDigits(s: string) {
    forall i :: 0 <= i < |s| ==> IsAsciiDigit(s[i])
  }

  function DigitChar(d: nat): (c: char)
    requires d < 10
    ensures IsAsciiDigit(c) && c as int - '0' as int == d
  {
    ('0' as int + d) as char
  }

  /** Decimal rendering of a natural number, with no leading zero. */
  function NatToString(n: nat): (s: string)
    ensures |s| >= 1 && AllDigits(s)
    ensures s[0] == '0' ==> n == 0
    decreases n
  {
    if n < 10 then [DigitChar(n)] else NatToString(n / 10) + [DigitChar(n % 10)]
  }

  /** The value of a string of decimal digits (leading zeros allowed). */
  function DigitsValue(s: string): nat
    requires AllDigits(s)
    decreases |s|
  {
    if s == [] then 0
    else DigitsValue(s[..|s| - 1]) * 10 + (s[|s| - 1] as int - '0' as int)
  }

  /** Rendering and reading decimals are inverse. */
  lemma {:induction false} DigitsValueOfNatToString(n: nat)
    ensures DigitsValue(NatToString(n)) == n
    decreases n
  {
    if n >= 10 {
      var s := NatToString(n / 10);
      DigitsValueOfNatToString(n / 10);
      assert (s + [DigitChar(n % 10)])[..|s|] == s;
    }
  }

  /** A leading zero does not change the value read. */
  lemma {:induction false} DigitsValueLeadingZero(s: string)
    requires AllDigits(s)
    ensures AllDigits("0" + s) && DigitsValue("0" + s) == DigitsValue(s)
    decreases |s|
  {
    if s != [] {
      var init := s[..|s| - 1];
      DigitsValueLeadingZero(init);
      assert ("0" + s)[..|s|] == "0" + init;
    }
  }

  function Pow10(k: nat): (p: nat)
    ensures p >= 1
  {
    if k == 0 then 1 else 10 * Pow10(k - 1)
  }

  lemma Pow10Values()
    ensures Pow10(0) == 1 && Pow10(1) == 10 && Pow10(2) == 100 && Pow10(3) == 1000
    ensures Pow10(4) == 10000 && Pow10(5) == 100000 && Pow10(6) == 1000000
  {
    assert Pow10(1) == 10 * Pow10(0);
    assert Pow10(2) == 10 * Pow10(1);
    assert Pow10(3) == 10 * Pow10(2);
    assert Pow10(4) == 10 * Pow10(3);
    assert Pow10(5) == 10 * Pow10(4);
    assert Pow10(6) == 10 * Pow10(5);
  }

  /** A number in [10^(k-1), 10^k) is rendered with exactly k digits. */
  lemma {:induction false} NatToStringLength(n: nat, k: nat)
    requires k >= 1 && Pow10(k - 1) <= n < Pow10(k)
    ensures |NatToString(n)| == k
    decreases n
  {
    if k > 1 {
      assert Pow10(k - 1) == 10 * Pow10(k - 2);
      NatToStringLength(n / 10, k - 1);
    }
  }

  /** The decimal rendering of an integer, as a template substitution
      `${n}` prints an integral Number below 10^21 in magnitude (larger ones
      JavaScript prints in exponent notation, which this does not model). */
  function IntToString(i: int): (s: string)
    ensures i >= 0 ==> AllDigits(s) && DigitsValue(s) == i
    ensures i < 0 ==> |s| >= 2 && s[0] == '-' && AllDigits(s[1..]) && DigitsValue(s[1..]) == -i
  {
    DigitsValueOfNatToString(if i < 0 then -i else i);
    if i < 0 then "-" + NatToString(-i) else NatToString(i)
  }

  /** `String.prototype.padStart(width, fill)` with a one-character filler. */
  function PadStart(s: string, width: nat, fill: char): (r: string)
    ensures |r| == if |s| < width then width else |s|
    ensures r[|r| - |s|..] == s
    ensures forall i :: 0 <= i < |r| - |s| ==> r[i] == fill
  {
    if |s| < width then seq(width - |s|, _ => fill) + s else s
  }

  /** The inverse of `Split`: the parts with one separator between each two. */
  function Join(parts: seq<string>, sep: char): string
    requires |parts| >= 1
    decreases |parts|
  {
    if |parts| == 1 then parts[0]
    else Join(parts[..|parts| - 1], sep) + [sep] + parts[|parts| - 1]
  }

  /** The pieces after one more character `c`: a separator opens a new empty
      piece, any other character extends the last piece. */
  function Extend(parts: seq<string>, c: char, sep: char): (r: seq<string>)
    requires |parts| >= 1
    ensures |r| >= 1
    ensures (forall i :: 0 <= i < |parts| ==> sep !in parts[i]) ==> forall i :: 0 <= i < |r| ==> sep !in r[i]
  {
    var k := |parts| - 1;
    if c == sep then parts + [[]] else parts[..k] + [parts[k] + [c]]
  }

  lemma JoinExtend(parts: seq<string>, c: char, sep: char)
    requires |parts| >= 1
    ensures Join(Extend(parts, c, sep), sep) == Join(parts, sep) + [c]
  {
    var k := |parts| - 1;
    var r := Extend(parts, c, sep);
    if c == sep {
      assert r[..|parts|] == parts;
    } else if k > 0 {
      assert r[..k] == parts[..k];
    }
  }

  lemma ExtendAppend(ps: seq<string>, qs: seq<string>, c: char, sep: char)
    requires |qs| >= 1
    ensures Extend(ps + qs, c, sep) == ps + Extend(qs, c, sep)
  {
    var whole := ps + qs;
    assert whole[..|whole| - 1] == ps + qs[..|qs| - 1];
  }

  /** `String.prototype.split(sep)` for a one-character separator: the
      maximal separator-free pieces, in order, empty ones included. */
  function Split(s: string, sep: char): (parts: seq<string>)
    ensures |parts| >= 1
    ensures forall i :: 0 <= i < |parts| ==> sep !in parts[i]
    decreases |s|
  {
    if s == [] then [[]]
    else Extend(Split(s[..|s| - 1], sep), s[|s| - 1], sep)
  }

  /** Joining the pieces of a split with the separator gives the string back. */
  lemma {:induction false} JoinSplit(s: string, sep: char)
    ensures Join(Split(s, sep), sep) == s
    decreases |s|
  {
    if s != [] {
      var init, c := s[..|s| - 1], s[|s| - 1];
      JoinSplit(init, sep);
      JoinExtend(Split(init, sep), c, sep);
      InitLast(s);
    }
  }

  /** One step of `Split`: the last character extends the pieces of the rest. */
  lemma SplitLast(s: string, sep: char)
    requires s != []
    ensures Split(s, sep) == Extend(Split(s[..|s| - 1], sep), s[|s| - 1], sep)
  {
  }

  /** A separator-free string splits into itself alone. */
  lemma {:induction false} SplitWithoutSeparator(s: string, sep: char)
    requires sep !in s
    ensures Split(s, sep) == [s]
    decreases |s|
  {
    if s != [] {
      SplitWithoutSeparator(s[..|s| - 1], sep);
      assert s[..|s| - 1] + [s[|s| - 1]] == s;
    }
  }

  /** Splitting distributes over a separator: the pieces of `s + sep + t`
      are the pieces of `s` followed by those of `t`. */
  lemma {:induction false} SplitAtSeparator(s: string, sep: char, t: string)
    ensures Split(s + [sep] + t, sep) == Split(s, sep) + Split(t, sep)
    decreases |t|
  {
    var u := s + [sep] + t;
    if t == [] {
      assert u == s + [sep];
      assert u[..|u| - 1] == s;
    } else {
      var t', c := t[..|t| - 1], t[|t| - 1];
      SplitAtSeparator(s, sep, t');
      assert u[..|u| - 1] == s + [sep] + t';
      assert u[|u| - 1] == c;
      ExtendAppend(Split(s, sep), Split(t', sep), c, sep);
      SplitLast(u, sep);
      SplitLast(t, sep);
      calc {
        Split(u, sep);
        Extend(Split(u[..|u| - 1], sep), c, sep);
        Extend(Split(s + [sep] + t', sep), c, sep);
        Extend(Split(s, sep) + Split(t', sep), c, sep);
        Split(s, sep) + Extend(Split(t', sep), c, sep);
        Split(s, sep) + Split(t, sep);
      }
    }
  }

  /** A join ends with its last part, right after a separator when there
      are several parts. */
  lemma JoinEndsWithLast(parts: seq<string>, sep: char)
    requires |parts| >= 1
    ensures var j, last := Join(parts, sep), parts[|parts| - 1];
      && |last| <= |j| && j[|j| - |last|..] == last
      && (|last| < |j| ==> j[|j| - |last| - 1] == sep)
  {
    var k := |parts| - 1;
    if k > 0 {
      var j, p := Join(parts, sep), Join(parts[..k], sep);
      assert j == p + [sep] + parts[k];
      assert j[|j| - |parts[k]|..] == parts[k];
    }
  }

  /** The last piece of a split: what `s.split(sep).pop()` returns. */
  function LastPiece(s: string, sep: char): (last: string)
    ensures sep !in last
    ensures |last| <= |s| && last == s[|s| - |last|..]
    ensures |last| < |s| ==> s[|s| - |last| - 1] == sep
  {
    var parts := Split(s, sep);
    JoinSplit(s, sep);
    JoinEndsWithLast(parts, sep);
    parts[|parts| - 1]
  }

  /** Splitting a join gives the parts back when none holds the separator. */
  lemma {:induction false} SplitJoin(parts: seq<string>, sep: char)
    requires |parts| >= 1
    requires forall i :: 0 <= i < |parts| ==> sep !in parts[i]
    ensures Split(Join(parts, sep), sep) == parts
    decreases |parts|
  {
    var k := |parts| - 1;
    var last := parts[k];
    SplitWithoutSeparator(last, sep);
    if k > 0 {
      var init := parts[..k];
      assert forall i :: 0 <= i < |init| ==> init[i] == parts[i];
      SplitJoin(init, sep);
      var j := Join(init, sep);
      assert Join(parts, sep) == j + [sep] + last;
      SplitAtSeparator(j, sep, last);
      calc {
        Split(Join(parts, sep), sep);
        Split(j + [sep] + last, sep);
        Split(j, sep) + Split(last, sep);
        init + [last];
        { InitLast(parts); }
        parts;
      }
    }
  }

  /** The last piece after a separator followed by separator-free text is
      that text. */
  lemma LastPieceAfter(p: string, sep: char, q: string)
    requires sep !in q
    ensures LastPiece(p + [sep] + q, sep) == q
  {
    SplitAtSeparator(p, sep, q);
    SplitWithoutSeparator(q, sep);
  }
}

/**
 * The name sanitiser of controllers/fileController.js: the display name, the
 * storage key and the base track name derived from an uploaded file's
 * original name by chains of `String.prototype.replace` and `trim`. Each
 * regular expression is written out as a function over the string:
 *   /\(MyMp3Song[s]?\)/gi   StripTag
 *   /[\s-,]+/g -> "-"       Collapse  (Annex B reads `[\s-,]` as \s, '-' or ',')
 *   /\.[a-zA-Z0-9]+$/       StripExtension
 */
module Names {
  import opened Text

  /** The two spellings of `\(MyMp3Song[s]?\)`, folded to lower case. */
  const LongTag: string := "(mymp3songs)"
  const ShortTag: string := "(mymp3song)"

  /** `s` spells `pattern` under the `i` flag. Without the `u` flag,
      case-insensitive matching never maps a non-ASCII character onto an
      ASCII one, so for this all-ASCII pattern it is ASCII case folding. */
  predicate SpellsIgnoringCase(s: string, pattern: string) {
    |s| == |pattern| && forall i :: 0 <= i < |s| ==> AsciiLower(s[i]) == pattern[i]
  }

  /** The length of the tag match at the head of `s`, 0 when there is none.
      The two spellings differ at their eleventh character, so at most one
      of them matches. */
  function TagLength(s: string): (n: nat)
    ensures n == 0 || n == |ShortTag| || n == |LongTag|
    ensures n <= |s|
    ensures n > 0 ==> s[0] == '(' && s[n - 1] == ')'
    ensures n > 0 ==> IsTagSpelling(s[..n])
  {
    if |s| >= 12 && SpellsIgnoringCase(s[..12], LongTag) then 12
    else if |s| >= 11 && SpellsIgnoringCase(s[..11], ShortTag) then 11
    else 0
  }

  /** No tag match starts anywhere in `s`. */
  predicate NoTag(s: string) {
    forall i :: 0 <= i < |s| ==> TagLength(s[i..]) == 0
  }

  /** `r` is `s` with some characters deleted: the rest kept in order. */
  predicate IsSubsequence(r: string, s: string)
    decreases |s|
  {
    if s == [] then r == []
    else (r != [] && r[0] == s[0] && IsSubsequence(r[1..], s[1..])) || IsSubsequence(r, s[1..])
  }

  /** A subsequence of a suffix is a subsequence of the whole. */
  lemma {:induction false} SubsequenceOfSuffix(r: string, s: string, k: nat)
    requires k <= |s| && IsSubsequence(r, s[k..])
    ensures IsSubsequence(r, s)
    decreases k
  {
    if k > 0 {
      assert s[1..][k - 1..] == s[k..];
      SubsequenceOfSuffix(r, s[1..], k - 1);
    }
  }

  /** `s.replace(/\(MyMp3Song[s]?\)/gi, "")`: one left-to-right pass that
      deletes each match and resumes right after it. The result only ever
      loses characters. */
  function StripTag(s: string): (r: string)
    ensures |r| <= |s|
    ensures forall c :: c in r ==> c in s
    decreases |s|
  {
    if s == [] then []
    else
      var n := TagLength(s);
      if n > 0 then StripTag(s[n..]) else [s[0]] + StripTag(s[1..])
  }

  /** The pass only deletes: what it leaves keeps its order. */
  lemma {:induction false} StripTagDeletesOnly(s: string)
    ensures IsSubsequence(StripTag(s), s)
    decreases |s|
  {
    if s != [] {
      var n := TagLength(s);
      if n > 0 {
        StripTagDeletesOnly(s[n..]);
        SubsequenceOfSuffix(StripTag(s[n..]), s, n);
      } else {
        var rest := StripTag(s[1..]);
        StripTagDeletesOnly(s[1..]);
        assert ([s[0]] + rest)[1..] == rest;
      }
    }
  }

  /** A prefix at none of whose positions a tag match starts passes through
      the pass unchanged. */
  lemma {:induction false} StripTagKeepsUnmatchedPrefix(a: string, b: string)
    requires forall i :: 0 <= i < |a| ==> TagLength((a + b)[i..]) == 0
    ensures StripTag(a + b) == a + StripTag(b)
    decreases |a|
  {
    if a != [] {
      var s := a + b;
      assert s[0..] == s;
      assert s[1..] == a[1..] + b;
      forall i | 0 <= i < |a| - 1
        ensures TagLength((a[1..] + b)[i..]) == 0
      {
        assert (a[1..] + b)[i..] == s[i + 1..];
      }
      StripTagKeepsUnmatchedPrefix(a[1..], b);
    } else {
      assert a + b == b;
    }
  }

  /** Nothing but the matches is changed: with none, the name is kept. */
  lemma StripTagWithoutTag(s: string)
    ensures NoTag(s) ==> StripTag(s) == s
  {
    if NoTag(s) {
      assert s + [] == s;
      StripTagKeepsUnmatchedPrefix(s, []);
    }
  }

  lemma NoOpenParenNoTag(s: string)
    requires '(' !in s
    ensures NoTag(s)
  {
    forall i | 0 <= i < |s| ensures TagLength(s[i..]) == 0 {
      assert s[i..][0] == s[i];
    }
  }

  /** A match found at the head of `a` is found at the head of `a + b`, and
      a match cannot reach into a `b` free of `)`. */
  lemma TagLengthAppend(a: string, b: string)
    requires a != [] && ')' !in b
    ensures TagLength(a + b) == TagLength(a)
  {
    var s := a + b;
    var n := TagLength(s);
    if n > 0 {
      assert s[..n] == a[..n];
    }
    if |a| >= 12 {
      assert s[..12] == a[..12];
    }
    if |a| >= 11 {
      assert s[..11] == a[..11];
    }
  }

  /** A tail free of parentheses can take part in no match: the pass works
      on the head alone. */
  lemma {:induction false} StripTagAppend(a: string, b: string)
    requires '(' !in b && ')' !in b
    ensures StripTag(a + b) == StripTag(a) + b
    decreases |a|
  {
    var s := a + b;
    if a == [] {
      assert s == b;
      NoOpenParenNoTag(b);
      StripTagWithoutTag(b);
    } else {
      TagLengthAppend(a, b);
      var n := TagLength(a);
      if n > 0 {
        assert s[n..] == a[n..] + b;
        StripTagAppend(a[n..], b);
      } else {
        assert s[1..] == a[1..] + b;
        StripTagAppend(a[1..], b);
      }
    }
  }

  /** The members of the class `[\s-,]`. */
  predicate IsSeparator(c: char) {
    IsWhiteSpace(c) || c == '-' || c == ','
  }

  /** `s` without its leading run of separators. */
  function DropSeparators(s: string): (r: string)
    ensures |r| <= |s| && r == s[|s| - |r|..]
    ensures r == [] || !IsSeparator(r[0])
    ensures forall i :: 0 <= i < |s| - |r| ==> IsSeparator(s[i])
    decreases |s|
  {
    if s != [] && IsSeparator(s[0]) then DropSeparators(s[1..]) else s
  }

  /** No whitespace, no comma and no two hyphens in a row: the shape of a
      string in which every separator run has become one hyphen. */
  ghost predicate IsCollapsed(s: string) {
    && (forall i :: 0 <= i < |s| ==> !IsWhiteSpace(s[i]) && s[i] != ',')
    && (forall i, j :: 0 <= i < j < |s| && j == i + 1 ==> !(s[i] == '-' && s[j] == '-'))
  }

  /** `s.replace(/[\s-,]+/g, "-")`: every maximal run of whitespace, hyphens
      and commas becomes a single hyphen; the empty string stays empty. */
  function Collapse(s: string): (r: string)
    ensures r == [] <==> s == []
    decreases |s|
  {
    if s == [] then []
    else if IsSeparator(s[0]) then "-" + Collapse(DropSeparators(s))
    else [s[0]] + Collapse(s[1..])
  }

  /** The result starts with a hyphen exactly when the input starts with a
      separator. */
  lemma CollapseHead(s: string)
    requires s != []
    ensures Collapse(s)[0] == '-' <==> IsSeparator(s[0])
  {
  }

  lemma CollapseCons(c: char, t: string)
    requires !IsSeparator(c)
    ensures Collapse([c] + t) == [c] + Collapse(t)
  {
    assert ([c] + t)[1..] == t;
  }

  /** A character in front of a collapsed string keeps it collapsed unless
      it makes a whitespace, a comma or a hyphen pair. */
  lemma IsCollapsedCons(head: char, t: string)
    requires IsCollapsed(t) && !IsWhiteSpace(head) && head != ','
    requires head == '-' && t != [] ==> t[0] != '-'
    ensures IsCollapsed([head] + t)
  {
    var s := [head] + t;
    assert forall i :: 1 <= i < |s| ==> s[i] == t[i - 1];
  }

  /** What collapsing leaves: no whitespace, no comma, no hyphen pair. */
  lemma {:induction false} CollapseIsCollapsed(s: string)
    ensures IsCollapsed(Collapse(s))
    decreases |s|
  {
    if s != [] {
      var rest := if IsSeparator(s[0]) then DropSeparators(s) else s[1..];
      CollapseIsCollapsed(rest);
      var head := if IsSeparator(s[0]) then '-' else s[0];
      var t := Collapse(rest);
      assert Collapse(s) == [head] + t;
      if head == '-' && t != [] {
        CollapseHead(rest);
      }
      IsCollapsedCons(head, t);
    }
  }

  /** A collapsed string is left as it is; in particular collapsing twice is
      collapsing once. */
  lemma {:induction false} CollapseFixesCollapsed(t: string)
    requires IsCollapsed(t)
    ensures Collapse(t) == t
    decreases |t|
  {
    if t != [] {
      assert IsCollapsed(t[1..]);
      CollapseFixesCollapsed(t[1..]);
      if IsSeparator(t[0]) {
        assert t[0] == '-';
        assert |t| > 1 ==> !IsSeparator(t[1]);
        assert DropSeparators(t) == t[1..];
      }
    }
  }

  lemma CollapseIdempotent(s: string)
    ensures Collapse(Collapse(s)) == Collapse(s)
  {
    CollapseIsCollapsed(s);
    CollapseFixesCollapsed(Collapse(s));
  }

  /** A nonempty run of separators alone becomes one hyphen. */
  lemma CollapseRun(s: string)
    requires s != [] && forall i :: 0 <= i < |s| ==> IsSeparator(s[i])
    ensures Collapse(s) == "-"
  {
  }

  lemma {:induction false} DropSeparatorsAppend(x: string, y: string)
    ensures DropSeparators(x) != [] ==> DropSeparators(x + y) == DropSeparators(x) + y
    ensures DropSeparators(x) == [] && (y == [] || !IsSeparator(y[0])) ==> DropSeparators(x + y) == y
    decreases |x|
  {
    if x == [] {
      assert x + y == y;
    } else if IsSeparator(x[0]) {
      assert (x + y)[1..] == x[1..] + y;
      DropSeparatorsAppend(x[1..], y);
    }
  }

  lemma CollapseSeparatorHead(s: string)
    requires s != [] && IsSeparator(s[0])
    ensures Collapse(s) == "-" + Collapse(DropSeparators(s))
  {
  }

  /** Collapsing works piece by piece wherever the cut does not split a run
      of separators. With CollapseRun and the single-character cases this
      determines the result. */
  lemma {:induction false} CollapseConcat(x: string, y: string)
    requires x == [] || y == [] || !IsSeparator(x[|x| - 1]) || !IsSeparator(y[0])
    ensures Collapse(x + y) == Collapse(x) + Collapse(y)
    decreases |x|
  {
    if x == [] {
      assert x + y == y;
    } else if !IsSeparator(x[0]) {
      var t := x[1..];
      CollapseConcat(t, y);
      CollapseConcatCons(x, y);
    } else {
      var d := DropSeparators(x);
      DropSeparatorsAppend(x, y);
      if d != [] {
        assert d[|d| - 1] == x[|x| - 1];
        CollapseConcat(d, y);
      }
      CollapseConcatRun(x, y);
    }
  }

  lemma CollapseConcatCons(x: string, y: string)
    requires x != [] && !IsSeparator(x[0])
    requires Collapse(x[1..] + y) == Collapse(x[1..]) + Collapse(y)
    ensures Collapse(x + y) == Collapse(x) + Collapse(y)
  {
    var c, t := x[0], x[1..];
    assert x == [c] + t;
    ConcatAssoc([c], t, y);
    CollapseCons(c, t);
    CollapseCons(c, t + y);
    ConcatAssoc([c], Collapse(t), Collapse(y));
  }

  lemma CollapseConcatRun(x: string, y: string)
    requires x != [] && IsSeparator(x[0])
    requires DropSeparators(x) != [] ==> DropSeparators(x + y) == DropSeparators(x) + y
    requires DropSeparators(x) == [] ==> DropSeparators(x + y) == y
    requires DropSeparators(x) != [] ==>
      Collapse(DropSeparators(x) + y) == Collapse(DropSeparators(x)) + Collapse(y)
    ensures Collapse(x + y) == Collapse(x) + Collapse(y)
  {
    assert (x + y)[0] == x[0];
    CollapseSeparatorHead(x);
    CollapseSeparatorHead(x + y);
    var d := DropSeparators(x);
    if d == [] {
      assert Collapse(x) == "-";
    } else {
      ConcatAssoc("-", Collapse(d), Collapse(y));
    }
  }

  /** `String.prototype.trimStart`. */
  function TrimStart(s: string): (r: string)
    ensures |r| <= |s| && r == s[|s| - |r|..]
    ensures r == [] || !IsWhiteSpace(r[0])
    ensures forall i :: 0 <= i < |s| - |r| ==> IsWhiteSpace(s[i])
    decreases |s|
  {
    if s != [] && IsWhiteSpace(s[0]) then TrimStart(s[1..]) else s
  }

  /** `String.prototype.trimEnd`. */
  function TrimEnd(s: string): (r: string)
    ensures |r| <= |s| && r == s[..|r|]
    ensures r == [] || !IsWhiteSpace(r[|r| - 1])
    ensures forall i :: |r| <= i < |s| ==> IsWhiteSpace(s[i])
    decreases |s|
  {
    if s != [] && IsWhiteSpace(s[|s| - 1]) then TrimEnd(s[..|s| - 1]) else s
  }

  /** `String.prototype.trim`: the result neither starts nor ends with
      whitespace, and a string without whitespace is kept as it is. */
  function Trim(s: string): (r: string)
    ensures r == [] || (!IsWhiteSpace(r[0]) && !IsWhiteSpace(r[|r| - 1]))
    ensures (forall i :: 0 <= i < |s| ==> !IsWhiteSpace(s[i])) ==> r == s
  {
    var t := TrimStart(s);
    var r := TrimEnd(t);
    assert r != [] ==> r[0] == t[0];
    r
  }

  /** Trimming removes whitespace at both ends and nothing else: the result
      is a slice of `s`, and every character outside it is whitespace. With
      the ends of the result not being whitespace, this fixes the result. */
  lemma TrimSlice(s: string)
    ensures var r, k := Trim(s), |s| - |TrimStart(s)|;
      && k + |r| <= |s| && r == s[k..k + |r|]
      && (forall i :: 0 <= i < k ==> IsWhiteSpace(s[i]))
      && (forall i :: k + |r| <= i < |s| ==> IsWhiteSpace(s[i]))
  {
    var t := TrimStart(s);
    var r := TrimEnd(t);
    assert Trim(s) == r;
    PrefixOfSuffix(s, t, r);
  }

  /** A prefix `r` of a suffix `t` of `s` is a slice of `s`, and whitespace
      after `r` in `t` is whitespace in `s`. */
  lemma PrefixOfSuffix(s: string, t: string, r: string)
    requires |t| <= |s| && t == s[|s| - |t|..]
    requires |r| <= |t| && r == t[..|r|]
    requires forall i :: |r| <= i < |t| ==> IsWhiteSpace(t[i])
    ensures var k := |s| - |t|;
      && r == s[k..k + |r|]
      && forall i :: k + |r| <= i < |s| ==> IsWhiteSpace(s[i])
  {
    var k := |s| - |t|;
    forall i | k + |r| <= i < |s|
      ensures IsWhiteSpace(s[i])
    {
      assert s[i] == t[i - k];
    }
  }

  /** The length of the longest suffix made of `[a-zA-Z0-9]` characters. */
  function AlnumSuffixLength(s: string): (n: nat)
    ensures n <= |s|
    ensures forall j :: |s| - n <= j < |s| ==> IsAsciiAlnum(s[j])
    ensures n < |s| ==> !IsAsciiAlnum(s[|s| - n - 1])
    decreases |s|
  {
    if s == [] || !IsAsciiAlnum(s[|s| - 1]) then 0
    else AlnumSuffixLength(s[..|s| - 1]) + 1
  }

  /** `/\.[a-zA-Z0-9]+$/` matches `s` at position `i`. */
  predicate ExtensionAt(s: string, i: int) {
    0 <= i < |s| - 1 && s[i] == '.' && forall j :: i < j < |s| ==> IsAsciiAlnum(s[j])
  }

  /** `s.replace(/\.[a-zA-Z0-9]+$/, "")`: the result is `s` cut at the match
      when there is one (there is at most one), and `s` itself otherwise. */
  function StripExtension(s: string): (r: string)
    ensures |r| <= |s| && r == s[..|r|]
    ensures forall i :: ExtensionAt(s, i) ==> r == s[..i]
    ensures (forall i :: 0 <= i < |s| ==> !ExtensionAt(s, i)) ==> r == s
  {
    var n := AlnumSuffixLength(s);
    if 0 < n < |s| && s[|s| - n - 1] == '.' then
      assert ExtensionAt(s, |s| - n - 1);
      s[..|s| - n - 1]
    else s
  }

  /** `fileName` (line 22): the original name with the tag matches deleted;
      a name without a match is shown as it is. */
  function DisplayName(originalName: string): (name: string)
    ensures |name| <= |originalName|
    ensures forall c :: c in name ==> c in originalName
    ensures NoTag(originalName) ==> name == originalName
  {
    StripTagWithoutTag(originalName);
    StripTag(originalName)
  }

  /** No character of `s` is whitespace or a comma. */
  predicate NoWhiteSpaceOrComma(s: string) {
    forall i :: 0 <= i < |s| ==> !IsWhiteSpace(s[i]) && s[i] != ','
  }

  lemma SubsetKeepsNoWhiteSpaceOrComma(s: string, t: string)
    requires NoWhiteSpaceOrComma(t)
    requires forall c :: c in s ==> c in t
    ensures NoWhiteSpaceOrComma(s)
  {
    forall i | 0 <= i < |s| ensures !IsWhiteSpace(s[i]) && s[i] != ',' {
      assert s[i] in t;
      var j :| 0 <= j < |t| && t[j] == s[i];
    }
  }

  /** `fileKey` (lines 24-27): separators collapsed, then the tag removed,
      then trimmed. The key holds no whitespace and no comma, so the final
      trim changes nothing. */
  function StorageKey(originalName: string): (key: string)
    ensures NoWhiteSpaceOrComma(key)
    ensures key == StripTag(Collapse(originalName))
  {
    var collapsed := Collapse(originalName);
    CollapseIsCollapsed(originalName);
    var stripped := StripTag(collapsed);
    SubsetKeepsNoWhiteSpaceOrComma(stripped, collapsed);
    Trim(stripped)
  }

  /** `fileBaseName` (lines 33-37): the same steps as the key with the
      extension removed before the trim; it is the storage key without its
      extension. */
  function BaseName(originalName: string): (base: string)
    ensures base == StripExtension(StorageKey(originalName))
  {
    var key := StripTag(Collapse(originalName));
    var cut := StripExtension(key);
    TrimPrefixOfKey(originalName, cut);
    Trim(cut)
  }

  /** A prefix of a storage key has no whitespace to trim. */
  lemma TrimPrefixOfKey(originalName: string, cut: string)
    requires |cut| <= |StripTag(Collapse(originalName))|
    requires cut == StripTag(Collapse(originalName))[..|cut|]
    ensures Trim(cut) == cut
  {
    var key := StorageKey(originalName);
    assert forall i :: 0 <= i < |cut| ==> cut[i] == key[i];
  }

  predicate IsExtension(ext: string) {
    ext != [] && forall j :: 0 <= j < |ext| ==> IsAsciiAlnum(ext[j])
  }

  /** A dot and an extension pass through collapsing and tag removal. */
  lemma ExtensionTail(ext: string)
    requires IsExtension(ext)
    ensures Collapse("." + ext) == "." + ext
    ensures '(' !in "." + ext && ')' !in "." + ext
  {
    var tail := "." + ext;
    DotExtensionChars(ext);
    forall j | 0 <= j < |tail| ensures !IsSeparator(tail[j]) {
      TagCharsAreNoSeparators(tail[j]);
    }
    CollapseWithoutSeparators(tail);
  }

  lemma DotExtensionChars(ext: string)
    requires IsExtension(ext)
    ensures forall j :: 0 <= j < |"." + ext| ==> ("." + ext)[j] == '.' || IsAsciiAlnum(("." + ext)[j])
  {
    var tail := "." + ext;
    assert forall j :: 1 <= j < |tail| ==> tail[j] == ext[j - 1];
  }

  /** Cutting at the last dot before an extension gives back the stem. */
  lemma StripExtensionAt(k: string, ext: string)
    requires IsExtension(ext)
    ensures StripExtension(k + "." + ext) == k
  {
    var key := k + "." + ext;
    assert forall j :: |k| < j < |key| ==> key[j] == ext[j - |k| - 1];
    assert ExtensionAt(key, |k|);
    assert key[..|k|] == k;
  }

  /** The key keeps the extension, and the base name is what precedes it. */
  lemma ExtensionKept(stem: string, ext: string)
    requires IsExtension(ext)
    ensures StorageKey(stem + "." + ext) == StripTag(Collapse(stem)) + "." + ext
    ensures BaseName(stem + "." + ext) == StripTag(Collapse(stem))
  {
    var tail := "." + ext;
    ConcatAssoc(stem, ".", ext);
    ExtensionTail(ext);
    CollapseConcat(stem, tail);
    StripTagAppend(Collapse(stem), tail);
    var k := StripTag(Collapse(stem));
    ConcatAssoc(k, ".", ext);
    StripExtensionAt(k, ext);
  }

  /** Every character of the result is a character of the input or the
      hyphen that replaces a run. */
  lemma {:induction false} CollapseChars(s: string)
    ensures forall c :: c in Collapse(s) ==> c in s || c == '-'
    decreases |s|
  {
    if s != [] {
      var rest := if IsSeparator(s[0]) then DropSeparators(s) else s[1..];
      CollapseChars(rest);
      assert forall c :: c in rest ==> c in s;
    }
  }

  /** A string of the characters one match of the tag consumes. */
  predicate IsTagSpelling(t: string) {
    SpellsIgnoringCase(t, ShortTag) || SpellsIgnoringCase(t, LongTag)
  }

  /** Between their parentheses both patterns hold letters and digits only;
      the short one closes where the long one has its final `s`. */
  lemma PatternShape()
    ensures LongTag[0] == '(' && LongTag[11] == ')' && LongTag[10] == 's'
    ensures ShortTag[0] == '(' && ShortTag[10] == ')'
    ensures forall i :: 1 <= i < 11 ==> IsAsciiAlnum(LongTag[i])
    ensures forall i :: 1 <= i < 10 ==> IsAsciiAlnum(ShortTag[i])
  {
  }

  /** What a tag spelling looks like: parentheses around ASCII letters and
      digits, and a match of its full length. */
  lemma TagSpellingShape(t: string)
    requires IsTagSpelling(t)
    ensures |t| == 11 || |t| == 12
    ensures t[0] == '(' && t[|t| - 1] == ')'
    ensures forall i :: 1 <= i < |t| - 1 ==> IsAsciiAlnum(t[i])
    ensures TagLength(t) == |t|
  {
    PatternShape();
    var pattern := if |t| == 11 then ShortTag else LongTag;
    assert SpellsIgnoringCase(t, pattern);
    assert AsciiLower(t[0]) == '(' && AsciiLower(t[|t| - 1]) == ')';
    forall i | 1 <= i < |t| - 1 ensures IsAsciiAlnum(t[i]) {
      assert AsciiLower(t[i]) == pattern[i];
    }
    assert t[..|t|] == t;
  }

  /** Parentheses, dots, letters and digits are no separators. */
  lemma TagCharsAreNoSeparators(c: char)
    requires c == '(' || c == ')' || c == '.' || IsAsciiAlnum(c)
    ensures !IsSeparator(c)
  {
  }

  /** A string without separators is left as it is. */
  lemma CollapseWithoutSeparators(s: string)
    requires forall i :: 0 <= i < |s| ==> !IsSeparator(s[i])
    ensures Collapse(s) == s
  {
    forall i | 0 <= i < |s| ensures !IsWhiteSpace(s[i]) && s[i] != ',' && s[i] != '-' {
      assert !IsSeparator(s[i]);
    }
    assert IsCollapsed(s);
    CollapseFixesCollapsed(s);
  }

  /** A string of parentheses, letters and digits is left as it is. */
  lemma CollapseKeepsTagChars(t: string)
    requires forall i :: 0 <= i < |t| ==> t[i] == '(' || t[i] == ')' || IsAsciiAlnum(t[i])
    ensures Collapse(t) == t
  {
    forall i | 0 <= i < |t| ensures !IsSeparator(t[i]) {
      TagCharsAreNoSeparators(t[i]);
    }
    CollapseWithoutSeparators(t);
  }

  /** Collapsing keeps a tag spelling, whose ends are no separators. */
  lemma TagSpellingCollapsed(t: string)
    requires IsTagSpelling(t)
    ensures t != [] && !IsSeparator(t[0]) && !IsSeparator(t[|t| - 1])
    ensures Collapse(t) == t
  {
    TagSpellingShape(t);
    TagSpellingChars(t);
    CollapseKeepsTagChars(t);
    var open, close := t[0], t[|t| - 1];
    TagCharsAreNoSeparators(open);
    TagCharsAreNoSeparators(close);
  }

  lemma TagSpellingChars(t: string)
    requires |t| >= 2 && t[0] == '(' && t[|t| - 1] == ')'
    requires forall i :: 1 <= i < |t| - 1 ==> IsAsciiAlnum(t[i])
    ensures forall i :: 0 <= i < |t| ==> t[i] == '(' || t[i] == ')' || IsAsciiAlnum(t[i])
  {
  }

  /** A match of the tag is found at the head of anything that starts with
      a tag spelling, and it is exactly that spelling. */
  lemma TagLengthOfTag(t: string, rest: string)
    requires IsTagSpelling(t)
    ensures TagLength(t + rest) == |t|
  {
    TagSpellingShape(t);
    PatternShape();
    var s := t + rest;
    assert s[..|t|] == t;
    if |t| == 11 && |s| >= 12 {
      assert AsciiLower(s[..12][10]) != LongTag[10];
    }
  }

  /** No match starts inside a prefix free of `(`. */
  lemma NoOpenParenPrefix(u: string, w: string)
    requires '(' !in u
    ensures forall i :: 0 <= i < |u| ==> TagLength((u + w)[i..]) == 0
  {
    forall i | 0 <= i < |u| ensures TagLength((u + w)[i..]) == 0 {
      assert (u + w)[i..][0] == u[i];
    }
  }

  /** The pass deletes a tag spelling that follows a prefix in which no
      match starts, and keeps a tail without `(`. */
  lemma StripTagAroundTag(u: string, t: string, v: string)
    requires IsTagSpelling(t) && '(' !in v
    requires forall i :: 0 <= i < |u| ==> TagLength((u + (t + v))[i..]) == 0
    ensures StripTag(u + (t + v)) == u + v
  {
    StripTagKeepsUnmatchedPrefix(u, t + v);
    TagLengthOfTag(t, v);
    TagSpellingShape(t);
    assert (t + v)[|t|..] == v;
    NoOpenParenNoTag(v);
    StripTagWithoutTag(v);
  }

  /** The tag between two spaces, written right-nested. */
  lemma TagBetweenSpacesNesting(a: string, t: string, b: string)
    ensures a + " " + t + " " + b == a + (" " + (t + (" " + b)))
  {
    ConcatAssoc(a + " " + t, " ", b);
    ConcatAssoc(a + " ", t, " " + b);
    ConcatAssoc(a, " ", t + (" " + b));
  }

  /** The pass deletes the tag and keeps both spaces. */
  lemma StripTagBetweenSpaces(a: string, t: string, b: string)
    requires IsTagSpelling(t) && '(' !in a && '(' !in b
    ensures StripTag(a + (" " + (t + (" " + b)))) == a + "  " + b
  {
    var sb := " " + b;
    NoOpenParenPrefix(a + " ", t + sb);
    ConcatAssoc(a, " ", t + sb);
    StripTagAroundTag(a + " ", t, sb);
    ConcatAssoc(a, " ", sb);
    ConcatAssoc(" ", " ", b);
    assert " " + " " == "  ";
    ConcatAssoc(a, "  ", b);
  }

  /** Each space becomes a hyphen and the tag is kept. */
  lemma CollapseBetweenSpaces(a: string, t: string, b: string)
    requires IsTagSpelling(t)
    requires a != [] && !IsSeparator(a[|a| - 1])
    requires b != [] && !IsSeparator(b[0])
    ensures Collapse(a + (" " + (t + (" " + b)))) == Collapse(a) + ("-" + (t + ("-" + Collapse(b))))
  {
    TagSpellingCollapsed(t);
    var sb := " " + b;
    var tsb := t + sb;
    var stsb := " " + tsb;
    CollapseRun(" ");
    assert tsb[0] == t[0] && stsb[0] == ' ';
    CollapseConcat(" ", b);
    assert Collapse(sb) == "-" + Collapse(b);
    CollapseConcat(t, sb);
    assert Collapse(tsb) == t + ("-" + Collapse(b));
    CollapseConcat(" ", tsb);
    assert Collapse(stsb) == "-" + (t + ("-" + Collapse(b)));
    CollapseConcat(a, stsb);
  }

  /** Removing the tag after collapsing can leave two hyphens side by side:
      a tag between two spaces becomes `--` in the key, while the display
      name keeps both spaces. So the key is not free of repeated hyphens. */
  lemma TagRemovalCanLeaveDoubleHyphen(a: string, t: string, b: string)
    requires IsTagSpelling(t)
    requires a != [] && !IsSeparator(a[|a| - 1]) && '(' !in a
    requires b != [] && !IsSeparator(b[0]) && '(' !in b
    ensures StorageKey(a + " " + t + " " + b) == Collapse(a) + "--" + Collapse(b)
    ensures DisplayName(a + " " + t + " " + b) == a + "  " + b
  {
    TagBetweenSpacesNesting(a, t, b);
    StripTagBetweenSpaces(a, t, b);
    CollapseBetweenSpaces(a, t, b);
    StripTagBetweenHyphens(Collapse(a), t, Collapse(b), a, b);
  }

  /** In the collapsed name the pass deletes the tag between its two
      hyphens, which then meet. */
  lemma StripTagBetweenHyphens(ca: string, t: string, cb: string, a: string, b: string)
    requires IsTagSpelling(t) && '(' !in a && '(' !in b
    requires ca == Collapse(a) && cb == Collapse(b)
    ensures StripTag(ca + ("-" + (t + ("-" + cb)))) == ca + "--" + cb
  {
    CollapseChars(a);
    CollapseChars(b);
    NoOpenParenPrefix(ca + "-", t + ("-" + cb));
    ConcatAssoc(ca, "-", t + ("-" + cb));
    StripTagAroundTag(ca + "-", t, "-" + cb);
    ConcatAssoc(ca, "-", "-" + cb);
    ConcatAssoc("-", "-", cb);
    assert "-" + "-" == "--";
    ConcatAssoc(ca, "--", cb);
  }

  /** No match starts where the string does not start with `(`. */
  lemma NoMatchWithoutOpenParen(s: string)
    requires s == [] || s[0] != '('
    ensures TagLength(s) == 0
  {
  }

  /** No match starts at a `(` followed, within the next ten characters,
      by another `(`: both patterns hold letters, digits or `)` there. */
  lemma NoMatchWithInnerOpenParen(s: string, k: nat)
    requires 0 < k <= 10 && k < |s| && s[k] == '('
    ensures TagLength(s) == 0
  {
    PatternShape();
    if |s| >= 12 {
      assert s[..12][k] == '(';
      assert AsciiLower(s[..12][k]) != LongTag[k];
    }
    if |s| >= 11 {
      assert s[..11][k] == '(';
      assert AsciiLower(s[..11][k]) != ShortTag[k];
    }
  }

  /** With a tag spelling inserted at position `k`, no match starts in
      the part of `t` before it: the inserted `(` breaks the one at 0. */
  lemma CutTagHasNoMatch(t: string, inner: string, k: nat)
    requires IsTagSpelling(t) && IsTagSpelling(inner)
    requires 0 < k < |t| - 1
    ensures forall i :: 0 <= i < k ==> TagLength((t[..k] + (inner + t[k..]))[i..]) == 0
  {
    TagSpellingShape(t);
    TagSpellingShape(inner);
    var s := t[..k] + (inner + t[k..]);
    assert s[k] == inner[0];
    forall i | 0 <= i < k ensures TagLength(s[i..]) == 0 {
      if i == 0 {
        assert s[0..] == s;
        NoMatchWithInnerOpenParen(s, k);
      } else {
        assert s[i..][0] == t[i];
        NoMatchWithoutOpenParen(s[i..]);
      }
    }
  }

  /** One pass is not idempotent: deleting a match cut into another tag
      spelling (before its closing parenthesis) joins the two pieces into a
      new match, which a second pass would delete. */
  lemma OnePassIsNotIdempotent(t: string, inner: string, k: nat)
    requires IsTagSpelling(t) && IsTagSpelling(inner)
    requires 0 < k < |t| - 1
    ensures DisplayName(t[..k] + inner + t[k..]) == t
    ensures DisplayName(t) == []
  {
    SplicedTagLeavesTag(t, inner, k);
    TagSpellingIsDeleted(t);
  }

  /** The pass deletes the inner spelling and leaves the outer one whole. */
  lemma SplicedTagLeavesTag(t: string, inner: string, k: nat)
    requires IsTagSpelling(t) && IsTagSpelling(inner)
    requires 0 < k < |t| - 1
    ensures StripTag(t[..k] + inner + t[k..]) == t
  {
    var p, q := t[..k], t[k..];
    ConcatAssoc(p, inner, q);
    NoOpenParenInTagTail(t, k);
    CutTagHasNoMatch(t, inner, k);
    StripTagAroundTag(p, inner, q);
    PrefixSuffix(t, k);
  }

  /** After its first character a tag spelling holds no `(`. */
  lemma NoOpenParenInTagTail(t: string, k: nat)
    requires IsTagSpelling(t) && 0 < k <= |t|
    ensures '(' !in t[k..]
  {
    TagSpellingShape(t);
    var q := t[k..];
    forall j | 0 <= j < |q| ensures q[j] != '(' {
      assert q[j] == t[k + j];
    }
  }

  /** A tag spelling alone is deleted entirely. */
  lemma TagSpellingIsDeleted(t: string)
    requires IsTagSpelling(t)
    ensures StripTag(t) == []
  {
    TagLengthOfTag(t, []);
    assert t + [] == t;
    assert t[|t|..] == [];
  }
}

/** `RegexEscaper`: turns a needle into the body of a PCRE pattern that matches the
    needle literally, optionally with `\b` word boundaries around its word part.

    Escaping is `preg_quote` without a delimiter, then every `/` becomes `\/`. The
    whole-word variant splits the escaped needle into characters and writes `\b`
    before the first and after the last character that the engine's `\w` class
    accepts. That class (Unicode-aware under the `u` flag) is a parameter here. */
module RegexEscaper {
  import opened Php
  import opened Strings

  /** The word-boundary token. */
  const Boundary: string := "\\b"

  /** The characters `preg_quote` prefixes with a backslash when no delimiter is given:
      `. \ + * ? [ ^ ] $ ( ) { } = ! < > | : - #`, written as ASCII ranges. */
  predicate IsQuoteMeta(c: char)
  {
    || c == '!' || c == '#' || c == '$'
    || ('(' <= c <= '.' && c != ',')
    || c == ':'
    || ('<' <= c <= '?')
    || ('[' <= c <= '^')
    || ('{' <= c <= '}')
  }

  /** `preg_quote` of one character: NUL becomes `\000`, a metacharacter gets a
      backslash in front, anything else is copied. */
  function QuoteChar(c: char): string
  {
    if c == '\0' then "\\000"
    else if IsQuoteMeta(c) then ['\\', c]
    else [c]
  }

  /** `preg_quote(s)`: never shorter than `s`. Without a delimiter argument it leaves
      `/` alone, which is why the escaper adds a pass of its own for it. */
  function PregQuote(s: string): (r: string)
    ensures |s| <= |r|
    ensures '/' in r <==> '/' in s
    decreases |s|
  {
    if |s| == 0 then [] else QuoteChar(s[0]) + PregQuote(s[1..])
  }

  /** `escapeRegularPattern`: `preg_quote`, then one pass turning `/` into `\/`. It is
      the per-character escape, so every `/` in the result comes right after a
      backslash and cannot end a `/`-delimited pattern. */
  function EscapeRegularPattern(needle: string): (r: string)
    ensures r == EscapeEach(needle)
    ensures forall j :: 0 <= j < |r| && r[j] == '/' ==> 0 < j && r[j - 1] == '\\'
  {
    EscapeIsPerChar(needle);
    ReplaceAll(PregQuote(needle), "/", "\\/")
  }

  /** The escape of one needle character: the reference reading of the escaper. */
  function EscapeChar(c: char): (r: string)
    ensures 0 < |r|
    ensures r[0] == '\\' || r == [c]
  {
    if c == '/' then "\\/" else QuoteChar(c)
  }

  /** Escaping character by character: never shorter than `s`, and with a backslash
      right before every `/`. */
  function EscapeEach(s: string): (r: string)
    ensures |s| <= |r|
    ensures forall j :: 0 <= j < |r| && r[j] == '/' ==> 0 < j && r[j - 1] == '\\'
    decreases |s|
  {
    if |s| == 0 then [] else EscapeChar(s[0]) + EscapeEach(s[1..])
  }

  /** The escaper works character by character: each character is replaced by its
      own escape, independently of its neighbours. */
  lemma {:induction false} EscapeIsPerChar(s: string)
    ensures ReplaceAll(PregQuote(s), "/", "\\/") == EscapeEach(s)
    decreases |s|
  {
    if |s| > 0 {
      var q := QuoteChar(s[0]);
      assert PregQuote(s) == q + PregQuote(s[1..]);
      ReplaceAllSingleConcat(q, PregQuote(s[1..]), "/", "\\/");
      EscapeIsPerChar(s[1..]);
      if s[0] == '/' {
        assert ReplaceAll(q, "/", "\\/") == "\\/" + ReplaceAll([], "/", "\\/");
      } else {
        assert '/' !in q;
        ReplaceAllPassThrough(q, [], "/", "\\/");
        assert q + [] == q;
      }
    }
  }

  /** Escaping distributes over concatenation. */
  lemma {:induction false} EscapeConcat(a: string, b: string)
    ensures EscapeRegularPattern(a + b) == EscapeRegularPattern(a) + EscapeRegularPattern(b)
    decreases |a|
  {
    EscapeIsPerChar(a + b);
    EscapeIsPerChar(a);
    EscapeIsPerChar(b);
    EscapeEachConcat(a, b);
  }

  lemma {:induction false} EscapeEachConcat(a: string, b: string)
    ensures EscapeEach(a + b) == EscapeEach(a) + EscapeEach(b)
    decreases |a|
  {
    if |a| == 0 {
      assert a + b == b;
    } else {
      assert (a + b)[0] == a[0];
      assert (a + b)[1..] == a[1..] + b;
      EscapeEachConcat(a[1..], b);
    }
  }

  /** Reads an escaped pattern back: `\000` is NUL, a backslash followed by any other
      character is that character, anything else stands for itself. */
  function Unescape(s: string): string
    decreases |s|
  {
    if |s| == 0 then []
    else if s[0] == '\\' && 4 <= |s| && s[1] == '0' then ['\0'] + Unescape(s[4..])
    else if s[0] == '\\' && 2 <= |s| then [s[1]] + Unescape(s[2..])
    else [s[0]] + Unescape(s[1..])
  }

  lemma UnescapeChar(c: char, rest: string)
    ensures Unescape(EscapeChar(c) + rest) == [c] + Unescape(rest)
  {
    var x := EscapeChar(c) + rest;
    if c == '\0' {
      assert x[4..] == rest;
    } else if c == '/' || IsQuoteMeta(c) {
      assert x[2..] == rest;
    } else {
      assert x[1..] == rest;
    }
  }

  /** Round trip: the escaped needle determines the needle, so escaping loses nothing
      and two needles never share a pattern body. */
  lemma {:induction false} EscapeRoundTrip(s: string)
    ensures Unescape(EscapeRegularPattern(s)) == s
  {
    EscapeIsPerChar(s);
    UnescapeEach(s);
  }

  lemma {:induction false} UnescapeEach(s: string)
    ensures Unescape(EscapeEach(s)) == s
    decreases |s|
  {
    if |s| > 0 {
      UnescapeChar(s[0], EscapeEach(s[1..]));
      UnescapeEach(s[1..]);
      assert s == [s[0]] + s[1..];
    }
  }

  /** A non-empty needle's escape does not begin with `/`: a leading `/` is written `\/`. */
  lemma EscapedHead(s: string)
    requires 0 < |s|
    ensures 0 < |EscapeRegularPattern(s)|
    ensures EscapeRegularPattern(s)[0] == '\\' || EscapeRegularPattern(s)[0] == s[0]
    ensures EscapeRegularPattern(s)[0] != '/'
  {
    EscapeIsPerChar(s);
    assert EscapeEach(s) == EscapeChar(s[0]) + EscapeEach(s[1..]);
  }

  // Word boundaries.

  /** `isBoundary(letter)`: `preg_match('/\w/iu', letter) > 0`, i.e. some character of
      the letter is in the engine's word class. */
  predicate IsBoundary(isWord: char -> bool, letter: string)
  {
    exists i :: 0 <= i < |letter| && isWord(letter[i])
  }

  /** The first index at or after `i` whose letter is a word character, or -1. */
  function FirstBoundaryFrom(isWord: char -> bool, parts: seq<string>, i: nat): (r: int)
    ensures r == -1 || (i <= r < |parts| && IsBoundary(isWord, parts[r]))
    ensures r == -1 ==> forall j :: i <= j < |parts| ==> !IsBoundary(isWord, parts[j])
    ensures r != -1 ==> forall j :: i <= j < r ==> !IsBoundary(isWord, parts[j])
    decreases |parts| - i
  {
    if i >= |parts| then -1
    else if IsBoundary(isWord, parts[i]) then i
    else FirstBoundaryFrom(isWord, parts, i + 1)
  }

  /** `getFirstBoundaryPosition`: the least index holding a word character, or -1. */
  function FirstBoundaryPosition(isWord: char -> bool, parts: seq<string>): (r: int)
    ensures r == -1 <==> forall j :: 0 <= j < |parts| ==> !IsBoundary(isWord, parts[j])
    ensures r != -1 ==> 0 <= r < |parts| && IsBoundary(isWord, parts[r])
    ensures r != -1 ==> forall j :: 0 <= j < r ==> !IsBoundary(isWord, parts[j])
  {
    FirstBoundaryFrom(isWord, parts, 0)
  }

  /** The last index at or below `i` whose letter is a word character, or -1. */
  function LastBoundaryBelow(isWord: char -> bool, parts: seq<string>, i: int): (r: int)
    requires i < |parts|
    ensures r == -1 || (0 <= r <= i && IsBoundary(isWord, parts[r]))
    ensures r == -1 ==> forall j :: 0 <= j <= i ==> !IsBoundary(isWord, parts[j])
    ensures r != -1 ==> forall j :: r < j <= i ==> !IsBoundary(isWord, parts[j])
    decreases i + 1
  {
    if i < 0 then -1
    else if IsBoundary(isWord, parts[i]) then i
    else LastBoundaryBelow(isWord, parts, i - 1)
  }

  /** `getLastBoundaryPosition`: the greatest index holding a word character, or -1;
      it is -1 exactly when the first position is, and never before it. */
  function LastBoundaryPosition(isWord: char -> bool, parts: seq<string>): (r: int)
    ensures r == -1 <==> forall j :: 0 <= j < |parts| ==> !IsBoundary(isWord, parts[j])
    ensures r != -1 ==> 0 <= r < |parts| && IsBoundary(isWord, parts[r])
    ensures r != -1 ==> forall j :: r < j < |parts| ==> !IsBoundary(isWord, parts[j])
    ensures (r == -1) == (FirstBoundaryPosition(isWord, parts) == -1)
    ensures r != -1 ==> FirstBoundaryPosition(isWord, parts) <= r
  {
    LastBoundaryBelow(isWord, parts, |parts| - 1)
  }

  /** The `foreach` of `escapeWholeTextPattern` from index `i` on: each letter is
      copied, with `\b` written before it when it is at the first boundary position
      and after it when it is at the last. */
  function AssembleFrom(parts: seq<string>, first: int, last: int, i: nat): string
    decreases |parts| - i
  {
    if i >= |parts| then []
    else
      (if i == first then Boundary else []) + parts[i] + (if i == last then Boundary else [])
      + AssembleFrom(parts, first, last, i + 1)
  }

  /** One step of the `foreach`. */
  lemma AssembleStep(parts: seq<string>, first: int, last: int, i: nat)
    requires i < |parts|
    ensures AssembleFrom(parts, first, last, i)
         == (if i == first then Boundary else []) + parts[i] + (if i == last then Boundary else [])
            + AssembleFrom(parts, first, last, i + 1)
  {
  }

  /** `escapeWholeTextPattern`: with no word character in the escaped needle nothing
      is inserted; otherwise exactly two `\b` tokens are. */
  function EscapeWholeTextPattern(isWord: char -> bool, needle: string): (r: string)
    ensures (forall j :: 0 <= j < |EscapeRegularPattern(needle)| ==> !isWord(EscapeRegularPattern(needle)[j]))
      ==> r == EscapeRegularPattern(needle)
    ensures (exists j :: 0 <= j < |EscapeRegularPattern(needle)| && isWord(EscapeRegularPattern(needle)[j]))
      ==> |r| == |EscapeRegularPattern(needle)| + 2 * |Boundary|
  {
    var e := EscapeRegularPattern(needle);
    var parts := Split(e);
    var f := FirstBoundaryPosition(isWord, parts);
    var l := LastBoundaryPosition(isWord, parts);
    SplitBoundaries(isWord, e);
    if f == -1 then
      AssemblePlain(e, f, l, 0);
      AssembleFrom(parts, f, l, 0)
    else
      AssembleBeforeFirst(e, f, l, 0);
      AssembleFrom(parts, f, l, 0)
  }

  /** `f` is the least index of `s` holding a word character. */
  predicate LeastWordIndex(isWord: char -> bool, s: string, f: int)
  {
    0 <= f < |s| && isWord(s[f]) && forall j :: 0 <= j < f ==> !isWord(s[j])
  }

  /** `l` is the greatest index of `s` holding a word character. */
  predicate GreatestWordIndex(isWord: char -> bool, s: string, l: int)
  {
    0 <= l < |s| && isWord(s[l]) && forall j :: l < j < |s| ==> !isWord(s[j])
  }

  /** A one-character letter is a boundary exactly when its character is a word character. */
  lemma SplitBoundaries(isWord: char -> bool, s: string)
    ensures forall j :: 0 <= j < |s| ==> (IsBoundary(isWord, Split(s)[j]) <==> isWord(s[j]))
  {
    forall j | 0 <= j < |s| ensures IsBoundary(isWord, Split(s)[j]) <==> isWord(s[j]) {
      assert Split(s)[j] == [s[j]];
      assert Split(s)[j][0] == s[j];
    }
  }

  /** With no boundary position left at or after `i`, the rest is copied as is. */
  lemma {:induction false} AssemblePlain(s: string, f: int, l: int, i: nat)
    requires i <= |s|
    requires (f < i || |s| <= f) && (l < i || |s| <= l)
    ensures AssembleFrom(Split(s), f, l, i) == s[i..]
    decreases |s| - i
  {
    if i < |s| {
      AssemblePlain(s, f, l, i + 1);
      assert s[i..] == [s[i]] + s[i + 1..];
    }
  }

  /** Past the first position, only the token after the last position is inserted. */
  lemma {:induction false} AssembleAfterFirst(s: string, f: int, l: int, i: nat)
    requires f < i <= l < |s|
    ensures AssembleFrom(Split(s), f, l, i) == s[i..l + 1] + Boundary + s[l + 1..]
    decreases |s| - i
  {
    if i == l {
      AssemblePlain(s, f, l, i + 1);
      assert s[i..l + 1] == [s[i]];
    } else {
      AssembleAfterFirst(s, f, l, i + 1);
      assert s[i..l + 1] == [s[i]] + s[i + 1..l + 1];
    }
  }

  /** Up to the first position, both tokens are still to come. */
  lemma {:induction false} AssembleBeforeFirst(s: string, f: int, l: int, i: nat)
    requires i <= f <= l < |s|
    ensures AssembleFrom(Split(s), f, l, i) == s[i..f] + Boundary + s[f..l + 1] + Boundary + s[l + 1..]
    decreases |s| - i
  {
    if i == f {
      AssembleAtFirst(s, f, l);
    } else {
      AssembleBeforeFirst(s, f, l, i + 1);
      assert Split(s)[i] == [s[i]];
      assert s[i..f] == [s[i]] + s[i + 1..f];
    }
  }

  /** At the first position the opening token goes in front of its character. */
  lemma AssembleAtFirst(s: string, f: int, l: int)
    requires 0 <= f <= l < |s|
    ensures AssembleFrom(Split(s), f, l, f) == Boundary + s[f..l + 1] + Boundary + s[l + 1..]
  {
    assert Split(s)[f] == [s[f]];
    if f == l {
      AssemblePlain(s, f, l, f + 1);
      assert s[f..l + 1] == [s[f]];
    } else {
      AssembleAfterFirst(s, f, l, f + 1);
      assert s[f..l + 1] == [s[f]] + s[f + 1..l + 1];
    }
  }

  /** What `escapeWholeTextPattern` produces. With no word character in the escaped
      needle (the empty needle included) it is the escaped needle itself. Otherwise it
      is the escaped needle with exactly two `\b` tokens added: one right before its
      first word character and one right after its last, also when the two coincide;
      deleting the two tokens gives the escaped needle back. */
  lemma EscapeWholeTextShape(isWord: char -> bool, needle: string, f: int, l: int)
    ensures |needle| == 0 ==> EscapeWholeTextPattern(isWord, needle) == []
    ensures (forall j :: 0 <= j < |EscapeRegularPattern(needle)| ==> !isWord(EscapeRegularPattern(needle)[j]))
      ==> EscapeWholeTextPattern(isWord, needle) == EscapeRegularPattern(needle)
    ensures LeastWordIndex(isWord, EscapeRegularPattern(needle), f)
         && GreatestWordIndex(isWord, EscapeRegularPattern(needle), l)
      ==> var e := EscapeRegularPattern(needle);
          && f <= l
          && EscapeWholeTextPattern(isWord, needle)
             == e[..f] + Boundary + e[f..l + 1] + Boundary + e[l + 1..]
  {
    var e := EscapeRegularPattern(needle);
    if |needle| == 0 {
      assert e == [];
    }
    if LeastWordIndex(isWord, e, f) && GreatestWordIndex(isWord, e, l) {
      ShapeWithWord(isWord, needle, f, l);
    }
  }

  lemma ShapeWithWord(isWord: char -> bool, needle: string, f: int, l: int)
    requires LeastWordIndex(isWord, EscapeRegularPattern(needle), f)
    requires GreatestWordIndex(isWord, EscapeRegularPattern(needle), l)
    ensures var e := EscapeRegularPattern(needle);
      && f <= l
      && EscapeWholeTextPattern(isWord, needle) == e[..f] + Boundary + e[f..l + 1] + Boundary + e[l + 1..]
  {
    var e := EscapeRegularPattern(needle);
    var parts := Split(e);
    SplitBoundaries(isWord, e);
    var first := FirstBoundaryPosition(isWord, parts);
    var last := LastBoundaryPosition(isWord, parts);
    assert first == f;
    assert last == l;
    AssembleBeforeFirst(e, f, l, 0);
  }

  /** Neither does the whole-text escape of a non-empty needle: it begins with `\b`
      or with the first character of the escaped needle. */
  lemma WholeTextHead(isWord: char -> bool, s: string)
    requires 0 < |s|
    ensures 0 < |EscapeWholeTextPattern(isWord, s)|
    ensures EscapeWholeTextPattern(isWord, s)[0] != '/'
  {
    EscapedHead(s);
    var e := EscapeRegularPattern(s);
    var parts := Split(e);
    SplitBoundaries(isWord, e);
    var f := FirstBoundaryPosition(isWord, parts);
    var l := LastBoundaryPosition(isWord, parts);
    if f != -1 {
      ShapeWithWord(isWord, s, f, l);
      var r := e[..f] + Boundary + e[f..l + 1] + Boundary + e[l + 1..];
      if f == 0 {
        assert r[0] == Boundary[0];
      } else {
        assert r[0] == e[0];
      }
    }
  }

  // What is known of the engine's word class.

  predicate IsAsciiWordChar(c: char)
  {
    'a' <= c <= 'z' || 'A' <= c <= 'Z' || '0' <= c <= '9' || c == '_'
  }

  /** The word class agrees with `\w` on ASCII: letters, digits and `_` are word
      characters; space, backslash, punctuation and controls are not. */
  predicate AsciiWordClass(isWord: char -> bool)
  {
    forall c: char :: (c as int) < 0x80 ==> (isWord(c) <==> IsAsciiWordChar(c))
  }
}

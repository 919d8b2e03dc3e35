/** `WholeTextFinder`: builds the search pattern and the searched text from a needle and
    a haystack, asks the regex engine for matches or for a replacement, and turns the
    engine's byte offsets into character positions. The engine, the entity decoder and
    the word class are parameters. */
module WholeTextFinder {
  import opened Wrappers
  import opened Php
  import opened Strings
  import RegexEscaper
  import Replacer
  import TagProtection
  import NbspLaws
  import TagSpans

  /** The four flags of `find` and `findAndReplace`. */
  datatype Options = Options(skipHtmlEntities: bool, exactMatch: bool, caseSensitive: bool, preserveNbsps: bool)

  /** The defaults of the PHP signatures. */
  const Defaults: Options := Options(true, false, false, false)

  /** One entry of `$matches[0]` under `PREG_OFFSET_CAPTURE`: the matched text and its
      offset, a byte offset as the engine reports it and a character index once
      corrected. */
  datatype Match = Match(text: string, position: int)

  /** What the finder takes from outside:
      `isWord` is the engine's `\w` in `u` mode (the whole-text escape asks it);
      `decode` is `html_entity_decode(…, ENT_QUOTES|ENT_XHTML, 'UTF-8')`;
      `matchAll(pattern, subject)` is `$matches[0]` after `preg_match_all`;
      `pregReplace(pattern, replacement, subject)` is `preg_replace`, `None` for null. */
  datatype Runtime = Runtime(
    isWord: char -> bool,
    decode: string -> string,
    matchAll: (string, string) -> seq<Match>,
    pregReplace: (string, string, string) -> Option<string>)

  // getSearchPattern.

  /** The needle as the pattern is built from it: non-breaking spaces are cut first
      (unless preserved), then tags are protected and entities decoded (when skipping).
      With nothing skipped the needle is used as given, or only cut; with tags skipped,
      an entity-free decoder and spaces preserved, unprotecting gives it back. */
  function PrepareNeedle(rt: Runtime, o: Options, needle: string): (r: string)
    ensures !o.skipHtmlEntities && o.preserveNbsps ==> r == needle
    ensures !o.skipHtmlEntities && !o.preserveNbsps ==> NbspFree(r)
    ensures o.skipHtmlEntities && o.preserveNbsps && (forall x :: rt.decode(x) == x) && SentinelFree(needle)
      ==> UnprotectHTMLTags(r) == needle
  {
    var n := if o.preserveNbsps then needle
             else (NbspLaws.CutNbspsRemovesAll(needle); CutNbsps(needle));
    if !o.skipHtmlEntities then n
    else if SentinelFree(needle) then TagProtection.ProtectRoundTrip(needle); rt.decode(ProtectHTMLTags(n))
    else rt.decode(ProtectHTMLTags(n))
  }

  /** The pattern modifiers: `i` unless the search is case sensitive, then `u` when
      entities are skipped; nothing else, and in that order. */
  function Flags(o: Options): (r: string)
    ensures ('i' in r <==> !o.caseSensitive) && ('u' in r <==> o.skipHtmlEntities)
    ensures forall k :: 0 <= k < |r| ==> r[k] == 'i' || r[k] == 'u'
    ensures |r| == 2 ==> r == "iu"
  {
    (if o.caseSensitive then "" else "i") + (if o.skipHtmlEntities then "u" else "")
  }

  /** `getSearchPattern`: the prepared needle, escaped (whole-text when `exactMatch`),
      between two `/` delimiters and followed by the modifiers. Unescaping the text
      between the delimiters of a plain pattern gives back the prepared needle, and the
      text after the opening delimiter starts with `/` only when the needle is empty. */
  function GetSearchPattern(rt: Runtime, o: Options, needle: string): (r: string)
    ensures var k := |Flags(o)|;
      && 2 + k <= |r| && r[0] == '/' && r[|r| - k - 1] == '/' && r[|r| - k..] == Flags(o)
      && (!o.exactMatch ==> RegexEscaper.Unescape(r[1..|r| - k - 1]) == PrepareNeedle(rt, o, needle))
      && (0 < |PrepareNeedle(rt, o, needle)| <==> r[1] != '/')
    ensures var k := |Flags(o)|;
      var e := RegexEscaper.EscapeRegularPattern(PrepareNeedle(rt, o, needle));
      (!o.exactMatch || forall j :: 0 <= j < |e| ==> !rt.isWord(e[j]))
      ==> r[1..|r| - k - 1] == RegexEscaper.EscapeEach(PrepareNeedle(rt, o, needle))
  {
    var n := PrepareNeedle(rt, o, needle);
    var body := if o.exactMatch then RegexEscaper.EscapeWholeTextPattern(rt.isWord, n)
                else RegexEscaper.EscapeRegularPattern(n);
    BodyFacts(rt.isWord, o, n);
    DelimitedParts(body, Flags(o));
    "/" + body + "/" + Flags(o)
  }

  /** Where the parts of `/body/flags` sit. */
  lemma DelimitedParts(body: string, flags: string)
    ensures var r := "/" + body + "/" + flags;
      && |r| == |body| + |flags| + 2 && r[0] == '/' && r[|r| - |flags| - 1] == '/'
      && r[|r| - |flags|..] == flags && r[1..|r| - |flags| - 1] == body
      && r[1] == (if 0 < |body| then body[0] else '/')
  {
    var r := "/" + body + "/" + flags;
    assert r[1..|r| - |flags| - 1] == body;
    assert r[|r| - |flags|..] == flags;
  }

  /** The escaped body is empty exactly for the empty needle, never starts with `/`, and
      unescapes to the needle. */
  lemma BodyFacts(isWord: char -> bool, o: Options, n: string)
    ensures var body := if o.exactMatch then RegexEscaper.EscapeWholeTextPattern(isWord, n)
                        else RegexEscaper.EscapeRegularPattern(n);
      && (|n| == 0 <==> |body| == 0)
      && (0 < |body| ==> body[0] != '/')
      && RegexEscaper.Unescape(RegexEscaper.EscapeRegularPattern(n)) == n
  {
    RegexEscaper.EscapeRoundTrip(n);
    if |n| == 0 {
      RegexEscaper.EscapeWholeTextShape(isWord, n, 0, 0);
      assert RegexEscaper.EscapeRegularPattern(n) == [];
    } else {
      RegexEscaper.EscapedHead(n);
      RegexEscaper.WholeTextHead(isWord, n);
    }
  }

  /** With `exactMatch`, the body is the escaped needle with `\b` before its first
      word character and after its last. */
  lemma WholeTextSearchPattern(rt: Runtime, o: Options, needle: string, f: int, l: int)
    requires o.exactMatch
    requires var e := RegexEscaper.EscapeRegularPattern(PrepareNeedle(rt, o, needle));
      RegexEscaper.LeastWordIndex(rt.isWord, e, f) && RegexEscaper.GreatestWordIndex(rt.isWord, e, l)
    ensures var e := RegexEscaper.EscapeRegularPattern(PrepareNeedle(rt, o, needle));
      GetSearchPattern(rt, o, needle)
      == "/" + (e[..f] + RegexEscaper.Boundary + e[f..l + 1] + RegexEscaper.Boundary + e[l + 1..]) + "/" + Flags(o)
  {
    var n := PrepareNeedle(rt, o, needle);
    RegexEscaper.EscapeWholeTextShape(rt.isWord, n, f, l);
  }

  /** The search pattern as the replacer hands it to the engine: the guard takes the
      place of the opening delimiter and the rest is kept, except for an empty needle,
      whose closing delimiter is trimmed too, leaving only the modifiers after the guard. */
  lemma SearchPatternReachesEngine(rt: Runtime, o: Options, needle: string)
    ensures var p := GetSearchPattern(rt, o, needle);
      0 < |PrepareNeedle(rt, o, needle)| ==> Replacer.GetModifiedRegexPattern(p) == Replacer.Guard + p[1..]
    ensures |PrepareNeedle(rt, o, needle)| == 0
      ==> Replacer.GetModifiedRegexPattern(GetSearchPattern(rt, o, needle)) == Replacer.Guard + Flags(o)
  {
    var n := PrepareNeedle(rt, o, needle);
    var body := if o.exactMatch then RegexEscaper.EscapeWholeTextPattern(rt.isWord, n)
                else RegexEscaper.EscapeRegularPattern(n);
    BodyFacts(rt.isWord, o, n);
    assert GetSearchPattern(rt, o, needle) == "/" + body + "/" + Flags(o);
    DelimitedReachesEngine(body, Flags(o));
  }

  /** `/body/flags`, with a body not starting with `/` and flags without `/`, as the
      replacer hands it to the engine. */
  lemma DelimitedReachesEngine(body: string, flags: string)
    requires (0 < |body| ==> body[0] != '/') && forall k :: 0 <= k < |flags| ==> flags[k] != '/'
    ensures var p := "/" + body + "/" + flags;
      && (0 < |body| ==> Replacer.GetModifiedRegexPattern(p) == Replacer.Guard + p[1..])
      && (|body| == 0 ==> Replacer.GetModifiedRegexPattern(p) == Replacer.Guard + flags)
  {
    if 0 < |body| {
      DelimitedTail(body, flags);
      Replacer.DelimitedPattern(body, flags);
    } else {
      assert "/" + body + "/" + flags == "/" + "/" + flags;
      Replacer.EmptyBodyPattern(flags);
    }
  }

  lemma DelimitedTail(body: string, flags: string)
    ensures ("/" + body + "/" + flags)[1..] == body + "/" + flags
  {
  }

  // getPatternAndHaystack.

  /** The haystack as it is searched: tags are protected and entities decoded first
      (when skipping), then non-breaking spaces are cut (unless preserved). */
  function PrepareHaystack(rt: Runtime, o: Options, haystack: string): (r: string)
    ensures !o.preserveNbsps ==> NbspFree(r)
    ensures !o.skipHtmlEntities && o.preserveNbsps ==> r == haystack
    ensures o.skipHtmlEntities && o.preserveNbsps && (forall x :: rt.decode(x) == x) && SentinelFree(haystack)
      ==> UnprotectHTMLTags(r) == haystack
  {
    var h := if !o.skipHtmlEntities then haystack
             else if SentinelFree(haystack) then (TagProtection.ProtectRoundTrip(haystack); rt.decode(ProtectHTMLTags(haystack)))
             else rt.decode(ProtectHTMLTags(haystack));
    if o.preserveNbsps then h else NbspLaws.CutNbspsRemovesAll(h); CutNbsps(h)
  }

  datatype PatternAndHaystack = PatternAndHaystack(pattern: string, haystack: string)

  /** `getPatternAndHaystack`: the search pattern, and a haystack that holds no
      non-breaking space unless they are preserved; with nothing to skip and nothing to
      cut the haystack is searched as given, and with tags skipped, an entity-free
      decoder and spaces preserved, unprotecting gives back the original haystack. */
  function GetPatternAndHaystack(rt: Runtime, o: Options, haystack: string, needle: string): (r: PatternAndHaystack)
    ensures r.pattern == GetSearchPattern(rt, o, needle)
    ensures !o.preserveNbsps ==> NbspFree(r.haystack)
    ensures !o.skipHtmlEntities && o.preserveNbsps ==> r.haystack == haystack
    ensures o.skipHtmlEntities && o.preserveNbsps && (forall x :: rt.decode(x) == x) && SentinelFree(haystack)
      ==> UnprotectHTMLTags(r.haystack) == haystack
  {
    PatternAndHaystack(GetSearchPattern(rt, o, needle), PrepareHaystack(rt, o, haystack))
  }

  /** The two preparations cut non-breaking spaces at different points: the needle
      before decoding, the haystack after. A needle holding the numeric entity of
      U+00A0 thus reaches the pattern as U+00A0, which no prepared haystack holds. */
  lemma NbspOrderExample(rt: Runtime, o: Options, needle: string, haystack: string)
    requires o.skipHtmlEntities && !o.preserveNbsps
    requires needle == "&#160;" && rt.decode(needle) == [Nbsp]
    ensures PrepareNeedle(rt, o, needle) == [Nbsp]
    ensures NbspFree(PrepareHaystack(rt, o, haystack))
  {
    NeedleUntouched(needle);
    NbspLaws.CutNbspsRemovesAll(rt.decode(ProtectHTMLTags(haystack)));
  }

  lemma NeedleUntouched(n: string)
    requires n == "&#160;"
    ensures CutNbsps(n) == n && ProtectHTMLTags(n) == n
  {
    assert NbspFree(n) by {
      forall i | 0 <= i < |n| ensures n[i] != Nbsp && !OccursAt(n, "&nbsp;", i) {
        assert n[1] != 'n';
      }
    }
    NbspLaws.CutNbspsKeepsNbspFree(n);
    forall i | 0 <= i < |n| ensures n[i] != '<' && !OccursAt(n, "&lt;", i) {
      assert n[1] != 'l';
    }
    TagSpans.NoTagsBetween(n, 0, |n|);
  }

  // mbFindTheCorrectPosition.

  /** `mb_substr(haystack, k, mb_strlen(word)) === word`. */
  predicate MatchesAt(haystack: string, word: string, k: nat)
  {
    MbSubstr(haystack, k, |word|) == word
  }

  /** The least position the recursion of `mbFindTheCorrectPosition` reaches from
      `position`: below `-|haystack|` `mb_substr` starts at 0 whatever the position,
      so the same test would repeat for ever. */
  function Floor(haystack: string, position: int): int
  {
    if position < -|haystack| then position else -|haystack|
  }

  /** `mbFindTheCorrectPosition`: walks down from `position` to the nearest position
      where `mb_substr` yields the word, a negative position being read from the end as
      `mb_substr` does. `None` stands for the unbounded recursion that follows when no
      position down to `-|haystack|` matches. Any matching index at or below a
      non-negative start is at or below the result. */
  function MbFindTheCorrectPosition(haystack: string, word: string, position: int): (r: Option<int>)
    ensures r.Some? ==> Floor(haystack, position) <= r.value <= position
    ensures r.Some? ==> MatchesAt(haystack, word, MbStart(haystack, r.value))
    ensures r.Some? ==> forall q :: r.value < q <= position ==> !MatchesAt(haystack, word, MbStart(haystack, q))
    ensures r.None? <==> forall q :: Floor(haystack, position) <= q <= position
                                 ==> !MatchesAt(haystack, word, MbStart(haystack, q))
    ensures forall k: nat :: k <= position && MatchesAt(haystack, word, k) ==> r.Some? && k <= r.value
    decreases position + |haystack|
  {
    if MatchesAt(haystack, word, MbStart(haystack, position)) then Some(position)
    else if position <= -|haystack| then None
    else MbFindTheCorrectPosition(haystack, word, position - 1)
  }

  /** The same walk as a loop. */
  method CorrectPosition(haystack: string, word: string, position: int) returns (r: Option<int>)
    ensures r.Some? ==> r.value <= position && MatchesAt(haystack, word, MbStart(haystack, r.value))
    ensures r == MbFindTheCorrectPosition(haystack, word, position)
  {
    var p := position;
    while true
      invariant p <= position
      invariant MbFindTheCorrectPosition(haystack, word, p) == MbFindTheCorrectPosition(haystack, word, position)
      decreases p + |haystack|
    {
      if MatchesAt(haystack, word, MbStart(haystack, p)) {
        return Some(p);
      }
      if p <= -|haystack| {
        return None;
      }
      p := p - 1;
    }
  }

  /** For an engine offset that is the byte offset of a true occurrence, the walk stops
      at a character index no smaller than the occurrence's, and at the occurrence
      itself when everything before it is ASCII. */
  lemma ByteOffsetCorrected(haystack: string, word: string, k: nat)
    requires k <= |haystack| && MatchesAt(haystack, word, k)
    ensures var r := MbFindTheCorrectPosition(haystack, word, StrLen(haystack[..k]));
      r.Some? && k <= r.value <= StrLen(haystack[..k])
    ensures !IsMultibyte(haystack[..k]) ==> MbFindTheCorrectPosition(haystack, word, StrLen(haystack[..k])) == Some(k)
  {
    StrLenExceedsLength(haystack[..k]);
  }

  // mbCorrectMatchPositions.

  /** The `foreach` of `mbCorrectMatchPositions`: every match keeps its text and gets
      the corrected position; it stops (`None`) where one correction does not. */
  function CorrectAll(haystack: string, matches: seq<Match>): (r: Option<seq<Match>>)
    ensures r.None? <==> exists i :: 0 <= i < |matches|
                          && MbFindTheCorrectPosition(haystack, matches[i].text, matches[i].position).None?
    ensures r.Some? ==> |r.value| == |matches|
    ensures r.Some? ==> forall i :: 0 <= i < |matches| ==>
      r.value[i] == Match(matches[i].text, MbFindTheCorrectPosition(haystack, matches[i].text, matches[i].position).value)
  {
    if |matches| == 0 then Some([])
    else
      match MbFindTheCorrectPosition(haystack, matches[0].text, matches[0].position)
      case None => None
      case Some(p) =>
        match CorrectAll(haystack, matches[1..])
        case None =>
          assert forall i :: 1 <= i < |matches| ==> matches[i] == matches[1..][i - 1];
          None
        case Some(rest) =>
          assert forall i :: 1 <= i < |matches| ==> matches[i] == matches[1..][i - 1];
          Some([Match(matches[0].text, p)] + rest)
  }

  /** `mbCorrectMatchPositions`: nothing changes for a haystack without multibyte
      characters; otherwise the matches keep their number, order and texts, and each
      position moves down to where its text is found in the haystack. */
  function MbCorrectMatchPositions(haystack: string, matches: seq<Match>): (r: Option<seq<Match>>)
    ensures !IsMultibyte(haystack) ==> r == Some(matches)
    ensures IsMultibyte(haystack) ==>
      (r.None? <==> exists i :: 0 <= i < |matches|
                      && MbFindTheCorrectPosition(haystack, matches[i].text, matches[i].position).None?)
    ensures r.Some? ==> |r.value| == |matches|
    ensures r.Some? ==> forall i :: 0 <= i < |matches| ==>
      r.value[i].text == matches[i].text && r.value[i].position <= matches[i].position
    ensures IsMultibyte(haystack) && r.Some? ==> forall i :: 0 <= i < |matches| ==>
      MatchesAt(haystack, matches[i].text, MbStart(haystack, r.value[i].position))
    ensures IsMultibyte(haystack) && r.Some? ==> forall i :: 0 <= i < |matches| ==>
      r.value[i].position == MbFindTheCorrectPosition(haystack, matches[i].text, matches[i].position).value
  {
    if !IsMultibyte(haystack) then Some(matches) else CorrectAll(haystack, matches)
  }

  // find and findAndReplace.

  /** The text the positions of `find` refer to: the searched haystack, unprotected when
      tags were protected. */
  function SearchedText(rt: Runtime, o: Options, haystack: string): string
  {
    var h := PrepareHaystack(rt, o, haystack);
    if o.skipHtmlEntities then UnprotectHTMLTags(h) else h
  }

  /** `find`: the engine's matches for the search pattern in the prepared haystack, with
      their positions corrected against the searched text. `None` where the correction
      does not terminate. */
  function Find(rt: Runtime, o: Options, haystack: string, needle: string): (r: Option<seq<Match>>)
    ensures var reported := rt.matchAll(GetSearchPattern(rt, o, needle), PrepareHaystack(rt, o, haystack));
      r.Some? ==> |r.value| == |reported|
    ensures var reported := rt.matchAll(GetSearchPattern(rt, o, needle), PrepareHaystack(rt, o, haystack));
      r.Some? ==> forall i :: 0 <= i < |reported| ==>
        r.value[i].text == reported[i].text && r.value[i].position <= reported[i].position
    ensures var reported := rt.matchAll(GetSearchPattern(rt, o, needle), PrepareHaystack(rt, o, haystack));
      !IsMultibyte(SearchedText(rt, o, haystack)) ==> r == Some(reported)
    ensures var reported := rt.matchAll(GetSearchPattern(rt, o, needle), PrepareHaystack(rt, o, haystack));
      var text := SearchedText(rt, o, haystack);
      IsMultibyte(text) && r.Some? ==> forall i :: 0 <= i < |reported| ==>
        MatchesAt(text, reported[i].text, MbStart(text, r.value[i].position))
    ensures var reported := rt.matchAll(GetSearchPattern(rt, o, needle), PrepareHaystack(rt, o, haystack));
      var text := SearchedText(rt, o, haystack);
      var fails := exists i :: 0 <= i < |reported|
                       && MbFindTheCorrectPosition(text, reported[i].text, reported[i].position).None?;
      r.None? <==> IsMultibyte(text) && fails
    ensures var reported := rt.matchAll(GetSearchPattern(rt, o, needle), PrepareHaystack(rt, o, haystack));
      var text := SearchedText(rt, o, haystack);
      IsMultibyte(text) && r.Some? ==> forall i :: 0 <= i < |reported| ==>
        r.value[i].position == MbFindTheCorrectPosition(text, reported[i].text, reported[i].position).value
  {
    var ph := GetPatternAndHaystack(rt, o, haystack, needle);
    var matches := rt.matchAll(ph.pattern, ph.haystack);
    var text := if o.skipHtmlEntities then UnprotectHTMLTags(ph.haystack) else ph.haystack;
    MbCorrectMatchPositions(text, matches)
  }

  /** The result of `findAndReplace`. */
  datatype Outcome = Outcome(replacement: string, occurrences: seq<Match>)

  /** `findAndReplace`: the replacement through the guarded engine, unprotected when tags
      were protected, and the occurrences `find` reports for the same haystack, needle
      and flags, whatever the replacement string. When the engine fails, the prepared
      haystack comes back. */
  function FindAndReplace(rt: Runtime, o: Options, haystack: string, needle: string, replacement: string): (r: Option<Outcome>)
    ensures r.None? <==> Find(rt, o, haystack, needle).None?
    ensures r.Some? ==> r.value.occurrences == Find(rt, o, haystack, needle).value
    ensures var p := Replacer.GetModifiedRegexPattern(GetSearchPattern(rt, o, needle));
      r.Some? && rt.pregReplace(p, replacement, PrepareHaystack(rt, o, haystack)).None?
      ==> r.value.replacement == SearchedText(rt, o, haystack)
    ensures var p := Replacer.GetModifiedRegexPattern(GetSearchPattern(rt, o, needle));
      var replaced := rt.pregReplace(p, replacement, PrepareHaystack(rt, o, haystack));
      r.Some? && replaced.Some? ==>
        r.value.replacement == (if o.skipHtmlEntities then UnprotectHTMLTags(replaced.value) else replaced.value)
  {
    var ph := GetPatternAndHaystack(rt, o, haystack, needle);
    var replaced := Replacer.Replace(rt.pregReplace, ph.pattern, replacement, ph.haystack);
    var result := if o.skipHtmlEntities then UnprotectHTMLTags(replaced) else replaced;
    match Find(rt, o, haystack, needle)
    case None => None
    case Some(occurrences) => Some(Outcome(result, occurrences))
  }

  /** When tags are skipped, spaces preserved, entities left alone by the decoder and the
      engine finds nothing to replace, the replacement is the original haystack: the
      protection of its tags is undone. */
  lemma NothingReplacedKeepsHaystack(rt: Runtime, o: Options, haystack: string, needle: string, replacement: string)
    requires o.skipHtmlEntities && o.preserveNbsps
    requires forall x :: rt.decode(x) == x
    requires SentinelFree(haystack)
    requires var p := Replacer.GetModifiedRegexPattern(GetSearchPattern(rt, o, needle));
      var h := PrepareHaystack(rt, o, haystack);
      rt.pregReplace(p, replacement, h).None? || rt.pregReplace(p, replacement, h) == Some(h)
    ensures FindAndReplace(rt, o, haystack, needle, replacement).Some?
      ==> FindAndReplace(rt, o, haystack, needle, replacement).value.replacement == haystack
  {
    var h := PrepareHaystack(rt, o, haystack);
    assert h == ProtectHTMLTags(haystack);
    TagProtection.ProtectRoundTrip(haystack);
  }
}

/** `Replacer`: replacement through the regex engine with markup kept out of reach.
    The engine is a parameter: given a pattern, a replacement and a subject it yields
    the replaced text, or `None` where `preg_replace` returns null. */
module Replacer {
  import opened Wrappers
  import opened Php

  /** The alternative put in front of every user pattern: a run of four `|`, a raw tag,
      an escaped tag or a `%{…}` placeholder is matched and then skipped, so the user
      pattern never matches inside one of them. It carries the opening delimiter `/`. */
  const Guard: string := "/(\\|\\|\\|\\||<.*?>|&lt;.*?&gt;|%{.*?})(*SKIP)(*FAIL)|"

  /** `getModifiedRegexPattern`: the guard followed by the pattern without the leading
      run of its first character (`ltrim` with a one-character list drops every copy,
      not only the delimiter). The empty pattern reads `$pattern[0]` as the empty
      string, which trims nothing. */
  function GetModifiedRegexPattern(pattern: string): (r: string)
    ensures |Guard| <= |r| && r[..|Guard|] == Guard
    ensures var t := r[|Guard|..];
      && |t| <= |pattern| && t == pattern[|pattern| - |t|..]
      && (0 < |pattern| ==> |t| < |pattern|)
      && (forall i :: 0 <= i < |pattern| - |t| ==> pattern[i] == pattern[0])
      && (|t| == 0 || t[0] != pattern[0])
  {
    if |pattern| == 0 then Guard else Guard + LTrimChar(pattern, pattern[0])
  }

  /** A pattern `/body/flags` whose body does not start with `/` reaches the engine as
      the guard followed by `body/flags`: the guard's delimiter replaces the user's. */
  lemma DelimitedPattern(body: string, flags: string)
    requires 0 < |body| && body[0] != '/'
    ensures GetModifiedRegexPattern("/" + body + "/" + flags) == Guard + body + "/" + flags
  {
    var p := "/" + body + "/" + flags;
    assert p[0] == '/' && p[1..] == body + "/" + flags;
    assert LTrimChar(p[1..], '/') == p[1..];
  }

  /** A doubled delimiter is trimmed with the first: `//iu` becomes `iu`. */
  lemma DoubledDelimiterExample(p: string)
    requires p == "//iu"
    ensures GetModifiedRegexPattern(p) == Guard + "iu"
  {
    assert p == "/" + "/" + "iu";
    EmptyBodyPattern("iu");
  }

  /** An empty body leaves two delimiters in a row; both go with the trim and only the
      modifiers follow the guard, so the engine sees a pattern without its closing
      delimiter. */
  lemma EmptyBodyPattern(flags: string)
    requires forall k :: 0 <= k < |flags| ==> flags[k] != '/'
    ensures GetModifiedRegexPattern("/" + "/" + flags) == Guard + flags
  {
    var p := "/" + "/" + flags;
    assert p[1..] == "/" + flags && p[2..] == flags;
    assert LTrimChar(p, '/') == LTrimChar(p[1..], '/') == LTrimChar(p[2..], '/');
    assert |flags| == 0 || flags[0] != '/';
  }

  /** `replace`: what the engine yields for the guarded pattern, and the haystack
      unchanged when it yields nothing. */
  function Replace(pregReplace: (string, string, string) -> Option<string>,
                   pattern: string, replacement: string, haystack: string): (r: string)
    ensures pregReplace(GetModifiedRegexPattern(pattern), replacement, haystack).None? ==> r == haystack
    ensures pregReplace(GetModifiedRegexPattern(pattern), replacement, haystack).Some?
      ==> r == pregReplace(GetModifiedRegexPattern(pattern), replacement, haystack).value
  {
    pregReplace(GetModifiedRegexPattern(pattern), replacement, haystack).GetOr(haystack)
  }
}

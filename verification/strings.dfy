/** The string helpers of the finder (`Helper/Strings.php`): non-breaking-space
    cleanup, multibyte detection, the empty-safe substring test, character splitting,
    and the reversible protection of HTML tags by four sentinel runs. */
module Strings {
  import opened Php
  import TagSpans

  /** U+00A0 NO-BREAK SPACE. */
  const Nbsp: char := '\U{00A0}'

  /** The search/replace lists of `cutNbsps`: the entity first, then the character. */
  const NbspPairs: seq<(string, string)> := [("&nbsp;", " "), ([Nbsp], " ")]

  /** Replaces `&nbsp;` and U+00A0 by an ASCII space: no U+00A0 is left, since the
      second pass removes every one the first pass leaves. */
  function CutNbsps(s: string): (r: string)
    ensures Nbsp !in r
  {
    StrReplaceRemovesChar(s, NbspPairs, 1, Nbsp);
    StrReplace(s, NbspPairs)
  }

  /** No U+00A0 character and no `&nbsp;` anywhere in `s`. */
  predicate NbspFree(s: string)
  {
    forall i :: 0 <= i < |s| ==> s[i] != Nbsp && !OccursAt(s, "&nbsp;", i)
  }

  /** The UTF-8 encoding of `s` is longer than its code-point count. */
  function IsMultibyte(s: string): (r: bool)
    ensures r <==> exists i :: 0 <= i < |s| && (s[i] as int) >= 0x80
  {
    StrLenExceedsLength(s);
    StrLen(s) - |s| > 0
  }

  lemma {:induction false} StrLenExceedsLength(s: string)
    ensures StrLen(s) >= |s|
    ensures StrLen(s) > |s| <==> exists i :: 0 <= i < |s| && (s[i] as int) >= 0x80
    decreases |s|
  {
    if |s| > 0 {
      StrLenExceedsLength(s[1..]);
      assert forall i :: 1 <= i < |s| ==> s[i] == s[1..][i - 1];
      if (s[0] as int) < 0x80 {
        assert (exists i :: 0 <= i < |s| && (s[i] as int) >= 0x80)
           <==> (exists i :: 0 <= i < |s[1..]| && (s[1..][i] as int) >= 0x80);
      }
    }
  }

  /** `contains(needle, haystack)`: a substring test that is false whenever PHP's
      `empty(haystack)` holds, which includes the haystack "0". */
  function Contains(needle: string, haystack: string): (r: bool)
    ensures r <==> !IsEmpty(haystack) && exists k :: OccursAt(haystack, needle, k)
  {
    if IsEmpty(haystack) then false else StrContains(haystack, needle)
  }

  /** `mb_str_split`: one one-character string per code point. */
  function Split(s: string): (r: seq<string>)
    ensures |r| == |s|
    ensures forall i :: 0 <= i < |s| ==> r[i] == [s[i]]
  {
    seq(|s|, i requires 0 <= i < |s| => [s[i]])
  }

  /** Concatenation of a list of strings. */
  function Join(parts: seq<string>): string
  {
    if |parts| == 0 then [] else parts[0] + Join(parts[1..])
  }

  /** Splitting loses nothing: joining the pieces gives the string back. */
  lemma {:induction false} SplitJoin(s: string)
    ensures Join(Split(s)) == s
    decreases |s|
  {
    if |s| > 0 {
      assert Split(s)[1..] == Split(s[1..]);
      SplitJoin(s[1..]);
      assert s == [s[0]] + s[1..];
    }
  }

  // Tag protection.

  /** The four markup forms that protection hides. */
  datatype Markup = RawOpen | RawClose | EscapedOpen | EscapedClose

  /** The markup text itself. */
  function Literal(m: Markup): string
  {
    match m
    case RawOpen => "<"
    case RawClose => ">"
    case EscapedOpen => "&lt;"
    case EscapedClose => "&gt;"
  }

  /** `charMap`: the sentinel run standing in for each markup form. */
  function CharMap(m: Markup): string
  {
    match m
    case RawOpen => "\U{0283}\U{0283}\U{0283}\U{0283}"
    case RawClose => "\U{00B6}\U{00B6}\U{00B6}\U{00B6}"
    case EscapedOpen => "\U{0251}\U{0251}\U{0251}\U{0251}"
    case EscapedClose => "\U{0292}\U{0292}\U{0292}\U{0292}"
  }

  /** The characters the sentinel runs are made of. */
  predicate IsSentinelChar(c: char)
  {
    c == '\U{0283}' || c == '\U{00B6}' || c == '\U{0251}' || c == '\U{0292}'
  }

  predicate SentinelFree(s: string)
  {
    forall i :: 0 <= i < |s| ==> !IsSentinelChar(s[i])
  }

  /** Search/replace lists of the protection of one tag, in the source's order. */
  const ProtectPairs: seq<(string, string)> := [
    (Literal(RawOpen), CharMap(RawOpen)),
    (Literal(RawClose), CharMap(RawClose)),
    (Literal(EscapedOpen), CharMap(EscapedOpen)),
    (Literal(EscapedClose), CharMap(EscapedClose))]

  /** Search/replace lists of `unprotectHTMLTags`, in the source's order. */
  const UnprotectPairs: seq<(string, string)> := [
    (CharMap(RawOpen), Literal(RawOpen)),
    (CharMap(RawClose), Literal(RawClose)),
    (CharMap(EscapedOpen), Literal(EscapedOpen)),
    (CharMap(EscapedClose), Literal(EscapedClose))]

  /** What the tag-name heuristic strips from an opening tag's first token. */
  const OpenNameStrip: seq<(string, string)> :=
    [("<", ""), (">", ""), ("&lt;", ""), ("&gt;", ""), ("/", "")]

  /** What it strips from a slash tag's first token: the slash is kept. */
  const CloseNameStrip: seq<(string, string)> :=
    [("<", ""), (">", ""), ("&lt;", ""), ("&gt;", "")]

  /** The bare name of a tag: first space-separated token without brackets,
      escaped brackets or slashes. It holds no space, no bracket and no slash. */
  function TagName(element: string): (r: string)
    ensures ' ' !in r && '<' !in r && '>' !in r && '/' !in r
  {
    var t := FirstToken(element);
    StrReplaceKeepsAbsent(t, OpenNameStrip, ' ');
    StrReplaceRemovesChar(t, OpenNameStrip, 0, '<');
    StrReplaceRemovesChar(t, OpenNameStrip, 1, '>');
    StrReplaceRemovesChar(t, OpenNameStrip, 4, '/');
    StrReplace(t, OpenNameStrip)
  }

  /** The name of a slash tag: first token without brackets, keeping slashes. It holds
      no space and no bracket, and a slash only when the first token has one. */
  function ClosingTagName(element: string): (r: string)
    ensures ' ' !in r && '<' !in r && '>' !in r
    ensures '/' in r ==> '/' in FirstToken(element)
  {
    var t := FirstToken(element);
    StrReplaceKeepsAbsent(t, CloseNameStrip, ' ');
    StrReplaceRemovesChar(t, CloseNameStrip, 0, '<');
    StrReplaceRemovesChar(t, CloseNameStrip, 1, '>');
    if '/' !in t then StrReplaceKeepsAbsent(t, CloseNameStrip, '/'); StrReplace(t, CloseNameStrip)
    else StrReplace(t, CloseNameStrip)
  }

  /** Whether the source rewrites the `i`-th matched tag. A tag without `/` is taken
      for an opening tag and rewritten only when some later match has the same bare
      name. A tag with `/` is skipped when its name is PHP-empty and otherwise
      rewritten only when the name starts or ends with `/` (PHP's `firstChar` and
      `lastChar` read one byte, which is `/` exactly when the code point is). */
  predicate Qualifies(elements: seq<string>, i: nat): (r: bool)
    requires i < |elements|
    ensures r && '/' !in elements[i] ==> i + 1 < |elements|
    ensures r && '/' in elements[i] ==> '/' in FirstToken(elements[i])
  {
    var element := elements[i];
    SlashContained(element);
    if !Contains("/", element) then
      exists j :: i < j < |elements| && TagName(elements[j]) == TagName(element)
    else
      var name := ClosingTagName(element);
      !IsEmpty(name) && (name[0] == '/' || name[|name| - 1] == '/')
  }

  /** `contains("/", e)` holds for every `e` with a `/` in it. */
  lemma SlashContained(e: string)
    ensures '/' in e ==> Contains("/", e)
  {
    if '/' in e {
      var k :| 0 <= k < |e| && e[k] == '/';
      OccursAtChar(e, '/', k);
    }
  }

  /** The sentinel form of one matched tag. */
  function ProtectTag(element: string): string
  {
    StrReplace(element, ProtectPairs)
  }

  /** The loop of `protectHTMLTags` from the `i`-th match on: each qualifying match is
      replaced, at every occurrence in the current string, by its sentinel form. */
  function ProtectFrom(elements: seq<string>, i: nat, current: string): (r: string)
    ensures (forall j :: i <= j < |elements| ==> !Qualifies(elements, j)) ==> r == current
    decreases |elements| - i
  {
    if i >= |elements| then current
    else
      var next := if Qualifies(elements, i)
        then ReplaceAll(current, elements[i], ProtectTag(elements[i]))
        else current;
      ProtectFrom(elements, i + 1, next)
  }

  /** `protectHTMLTags`. */
  function ProtectHTMLTags(s: string): (r: string)
    ensures |TagSpans.Spans(s)| == 0 ==> r == s
  {
    ProtectFrom(TagSpans.Elements(s), 0, s)
  }

  /** `unprotectHTMLTags`: every sentinel run back to its markup. A string without
      sentinel characters is left as it is. */
  function UnprotectHTMLTags(s: string): (r: string)
    ensures SentinelFree(s) ==> r == s
  {
    UnprotectUntouched(s);
    StrReplace(s, UnprotectPairs)
  }

  /** Each of the four passes of `unprotectHTMLTags` searches for a run that begins
      with a sentinel character, so a sentinel-free string goes through all of them. */
  lemma UnprotectUntouched(s: string)
    ensures SentinelFree(s) ==> StrReplace(s, UnprotectPairs) == s
  {
    if SentinelFree(s) {
      forall k | 0 <= k < 4 ensures UnprotectPairs[k].0[0] !in s {
        assert IsSentinelChar(UnprotectPairs[k].0[0]);
      }
      ReplaceAllUntouched(s, UnprotectPairs[0].0, UnprotectPairs[0].1);
      ReplaceAllUntouched(s, UnprotectPairs[1].0, UnprotectPairs[1].1);
      ReplaceAllUntouched(s, UnprotectPairs[2].0, UnprotectPairs[2].1);
      ReplaceAllUntouched(s, UnprotectPairs[3].0, UnprotectPairs[3].1);
      assert UnprotectPairs[1..][1..][1..][1..] == [];
    }
  }
}

/** What `cutNbsps` does, character by character, and why applying it twice changes
    nothing more. */
module NbspLaws {
  import opened Wrappers
  import opened Php
  import opened Passes
  import opened Strings

  lemma NbspPairsIndependent()
    ensures Independent(NbspPairs)
  {
    assert "&nbsp;"[..1] == "&";
    assert Incompatible(NbspPairs[0].0, NbspPairs[1].0);
    assert Incompatible(NbspPairs[1].0, NbspPairs[0].0);
  }

  /** The two passes of `cutNbsps` are one scan that turns each `&nbsp;` and each
      U+00A0 into one space and copies every other character in order. */
  lemma CutNbspsSteps(s: string)
    ensures |s| == 0 ==> CutNbsps(s) == []
    ensures HasPrefix(s, "&nbsp;") ==> CutNbsps(s) == " " + CutNbsps(s[6..])
    ensures 0 < |s| && s[0] == Nbsp ==> CutNbsps(s) == " " + CutNbsps(s[1..])
    ensures 0 < |s| && s[0] != Nbsp && !HasPrefix(s, "&nbsp;") ==>
              CutNbsps(s) == [s[0]] + CutNbsps(s[1..])
  {
    NbspPairsIndependent();
    StrReplaceIsSimultaneous(s, NbspPairs);
    if |s| > 0 {
      StrReplaceIsSimultaneous(s[1..], NbspPairs);
      if HasPrefix(s, "&nbsp;") {
        StrReplaceIsSimultaneous(s[6..], NbspPairs);
        assert FirstMatchFrom(s, NbspPairs, 0) == Some(0);
      } else if s[0] == Nbsp {
        assert FirstMatchFrom(s, NbspPairs, 0) == Some(1) by {
          assert s[..1] == [Nbsp];
        }
      } else {
        assert !MatchesAtStart(s, [Nbsp]);
        assert FirstMatchFrom(s, NbspPairs, 0) == None;
      }
    }
  }

  /** A character in front of an nbsp-free string keeps it nbsp-free unless it
      completes an `&nbsp;`. */
  lemma ConsNbspFree(c: char, r: string)
    requires NbspFree(r) && c != Nbsp && (c == '&' ==> !HasPrefix(r, "nbsp;"))
    ensures NbspFree([c] + r)
  {
    var t := [c] + r;
    forall i | 0 <= i < |t| ensures t[i] != Nbsp && !OccursAt(t, "&nbsp;", i) {
      if i == 0 {
        assert 6 <= |t| ==> t[1..6] == r[..5];
      } else {
        assert t[i] == r[i - 1];
        if i + 6 <= |t| {
          assert t[i..i + 6] == r[i - 1..i + 5];
        }
      }
    }
  }

  /** The output of `cutNbsps` holds no `&nbsp;` and no U+00A0. */
  lemma {:induction false} CutNbspsRemovesAll(s: string)
    ensures NbspFree(CutNbsps(s))
    decreases |s|
  {
    CutNbspsSteps(s);
    if |s| == 0 {
    } else if HasPrefix(s, "&nbsp;") {
      CutNbspsRemovesAll(s[6..]);
      ConsNbspFree(' ', CutNbsps(s[6..]));
    } else if s[0] == Nbsp {
      CutNbspsRemovesAll(s[1..]);
      ConsNbspFree(' ', CutNbsps(s[1..]));
    } else {
      CutNbspsRemovesAll(s[1..]);
      if s[0] == '&' {
        assert !HasPrefix(CutNbsps(s[1..]), "nbsp;") by {
          NbspPairsIndependent();
          StrReplaceIsSimultaneous(s[1..], NbspPairs);
          SimultaneousReflectsPrefix(s[1..], "nbsp;", NbspPairs);
          assert 6 <= |s| ==> s[..6] == [s[0]] + s[1..][..5];
        }
      }
      ConsNbspFree(s[0], CutNbsps(s[1..]));
    }
  }

  /** A string with no `&nbsp;` and no U+00A0 passes through `cutNbsps` unchanged. */
  lemma {:induction false} CutNbspsKeepsNbspFree(s: string)
    requires NbspFree(s)
    ensures CutNbsps(s) == s
    decreases |s|
  {
    CutNbspsSteps(s);
    if |s| > 0 {
      assert s[0] != Nbsp && !OccursAt(s, "&nbsp;", 0);
      assert NbspFree(s[1..]) by {
        forall i | 0 <= i < |s[1..]| ensures s[1..][i] != Nbsp && !OccursAt(s[1..], "&nbsp;", i) {
          assert s[1..][i] == s[i + 1];
          assert !OccursAt(s, "&nbsp;", i + 1);
          if i + 6 <= |s[1..]| {
            assert s[1..][i..i + 6] == s[i + 1..i + 7];
          }
        }
      }
      CutNbspsKeepsNbspFree(s[1..]);
      assert s == [s[0]] + s[1..];
    }
  }

  /** `cutNbsps` is idempotent. */
  lemma CutNbspsIdempotent(s: string)
    ensures CutNbsps(CutNbsps(s)) == CutNbsps(s)
  {
    CutNbspsRemovesAll(s);
    CutNbspsKeepsNbspFree(CutNbsps(s));
  }
}

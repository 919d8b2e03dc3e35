/** Why `unprotectHTMLTags` undoes `protectHTMLTags` on every string that does not
    already contain a sentinel character.

    The argument: call a string *clean* when, read left to right, it splits into
    whole sentinel runs and characters that are not sentinel characters. Unprotecting
    a clean string decodes it piece by piece, so it distributes over concatenation of
    clean strings. The sentinel form of a tag is clean and decodes to the tag; each
    step of the protection loop replaces sentinel-free text by its clean sentinel form,
    which keeps the string clean and leaves its decoding unchanged. */
module TagProtection {
  import opened Wrappers
  import opened Php
  import opened Passes
  import opened Strings
  import TagSpans

  lemma SentinelRunFacts()
    ensures forall k :: 0 <= k < |UnprotectPairs| ==>
      |UnprotectPairs[k].0| == 4 && SentinelRun(UnprotectPairs[k].0)
  {
  }

  /** Every character of `x` is a sentinel character. */
  predicate SentinelRun(x: string)
  {
    forall i :: 0 <= i < |x| ==> IsSentinelChar(x[i])
  }

  lemma UnprotectPairsIndependent()
    ensures Independent(UnprotectPairs)
  {
    var u := UnprotectPairs;
    assert u == [("\U{0283}\U{0283}\U{0283}\U{0283}", "<"), ("\U{00B6}\U{00B6}\U{00B6}\U{00B6}", ">"),
                 ("\U{0251}\U{0251}\U{0251}\U{0251}", "&lt;"), ("\U{0292}\U{0292}\U{0292}\U{0292}", "&gt;")];
    forall i, j | 0 <= i < j < 4 ensures IndependentPair(u, i, j) {
      IncompatibleAt(u[i].0, u[j].0, 0);
    }
    IndependentFour(u);
  }

  lemma ProtectPairsIndependent()
    ensures Independent(ProtectPairs)
  {
    var p := ProtectPairs;
    assert p == [("<", "\U{0283}\U{0283}\U{0283}\U{0283}"), (">", "\U{00B6}\U{00B6}\U{00B6}\U{00B6}"),
                 ("&lt;", "\U{0251}\U{0251}\U{0251}\U{0251}"), ("&gt;", "\U{0292}\U{0292}\U{0292}\U{0292}")];
    forall i, j | 0 <= i < j < 4 ensures IndependentPair(p, i, j) {
      if i < 2 {
        IncompatibleAt(p[i].0, p[j].0, 0);
      } else {
        IncompatibleAt(p[i].0, p[j].0, 1);
      }
    }
    IndependentFour(p);
  }

  /** `unprotectHTMLTags` is one scan turning each sentinel run into its markup. */
  lemma UnprotectIsScan(s: string)
    ensures UnprotectHTMLTags(s) == ReplaceSimultaneously(s, UnprotectPairs)
  {
    UnprotectPairsIndependent();
    StrReplaceIsSimultaneous(s, UnprotectPairs);
  }

  /** The sentinel form of a tag is one scan turning each `<`, `>`, `&lt;`, `&gt;` into
      its sentinel run and copying every other character. */
  lemma ProtectTagIsScan(e: string)
    ensures ProtectTag(e) == ReplaceSimultaneously(e, ProtectPairs)
  {
    ProtectPairsIndependent();
    StrReplaceIsSimultaneous(e, ProtectPairs);
  }

  /** Protecting the raw tag `<m>` turns its two brackets into their sentinel runs and
      copies the text between them. */
  lemma RawTagProtected(m: string)
    requires '<' !in m && '>' !in m && '&' !in m
    ensures ProtectTag("<" + m + ">") == CharMap(RawOpen) + m + CharMap(RawClose)
  {
    var e := "<" + m + ">";
    ProtectTagIsScan(e);
    assert FirstMatchFrom(e, ProtectPairs, 0) == Some(0);
    assert e[1..] == m + ">";
    SimultaneousCopiesPlain(m, ">", ProtectPairs);
    RawCloseScan(">");
  }

  /** Protecting the escaped tag `&lt;m&gt;` turns its two escaped brackets into their
      sentinel runs and copies the text between them. */
  lemma EscapedTagProtected(m: string)
    requires '<' !in m && '>' !in m && '&' !in m
    ensures ProtectTag("&lt;" + m + "&gt;") == CharMap(EscapedOpen) + m + CharMap(EscapedClose)
  {
    var e := "&lt;" + m + "&gt;";
    ProtectTagIsScan(e);
    assert e[..4] == "&lt;";
    assert FirstMatchFrom(e, ProtectPairs, 0) == Some(2);
    assert e[4..] == m + "&gt;";
    SimultaneousCopiesPlain(m, "&gt;", ProtectPairs);
    EscapedCloseScan("&gt;");
  }

  /** A raw closing bracket alone scans to its sentinel run. */
  lemma RawCloseScan(c: string)
    requires c == ">"
    ensures ReplaceSimultaneously(c, ProtectPairs) == CharMap(RawClose)
  {
    assert ProtectPairs[0].0 == "<" && ProtectPairs[1].0 == ">";
    assert c[..1] == ">";
    assert !MatchesAtStart(c, ProtectPairs[0].0) && MatchesAtStart(c, ProtectPairs[1].0);
    assert FirstMatchFrom(c, ProtectPairs, 1) == Some(1);
    assert c[1..] == [];
  }

  /** An escaped closing bracket alone scans to its sentinel run. */
  lemma EscapedCloseScan(c: string)
    requires c == "&gt;"
    ensures ReplaceSimultaneously(c, ProtectPairs) == CharMap(EscapedClose)
  {
    assert c[..4] == "&gt;" && c[4..] == [];
    assert ProtectPairs[0].0 == "<" && ProtectPairs[1].0 == ">";
    assert ProtectPairs[2].0 == "&lt;" && ProtectPairs[3].0 == "&gt;";
    assert c[..1] == "&";
    assert !MatchesAtStart(c, ProtectPairs[0].0) && !MatchesAtStart(c, ProtectPairs[1].0);
    assert !MatchesAtStart(c, ProtectPairs[2].0) by { assert c[1] != ProtectPairs[2].0[1]; }
    assert MatchesAtStart(c, ProtectPairs[3].0);
    assert FirstMatchFrom(c, ProtectPairs, 3) == Some(3);
    assert FirstMatchFrom(c, ProtectPairs, 1) == Some(3);
  }

  /** Four equal sentinel characters open `x`. */
  predicate StartsWithRun(x: string)
  {
    4 <= |x| && IsSentinelChar(x[0]) && x[1] == x[0] && x[2] == x[0] && x[3] == x[0]
  }

  /** Splits into whole sentinel runs and non-sentinel characters. */
  predicate Clean(x: string)
    decreases |x|
  {
    if |x| == 0 then true
    else if IsSentinelChar(x[0]) then StartsWithRun(x) && Clean(x[4..])
    else Clean(x[1..])
  }

  /** Decoding of the sentinel runs, the reference reading of `unprotectHTMLTags`. */
  function Decode(x: string): string
  {
    ReplaceSimultaneously(x, UnprotectPairs)
  }

  /** The markup form whose sentinel run is made of `c`. */
  function MarkupOf(c: char): (m: Markup)
    requires IsSentinelChar(c)
    ensures CharMap(m) == [c, c, c, c]
  {
    if c == '\U{0283}' then RawOpen
    else if c == '\U{00B6}' then RawClose
    else if c == '\U{0251}' then EscapedOpen
    else EscapedClose
  }

  /** Position of a markup form in the unprotection list. */
  function PairIndex(m: Markup): (k: nat)
    ensures k < |UnprotectPairs| && UnprotectPairs[k] == (CharMap(m), Literal(m))
  {
    match m
    case RawOpen => 0
    case RawClose => 1
    case EscapedOpen => 2
    case EscapedClose => 3
  }

  /** A string starting with a non-sentinel character starts with no sentinel run. */
  lemma NoRunAtPlainChar(x: string)
    requires 0 < |x| && !IsSentinelChar(x[0])
    ensures FirstMatchFrom(x, UnprotectPairs, 0) == None
  {
    SentinelRunFacts();
  }

  /** A string opening with a whole run matches that run's pair first. */
  lemma RunMatches(x: string)
    requires StartsWithRun(x)
    ensures FirstMatchFrom(x, UnprotectPairs, 0) == Some(PairIndex(MarkupOf(x[0])))
  {
    var m := MarkupOf(x[0]);
    assert x[..4] == CharMap(m);
    assert forall j :: 0 <= j < PairIndex(m) ==> UnprotectPairs[j].0[0] != x[0];
  }

  /** Sentinel-free text is clean and decodes to itself. */
  lemma {:induction false} FreeIsClean(x: string)
    requires SentinelFree(x)
    ensures Clean(x) && Decode(x) == x
    decreases |x|
  {
    if |x| > 0 {
      PlainStep(x);
      assert SentinelFree(x[1..]) by {
        assert forall i :: 0 <= i < |x[1..]| ==> x[1..][i] == x[i + 1];
      }
      FreeIsClean(x[1..]);
      assert x == [x[0]] + x[1..];
    }
  }

  /** Decoding at a sentinel run. */
  lemma RunStep(x: string)
    requires StartsWithRun(x)
    ensures Decode(x) == Literal(MarkupOf(x[0])) + Decode(x[4..])
  {
    RunMatches(x);
  }

  /** Decoding at a non-sentinel character. */
  lemma PlainStep(x: string)
    requires 0 < |x| && !IsSentinelChar(x[0])
    ensures Decode(x) == [x[0]] + Decode(x[1..])
  {
    NoRunAtPlainChar(x);
  }

  /** Clean strings concatenate to a clean string, and decoding distributes. */
  lemma {:induction false} CleanConcat(a: string, b: string)
    requires Clean(a) && Clean(b)
    ensures Clean(a + b) && Decode(a + b) == Decode(a) + Decode(b)
    decreases |a|
  {
    if |a| == 0 {
      assert a + b == b;
    } else if IsSentinelChar(a[0]) {
      CleanConcat(a[4..], b);
      RunConcat(a, b);
    } else {
      CleanConcat(a[1..], b);
      PlainConcat(a, b);
    }
  }

  /** The step of `CleanConcat` at a run, given the claim for the rest of `a`. */
  lemma RunConcat(a: string, b: string)
    requires StartsWithRun(a) && Clean(a[4..]) && Clean(b)
    requires Clean(a[4..] + b) && Decode(a[4..] + b) == Decode(a[4..]) + Decode(b)
    ensures Clean(a + b) && Decode(a + b) == Decode(a) + Decode(b)
  {
    var ab := a + b;
    assert ab[0] == a[0] && ab[1] == a[1] && ab[2] == a[2] && ab[3] == a[3];
    assert ab[4..] == a[4..] + b;
    assert StartsWithRun(ab);
    assert Clean(ab);
    RunStep(a);
    RunStep(ab);
    var lit := Literal(MarkupOf(a[0]));
    calc {
      Decode(ab);
      lit + Decode(a[4..] + b);
      lit + (Decode(a[4..]) + Decode(b));
      { Associative(lit, Decode(a[4..]), Decode(b)); }
      Decode(a) + Decode(b);
    }
  }

  /** The step of `CleanConcat` at a plain character, given the claim for the rest of `a`. */
  lemma PlainConcat(a: string, b: string)
    requires 0 < |a| && !IsSentinelChar(a[0]) && Clean(b)
    requires Clean(a[1..] + b) && Decode(a[1..] + b) == Decode(a[1..]) + Decode(b)
    ensures Clean(a + b) && Decode(a + b) == Decode(a) + Decode(b)
  {
    var ab := a + b;
    assert ab[0] == a[0];
    assert ab[1..] == a[1..] + b;
    assert Clean(ab);
    PlainStep(a);
    PlainStep(ab);
    Associative([a[0]], Decode(a[1..]), Decode(b));
  }

  /** Sentinel-free text in front of a clean string can be split off. */
  lemma {:induction false} CleanDropFree(e: string, rest: string)
    requires SentinelFree(e) && Clean(e + rest)
    ensures Clean(rest) && Decode(e + rest) == e + Decode(rest)
    decreases |e|
  {
    if |e| == 0 {
      assert e + rest == rest;
    } else {
      var x := e + rest;
      assert x[0] == e[0];
      PlainStep(x);
      assert x[1..] == e[1..] + rest;
      assert SentinelFree(e[1..]) by {
        assert forall i :: 0 <= i < |e[1..]| ==> e[1..][i] == e[i + 1];
      }
      CleanDropFree(e[1..], rest);
      assert e == [e[0]] + e[1..];
    }
  }

  /** A sentinel run alone is clean and decodes to its markup. */
  lemma RunDecodes(m: Markup)
    ensures Clean(CharMap(m)) && Decode(CharMap(m)) == Literal(m)
  {
    var x := CharMap(m);
    assert StartsWithRun(x) && MarkupOf(x[0]) == m;
    RunStep(x);
    assert x[4..] == [];
    assert Literal(m) + [] == Literal(m);
  }

  /** The sentinel form of sentinel-free text is clean and decodes back to it. */
  lemma {:induction false} EncodeDecodes(e: string)
    requires SentinelFree(e)
    ensures Clean(ReplaceSimultaneously(e, ProtectPairs))
    ensures Decode(ReplaceSimultaneously(e, ProtectPairs)) == e
    decreases |e|
  {
    if |e| > 0 {
      match FirstMatchFrom(e, ProtectPairs, 0)
      case Some(k) =>
        var m := [RawOpen, RawClose, EscapedOpen, EscapedClose][k];
        assert ProtectPairs[k] == (Literal(m), CharMap(m));
        var n := |Literal(m)|;
        assert SentinelFree(e[n..]) by {
          assert forall i :: 0 <= i < |e[n..]| ==> e[n..][i] == e[i + n];
        }
        EncodeDecodes(e[n..]);
        assert e == Literal(m) + e[n..];
        RunDecodes(m);
        EncodeRunStep(CharMap(m), Literal(m), e[n..]);
      case None =>
        assert SentinelFree(e[1..]) by {
          assert forall i :: 0 <= i < |e[1..]| ==> e[1..][i] == e[i + 1];
        }
        EncodeDecodes(e[1..]);
        FreeIsClean([e[0]]);
        assert e == [e[0]] + e[1..];
        EncodeRunStep([e[0]], [e[0]], e[1..]);
    }
  }

  /** A clean piece that decodes to `a`, in front of the sentinel form of `b`. */
  lemma EncodeRunStep(piece: string, a: string, b: string)
    requires Clean(piece) && Decode(piece) == a
    requires Clean(ReplaceSimultaneously(b, ProtectPairs)) && Decode(ReplaceSimultaneously(b, ProtectPairs)) == b
    ensures Clean(piece + ReplaceSimultaneously(b, ProtectPairs))
    ensures Decode(piece + ReplaceSimultaneously(b, ProtectPairs)) == a + b
  {
    CleanConcat(piece, ReplaceSimultaneously(b, ProtectPairs));
  }

  /** One step of the protection loop keeps the string clean and its decoding fixed. */
  lemma {:induction false} ReplaceKeepsDecoding(cur: string, e: string)
    requires Clean(cur) && SentinelFree(e) && 0 < |e|
    ensures Clean(ReplaceAll(cur, e, ProtectTag(e)))
    ensures Decode(ReplaceAll(cur, e, ProtectTag(e))) == Decode(cur)
    decreases |cur|
  {
    var enc := ProtectTag(e);
    ProtectTagIsScan(e);
    if |cur| == 0 {
    } else if MatchesAtStart(cur, e) {
      var rest := cur[|e|..];
      assert cur == e + rest;
      CleanDropFree(e, rest);
      ReplaceKeepsDecoding(rest, e);
      EncodeDecodes(e);
      CleanConcat(enc, ReplaceAll(rest, e, enc));
    } else if IsSentinelChar(cur[0]) {
      ReplaceKeepsDecoding(cur[4..], e);
      ReplaceAtRun(cur, e);
    } else {
      ReplaceKeepsDecoding(cur[1..], e);
      FreeIsClean([cur[0]]);
      CleanConcat([cur[0]], ReplaceAll(cur[1..], e, enc));
      CleanConcat([cur[0]], cur[1..]);
      assert cur == [cur[0]] + cur[1..];
    }
  }

  /** The step of `ReplaceKeepsDecoding` at a run, given the claim for the rest. */
  lemma ReplaceAtRun(cur: string, e: string)
    requires Clean(cur) && SentinelFree(e) && 0 < |e| && 0 < |cur| && IsSentinelChar(cur[0])
    requires Clean(ReplaceAll(cur[4..], e, ProtectTag(e)))
    requires Decode(ReplaceAll(cur[4..], e, ProtectTag(e))) == Decode(cur[4..])
    ensures Clean(ReplaceAll(cur, e, ProtectTag(e)))
    ensures Decode(ReplaceAll(cur, e, ProtectTag(e))) == Decode(cur)
  {
    var enc := ProtectTag(e);
    var m := MarkupOf(cur[0]);
    var run := cur[..4];
    var y := cur[4..];
    assert run == CharMap(m);
    assert cur == run + y;
    assert e[0] !in run;
    ReplaceAllPassThrough(run, y, e, enc);
    RunDecodes(m);
    CleanConcat(run, ReplaceAll(y, e, enc));
    CleanConcat(run, y);
  }

  /** The whole protection loop keeps the string clean and its decoding fixed. */
  lemma {:induction false} ProtectFromKeepsDecoding(elements: seq<string>, i: nat, cur: string)
    requires forall j :: 0 <= j < |elements| ==> SentinelFree(elements[j]) && 0 < |elements[j]|
    requires Clean(cur)
    ensures Clean(ProtectFrom(elements, i, cur))
    ensures Decode(ProtectFrom(elements, i, cur)) == Decode(cur)
    decreases |elements| - i
  {
    if i < |elements| {
      if Qualifies(elements, i) {
        ReplaceKeepsDecoding(cur, elements[i]);
      }
      var next := if Qualifies(elements, i)
        then ReplaceAll(cur, elements[i], ProtectTag(elements[i]))
        else cur;
      ProtectFromKeepsDecoding(elements, i + 1, next);
    }
  }

  /** Every matched tag is non-empty text taken from the string. */
  lemma ElementsAreSlices(s: string)
    requires SentinelFree(s)
    ensures forall j :: 0 <= j < |TagSpans.Elements(s)| ==>
      SentinelFree(TagSpans.Elements(s)[j]) && 0 < |TagSpans.Elements(s)[j]|
  {
    var el := TagSpans.Elements(s);
    var sp := TagSpans.Spans(s);
    forall j | 0 <= j < |el| ensures SentinelFree(el[j]) && 0 < |el[j]| {
      assert el[j] == s[sp[j].start..sp[j].end];
      assert forall i :: 0 <= i < |el[j]| ==> el[j][i] == s[sp[j].start + i];
    }
  }

  /** Round trip: protecting then unprotecting gives back any string that did not
      already contain a sentinel character. */
  lemma ProtectRoundTrip(s: string)
    requires SentinelFree(s)
    ensures UnprotectHTMLTags(ProtectHTMLTags(s)) == s
  {
    ElementsAreSlices(s);
    FreeIsClean(s);
    ProtectFromKeepsDecoding(TagSpans.Elements(s), 0, s);
    UnprotectIsScan(ProtectHTMLTags(s));
  }

  // When protection changes nothing.

  /** A lone tag without `/` has no later tag with its name and is left alone. */
  lemma LoneOpeningTag(s: string, e: string)
    requires TagSpans.Elements(s) == [e] && !Contains("/", e)
    ensures ProtectHTMLTags(s) == s
  {
    assert !Qualifies([e], 0);
  }

  /** The slash-tag name of `<m>` is `m` itself when `m` holds no bracket, no space
      and no escaped bracket. */
  lemma BracketedClosingName(m: string)
    requires '<' !in m && '>' !in m && ' ' !in m
    requires forall k :: 0 <= k < |m| ==> !OccursAt(m, "&lt;", k) && !OccursAt(m, "&gt;", k)
    ensures ClosingTagName("<" + m + ">") == m
  {
    var e := "<" + m + ">";
    assert ' ' !in e;
    assert FirstToken(e) == e;
    assert e[1..] == m + ">";
    ReplaceAllPassThrough(m + ">", [], "<", "");
    assert (m + ">") + [] == m + ">";
    assert ReplaceAll(e, "<", "") == m + ">";
    ReplaceAllSingleConcat(m, ">", ">", "");
    ReplaceAllPassThrough(m, [], ">", "");
    assert m + [] == m;
    assert ReplaceAll(">", ">", "") == [];
    ReplaceAllAbsent(m, "&lt;", "");
    ReplaceAllAbsent(m, "&gt;", "");
  }

  /** `m` holds no bracket, no space and no escaped bracket, and is a slash-tag name
      that neither starts nor ends with `/`. */
  predicate PlainSlashName(m: string)
  {
    && '<' !in m && '>' !in m && ' ' !in m
    && (forall k :: 0 <= k < |m| ==> !OccursAt(m, "&lt;", k) && !OccursAt(m, "&gt;", k))
    && 1 < |m| && m[0] != '/' && m[|m| - 1] != '/'
  }

  /** The only tag of `s` is `s[p..q + 1]`, a slash tag whose name neither starts nor
      ends with `/`. */
  predicate LoneSlashTagAt(s: string, p: nat, q: nat)
  {
    && p < q < |s| && s[p] == '<' && s[q] == '>'
    && TagSpans.Elements(s) == [s[p..q + 1]]
    && PlainSlashName(s[p + 1..q])
  }

  /** A lone tag with `/` whose name neither starts nor ends with `/` is left alone. */
  lemma LoneSlashTag(s: string, p: nat, q: nat)
    requires LoneSlashTagAt(s, p, q)
    ensures ProtectHTMLTags(s) == s
  {
    var m := s[p + 1..q];
    BracketedSlice(s, p, q);
    SlashTagSkipped(m);
    assert !Qualifies(["<" + m + ">"], 0);
  }

  /** The gating of a slash tag `<m>` whose name holds no bracket, space or escaped
      bracket: it is rewritten exactly when the name starts or ends with `/`. */
  lemma SlashTagGate(elements: seq<string>, i: nat, m: string)
    requires i < |elements| && elements[i] == "<" + m + ">"
    requires '<' !in m && '>' !in m && ' ' !in m && '/' in m
    requires forall k :: 0 <= k < |m| ==> !OccursAt(m, "&lt;", k) && !OccursAt(m, "&gt;", k)
    ensures Qualifies(elements, i) <==> (m[0] == '/' || m[|m| - 1] == '/')
  {
    BracketedClosingName(m);
    SlashInBracketed(m);
  }

  /** `<m>` contains `/` when `m` does, and a name holding `/` is not PHP-empty. */
  lemma SlashInBracketed(m: string)
    requires '/' in m
    ensures Contains("/", "<" + m + ">") && !IsEmpty(m)
  {
    var e := "<" + m + ">";
    var k :| 0 <= k < |m| && m[k] == '/';
    assert e[k + 1] == '/';
    OccursAtChar(e, '/', k + 1);
    assert !IsEmpty(e) by { assert |e| != 1; }
    assert !IsEmpty(m) by { assert m != "0"; }
  }

  /** A slice from a `<` to a `>` is the text between them, bracketed. */
  lemma BracketedSlice(s: string, p: nat, q: nat)
    requires p < q < |s| && s[p] == '<' && s[q] == '>'
    ensures s[p..q + 1] == "<" + s[p + 1..q] + ">"
  {
    var t, u := s[p..q + 1], "<" + s[p + 1..q] + ">";
    assert |t| == |u|;
    forall i | 0 <= i < |t| ensures t[i] == u[i] {
      if 0 < i < |t| - 1 {
        assert u[i] == s[p + 1..q][i - 1];
      }
    }
  }

  lemma SlashTagSkipped(m: string)
    requires PlainSlashName(m)
    ensures !Qualifies(["<" + m + ">"], 0)
  {
    BracketedClosingName(m);
  }
}

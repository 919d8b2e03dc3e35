/** What `protectHTMLTags` rewrites: a lone qualifying match is replaced by its
    protected form at every occurrence, and a tag followed by its closing tag has both
    of them rewritten, for raw tags and for escaped tags with attributes. */
module TagRewriting {
  import opened Php
  import opened Strings
  import TagSpans
  import TagProtection

  /** With a single match that qualifies, protection is one `str_replace` of that match
      by its protected form, at every occurrence. */
  lemma OneQualifyingTag(s: string, e: string)
    requires TagSpans.Elements(s) == [e] && Qualifies([e], 0)
    ensures ProtectHTMLTags(s) == ReplaceAll(s, e, ProtectTag(e))
  {
    assert ProtectHTMLTags(s) == ProtectFrom([e], 0, s);
    assert ProtectFrom([e], 0, s) == ProtectFrom([e], 1, ReplaceAll(s, e, ProtectTag(e)));
  }

  /** With exactly two matches that both qualify, protection is two `str_replace`
      passes, the first match's then the second's. */
  lemma TwoQualifying(s: string, o: string, c: string)
    requires TagSpans.Elements(s) == [o, c]
    requires Qualifies([o, c], 0) && Qualifies([o, c], 1)
    ensures ProtectHTMLTags(s) == ReplaceAll(ReplaceAll(s, o, ProtectTag(o)), c, ProtectTag(c))
  {
    var t := ReplaceAll(s, o, ProtectTag(o));
    assert ProtectHTMLTags(s) == ProtectFrom([o, c], 0, s);
    assert ProtectFrom([o, c], 0, s) == ProtectFrom([o, c], 1, t);
    assert ProtectFrom([o, c], 1, t) == ProtectFrom([o, c], 2, ReplaceAll(t, c, ProtectTag(c)));
  }

  /** A match without `/` qualifies when a later match has its bare name. */
  lemma OpeningQualifies(elements: seq<string>, i: nat, j: nat)
    requires i < j < |elements| && '/' !in elements[i]
    requires TagName(elements[j]) == TagName(elements[i])
    ensures Qualifies(elements, i)
  {
    NoSlash(elements[i]);
  }

  /** A match holding `/` at index `k` qualifies when its slash-tag name starts with `/`. */
  lemma SlashQualifies(elements: seq<string>, i: nat, k: nat)
    requires i < |elements| && k < |elements[i]| && elements[i][k] == '/'
    requires var name := ClosingTagName(elements[i]); 0 < |name| && name[0] == '/'
    ensures Qualifies(elements, i)
  {
    var e := elements[i];
    OccursAtChar(e, '/', k);
    assert !IsEmpty(e) by { assert e != "0"; }
    var name := ClosingTagName(e);
    assert !IsEmpty(name) by { assert name != "0"; }
  }

  /** The bare name is the slash-tag name with its slashes removed: the two lists of
      the source differ only by the final `/`. */
  lemma TagNameDropsSlash(e: string)
    ensures TagName(e) == ReplaceAll(ClosingTagName(e), "/", "")
  {
    assert OpenNameStrip == CloseNameStrip + [("/", "")];
    StrReplaceAppend(FirstToken(e), CloseNameStrip, [("/", "")]);
  }

  /** A tag name holding no bracket, ampersand, slash or space. */
  predicate PlainName(m: string)
  {
    '<' !in m && '>' !in m && '&' !in m && '/' !in m && ' ' !in m
  }

  /** Attributes after a tag name: nothing, or a space and text holding no bracket,
      ampersand or slash. */
  predicate PlainAttributes(a: string)
  {
    (|a| == 0 || a[0] == ' ') && '<' !in a && '>' !in a && '&' !in a && '/' !in a
  }

  /** Text without `<` and `&` anywhere holds no `&lt;` or `&gt;`. */
  lemma NoEscapes(t: string)
    requires '&' !in t
    ensures forall k :: 0 <= k < |t| ==> !OccursAt(t, "&lt;", k) && !OccursAt(t, "&gt;", k)
  {
    forall k | 0 <= k < |t| ensures !OccursAt(t, "&lt;", k) && !OccursAt(t, "&gt;", k) {
      NotOccursAt(t, "&lt;", k);
      NotOccursAt(t, "&gt;", k);
    }
  }

  /** A string without `/` does not contain it. */
  lemma NoSlash(t: string)
    requires '/' !in t
    ensures !Contains("/", t)
  {
    forall k: nat ensures !OccursAt(t, "/", k) {
      NotOccursAt(t, "/", k);
    }
  }

  /** `/m` loses its slash, and `m` keeps everything, in the final pass of the bare name. */
  lemma SlashPass(m: string)
    requires '/' !in m
    ensures ReplaceAll(m, "/", "") == m && ReplaceAll("/" + m, "/", "") == m
  {
    ReplaceAllUntouched(m, "/", "");
    ReplaceAllLeading("/", m, "");
  }

  // Raw tags.

  /** The names of `<m>` and `</m>`: both bare names are `m`, and the slash-tag name of
      the closing tag is `/m`. */
  lemma RawPairNames(m: string)
    requires PlainName(m)
    ensures TagName("<" + m + ">") == m && TagName("</" + m + ">") == m
    ensures ClosingTagName("</" + m + ">") == "/" + m
  {
    var sm := "/" + m;
    NoEscapes(m);
    NoEscapes(sm);
    TagProtection.BracketedClosingName(m);
    TagProtection.BracketedClosingName(sm);
    assert "</" + m + ">" == "<" + sm + ">";
    TagNameDropsSlash("<" + m + ">");
    TagNameDropsSlash("</" + m + ">");
    SlashPass(m);
  }

  /** The matches of `<m>x</m>` are the two tags. */
  lemma RawPairElements(m: string, x: string)
    requires PlainName(m) && '<' !in x && '&' !in x
    ensures var o, c := "<" + m + ">", "</" + m + ">";
      TagSpans.Elements(o + x + c) == [o, c]
  {
    var o, c := "<" + m + ">", "</" + m + ">";
    var s := o + x + c;
    var q, p := |m| + 1, |o| + |x|;
    assert s[0] == '<' && s[q] == '>' && s[p] == '<' && s[|s| - 1] == '>';
    forall j | 0 < j < q ensures s[j] != '>' {
      assert s[j] == m[j - 1];
    }
    forall i | q < i < p ensures s[i] != '<' && s[i] != '&' {
      assert s[i] == x[i - |o|];
    }
    forall j | p < j < |s| - 1 ensures s[j] != '>' {
      assert s[j] == c[j - p];
    }
    TagSpans.TwoRawTags(s, q, p);
    assert s[..q + 1] == o && s[p..] == c;
  }

  /** `<m>` qualifies in `[<m>, </m>]`: the later tag has its bare name. */
  lemma RawOpenQualifies(m: string)
    requires PlainName(m)
    ensures Qualifies(["<" + m + ">", "</" + m + ">"], 0)
  {
    RawPairNames(m);
    OpeningQualifies(["<" + m + ">", "</" + m + ">"], 0, 1);
  }

  /** `</m>` qualifies in `[<m>, </m>]`: its slash-tag name starts with `/`. */
  lemma RawCloseQualifies(m: string)
    requires PlainName(m)
    ensures Qualifies(["<" + m + ">", "</" + m + ">"], 1)
  {
    RawPairNames(m);
    SlashQualifies(["<" + m + ">", "</" + m + ">"], 1, 1);
  }

  /** A pass replacing `<m>` leaves `</m>` alone. */
  lemma RawOpenSkipsClose(m: string, rep: string)
    requires PlainName(m)
    ensures ReplaceAll("</" + m + ">", "<" + m + ">", rep) == "</" + m + ">"
  {
    var o, c := "<" + m + ">", "</" + m + ">";
    assert c[1] == '/' && o[1] != '/';
    assert !MatchesAtStart(c, o) by {
      if |o| <= |c| {
        assert c[..|o|][1] != o[1];
      }
    }
    assert '<' !in c[1..];
    ReplaceAllUntouched(c[1..], o, rep);
    assert c == [c[0]] + c[1..];
  }

  /** The two passes of the loop on `<m>x</m>`. */
  lemma RawPairPasses(m: string, x: string, po: string, pc: string)
    requires PlainName(m) && '<' !in x && '<' !in po
    ensures var o, c := "<" + m + ">", "</" + m + ">";
      ReplaceAll(ReplaceAll(o + x + c, o, po), c, pc) == po + x + pc
  {
    var o, c := "<" + m + ">", "</" + m + ">";
    RawOpenSkipsClose(m, po);
    assert o[0] == '<' && c[0] == '<';
    PairPasses(o, x, c, po, pc);
  }

  /** The two passes of the loop on `o + x + c`, when `x` holds no first character of
      `o`, the pass for `o` leaves `c` alone, and `c`'s first character is neither in
      the replacement of `o` nor in `x`. */
  lemma PairPasses(o: string, x: string, c: string, po: string, pc: string)
    requires 0 < |o| && 0 < |c| && o[0] !in x && c[0] !in po && c[0] !in x
    requires ReplaceAll(c, o, po) == c
    ensures ReplaceAll(ReplaceAll(o + x + c, o, po), c, pc) == po + x + pc
  {
    OpeningPass(o, x, c, po);
    ClosingPass(po + x, c, pc);
  }

  /** The pass for `o` on `o + x + c` replaces only the leading `o`. */
  lemma OpeningPass(o: string, x: string, c: string, po: string)
    requires 0 < |o| && o[0] !in x && ReplaceAll(c, o, po) == c
    ensures ReplaceAll(o + x + c, o, po) == po + x + c
  {
    assert o + x + c == o + (x + c);
    ReplaceAllLeading(o, x + c, po);
    ReplaceAllPassThrough(x, c, o, po);
    assert po + (x + c) == po + x + c;
  }

  /** The pass for `c` on `y + c` replaces only the trailing `c`. */
  lemma ClosingPass(y: string, c: string, pc: string)
    requires 0 < |c| && c[0] !in y
    ensures ReplaceAll(y + c, c, pc) == y + pc
  {
    ReplaceAllPassThrough(y, c, c, pc);
    assert c + [] == c;
    ReplaceAllLeading(c, [], pc);
  }


  /** The protected form of `<m>` holds no `<`. */
  lemma RawProtectedFree(m: string)
    requires '<' !in m && '>' !in m && '&' !in m
    ensures '<' !in ProtectTag("<" + m + ">")
  {
    TagProtection.RawTagProtected(m);
    var r := CharMap(RawOpen) + m + CharMap(RawClose);
    forall i | 0 <= i < |r| ensures r[i] != '<' {
      if 4 <= i < 4 + |m| {
        assert r[i] == m[i - 4];
      }
    }
  }

  /** `<m>x</m>` becomes the protected forms of its two tags around `x`. */
  lemma RawPairProtected(m: string, x: string)
    requires PlainName(m) && '<' !in x && '&' !in x
    ensures var o, c := "<" + m + ">", "</" + m + ">";
      ProtectHTMLTags(o + x + c) == ProtectTag(o) + x + ProtectTag(c)
  {
    var o, c := "<" + m + ">", "</" + m + ">";
    var po, pc := ProtectTag(o), ProtectTag(c);
    assert TagSpans.Elements(o + x + c) == [o, c] by { RawPairElements(m, x); }
    assert Qualifies([o, c], 0) by { RawOpenQualifies(m); }
    assert Qualifies([o, c], 1) by { RawCloseQualifies(m); }
    TwoQualifying(o + x + c, o, c);
    assert '<' !in po by { RawProtectedFree(m); }
    RawPairPasses(m, x, po, pc);
  }

  /** `<m>x</m>` has both tags rewritten: `ʃʃʃʃm¶¶¶¶xʃʃʃʃ/m¶¶¶¶`. */
  lemma PairedRawTags(m: string, x: string)
    requires PlainName(m) && '<' !in x && '&' !in x
    ensures ProtectHTMLTags("<" + m + ">" + x + "</" + m + ">")
         == CharMap(RawOpen) + m + CharMap(RawClose) + x + CharMap(RawOpen) + "/" + m + CharMap(RawClose)
  {
    var o, c := "<" + m + ">", "</" + m + ">";
    assert "<" + m + ">" + x + "</" + m + ">" == o + x + c;
    var ro, rc := CharMap(RawOpen), CharMap(RawClose);
    assert ProtectTag(o) == ro + m + rc by {
      TagProtection.RawTagProtected(m);
    }
    assert ProtectTag(c) == ro + ("/" + m) + rc by {
      assert c == "<" + ("/" + m) + ">";
      TagProtection.RawTagProtected("/" + m);
    }
    RegroupRaw(ProtectTag(o), x, ProtectTag(c), ro, m, rc);
    RawPairProtected(m, x);
  }

  /** The two protected tags and the text between them, as one string. */
  lemma RegroupRaw(po: string, x: string, pc: string, ro: string, m: string, rc: string)
    requires po == ro + m + rc && pc == ro + ("/" + m) + rc
    ensures po + x + pc == ro + m + rc + x + ro + "/" + m + rc
  {
  }


  // Escaped tags.

  /** The slash-tag name list is four single passes, in order. */
  lemma CloseStripPasses(y: string)
    ensures StrReplace(y, CloseNameStrip)
         == ReplaceAll(ReplaceAll(ReplaceAll(ReplaceAll(y, "<", ""), ">", ""), "&lt;", ""), "&gt;", "")
  {
    var ps := CloseNameStrip;
    assert ps[1..][1..][1..][1..] == [];
  }

  /** The `&lt;` pass on `&lt;n` followed by nothing or by `&gt;` drops the leading
      escaped bracket only. */
  lemma LeadingEscapeStripped(n: string, t: string)
    requires '&' !in n && (t == [] || t == "&gt;")
    ensures ReplaceAll("&lt;" + n + t, "&lt;", "") == n + t
  {
    assert "&lt;" + n + t == "&lt;" + (n + t);
    ReplaceAllLeading("&lt;", n + t, "");
    ReplaceAllPassThrough(n, t, "&lt;", "");
    if t == "&gt;" {
      assert t[0..4][1] == 'g';
      ReplaceAllAbsent(t, "&lt;", "");
    }
  }

  /** The `&gt;` pass on `n` followed by nothing or by `&gt;` leaves `n`. */
  lemma TrailingEscapeStripped(n: string, t: string)
    requires '&' !in n && (t == [] || t == "&gt;")
    ensures ReplaceAll(n + t, "&gt;", "") == n
  {
    ReplaceAllPassThrough(n, t, "&gt;", "");
    if t == "&gt;" {
      ReplaceAllLeading("&gt;", [], "");
    }
    assert n + [] == n;
  }

  /** The four stripping passes on `&lt;n` followed by nothing or by `&gt;` leave `n`. */
  lemma EscapedStrip(n: string, t: string)
    requires '<' !in n && '>' !in n && '&' !in n
    requires t == [] || t == "&gt;"
    ensures StrReplace("&lt;" + n + t, CloseNameStrip) == n
  {
    var y := "&lt;" + n + t;
    CloseStripPasses(y);
    assert '<' !in y && '>' !in y;
    ReplaceAllUntouched(y, "<", "");
    ReplaceAllUntouched(y, ">", "");
    LeadingEscapeStripped(n, t);
    TrailingEscapeStripped(n, t);
  }

  /** The first space-separated token of `&lt;m a&gt;`: the whole tag without
      attributes, and `&lt;m` with them. */
  lemma EscapedOpenToken(m: string, a: string)
    requires PlainName(m) && PlainAttributes(a)
    ensures FirstToken("&lt;" + m + a + "&gt;") == "&lt;" + m + (if |a| == 0 then "&gt;" else [])
  {
    var o := "&lt;" + m + a + "&gt;";
    if |a| == 0 {
      assert o == "&lt;" + m + "&gt;" && ' ' !in o;
      FirstTokenAt(o, |o|);
    } else {
      var k := 4 + |m|;
      assert o[..k] == "&lt;" + m && o[k] == ' ';
      FirstTokenAt(o, k);
      assert "&lt;" + m + [] == "&lt;" + m;
    }
  }

  /** The names of `&lt;m a&gt;` and `&lt;/m&gt;`: both bare names are `m`, and the
      slash-tag name of the closing tag is `/m`. */
  lemma EscapedPairNames(m: string, a: string)
    requires PlainName(m) && PlainAttributes(a)
    ensures TagName("&lt;" + m + a + "&gt;") == m && TagName("&lt;/" + m + "&gt;") == m
    ensures ClosingTagName("&lt;/" + m + "&gt;") == "/" + m
  {
    var o, c := "&lt;" + m + a + "&gt;", "&lt;/" + m + "&gt;";
    EscapedOpenToken(m, a);
    EscapedStrip(m, if |a| == 0 then "&gt;" else []);
    assert ' ' !in c;
    FirstTokenAt(c, |c|);
    assert c == "&lt;" + ("/" + m) + "&gt;";
    EscapedStrip("/" + m, "&gt;");
    TagNameDropsSlash(o);
    TagNameDropsSlash(c);
    SlashPass(m);
  }

  /** `&lt;u&gt;` starts with `&lt;` and has `&gt;` after `u`. */
  lemma EscapedTagEnds(u: string)
    ensures OccursAt("&lt;" + u + "&gt;", "&lt;", 0)
    ensures OccursAt("&lt;" + u + "&gt;", "&gt;", |u| + 4)
  {
    var o := "&lt;" + u + "&gt;";
    assert o == [] + "&lt;" + (u + "&gt;");
    OccursAtJoin([], "&lt;", u + "&gt;");
    assert o == ("&lt;" + u) + "&gt;" + [];
    OccursAtJoin("&lt;" + u, "&gt;", []);
  }

  /** Inside `&lt;u&gt;`, between the escaped brackets, is `u`. */
  lemma EscapedTagInside(u: string)
    ensures forall j :: 4 <= j < |u| + 4 ==> ("&lt;" + u + "&gt;")[j] == u[j - 4]
  {
  }

  /** The matches of `&lt;u&gt;x&lt;v&gt;`, with no `&` in `u` or `v` and no `<` or
      `&` in `x`, are the two escaped tags. */
  lemma EscapedTwoTags(u: string, x: string, v: string)
    requires '&' !in u && '&' !in v && '<' !in x && '&' !in x
    ensures var o, c := "&lt;" + u + "&gt;", "&lt;" + v + "&gt;";
      TagSpans.Elements(o + x + c) == [o, c]
  {
    var o, c := "&lt;" + u + "&gt;", "&lt;" + v + "&gt;";
    var s := o + x + c;
    var q, p := |u| + 4, |o| + |x|;
    EscapedTwoTagsInside(u, x, v);
    EscapedTwoTagsEnds(u, x, v);
    TagSpans.TwoEscapedTags(s, q, p);
    assert s[..q + 4] == o && s[p..] == c;
  }

  /** What lies between the escaped brackets of `&lt;u&gt;x&lt;v&gt;`. */
  lemma EscapedTwoTagsInside(u: string, x: string, v: string)
    requires '&' !in u && '&' !in v && '<' !in x && '&' !in x
    ensures var o, c := "&lt;" + u + "&gt;", "&lt;" + v + "&gt;";
      var s, q, p := o + x + c, |u| + 4, |o| + |x|;
      && (forall j :: 4 <= j < q ==> s[j] != '&')
      && (forall i :: q + 4 <= i < p ==> s[i] != '<' && s[i] != '&')
      && (forall j :: p + 4 <= j < |s| - 4 ==> s[j] != '&')
  {
    var o, c := "&lt;" + u + "&gt;", "&lt;" + v + "&gt;";
    var s := o + x + c;
    var q, p := |u| + 4, |o| + |x|;
    EscapedTagInside(u);
    EscapedTagInside(v);
    forall j | 4 <= j < q ensures s[j] != '&' {
      assert s[j] == o[j];
    }
    forall i | q + 4 <= i < p ensures s[i] != '<' && s[i] != '&' {
      assert s[i] == x[i - |o|];
    }
    forall j | p + 4 <= j < |s| - 4 ensures s[j] != '&' {
      assert s[j] == c[j - p];
    }
  }

  /** Where the escaped brackets of `&lt;u&gt;x&lt;v&gt;` are. */
  lemma EscapedTwoTagsEnds(u: string, x: string, v: string)
    ensures var o, c := "&lt;" + u + "&gt;", "&lt;" + v + "&gt;";
      var s := o + x + c;
      && OccursAt(s, "&lt;", 0) && OccursAt(s, "&gt;", |u| + 4)
      && OccursAt(s, "&lt;", |o| + |x|) && OccursAt(s, "&gt;", |s| - 4)
  {
    var o, c := "&lt;" + u + "&gt;", "&lt;" + v + "&gt;";
    EscapedTagEnds(u);
    EscapedTagEnds(v);
    assert o + x + c == o + (x + c);
    OccursInConcat(o, x + c, "&lt;", 0);
    OccursInConcat(o, x + c, "&gt;", |u| + 4);
    OccursInConcat(o + x, c, "&lt;", 0);
    OccursInConcat(o + x, c, "&gt;", |v| + 4);
  }

  /** The matches of `&lt;m a&gt;x&lt;/m&gt;` are the two tags. */
  lemma EscapedPairElements(m: string, a: string, x: string)
    requires PlainName(m) && PlainAttributes(a) && '<' !in x && '&' !in x
    ensures var o, c := "&lt;" + m + a + "&gt;", "&lt;/" + m + "&gt;";
      TagSpans.Elements(o + x + c) == [o, c]
  {
    EscapedTwoTags(m + a, x, "/" + m);
    assert "&lt;" + m + a + "&gt;" == "&lt;" + (m + a) + "&gt;";
    assert "&lt;/" + m + "&gt;" == "&lt;" + ("/" + m) + "&gt;";
  }

  /** `&lt;m a&gt;` holds no `/`. */
  lemma EscapedOpenNoSlash(m: string, a: string)
    requires PlainName(m) && PlainAttributes(a)
    ensures '/' !in "&lt;" + m + a + "&gt;"
  {
  }

  /** `&lt;m a&gt;` qualifies in its pair: the later tag has its bare name. */
  lemma EscapedOpenQualifies(m: string, a: string)
    requires PlainName(m) && PlainAttributes(a)
    ensures Qualifies(["&lt;" + m + a + "&gt;", "&lt;/" + m + "&gt;"], 0)
  {
    var o, c := "&lt;" + m + a + "&gt;", "&lt;/" + m + "&gt;";
    EscapedPairNames(m, a);
    EscapedOpenNoSlash(m, a);
    OpeningQualifies([o, c], 0, 1);
  }

  /** `&lt;/m&gt;` qualifies in its pair: its slash-tag name starts with `/`. */
  lemma EscapedCloseQualifies(m: string, a: string)
    requires PlainName(m) && PlainAttributes(a)
    ensures Qualifies(["&lt;" + m + a + "&gt;", "&lt;/" + m + "&gt;"], 1)
  {
    EscapedPairNames(m, a);
    SlashQualifies(["&lt;" + m + a + "&gt;", "&lt;/" + m + "&gt;"], 1, 4);
  }

  /** A pass replacing `&lt;m a&gt;` leaves `&lt;/m&gt;` alone. */
  lemma EscapedOpenSkipsClose(m: string, a: string, rep: string)
    requires PlainName(m) && PlainAttributes(a)
    ensures ReplaceAll("&lt;/" + m + "&gt;", "&lt;" + m + a + "&gt;", rep) == "&lt;/" + m + "&gt;"
  {
    var o, c := "&lt;" + m + a + "&gt;", "&lt;/" + m + "&gt;";
    forall k | 0 <= k < |c| ensures !OccursAt(c, o, k) {
      if k == 0 {
        if |o| <= |c| {
          assert c[..|o|][4] == '/' && o[4] != '/';
        }
      } else if k + |o| <= |c| {
        assert c[k] != '&';
        NotOccursAt(c, o, k);
      }
    }
    ReplaceAllAbsent(c, o, rep);
  }

  /** The two passes of the loop on `&lt;m a&gt;x&lt;/m&gt;`. */
  lemma EscapedPairPasses(m: string, a: string, x: string, po: string, pc: string)
    requires PlainName(m) && PlainAttributes(a) && '&' !in x && '&' !in po
    ensures var o, c := "&lt;" + m + a + "&gt;", "&lt;/" + m + "&gt;";
      ReplaceAll(ReplaceAll(o + x + c, o, po), c, pc) == po + x + pc
  {
    var o, c := "&lt;" + m + a + "&gt;", "&lt;/" + m + "&gt;";
    EscapedOpenSkipsClose(m, a, po);
    assert o[0] == '&' && c[0] == '&';
    PairPasses(o, x, c, po, pc);
  }

  /** The protected form of `&lt;m&gt;` holds no `&`. */
  lemma EscapedProtectedFree(m: string)
    requires '<' !in m && '>' !in m && '&' !in m
    ensures '&' !in ProtectTag("&lt;" + m + "&gt;")
  {
    TagProtection.EscapedTagProtected(m);
    var r := CharMap(EscapedOpen) + m + CharMap(EscapedClose);
    forall i | 0 <= i < |r| ensures r[i] != '&' {
      if 4 <= i < 4 + |m| {
        assert r[i] == m[i - 4];
      }
    }
  }

  /** `&lt;m a&gt;x&lt;/m&gt;` becomes the protected forms of its two tags around `x`. */
  lemma EscapedPairProtected(m: string, a: string, x: string)
    requires PlainName(m) && PlainAttributes(a) && '<' !in x && '&' !in x
    ensures var o, c := "&lt;" + m + a + "&gt;", "&lt;/" + m + "&gt;";
      ProtectHTMLTags(o + x + c) == ProtectTag(o) + x + ProtectTag(c)
  {
    var o, c := "&lt;" + m + a + "&gt;", "&lt;/" + m + "&gt;";
    var po, pc := ProtectTag(o), ProtectTag(c);
    assert '&' !in po by {
      assert o == "&lt;" + (m + a) + "&gt;";
      EscapedProtectedFree(m + a);
    }
    EscapedPairPasses(m, a, x, po, pc);
    assert TagSpans.Elements(o + x + c) == [o, c] by { EscapedPairElements(m, a, x); }
    assert Qualifies([o, c], 0) by { EscapedOpenQualifies(m, a); }
    assert Qualifies([o, c], 1) by { EscapedCloseQualifies(m, a); }
    TwoQualifying(o + x + c, o, c);
  }

  /** The two protected tags around `x`, written as one flat concatenation. */
  lemma Regroup(po: string, x: string, pc: string, eo: string, m: string, a: string, ec: string)
    requires po == eo + (m + a) + ec && pc == eo + ("/" + m) + ec
    ensures po + x + pc == eo + m + a + ec + x + eo + "/" + m + ec
  {
  }

  /** `&lt;m a&gt;x&lt;/m&gt;` has both tags rewritten:
      `ɑɑɑɑm aʒʒʒʒxɑɑɑɑ/mʒʒʒʒ`. */
  lemma PairedEscapedTags(m: string, a: string, x: string)
    requires PlainName(m) && PlainAttributes(a) && '<' !in x && '&' !in x
    ensures ProtectHTMLTags("&lt;" + m + a + "&gt;" + x + "&lt;/" + m + "&gt;")
         == CharMap(EscapedOpen) + m + a + CharMap(EscapedClose) + x
            + CharMap(EscapedOpen) + "/" + m + CharMap(EscapedClose)
  {
    var o, c := "&lt;" + m + a + "&gt;", "&lt;/" + m + "&gt;";
    assert "&lt;" + m + a + "&gt;" + x + "&lt;/" + m + "&gt;" == o + x + c;
    var eo, ec := CharMap(EscapedOpen), CharMap(EscapedClose);
    assert ProtectTag(o) == eo + (m + a) + ec by {
      assert o == "&lt;" + (m + a) + "&gt;";
      TagProtection.EscapedTagProtected(m + a);
    }
    assert ProtectTag(c) == eo + ("/" + m) + ec by {
      assert c == "&lt;" + ("/" + m) + "&gt;";
      TagProtection.EscapedTagProtected("/" + m);
    }
    Regroup(ProtectTag(o), x, ProtectTag(c), eo, m, a, ec);
    EscapedPairProtected(m, a, x);
  }
}

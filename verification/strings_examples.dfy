/** Worked examples of the string helpers, on strings from the package's tests: the
    multibyte test; the protection of a self-closing tag, of a raw paragraph and of an
    escaped paragraph with attributes; and the two passwords whose `<…>` spans are not
    tags and so are left alone by the protection. Each string is a parameter fixed by
    its precondition, and the facts about it are gathered in small steps. */
module StringsExamples {
  import opened Wrappers
  import opened Php
  import opened Strings
  import TagSpans
  import TagProtection
  import TagRewriting

  /** "La casa e bella" is all ASCII; "La casa è bella" is not. */
  lemma MultibyteExample(plain: string, accented: string)
    requires plain == "La casa e bella" && accented == "La casa è bella"
    ensures !IsMultibyte(plain) && IsMultibyte(accented)
  {
    assert (accented[8] as int) >= 0x80;
  }

  // The protection of one tag, on the self-closing tag of the protection test.

  /** `&lt;br/&gt;` becomes `ɑɑɑɑbr/ʒʒʒʒ`: only the escaped brackets change. */
  lemma EscapedBreakProtected(e: string)
    requires e == "&lt;br/&gt;"
    ensures ProtectTag(e) == "\U{0251}\U{0251}\U{0251}\U{0251}br/\U{0292}\U{0292}\U{0292}\U{0292}"
  {
    assert e == "&lt;" + "br/" + "&gt;";
    TagProtection.EscapedTagProtected("br/");
  }

  /** `<br/>` is rewritten even alone, its name ending with `/`. */
  lemma SelfClosingQualifies(e: string)
    requires e == "<br/>"
    ensures Qualifies([e], 0)
  {
    var m := "br/";
    assert e == "<" + m + ">";
    forall k | 0 <= k < |m| ensures !OccursAt(m, "&lt;", k) && !OccursAt(m, "&gt;", k) {
      NotOccursAt(m, "&lt;", k);
      NotOccursAt(m, "&gt;", k);
    }
    assert m[2] == '/';
    TagProtection.SlashTagGate([e], 0, m);
  }

  /** `<br/>` on its own is its only match. */
  lemma BreakTagElements(s: string)
    requires s == "<br/>"
    ensures TagSpans.Elements(s) == [s]
  {
    TagSpans.LastRawTag(s, 0);
    assert s[0..5] == s;
  }

  /** The sentinel text of `<br/>`. */
  lemma BreakTagImage()
    ensures CharMap(RawOpen) + "br/" + CharMap(RawClose)
         == "\U{0283}\U{0283}\U{0283}\U{0283}br/\U{00B6}\U{00B6}\U{00B6}\U{00B6}"
  {
  }

  /** `<br/>` on its own becomes `ʃʃʃʃbr/¶¶¶¶`. */
  lemma BreakTagProtected(s: string)
    requires s == "<br/>"
    ensures ProtectHTMLTags(s) == "\U{0283}\U{0283}\U{0283}\U{0283}br/\U{00B6}\U{00B6}\U{00B6}\U{00B6}"
  {
    BreakTagRewritten(s);
    BreakTagSentinels(s);
    BreakTagImage();
  }

  /** Its brackets become sentinel runs. */
  lemma BreakTagSentinels(s: string)
    requires s == "<br/>"
    ensures ProtectTag(s) == CharMap(RawOpen) + "br/" + CharMap(RawClose)
  {
    assert s == "<" + "br/" + ">";
    TagProtection.RawTagProtected("br/");
  }

  /** The one tag of `<br/>` is replaced by its protected form. */
  lemma BreakTagRewritten(s: string)
    requires s == "<br/>"
    ensures ProtectHTMLTags(s) == ProtectTag(s)
  {
    assert ProtectHTMLTags(s) == ReplaceAll(s, s, ProtectTag(s)) by {
      BreakTagElements(s);
      SelfClosingQualifies(s);
      TagRewriting.OneQualifyingTag(s, s);
    }
    assert s + [] == s;
    ReplaceAllLeading(s, [], ProtectTag(s));
  }

  // Tags with their closing tags, from the protection tests.

  /** A closing tag appended as one piece, or piece by piece. */
  lemma AppendPieces(front: string, p: string, m: string, q: string)
    ensures front + (p + m + q) == front + p + m + q
  {
  }

  /** The first paragraph of the raw-tag test, cut exactly as the paired-tag lemma
      writes it. */
  lemma ParagraphPieces(s: string)
    requires s == "<p>This is a p tag</p>"
    ensures s == "<" + "p" + ">" + "This is a p tag" + "</" + "p" + ">"
  {
    assert s == "<p>" + "This is a p tag" + "</p>";
    assert "<p>" == "<" + "p" + ">" && "</p>" == "</" + "p" + ">";
    AppendPieces("<" + "p" + ">" + "This is a p tag", "</", "p", ">");
  }

  /** The first paragraph of the raw-tag protection test has both of its tags
      rewritten: `ʃʃʃʃp¶¶¶¶This is a p tagʃʃʃʃ/p¶¶¶¶`. */
  lemma ParagraphProtected(s: string)
    requires s == "<p>This is a p tag</p>"
    ensures ProtectHTMLTags(s)
         == "\U{0283}\U{0283}\U{0283}\U{0283}" + "p" + "\U{00B6}\U{00B6}\U{00B6}\U{00B6}" + "This is a p tag" + "\U{0283}\U{0283}\U{0283}\U{0283}" + "/" + "p" + "\U{00B6}\U{00B6}\U{00B6}\U{00B6}"
  {
    ParagraphPieces(s);
    TagRewriting.PairedRawTags("p", "This is a p tag");
  }

  /** The escaped paragraph with attributes, cut after its opening tag and before its
      closing tag. */
  lemma EscapedParagraphCut(s: string)
    requires s == "&lt;p id='x' data-content='xxxx'&gt;Handling&lt;/p&gt;"
    ensures s == "&lt;p id='x' data-content='xxxx'&gt;" + "Handling" + "&lt;/p&gt;"
  {
  }

  /** The opening tag of the escaped paragraph, cut at its name and its attributes. */
  lemma EscapedParagraphOpening(o: string)
    requires o == "&lt;p id='x' data-content='xxxx'&gt;"
    ensures o == "&lt;" + "p" + " id='x' data-content='xxxx'" + "&gt;"
  {
  }

  /** The attributes of the escaped paragraph hold no bracket, ampersand or slash. */
  lemma EscapedParagraphAttributes(a: string)
    requires a == " id='x' data-content='xxxx'"
    ensures TagRewriting.PlainAttributes(a)
  {
    assert forall i :: 0 <= i < |a| ==> a[i] != '<' && a[i] != '>' && a[i] != '&' && a[i] != '/';
  }

  /** The escaped paragraph, cut exactly as the paired-tag lemma writes it. */
  lemma EscapedParagraphPieces(s: string)
    requires s == "&lt;p id='x' data-content='xxxx'&gt;Handling&lt;/p&gt;"
    ensures s == "&lt;" + "p" + " id='x' data-content='xxxx'" + "&gt;" + "Handling" + "&lt;/" + "p" + "&gt;"
  {
    EscapedParagraphCut(s);
    EscapedParagraphOpening("&lt;p id='x' data-content='xxxx'&gt;");
    assert "&lt;/p&gt;" == "&lt;/" + "p" + "&gt;";
    AppendPieces("&lt;" + "p" + " id='x' data-content='xxxx'" + "&gt;" + "Handling", "&lt;/", "p", "&gt;");
  }

  /** The escaped paragraph with attributes of the escaped-tag test becomes the
      expected string of that test,
      `ɑɑɑɑp id='x' data-content='xxxx'ʒʒʒʒHandlingɑɑɑɑ/pʒʒʒʒ`. */
  lemma EscapedParagraphProtected(s: string)
    requires s == "&lt;p id='x' data-content='xxxx'&gt;Handling&lt;/p&gt;"
    ensures ProtectHTMLTags(s)
         == "\U{0251}\U{0251}\U{0251}\U{0251}" + "p" + " id='x' data-content='xxxx'" + "\U{0292}\U{0292}\U{0292}\U{0292}" + "Handling"
            + "\U{0251}\U{0251}\U{0251}\U{0251}" + "/" + "p" + "\U{0292}\U{0292}\U{0292}\U{0292}"
  {
    EscapedParagraphPieces(s);
    EscapedParagraphAttributes(" id='x' data-content='xxxx'");
    assert TagRewriting.PlainName("p") && '<' !in "Handling" && '&' !in "Handling";
    TagRewriting.PairedEscapedTags("p", " id='x' data-content='xxxx'", "Handling");
  }

  // The first password: one `<…>` span, without `/`, and no later span to pair with.

  const Password1: string := "3mM?t<T0&3AhFl`>#"

  lemma Password1Head(s: string)
    requires s == Password1
    ensures TagSpans.SpansFrom(s, 0) == TagSpans.SpansFrom(s, 5)
  {
    forall i | 0 <= i < 5 ensures s[i] != '<' && !OccursAt(s, "&lt;", i) {
      NotOccursAt(s, "&lt;", i);
    }
    TagSpans.NoTagsBetween(s, 0, 5);
  }

  lemma Password1Close(s: string)
    requires s == Password1
    ensures s[5] == '<' && !OccursAt(s, "&lt;", 5)
    ensures IndexOf(s, ">", 6) == Some(15)
  {
    NotOccursAt(s, "&lt;", 5);
    forall j | 6 <= j < 15 ensures !OccursAt(s, ">", j) {
      OccursAtChar(s, '>', j);
    }
    OccursAtChar(s, '>', 15);
    IndexOfIs(s, ">", 6, 15);
  }

  lemma Password1Tail(s: string)
    requires s == Password1
    ensures TagSpans.SpansFrom(s, 16) == []
  {
    forall i | 16 <= i < |s| ensures s[i] != '<' && !OccursAt(s, "&lt;", i) {
      NotOccursAt(s, "&lt;", i);
    }
    TagSpans.NoTagsBetween(s, 16, |s|);
  }

  lemma Password1Elements(s: string)
    requires s == Password1
    ensures TagSpans.Elements(s) == [s[5..16]]
  {
    Password1Head(s);
    Password1Close(s);
    Password1Tail(s);
    TagSpans.RawSpanStep(s, 5, 15);
  }

  lemma Password1TagHasNoSlash(s: string)
    requires s == Password1
    ensures !Contains("/", s[5..16])
  {
    var e := s[5..16];
    forall k: nat ensures !OccursAt(e, "/", k) {
      if k < |e| {
        assert e[k] == s[5 + k];
      }
      NotOccursAt(e, "/", k);
    }
  }

  /** `3mM?t<T0&3AhFl`>#` is left as it is. */
  lemma Password1Unchanged(s: string)
    requires s == Password1
    ensures ProtectHTMLTags(s) == s
  {
    Password1Elements(s);
    Password1TagHasNoSlash(s);
    TagProtection.LoneOpeningTag(s, s[5..16]);
  }

  // The second password: one `<…>` span with `/` inside its name, not at its ends.

  const Password2: string := "<~&6^{ck/Px>ky(0wzx"

  lemma Password2Close(s: string)
    requires s == Password2
    ensures s[0] == '<' && !OccursAt(s, "&lt;", 0)
    ensures IndexOf(s, ">", 1) == Some(11)
  {
    NotOccursAt(s, "&lt;", 0);
    forall j | 1 <= j < 11 ensures !OccursAt(s, ">", j) {
      OccursAtChar(s, '>', j);
    }
    OccursAtChar(s, '>', 11);
    IndexOfIs(s, ">", 1, 11);
  }

  lemma Password2Tail(s: string)
    requires s == Password2
    ensures TagSpans.SpansFrom(s, 12) == []
  {
    forall i | 12 <= i < |s| ensures s[i] != '<' && !OccursAt(s, "&lt;", i) {
      NotOccursAt(s, "&lt;", i);
    }
    TagSpans.NoTagsBetween(s, 12, |s|);
  }

  lemma Password2Elements(s: string)
    requires s == Password2
    ensures TagSpans.Elements(s) == [s[0..12]]
  {
    Password2Close(s);
    Password2Tail(s);
    TagSpans.RawSpanStep(s, 0, 11);
  }

  lemma Password2Name(s: string)
    requires s == Password2
    ensures 11 < |s| && s[0] == '<' && s[11] == '>'
    ensures TagProtection.PlainSlashName(s[1..11])
  {
    var m := s[1..11];
    assert m == "~&6^{ck/Px";
    forall k | 0 <= k < |m| ensures !OccursAt(m, "&lt;", k) && !OccursAt(m, "&gt;", k) {
      if k == 1 {
        assert m[1..5][1] == '6';
      } else {
        NotOccursAt(m, "&lt;", k);
        NotOccursAt(m, "&gt;", k);
      }
    }
  }

  lemma Password2Facts(s: string)
    requires s == Password2
    ensures TagProtection.LoneSlashTagAt(s, 0, 11)
  {
    Password2Elements(s);
    Password2Name(s);
  }

  /** `<~&6^{ck/Px>ky(0wzx` is left as it is. */
  lemma Password2Unchanged(s: string)
    requires s == Password2
    ensures ProtectHTMLTags(s) == s
  {
    Password2Facts(s);
    TagProtection.LoneSlashTag(s, 0, 11);
  }
}

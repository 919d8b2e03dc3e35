/** Worked examples of the position correction, on haystacks from the package's tests.
    The engine reports byte offsets; `mbFindTheCorrectPosition` walks back from such an
    offset to the character index where the matched text starts. */
module FinderExamples {
  import opened Wrappers
  import opened Php
  import opened WholeTextFinder

  // One two-byte letter before two copies of the needle: each byte offset is one more
  // than the character index.

  const Bella: string := "La casa è bella bella"

  lemma BellaAt(h: string)
    requires h == Bella
    ensures MatchesAt(h, "bella", 10) && !MatchesAt(h, "bella", 11)
    ensures MatchesAt(h, "bella", 16) && !MatchesAt(h, "bella", 17)
  {
    assert h[10..15] == "bella";
    assert h[16..21] == "bella";
    assert h[11..16][0] == 'e';
    assert MbSubstr(h, 17, 5) == h[17..] && h[17..][0] == 'e';
  }

  /** The engine reports `bella` at bytes 11 and 17; the corrected positions are 10 and 16. */
  lemma BellaExample(h: string)
    requires h == Bella
    ensures MbFindTheCorrectPosition(h, "bella", 11) == Some(10)
    ensures MbFindTheCorrectPosition(h, "bella", 17) == Some(16)
  {
    BellaAt(h);
  }

  // A needle that also ends a longer word: the walk back stops at the first start found,
  // inside `linguaggio` for the first offset and at the lone `ggio` for the second.

  const Ggio: string := "PHP é il @ linguaggio ggio #1 del mondo."

  lemma GgioAt(h: string)
    requires h == Ggio
    ensures MatchesAt(h, "ggio", 17) && !MatchesAt(h, "ggio", 18)
    ensures MatchesAt(h, "ggio", 22) && !MatchesAt(h, "ggio", 23)
  {
    assert h[17..21] == "ggio" by {
      assert h[17] == 'g' && h[18] == 'g' && h[19] == 'i' && h[20] == 'o';
    }
    assert h[22..26] == "ggio" by {
      assert h[22] == 'g' && h[23] == 'g' && h[24] == 'i' && h[25] == 'o';
    }
    assert h[18..22][1] == 'i';
    assert h[23..27][1] == 'i';
  }

  /** The engine reports `ggio` at bytes 18 and 23; the corrected positions are 17 and 22. */
  lemma GgioExample(h: string)
    requires h == Ggio
    ensures MbFindTheCorrectPosition(h, "ggio", 18) == Some(17)
    ensures MbFindTheCorrectPosition(h, "ggio", 23) == Some(22)
  {
    GgioAt(h);
  }
}

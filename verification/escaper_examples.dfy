/** Worked examples of the escaper, on short needles cut from the package's own test
    strings. Each needle is a parameter fixed by its precondition; the escaped text is
    evaluated in a separate small lemma and the boundaries are placed through
    `EscapeWholeTextShape`. */
module EscaperExamples {
  import opened RegexEscaper

  // escapeRegularPattern.

  /** Round brackets are escaped, the letters between them are copied. */
  lemma EscapeBracketsExample(n: string)
    requires n == "(ling)"
    ensures EscapeRegularPattern(n) == "\\(ling\\)"
  {
    EscapeIsPerChar(n);
    Evaluate1();
  }

  /** `#` is escaped, as `preg_quote` does since PHP 7.3. */
  lemma EscapeHashExample(n: string)
    requires n == "#1"
    ensures EscapeRegularPattern(n) == "\\#1"
  {
    EscapeIsPerChar(n);
    Evaluate2();
  }

  /** `@`, an accented letter and an emoji are copied. */
  lemma EscapeCopiesExample(n: string)
    requires n == "@é\U{1F600}"
    ensures EscapeRegularPattern(n) == n
  {
    EscapeIsPerChar(n);
    Evaluate3();
  }

  /** `/` is written `\/`, the pattern delimiter being `/`. */
  lemma EscapeSlashExample(n: string)
    requires n == "a/b"
    ensures EscapeRegularPattern(n) == "a\\/b"
  {
    EscapeIsPerChar(n);
    Evaluate4();
  }

  // escapeWholeTextPattern.

  lemma EscapedMixed(n: string)
    requires n == "x/8"
    ensures EscapeRegularPattern(n) == "x\\/8"
  {
    EscapeIsPerChar(n);
    Evaluate5();
  }

  /** A needle that starts and ends with a word character gets `\b` at both ends;
      the escaped delimiter in between is kept. */
  lemma WholeTextMixedExample(isWord: char -> bool, n: string)
    requires AsciiWordClass(isWord)
    requires n == "x/8"
    ensures EscapeWholeTextPattern(isWord, n) == "\\bx\\/8\\b"
  {
    EscapedMixed(n);
    var e := EscapeRegularPattern(n);
    assert LeastWordIndex(isWord, e, 0);
    assert GreatestWordIndex(isWord, e, 3);
    EscapeWholeTextShape(isWord, n, 0, 3);
    assert e[..0] == [] && e[0..4] == e && e[4..] == [];
  }

  lemma EscapedSentence(n: string)
    requires n == "(il)."
    ensures EscapeRegularPattern(n) == "\\(il\\)\\."
  {
    EscapeIsPerChar(n);
    Evaluate6();
  }

  /** The opening `\b` goes before the first word character and the closing one after
      the last, so the brackets and the full stop stay outside them. */
  lemma WholeTextSentenceExample(isWord: char -> bool, n: string)
    requires AsciiWordClass(isWord)
    requires n == "(il)."
    ensures EscapeWholeTextPattern(isWord, n) == "\\(\\bil\\b\\)\\."
  {
    EscapedSentence(n);
    var e := EscapeRegularPattern(n);
    SentenceIndices(isWord, e);
    EscapeWholeTextShape(isWord, n, 2, 3);
    SentenceAssembly(e);
  }

  lemma SentenceIndices(isWord: char -> bool, e: string)
    requires AsciiWordClass(isWord)
    requires e == "\\(il\\)\\."
    ensures LeastWordIndex(isWord, e, 2) && GreatestWordIndex(isWord, e, 3)
  {
  }

  lemma SentenceAssembly(e: string)
    requires e == "\\(il\\)\\."
    ensures e[..2] + Boundary + e[2..4] + Boundary + e[4..] == "\\(\\bil\\b\\)\\."
  {
    assert e[..2] == "\\(" && e[2..4] == "il" && e[4..] == "\\)\\.";
  }

  lemma EscapedCyrillic(n: string)
    requires n == "Т & т"
    ensures EscapeRegularPattern(n) == n
  {
    EscapeIsPerChar(n);
    Evaluate7();
  }

  /** Cyrillic letters are word characters of the `u`-mode class; the interior space
      and ampersand get no boundary. */
  lemma WholeTextCyrillicExample(isWord: char -> bool, n: string)
    requires AsciiWordClass(isWord) && isWord('Т') && isWord('т')
    requires n == "Т & т"
    ensures EscapeWholeTextPattern(isWord, n) == "\\b" + n + "\\b"
  {
    EscapedCyrillic(n);
    var e := EscapeRegularPattern(n);
    assert LeastWordIndex(isWord, e, 0);
    assert GreatestWordIndex(isWord, e, 4);
    EscapeWholeTextShape(isWord, n, 0, 4);
    assert e[..0] == [] && e[0..5] == e && e[5..] == [];
  }

  // Evaluations of the per-character escape on short literals.

  lemma Evaluate1()
    ensures EscapeEach("(ling)") == "\\(ling\\)"
  {
  }

  lemma Evaluate2()
    ensures EscapeEach("#1") == "\\#1"
  {
  }

  lemma Evaluate3()
    ensures EscapeEach("@é\U{1F600}") == "@é\U{1F600}"
  {
  }

  lemma Evaluate4()
    ensures EscapeEach("a/b") == "a\\/b"
  {
  }

  lemma Evaluate5()
    ensures EscapeEach("x/8") == "x\\/8"
  {
  }

  lemma Evaluate6()
    ensures EscapeEach("(il).") == "\\(il\\)\\."
  {
  }

  lemma Evaluate7()
    ensures EscapeEach("Т & т") == "Т & т"
  {
  }
}

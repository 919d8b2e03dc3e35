/** `WholeTextRegexEscaper`, the older copy of the escaper kept at the package root.
    It is written here as the source writes it, with loops and with the boundary
    positions recomputed for every letter, and each piece is shown to compute what
    `RegexEscaper` computes. Its boundary class `[\w]` is the class `\w` itself, so
    both use `RegexEscaper.IsBoundary`. */
module WholeTextRegexEscaper {
  import opened Php
  import opened Strings
  import RegexEscaper

  /** `escapeRegularPattern`: the same `preg_quote` and `/` pass as the newer copy;
      the needle can be read back from its result. */
  function EscapeRegularPattern(needle: string): (r: string)
    ensures r == RegexEscaper.EscapeRegularPattern(needle)
    ensures RegexEscaper.Unescape(r) == needle
  {
    RegexEscaper.EscapeRoundTrip(needle);
    ReplaceAll(RegexEscaper.PregQuote(needle), "/", "\\/")
  }

  /** `getFirstBounduaryPosition`: scans upwards for the first letter in the word class. */
  method GetFirstBoundaryPosition(isWord: char -> bool, parts: seq<string>) returns (r: int)
    ensures r == -1 <==> forall j :: 0 <= j < |parts| ==> !RegexEscaper.IsBoundary(isWord, parts[j])
    ensures r == RegexEscaper.FirstBoundaryPosition(isWord, parts)
  {
    var i := 0;
    while i < |parts|
      invariant 0 <= i <= |parts|
      invariant forall j :: 0 <= j < i ==> !RegexEscaper.IsBoundary(isWord, parts[j])
    {
      if RegexEscaper.IsBoundary(isWord, parts[i]) {
        return i;
      }
      i := i + 1;
    }
    return -1;
  }

  /** `getLastBounduaryPosition`: scans downwards for the last letter in the word class. */
  method GetLastBoundaryPosition(isWord: char -> bool, parts: seq<string>) returns (r: int)
    ensures r == -1 <==> forall j :: 0 <= j < |parts| ==> !RegexEscaper.IsBoundary(isWord, parts[j])
    ensures r == RegexEscaper.LastBoundaryPosition(isWord, parts)
  {
    var i := |parts| - 1;
    while i >= 0
      invariant -1 <= i < |parts|
      invariant forall j :: i < j < |parts| ==> !RegexEscaper.IsBoundary(isWord, parts[j])
    {
      if RegexEscaper.IsBoundary(isWord, parts[i]) {
        return i;
      }
      i := i - 1;
    }
    return -1;
  }

  /** `escapeWholeTextPattern`: for every letter, recompute both boundary positions,
      write `\b` before the letter at the first and after the letter at the last.
      It agrees with the newer escaper on every needle. */
  method EscapeWholeTextPattern(isWord: char -> bool, needle: string) returns (r: string)
    ensures r == RegexEscaper.EscapeWholeTextPattern(isWord, needle)
  {
    var escaped := EscapeRegularPattern(needle);
    var parts := Split(escaped);
    ghost var first0 := RegexEscaper.FirstBoundaryPosition(isWord, parts);
    ghost var last0 := RegexEscaper.LastBoundaryPosition(isWord, parts);
    var final := "";
    var index := 0;
    while index < |parts|
      invariant 0 <= index <= |parts|
      invariant final + RegexEscaper.AssembleFrom(parts, first0, last0, index)
             == RegexEscaper.AssembleFrom(parts, first0, last0, 0)
    {
      var first := GetFirstBoundaryPosition(isWord, parts);
      var last := GetLastBoundaryPosition(isWord, parts);
      var piece := (if index == first then RegexEscaper.Boundary else "") + parts[index]
        + (if index == last then RegexEscaper.Boundary else "");
      ghost var rest := RegexEscaper.AssembleFrom(parts, first0, last0, index + 1);
      RegexEscaper.AssembleStep(parts, first0, last0, index);
      Associative(final, piece, rest);
      final := final + piece;
      index := index + 1;
    }
    r := final;
  }
}

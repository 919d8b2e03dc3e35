# whole-text-finder, modelled in Dafny

This project models the text pipeline of the PHP library `matecat/whole-text-finder`. The library finds, and optionally replaces, a needle in a haystack through PCRE. The pipeline is everything around the engine:

- the needle is turned into a pattern: non-breaking spaces are cut, tags are protected, entities are decoded, the needle is escaped, `\b` boundaries are optionally added, and delimiters and modifiers are added;
- the haystack is prepared the same way, in a different order;
- before a replacement, a guard alternative is put in front of the pattern, so markup is never matched;
- the byte offsets the engine reports are turned back into character positions.

Strings are `seq<char>` of code points. Three things are parameters, bundled in `WholeTextFinder.Runtime`:
- the regex engine: `preg_match_all`'s `$matches[0]` and `preg_replace`, where `None` stands for null;
- `html_entity_decode`;
- the engine's Unicode `\w` class.

Everything else is written out:
- `str_replace` with arrays is modelled as a chain of left-to-right passes.
- The tag pattern `&lt;(.*?)&gt;|<(.*?)>` of `protectHTMLTags` is modelled as a hand-written scanner.
- `ltrim`, `mb_substr`, `strlen`, `explode(" ")` and `empty` are modelled from their PHP behaviour.

Modules:

- `Php`: the PHP built-ins the library uses.
- `Passes`: a proof that, under an independence condition, the chain of `str_replace` passes equals one simultaneous scan.
- `TagSpans`: the matches of the tag pattern.
- `Strings`: `Helper/Strings.php`.
- `TagRewriting`: what `protectHTMLTags` rewrites, for one qualifying tag and for a tag followed by its closing tag.
- `NbspLaws`: `cutNbsps`.
- `TagProtection`: the round trip of `protectHTMLTags`/`unprotectHTMLTags`, stated through a decoding of sentinel runs.
- `RegexEscaper`: `Helper/RegexEscaper.php`, with a per-character reference escaper and an unescaper as partners.
- `WholeTextRegexEscaper`: the legacy duplicate, written as the loops of the source and proved equal to `RegexEscaper`.
- `Replacer`: `Helper/Replacer.php`.
- `WholeTextFinder`: `WholeTextFinder.php`.
- `EscaperExamples`, `StringsExamples` and `FinderExamples`: cases taken from, or modelled on, the package's tests.

The code is followed where the library's documentation says otherwise:
- `ltrim($pattern, $pattern[0])` drops the whole leading run of the first character, not only the delimiter, so `//iu` becomes `iu`.
- `contains` is false for the haystack `"0"`, because PHP's `empty("0")` holds.
- The empty pattern reaches `getModifiedRegexPattern` as the guard alone.
- The empty needle reaches the engine as the guard followed by the modifiers, with no closing delimiter.
- `mbFindTheCorrectPosition` reads negative positions from the end, as `mb_substr` does. When no position down to `-strlen` matches, it recurses without end; the model gives `None` there.

## Model

| member | source | states |
|---|---|---|
| Php.IndexOf | src/Helper/Strings.php:88 | The least occurrence at or after the start, or none at all; this is where the lazy `.*?` of the tag pattern stops. |
| Php.StrContains | src/Helper/Strings.php:65 | `str_contains` holds exactly when the needle occurs at some index. |
| Php.LTrimChar | src/Helper/Replacer.php:48 | `ltrim` with one character: the result is a suffix, everything dropped is that character, and the result does not start with it. |
| Php.MbSubstr | src/WholeTextFinder.php:76 | `mb_substr` gives at most `len` characters, and exactly the slice when the slice fits. |
| Php.MbStart | src/WholeTextFinder.php:76 | A non-negative start is kept. A negative start down to `-strlen` counts from the end; one further below is clamped to 0. |
| Php.Utf8Width | src/Helper/Strings.php:46 | Each code point takes 1 to 4 UTF-8 bytes, and exactly 1 when it is ASCII. |
| Php.FirstToken | src/Helper/Strings.php:91 | `explode(" ", e)[0]` is a prefix without spaces, ending at the first space or at the end. |
| Php.ReplaceAllSingleConcat | src/Helper/RegexEscaper.php:87 | A one-character `str_replace` distributes over concatenation. |
| Php.ReplaceAllAbsent | src/Helper/Strings.php:92 | `str_replace` of a string that does not occur changes nothing. |
| Php.StrReplaceRemovesChar | src/Helper/Strings.php:92 | Once the pass for a single character has run, no later pass brings that character back unless its replacement holds it. |
| Passes.StrReplaceIsSimultaneous | src/Helper/Strings.php:135 | Under independence, the array `str_replace` (one pass per pair) equals one left-to-right scan that replaces whichever search string starts at each place. |
| Passes.SimultaneousCopiesPlain | src/Helper/Strings.php:121 | The scan copies text that holds no first character of any search string. |
| Strings.IsMultibyte | src/Helper/Strings.php:44-47 | The byte length exceeds the character count exactly when some character is outside ASCII. |
| Strings.StrLenExceedsLength | src/Helper/Strings.php:46 | `strlen` is at least `mb_strlen`, and strictly more exactly when a non-ASCII character is present. |
| Strings.Contains | src/Helper/Strings.php:59-66 | True exactly when the haystack is not PHP-empty (neither `""` nor `"0"`) and the needle occurs in it, so an empty haystack gives false for every needle. |
| Strings.Split | src/Helper/Strings.php:34-37 | `mb_str_split` gives one one-character string per code point, in order. |
| Strings.SplitJoin | src/Helper/Strings.php:34-37 | Joining the pieces gives the string back. |
| Strings.CutNbsps | src/Helper/Strings.php:16-19 | No U+00A0 is left: the second pass removes every one that the first pass leaves. |
| Strings.TagName | src/Helper/Strings.php:91-92 | The bare name of a tag holds no space, no `<`, no `>` and no `/`. |
| Strings.ClosingTagName | src/Helper/Strings.php:111-112 | The slash-tag name holds no space and no bracket. It holds `/` only when the first space-separated token of the tag does. |
| Strings.Qualifies | src/Helper/Strings.php:93-118 | A tag without `/` is rewritten only when some match follows it. A tag with `/` is rewritten only when the `/` is in its first token, so a tag whose only slash is in an attribute is never rewritten. |
| Strings.ProtectFrom | src/Helper/Strings.php:90-123 | When no match from the current one on qualifies, the loop returns the string as it is. |
| Strings.ProtectHTMLTags | src/Helper/Strings.php:88-89 | A string with no tag match comes back unchanged. What it rewrites is stated by the `TagRewriting` rows. |
| Strings.UnprotectHTMLTags | src/Helper/Strings.php:132-136 | `unprotectHTMLTags` is the identity on strings without sentinel characters. |
| NbspLaws.CutNbspsSteps | src/Helper/Strings.php:16-19 | `&nbsp;` and U+00A0 each become one space; every other character is copied in order. |
| NbspLaws.CutNbspsRemovesAll | src/Helper/Strings.php:18 | The result holds neither `&nbsp;` nor U+00A0. |
| NbspLaws.CutNbspsKeepsNbspFree | src/Helper/Strings.php:18 | A string holding neither is unchanged. |
| NbspLaws.CutNbspsIdempotent | src/Helper/Strings.php:16-19 | Applying it twice equals applying it once. |
| TagSpans.SpansFrom | src/Helper/Strings.php:88 | Every match is an escaped tag up to the first `&gt;` or a raw tag up to the first `>`. Matches come left to right and never overlap. Every position where such a tag starts lies inside some match, so none is missed. |
| TagSpans.EscapedMatchIsTag | src/Helper/Strings.php:88 | An `&lt;` closed by the first `&gt;` after it spans an escaped tag. |
| TagSpans.RawMatchIsTag | src/Helper/Strings.php:88 | A `<` closed by the first `>` after it spans a raw tag. |
| TagSpans.NoTagsBetween | src/Helper/Strings.php:88 | A stretch without `<` and without `&lt;` holds no match. |
| TagSpans.Spans | src/Helper/Strings.php:88 | All matches are tag spans, in order and disjoint, and every place where a tag starts lies inside one of them. |
| TagSpans.Elements | src/Helper/Strings.php:88-90 | `$matches[0]` holds one text per match, and that text is the matched slice. |
| TagSpans.TwoRawTags | src/Helper/Strings.php:88 | A string that is a raw tag, a stretch with no `<` and no `&`, and a second raw tag has exactly those two tags as its matches. |
| TagSpans.TwoEscapedTags | src/Helper/Strings.php:88 | The same for two escaped tags around a stretch with no `<` and no `&`. |
| TagProtection.UnprotectIsScan | src/Helper/Strings.php:132-136 | The four passes of `unprotectHTMLTags` equal one scan turning each sentinel run into its markup. |
| TagProtection.ProtectTagIsScan | src/Helper/Strings.php:121 | The four passes that protect one tag equal one scan turning each bracket into its sentinel run. |
| TagProtection.RawTagProtected | src/Helper/Strings.php:120-121 | Protecting `<m>` replaces only its two brackets, by `ʃʃʃʃ` and `¶¶¶¶`. |
| TagProtection.EscapedTagProtected | src/Helper/Strings.php:120-121 | Protecting `&lt;m&gt;` replaces only its escaped brackets, by `ɑɑɑɑ` and `ʒʒʒʒ`. |
| TagProtection.EncodeDecodes | src/Helper/Strings.php:120-121 | The protected form of a sentinel-free tag decodes back to the tag. |
| TagProtection.ReplaceKeepsDecoding | src/Helper/Strings.php:122 | Replacing every occurrence of a tag by its protected form leaves the decoding unchanged. |
| TagProtection.ProtectFromKeepsDecoding | src/Helper/Strings.php:90-123 | The whole loop over the matches leaves the decoding unchanged. |
| TagProtection.ProtectRoundTrip | src/Helper/Strings.php:86-136 | `unprotectHTMLTags(protectHTMLTags(s)) == s` for every sentinel-free `s`. |
| TagProtection.LoneOpeningTag | src/Helper/Strings.php:94-107 | A lone tag without `/` has no later tag with its name, and is left alone. |
| TagProtection.BracketedClosingName | src/Helper/Strings.php:111-112 | The slash-tag name of `<m>` is `m` when `m` holds no bracket, space or escaped bracket. |
| TagProtection.SlashTagGate | src/Helper/Strings.php:110-118 | A tag with `/` is rewritten exactly when its name starts or ends with `/`. |
| TagProtection.SlashTagSkipped | src/Helper/Strings.php:110-118 | A lone tag whose name neither starts nor ends with `/` does not qualify. |
| TagProtection.LoneSlashTag | src/Helper/Strings.php:86-126 | A string whose only tag is such a slash tag is left alone. |
| TagRewriting.OneQualifyingTag | src/Helper/Strings.php:88-123 | With a single match that qualifies, the result is that match replaced by its protected form at every occurrence. |
| TagRewriting.TwoQualifying | src/Helper/Strings.php:88-123 | With two matches that both qualify, the result is two `str_replace` passes: the first match by its protected form, then the second. |
| TagRewriting.OpeningQualifies | src/Helper/Strings.php:94-107 | A tag without `/` qualifies when a later match has the same bare name. |
| TagRewriting.SlashQualifies | src/Helper/Strings.php:110-118 | A tag with `/` qualifies when its slash-tag name starts with `/`. |
| TagRewriting.TagNameDropsSlash | src/Helper/Strings.php:91-112 | The bare name is the slash-tag name with every `/` removed. |
| TagRewriting.RawPairNames | src/Helper/Strings.php:91-112 | `<m>` and `</m>` have the same bare name `m`, and the slash-tag name of `</m>` is `/m`. |
| TagRewriting.EscapedPairNames | src/Helper/Strings.php:91-112 | `&lt;m a&gt;` and `&lt;/m&gt;` have the same bare name `m`, also with attributes `a`, and the slash-tag name of `&lt;/m&gt;` is `/m`. |
| TagRewriting.RawPairElements | src/Helper/Strings.php:88 | `<m>x</m>`, with no `<` or `&` in `x`, has exactly the two matches `<m>` and `</m>`. |
| TagRewriting.EscapedPairElements | src/Helper/Strings.php:88 | `&lt;m a&gt;x&lt;/m&gt;` has exactly the two matches `&lt;m a&gt;` and `&lt;/m&gt;`. |
| TagRewriting.RawPairProtected | src/Helper/Strings.php:86-126 | `<m>x</m>` becomes the protected forms of its two tags around `x`. |
| TagRewriting.EscapedPairProtected | src/Helper/Strings.php:86-126 | `&lt;m a&gt;x&lt;/m&gt;` becomes the protected forms of its two tags around `x`. |
| TagRewriting.PairedRawTags | src/Helper/Strings.php:86-126 | `<m>x</m>` becomes `ʃʃʃʃm¶¶¶¶xʃʃʃʃ/m¶¶¶¶`. |
| TagRewriting.PairedEscapedTags | src/Helper/Strings.php:86-126 | `&lt;m a&gt;x&lt;/m&gt;` becomes `ɑɑɑɑm aʒʒʒʒxɑɑɑɑ/mʒʒʒʒ`. |
| RegexEscaper.PregQuote | src/Helper/RegexEscaper.php:85 | `preg_quote` never shortens the needle, and its result holds `/` exactly when the needle does: without a delimiter `/` is left alone. |
| RegexEscaper.EscapeEach | src/Helper/RegexEscaper.php:83-88 | The per-character reference escape is never shorter than the needle, and every `/` in it comes right after a backslash. |
| RegexEscaper.EscapeRegularPattern | src/Helper/RegexEscaper.php:83-88 | The escape equals the per-character reference, so every `/` in it comes right after a backslash and cannot end a `/`-delimited pattern. |
| RegexEscaper.EscapeIsPerChar | src/Helper/RegexEscaper.php:83-88 | `preg_quote` followed by `/`→`\/` equals escaping each character independently: metacharacters get a backslash, NUL becomes `\000`, `/` becomes `\/`, and the rest is copied. |
| RegexEscaper.EscapeConcat | src/Helper/RegexEscaper.php:83-88 | Escaping distributes over concatenation. |
| RegexEscaper.EscapeRoundTrip | src/Helper/RegexEscaper.php:83-88 | Unescaping the escaped needle gives the needle back. |
| RegexEscaper.EscapedHead | src/Helper/RegexEscaper.php:85-87 | A non-empty escaped needle starts with `\` or with the needle's first character, and never with `/`. |
| RegexEscaper.FirstBoundaryPosition | src/Helper/RegexEscaper.php:41-50 | -1 exactly when no piece is a word character; otherwise the least index of one. |
| RegexEscaper.LastBoundaryPosition | src/Helper/RegexEscaper.php:57-66 | -1 exactly when no piece is a word character; otherwise the greatest index of one. It is -1 exactly when the first position is, and otherwise not below it. |
| RegexEscaper.SplitBoundaries | src/Helper/RegexEscaper.php:73-76 | A one-character piece is a boundary exactly when its character is in the `\w` class. |
| RegexEscaper.EscapeWholeTextPattern | src/Helper/RegexEscaper.php:14-34 | With no word character in the escaped needle, nothing is inserted. Otherwise the result is exactly two `\b` tokens longer than the escaped needle. |
| RegexEscaper.EscapeWholeTextShape | src/Helper/RegexEscaper.php:14-34 | With no word character (the empty needle included) the result is the plain escape. Otherwise it is the plain escape with exactly two `\b`, one right before its first word character and one right after its last. |
| RegexEscaper.ShapeWithWord | src/Helper/RegexEscaper.php:19-33 | The two `\b` go around the least and greatest word-character indices, also when these coincide. |
| RegexEscaper.WholeTextHead | src/Helper/RegexEscaper.php:14-34 | The whole-text escape of a non-empty needle is non-empty and does not start with `/`. |
| WholeTextRegexEscaper.EscapeRegularPattern | src/WholeTextRegexEscaper.php:83-88 | The legacy escape equals `RegexEscaper`'s on every needle, and unescapes to the needle. |
| WholeTextRegexEscaper.GetFirstBoundaryPosition | src/WholeTextRegexEscaper.php:39-48 | The legacy loop returns -1 exactly when no piece is a word character, and agrees with `RegexEscaper`'s first position. |
| WholeTextRegexEscaper.GetLastBoundaryPosition | src/WholeTextRegexEscaper.php:55-64 | The legacy loop returns -1 exactly when no piece is a word character, and agrees with `RegexEscaper`'s last position. |
| WholeTextRegexEscaper.EscapeWholeTextPattern | src/WholeTextRegexEscaper.php:12-32 | The legacy whole-text escape equals `RegexEscaper`'s for every needle and word class. |
| Replacer.GetModifiedRegexPattern | src/Helper/Replacer.php:46-49 | The guard comes first. After it comes the pattern minus the whole leading run of its first character: a proper suffix of a non-empty pattern, not starting with that character. |
| Replacer.DelimitedPattern | src/Helper/Replacer.php:48 | `/body/flags` with a body not starting with `/` reaches the engine as the guard, then `body/flags`. |
| Replacer.DoubledDelimiterExample | src/Helper/Replacer.php:48 | `//iu` reaches the engine as the guard followed by `iu`. |
| Replacer.EmptyBodyPattern | src/Helper/Replacer.php:48 | `//flags` loses both delimiters: only the flags follow the guard. |
| Replacer.Replace | src/Helper/Replacer.php:24-27 | The engine's replacement when it yields one; otherwise the haystack unchanged. |
| WholeTextFinder.PrepareNeedle | src/WholeTextFinder.php:126-127 | With nothing skipped, the needle is used as given when spaces are preserved, and holds no non-breaking space when they are cut. With tags skipped, an entity-free decoder and spaces preserved, unprotecting gives the needle back. |
| WholeTextFinder.Flags | src/WholeTextFinder.php:132-133 | `i` is present exactly when the search is not case sensitive, and `u` exactly when entities are skipped; no other modifier, and `i` before `u`. |
| WholeTextFinder.GetSearchPattern | src/WholeTextFinder.php:124-136 | The pattern is `/`, the body, `/`, then the flags. A plain body unescapes to the prepared needle. Without `exactMatch`, or when the escaped needle has no word character, the body is exactly the per-character escape of the prepared needle. The character after the first `/` is `/` exactly when the prepared needle is empty. |
| WholeTextFinder.BodyFacts | src/WholeTextFinder.php:130 | Either escape is empty exactly for the empty needle and never starts with `/`. |
| WholeTextFinder.WholeTextSearchPattern | src/WholeTextFinder.php:129-133 | With `exactMatch`, the body is the escaped needle with `\b` around its word part. |
| WholeTextFinder.SearchPatternReachesEngine | src/WholeTextFinder.php:155-156 | A non-empty needle's pattern reaches `preg_replace` as the guard followed by everything after the opening `/`; an empty needle's as the guard and the flags. |
| WholeTextFinder.PrepareHaystack | src/WholeTextFinder.php:104-105 | No non-breaking space is left unless spaces are preserved. With nothing skipped and spaces preserved, it is the input itself. With tags skipped, an entity-free decoder and spaces preserved, unprotecting gives the input back. |
| WholeTextFinder.GetPatternAndHaystack | src/WholeTextFinder.php:101-111 | The pattern is the search pattern. The haystack holds no non-breaking space unless they are preserved. It is the input itself when nothing is skipped or cut. Unprotecting it gives back the input when tags are skipped, entities are left alone and spaces are preserved. |
| WholeTextFinder.NbspOrderExample | src/WholeTextFinder.php:101-127 | The needle is cut before decoding and the haystack after: `&#160;` reaches the pattern as U+00A0, which no prepared haystack holds. |
| WholeTextFinder.MbFindTheCorrectPosition | src/WholeTextFinder.php:74-85 | The result is at or below the start and its character slice equals the word; no position between it and the start matches. `None` (no termination) exactly when nothing from `-strlen` up to the start matches. Any matching index at or below the start lies at or below the result. |
| WholeTextFinder.CorrectPosition | src/WholeTextFinder.php:74-85 | The walk as a decreasing loop gives the same answer. |
| WholeTextFinder.ByteOffsetCorrected | src/WholeTextFinder.php:74-85 | From the byte offset of a true occurrence, the walk stops between that occurrence's character index and the byte offset, and exactly at the occurrence when everything before it is ASCII. |
| WholeTextFinder.CorrectAll | src/WholeTextFinder.php:56-62 | Every match keeps its text and gets its corrected position; the result fails exactly when one correction does. |
| WholeTextFinder.MbCorrectMatchPositions | src/WholeTextFinder.php:50-63 | A haystack without multibyte characters leaves the matches unchanged. Otherwise the number, order and texts are kept, and each position is the walk's answer for its match: the nearest index at or below the reported offset where the text is found. It fails exactly when one walk does not terminate. |
| WholeTextFinder.Find | src/WholeTextFinder.php:25-39 | The engine's matches on the prepared haystack, with the same count and texts, and positions at or below the reported ones. They are unchanged when the searched text is ASCII. Otherwise each position is the walk's answer for its match, the nearest index where its text is found. It is `None` exactly when the searched text is multibyte and some walk does not terminate. |
| WholeTextFinder.FindAndReplace | src/WholeTextFinder.php:153-166 | It fails exactly when `find` does. The occurrences are `find`'s for the same haystack, needle and flags, whatever the replacement. When the engine yields a value, the replacement is that value, unprotected exactly when entities are skipped. When it yields nothing, the replacement is the searched text. |
| WholeTextFinder.NothingReplacedKeepsHaystack | src/WholeTextFinder.php:153-166 | With tags skipped, spaces preserved, an entity-free decoder and a sentinel-free haystack, an engine that yields nothing or the prepared haystack itself gives back the original haystack. |
| EscaperExamples.EscapeBracketsExample | tests/RegexEscaperTest.php:13-20 | `(ling)` escapes to `\(ling\)`. |
| EscaperExamples.EscapeHashExample | tests/RegexEscaperTest.php:13-20 | `#1` escapes to `\#1`. |
| EscaperExamples.EscapeCopiesExample | tests/RegexEscaperTest.php:13-20 | `@`, `é` and an emoji are copied. |
| EscaperExamples.EscapeSlashExample | tests/RegexEscaperTest.php:33-35 | `a/b` escapes to `a\/b`. |
| EscaperExamples.WholeTextMixedExample | tests/RegexEscaperTest.php:33-35 | `x/8` gives `\bx\/8\b`. |
| EscaperExamples.WholeTextSentenceExample | tests/RegexEscaperTest.php:25-30 | `(il).` gives `\(\bil\b\)\.`: trailing punctuation stays outside the boundary. |
| EscaperExamples.WholeTextCyrillicExample | tests/WholeTextRegexEscaperTest.php:43-50 | `Т & т` gives `\bТ & т\b`: the interior space and ampersand get no boundary. |
| StringsExamples.MultibyteExample | tests/Matecat/Tests/Finder/StringsTest.php:22-30 | "La casa e bella" is not multibyte; "La casa è bella" is. |
| StringsExamples.EscapedBreakProtected | tests/Matecat/Tests/Finder/StringsTest.php:55-65 | `&lt;br/&gt;` is protected as `ɑɑɑɑbr/ʒʒʒʒ`. |
| StringsExamples.SelfClosingQualifies | src/Helper/Strings.php:110-118 | `<br/>` qualifies for rewriting even alone. |
| StringsExamples.BreakTagProtected | src/Helper/Strings.php:110-122 | `<br/>` on its own becomes `ʃʃʃʃbr/¶¶¶¶`: a self-closing tag is rewritten without a partner. |
| StringsExamples.ParagraphProtected | tests/Matecat/Tests/Finder/StringsTest.php:35-37 | `<p>This is a p tag</p>`, the first paragraph of the test string, becomes `ʃʃʃʃp¶¶¶¶This is a p tagʃʃʃʃ/p¶¶¶¶`. |
| StringsExamples.EscapedParagraphProtected | tests/Matecat/Tests/Finder/StringsTest.php:58-73 | `&lt;p id='x' data-content='xxxx'&gt;Handling&lt;/p&gt;` becomes the expected `ɑɑɑɑp id='x' data-content='xxxx'ʒʒʒʒHandlingɑɑɑɑ/pʒʒʒʒ`. |
| StringsExamples.Password1Unchanged | tests/Matecat/Tests/Finder/StringsTest.php:87-99 | ``3mM?t<T0&3AhFl`>#`` is left unchanged by the protection. |
| StringsExamples.Password2Unchanged | tests/Matecat/Tests/Finder/StringsTest.php:87-99 | `<~&6^{ck/Px>ky(0wzx` is left unchanged by the protection. |
| FinderExamples.BellaExample | tests/WholeTextFinderTest.php:13-23 | In `La casa è bella bella`, the byte offsets 11 and 17 of `bella` are corrected to 10 and 16. |
| FinderExamples.GgioExample | tests/WholeTextFinderTest.php:145-172 | In `PHP é il @ linguaggio ggio #1 del mondo.`, the byte offsets 18 and 23 of `ggio` are corrected to 17 and 22. |

## Left out

- The regex engine (`preg_match_all`, `preg_replace`) is an uninterpreted parameter. The semantics of `(*SKIP)(*FAIL)`, `\b` and case folding belong to PCRE. A failing `preg_match_all` (an invalid pattern) is not modelled: its `$matches` would be undefined.
- `html_entity_decode` (src/Helper/Strings.php:26-29) is an uninterpreted parameter. Its entity table is not modelled.
- The Unicode `\w` class of `isBoundary` is a parameter. Only its ASCII part is pinned down, by `RegexEscaper.AsciiWordClass`: letters, digits and `_` are word characters; backslash, space and ASCII punctuation are not. Both escapers use this same parameter, so `[\w]` and `\w` are one predicate here.
- `mb_str_split`'s internals: strings are code-point sequences, and splitting is one piece per code point.
- `Replacer.GetModifiedRegexPattern`: `ltrim` on a pattern whose first character is not ASCII trims bytes in PHP and code points here. Every pattern the finder builds starts with `/`, where the two agree.
- `WholeTextFinder.MbFindTheCorrectPosition`: the non-terminating recursion is represented by `None`, not by divergence.
- `WholeTextFinder.Find`: its contract states that each corrected position is the nearest matching index at or below the byte offset, as the source computes it. It does not promise that this is the true character offset: when a short word repeats after many multibyte characters, the nearest match below the byte offset can be a later occurrence.
- Performance: the boundary positions the escaper recomputes on every iteration, and the nested scan of `protectHTMLTags`. The model computes each once; the result is the same.
- The escaper examples use small needles modelled on the escaper tests (`(ling)`, `#1`, `a/b`, `x/8`, `(il).`, `Т & т`), not the tests' own needles and sentences, because evaluating long literals is expensive for the verifier.
- The protection examples use the full test strings for the two passwords and for the escaped paragraph with attributes. The raw paragraph example is the first of the two paragraphs of its test string. The escaped test string with `&lt;br/&gt;` inside a paragraph has three tags and is not reproduced.
- Strings.ProtectHTMLTags: rewriting is proved for one qualifying match, for two qualifying matches, and for a tag followed by its closing tag (raw, or escaped with attributes). It is not proved for an arbitrary number of tags, nor for a tag that also occurs inside the text between other tags.
- Test files are not modelled, nor `tests/Matecat/Tests/Finder/Base.php`, whose input comes from files and the command line. `tests/WholeTextSearcherTest.php` and `tests/StringEscaperTest.php` target classes that are not part of this model.

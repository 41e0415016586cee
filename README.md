# quote-cli text formatting and tag search, in Dafny

This project models the two pieces of real logic in the quote-cli command-line tool:

- **The display formatter** (`internal/display/display.go`). It has three parts:
  - `wrapText`, the greedy word wrapper. It splits text into words and packs them onto lines of at most `width` runes. It never splits a word.
  - `basicWrapText`, which puts the wrapped lines between double quotes.
  - `complexWrapText`, which frames each wrapped line between bars. Alongside it, the cap line and the author padding of `DisplayQuoteWrapedBoarder`.
- **The tag search** `SearchByQuoteTag` (`internal/quotes/quotes.go`). It is a stable filter over the loaded list of quotes.

Files:

- `strings.dfy` (module `GoStrings`) models the parts of Go's `strings`, `unicode` and `unicode/utf8` packages that this code calls: `strings.Fields`, `strings.TrimSpace`, `strings.ToLower`, `unicode.IsSpace`, rune counts and byte lengths.
  - A Go string is a `seq<char>` with one char per rune. So `utf8.RuneCountInString(s)` is `|s|`.
  - Go's `len(s)` counts bytes. It is `ByteLen(s)`, the UTF-8 length.
  - The wrapper measures in runes and the framer pads in bytes. The model keeps the two measures apart.
- `display.dfy` (module `Display`) models the formatter. Each source function is a method that follows the Go loop step by step. Each method's result is given exactly by its ensures: `WrapText`, `BasicWrapText`, `ComplexWrapText` and `PadWithSpaces` equal the specification functions `Wrap`, `BasicWrap`, `ComplexWrap` and `PadBytes`; the loop methods equal expressions built from `JoinLines` and `Row`; `BorderedQuoteParts` gives its cap line by length and characters. The lemmas state what the specification functions guarantee.
  - The loops of `basicWrapText` and `complexWrapText` are methods of their own (`QuoteLines`, `FenceLines`), called right after `WrapText`. The loop of `complexWrapText` also has its body in a method (`FenceLine`). This split keeps each proof small; the steps and their order are the source's.
  - The central result is `WrapCharacterised`. For a positive width, `Wrap` returns exactly the lines that satisfy `IsGreedyWrap`:
    - each line is its words joined by single spaces;
    - the lines' words are the text's words, in order;
    - only a line holding a single word may be wider than `width`;
    - each line was closed only because the next word did not fit after it.
  - Exactly one sequence of lines meets these four conditions (`GreedyWrapUnique`).
- `quotes.dfy` (module `Quotes`) holds the `Quote` record, the method `SearchByQuoteTag` (the source's nested loop with its `break`), and its specification `Search`. Lemmas cover:
  - the blank query;
  - exact membership;
  - multiplicity, so each input position contributes at most once;
  - the result being a subsequence of the input;
  - the search distributing over concatenation;
  - insensitivity to the query's case and surrounding white space.

Three facts about the code shape the model:

- The bordered frame pads with spaces up to a **byte** length (`len(fenceLine)`), not a column count. Rows that contain multi-byte runes get fewer padding columns. `RowsAligned` states the alignment only for ASCII lines.
- The tag match is exact case-folded equality between a tag and the query.
- An empty author is printed as is.

## Model

| member | source | states |
|---|---|---|
| GoStrings.LeadingWordLen | internal/display/display.go:45 | the first word of a string ends at the first white space or at the end of the string |
| GoStrings.FieldsAreWords | internal/display/display.go:45 | every field of `strings.Fields` is non-empty and contains no white space |
| GoStrings.FieldsEmptyIffBlank | internal/display/display.go:45 | a string has no fields if and only if it is empty or all white space |
| GoStrings.LeadingWordLenOfWord | internal/display/display.go:45 | a word followed by white space or by nothing is read back whole |
| GoStrings.UnwordsAppend | internal/display/display.go:64-68 | joining two non-empty word groups puts exactly one space between them |
| GoStrings.UnwordsSnoc | internal/display/display.go:66-67 | appending `" " + word` to a line extends the line's word list by that word |
| GoStrings.UnwordsPrefixShorter | internal/display/display.go:61 | a line holding a prefix of some words is no longer than the line holding them all |
| GoStrings.FieldsUnwords | internal/display/display.go:45-68 | round trip: splitting words joined by single spaces gives back the same words |
| GoStrings.UnwordsNoNewline | internal/display/display.go:45-68 | a line built from words contains no newline |
| GoStrings.TrimLeft | internal/quotes/quotes.go:25 | drops leading white space: the rest is a suffix, the dropped part is all space, the result does not start with space |
| GoStrings.TrimRight | internal/quotes/quotes.go:25 | drops trailing white space: the rest is a prefix, the dropped part is all space, the result does not end with space |
| GoStrings.TrimSpaceShape | internal/quotes/quotes.go:25 | `TrimSpace(s)` is a slice of `s` between two all-space margins and neither starts nor ends with white space |
| GoStrings.TrimSpaceEmptyIffBlank | internal/quotes/quotes.go:25-30 | trimming yields the empty string if and only if the input is empty or all white space |
| GoStrings.TrimSpaceOfTrimmed | internal/quotes/quotes.go:25 | trimming a string without surrounding white space leaves it unchanged |
| GoStrings.ToLowerIdempotent | internal/quotes/quotes.go:25 | lower-casing twice is the same as lower-casing once |
| GoStrings.LowerCharIdempotent | internal/quotes/quotes.go:35 | lower-casing a rune is idempotent and neither creates nor removes white space |
| GoStrings.ToLowerKeepsTrimmed | internal/quotes/quotes.go:25 | a trimmed string stays trimmed after lower-casing |
| GoStrings.RuneBytes | internal/display/display.go:121 | one rune takes 1 to 4 bytes in UTF-8, and exactly 1 if and only if it is ASCII |
| GoStrings.ByteLen | internal/display/display.go:121 | the byte length `len(s)` lies between the rune count and four times the rune count |
| GoStrings.ByteLenAppend | internal/display/display.go:121-123 | byte length adds up over concatenation |
| GoStrings.ByteLenAscii | internal/display/display.go:121 | byte length equals rune count if and only if the string is ASCII |
| GoStrings.Spaces | internal/display/display.go:122 | `n` spaces are `n` runes long, all of them spaces |
| GoStrings.SpacesByteLen | internal/display/display.go:121-123 | `n` spaces take exactly `n` bytes, so each padding step adds one to `len` |
| GoStrings.JoinLinesNewlines | internal/display/display.go:94-100 | joining `k >= 1` newline-free lines with `\n` puts in exactly `k - 1` newlines |
| Display.PackGroups | internal/display/display.go:51-85 | the greedy packing never produces an empty line |
| Display.PackKeepsWords | internal/display/display.go:51-85 | the packed groups concatenate to the current line's words followed by the remaining words: no word is dropped, split or reordered |
| Display.PackHead | internal/display/display.go:61-68 | the first group starts with the first word still to be placed |
| Display.PackGroupsAreWords | internal/display/display.go:51-85 | every packed group is a non-empty list of non-empty, space-free words |
| Display.PackWithinWidth | internal/display/display.go:61-67 | a group of two or more words fits within the width |
| Display.PackIsGreedy | internal/display/display.go:61-63 | a group is closed only when the next group's first word does not fit after it |
| Display.ConcatFieldsOfLines | internal/display/display.go:62-68 | the words of the joined lines are the packed groups, in order |
| Display.WrapIsGreedy | internal/display/display.go:42-88 | for a positive width, `Wrap` yields a greedy wrap of the text's fields |
| Display.NoWordsNoLines | internal/display/display.go:83-87 | a greedy wrap has lines if and only if there are words |
| Display.LongerPrefixTooWide | internal/display/display.go:61-63 | any run of leading words longer than a greedy wrap's first line is wider than the width |
| Display.FirstLinesAgree | internal/display/display.go:61-67 | two greedy wraps put the same number of words on their first line |
| Display.GreedyWrapUnique | internal/display/display.go:42-88 | there is at most one greedy wrap of a word sequence at a given width |
| Display.WrapCharacterised | internal/display/display.go:42-88 | for a positive width, a sequence of lines is `wrapText`'s output if and only if it is the greedy wrap of the text's fields |
| Display.WrapBlank | internal/display/display.go:45-87 | for a positive width, the wrap is empty if and only if the text is empty or all white space |
| Display.WrapLinesHaveNoNewline | internal/display/display.go:45-68 | for a positive width, no wrapped line contains a newline |
| Display.WrapText | internal/display/display.go:42-88 | `wrapText` returns `Wrap(text, width)`: `[text]` unchanged if `width <= 0`, otherwise the greedy wrap of the fields |
| Display.GreedyWrapTail | internal/display/display.go:51-88 | dropping the first line of a greedy wrap leaves a greedy wrap of the words after that line's |
| Display.UnwordsFirstShorter | internal/display/display.go:56-64 | a non-empty current line is at least as long as its first word, so a line holding a word has a positive rune count (the `currentLineLen == 0` test is false) |
| Display.BasicWrapText | internal/display/display.go:90-104 | `basicWrapText` returns the wrap of tab-plus-text, joined by `\n`, between two `"` |
| Display.QuoteLines | internal/display/display.go:92-103 | the loop of `basicWrapText` yields `"`, the lines joined by `\n`, then `"` |
| Display.BasicWrapDropsTab | internal/display/display.go:91 | for a positive width the prepended tab is only a separator: the result is the quoted wrap of the text itself |
| Display.BasicWrapLineBreaks | internal/display/display.go:90-104 | for a positive width the result has one newline fewer than the wrap has lines, and is `""` exactly when the text is blank |
| Display.JoinLinesLength | internal/display/display.go:94-100 | the joined lines are at least as long as the first line |
| Display.PadBytes | internal/display/display.go:121-123 | padding keeps the string as a prefix, adds only spaces, and reaches exactly the larger of its byte length and the target |
| Display.PadWithSpaces | internal/display/display.go:121-123 | the one-space-at-a-time padding loop computes `PadBytes` |
| Display.ComplexWrapText | internal/display/display.go:106-136 | `complexWrapText` returns the framed rows of `wrapText(text, width - 10)`, joined by `\n` with no trailing newline |
| Display.FenceLines | internal/display/display.go:108-135 | the loop of `complexWrapText` yields the framed rows of the given lines joined by `\n`, with no trailing newline |
| Display.FenceLine | internal/display/display.go:111-130 | a framed row is the opening (`" \|     "` first, `" \| "` after), the line, padding to `width - 1` bytes, and `" \|"`, plus `\n` unless it is the last |
| Display.AppendRow | internal/display/display.go:126-132 | appending a row keeps the accumulated text equal to the rows so far joined by newlines |
| Display.RowShape | internal/display/display.go:113-130 | a framed row is the opening and the line, then only spaces, then `" \|"`, with byte length 2 plus the larger of `width - 1` and the opening-and-line's byte length |
| Display.RowHasNoNewline | internal/display/display.go:113-130 | framing a newline-free line adds no newline |
| Display.RowsAligned | internal/display/display.go:106-130 | for `width > 10`, every row of an ASCII line within the wrap width is exactly `width + 1` bytes, so the closing bars line up |
| Display.ComplexWrapRowCount | internal/display/display.go:106-135 | for `width > 10`, there are rows if and only if the text is not blank, and the rows are separated by exactly one newline each |
| Display.BorderedQuoteParts | internal/display/display.go:247-260 | with `w = min(terminalWidth, 90)`: the body is `complexWrapText(text, w - 4)`, the cap line is `" "` and exactly `max(0, w - 4)` dashes, and the author is padded with spaces to at least `w - 10` bytes |
| Quotes.SearchByQuoteTag | internal/quotes/quotes.go:23-47 | the nested loop with `break` returns `Search(quotes, targetTag)` |
| Quotes.FilterAppend | internal/quotes/quotes.go:33-40 | filtering a concatenation filters each part and concatenates the results |
| Quotes.FilterIsSubsequence | internal/quotes/quotes.go:33-40 | the matches are the input with the non-matching quotes deleted |
| Quotes.FilterCount | internal/quotes/quotes.go:33-38 | a quote occurs in the matches as often as in the input if one of its tags matches, and not at all otherwise |
| Quotes.SearchBlankQuery | internal/quotes/quotes.go:25-30 | an empty or all-white-space query returns no quotes, for any input list |
| Quotes.SearchMembership | internal/quotes/quotes.go:25-37 | a quote is returned if and only if it is in the input, the query is not blank, and some tag, lower-cased but not trimmed, equals the trimmed and lower-cased query |
| Quotes.SearchIsSubsequence | internal/quotes/quotes.go:33-46 | the result is a subsequence of the input, in input order, with the input's records unchanged, and never longer than the input |
| Quotes.SubsequenceShorter | internal/quotes/quotes.go:33-40 | a subsequence is no longer than the sequence it comes from |
| Quotes.SearchAppend | internal/quotes/quotes.go:33-40 | searching two concatenated lists gives the first list's matches followed by the second's |
| Quotes.SearchNormalisedQuery | internal/quotes/quotes.go:25 | searching for `ToLower(TrimSpace(t))` gives the same result as searching for `t` |

## Left out

- `getTerminalWidth` (internal/display/display.go:21-38) asks the terminal for its width through `golang.org/x/term`. The width is a parameter of the model instead.
- The reading functions `readQuote`, `readAuthor` and `readTags`, and `DisplayQuoteAdditionPrompt`, are interactive standard-input reads. The prompt's `quotes.AddNewQuote` is not part of this model.
- The `fmt.Printf` calls of `DisplayQuoteSimple`, `DisplayQuoteWraped`, `DisplayQuoteListWraped` and `DisplayQuoteWrapedBoarder` are left out. Only the strings the bordered display builds are modelled.
- `LoadQuotesFromFile` is file reading and JSON decoding. Its one rule of its own is that an empty decoded array is an error. It is not modelled.
- `SearchByQuoteAuthor` and the program in `cmd/quote-cli/main.go` are not part of this model.
- `unicode.ToLower` is modelled for the ASCII and Latin-1 upper-case letters only. Every other rune is left unchanged. Go's full case tables are not modelled.
- Strings are sequences of valid Unicode scalar values. How Go treats invalid UTF-8 bytes is not modelled.
- Quotes.SearchByQuoteTag: the source also returns an error, which is nil on every path. The model returns only the slice.
- Quotes.SearchByQuoteTag: Go distinguishes a nil slice from an empty one, and the source returns an empty non-nil slice when nothing matches. Dafny sequences have no nil, so both are `[]`.
- Display.RowsAligned: the bars line up only for ASCII lines. For other lines the byte padding of the source gives fewer columns. The model states that padding exactly (`RowShape`) but proves no column alignment for it.
- Go's `int` is 64 bits wide, so `width-10` (internal/display/display.go:107), `terminalWidth-paddingMargin-6` (internal/display/display.go:258) and `currentLineLen+1+wordLen` (internal/display/display.go:61) would wrap around at the extremes of `int64`. The model uses unbounded integers. `getTerminalWidth` returns a positive terminal width, and the program passes only that width minus 4 (to `basicWrapText`) or `min(width, 90) - 4` (to `complexWrapText` and the author padding), so no real terminal brings these sums near the limits and no wrap-around can happen.

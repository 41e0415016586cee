/** The text formatting of the quote display: the greedy word wrapper, the
    quote-mark framer used by the plain display, the bar framer used by the
    bordered display, and the cap line and author padding of the bordered
    display. Widths are passed in; the terminal query is not modelled. */
module Display {
  import opened GoStrings
  import Quotes

  // ---------------------------------------------------------------------
  // What a correct wrap is
  // ---------------------------------------------------------------------

  /** The words of every line, in order, as one sequence. */
  function ConcatFields(lines: seq<string>): seq<string> {
    if lines == [] then [] else Fields(lines[0]) + ConcatFields(lines[1..])
  }

  /** A line is its (non-empty list of) words joined by single spaces:
      no empty line, no leading, trailing or doubled space. */
  predicate IsJoinedLine(line: string) {
    Fields(line) != [] && line == Unwords(Fields(line))
  }

  /** `lines` is the greedy wrap of `words` at `width` (runes per line):
      every line is well formed, the lines' words are exactly `words` in order,
      only a single word may exceed the width, and each line was closed only
      because the first word of the next one did not fit after it. */
  predicate IsGreedyWrap(lines: seq<string>, words: seq<string>, width: int) {
    (forall i :: 0 <= i < |lines| ==> IsJoinedLine(lines[i])) &&
    ConcatFields(lines) == words &&
    (forall i :: 0 <= i < |lines| ==> |lines[i]| <= width || |Fields(lines[i])| == 1) &&
    (forall i :: 0 <= i < |lines| - 1 ==> |lines[i]| + 1 + |Fields(lines[i + 1])[0]| > width)
  }

  // ---------------------------------------------------------------------
  // wrapText as a function: greedy packing of words into groups
  // ---------------------------------------------------------------------

  /** Packs `words` after the words `cur` of the line under construction,
      closing the line when the next word does not fit. */
  function PackGroups(words: seq<string>, width: int, cur: seq<string>): (gs: seq<seq<string>>)
    ensures forall i :: 0 <= i < |gs| ==> gs[i] != []
    decreases |words|
  {
    if words == [] then
      if cur != [] then [cur] else []
    else if cur != [] && |Unwords(cur)| + 1 + |words[0]| > width then
      [cur] + PackGroups(words[1..], width, [words[0]])
    else
      PackGroups(words[1..], width, cur + [words[0]])
  }

  function Flatten(gs: seq<seq<string>>): seq<string> {
    if gs == [] then [] else gs[0] + Flatten(gs[1..])
  }

  function LinesOf(gs: seq<seq<string>>): seq<string> {
    seq(|gs|, i requires 0 <= i < |gs| => Unwords(gs[i]))
  }

  /** `wrapText(text, width)`: the text unchanged as one line when the width is
      not positive, otherwise the greedy packing of its fields. */
  function Wrap(text: string, width: int): seq<string> {
    if width <= 0 then [text] else LinesOf(PackGroups(Fields(text), width, []))
  }

  /** One step of the packing, as the loop of `wrapText` takes it. */
  lemma PackStep(words: seq<string>, i: nat, width: int, cur: seq<string>)
    requires i < |words|
    ensures PackGroups(words[i..], width, cur) ==
      if cur != [] && |Unwords(cur)| + 1 + |words[i]| > width then
        [cur] + PackGroups(words[i + 1..], width, [words[i]])
      else
        PackGroups(words[i + 1..], width, cur + [words[i]])
  {
    assert words[i..][1..] == words[i + 1..];
  }

  /** The packing keeps every word, in order: its groups concatenate to
      the line under construction followed by the remaining words. */
  lemma {:induction false} PackKeepsWords(words: seq<string>, width: int, cur: seq<string>)
    ensures Flatten(PackGroups(words, width, cur)) == cur + words
    decreases |words|
  {
    if words == [] {
      assert cur + words == cur;
      if cur != [] {
        assert Flatten([cur]) == cur + Flatten([]);
      }
    } else if cur != [] && |Unwords(cur)| + 1 + |words[0]| > width {
      PackKeepsWords(words[1..], width, [words[0]]);
      var rest := PackGroups(words[1..], width, [words[0]]);
      assert ([cur] + rest)[1..] == rest;
      assert [words[0]] + words[1..] == words;
    } else {
      PackKeepsWords(words[1..], width, cur + [words[0]]);
      assert cur + [words[0]] + words[1..] == cur + words;
    }
  }

  /** The first group starts with the first word still to be placed. */
  lemma {:induction false} PackHead(words: seq<string>, width: int, cur: seq<string>)
    requires cur != [] || words != []
    ensures var gs := PackGroups(words, width, cur);
      gs != [] && gs[0] != [] && gs[0][0] == if cur != [] then cur[0] else words[0]
    decreases |words|
  {
    if words != [] && !(cur != [] && |Unwords(cur)| + 1 + |words[0]| > width) {
      PackHead(words[1..], width, cur + [words[0]]);
    }
  }

  /** Every group is a non-empty list of words. */
  lemma {:induction false} PackGroupsAreWords(words: seq<string>, width: int, cur: seq<string>)
    requires AllWords(words) && AllWords(cur)
    ensures forall g :: g in PackGroups(words, width, cur) ==> g != [] && AllWords(g)
    decreases |words|
  {
    if words == [] {
    } else if cur != [] && |Unwords(cur)| + 1 + |words[0]| > width {
      PackGroupsAreWords(words[1..], width, [words[0]]);
    } else {
      PackGroupsAreWords(words[1..], width, cur + [words[0]]);
    }
  }

  /** A group of two or more words fits within the width. */
  lemma {:induction false} PackWithinWidth(words: seq<string>, width: int, cur: seq<string>)
    requires |cur| >= 2 ==> |Unwords(cur)| <= width
    ensures forall g :: g in PackGroups(words, width, cur) && |g| >= 2 ==> |Unwords(g)| <= width
    decreases |words|
  {
    if words == [] {
    } else if cur != [] && |Unwords(cur)| + 1 + |words[0]| > width {
      PackWithinWidth(words[1..], width, [words[0]]);
    } else {
      if cur != [] {
        UnwordsSnoc(cur, words[0]);
      }
      PackWithinWidth(words[1..], width, cur + [words[0]]);
    }
  }

  /** Each group was closed only because the next group's first word did not fit after it. */
  predicate BreaksGreedily(gs: seq<seq<string>>, width: int) {
    forall i :: 0 < i < |gs| ==> gs[i] != [] && |Unwords(gs[i - 1])| + 1 + |gs[i][0]| > width
  }

  /** A group was closed only because the next group's first word did not fit. */
  lemma {:induction false} PackIsGreedy(words: seq<string>, width: int, cur: seq<string>)
    ensures BreaksGreedily(PackGroups(words, width, cur), width)
    decreases |words|
  {
    if words == [] {
    } else if cur != [] && |Unwords(cur)| + 1 + |words[0]| > width {
      PackIsGreedy(words[1..], width, [words[0]]);
      PackHead(words[1..], width, [words[0]]);
      var rest := PackGroups(words[1..], width, [words[0]]);
      var gs := [cur] + rest;
      assert gs == PackGroups(words, width, cur);
      forall i | 0 < i < |gs| ensures gs[i] != [] && |Unwords(gs[i - 1])| + 1 + |gs[i][0]| > width {
        if i > 1 { assert gs[i - 1] == rest[i - 2] && gs[i] == rest[i - 1]; }
      }
    } else {
      PackIsGreedy(words[1..], width, cur + [words[0]]);
      assert PackGroups(words, width, cur) == PackGroups(words[1..], width, cur + [words[0]]);
    }
  }

  /** The lines' words, read back by `Fields`, are the groups themselves. */
  lemma {:induction false} ConcatFieldsOfLines(gs: seq<seq<string>>)
    requires forall i :: 0 <= i < |gs| ==> AllWords(gs[i])
    ensures ConcatFields(LinesOf(gs)) == Flatten(gs)
    decreases |gs|
  {
    if gs != [] {
      FieldsUnwords(gs[0]);
      ConcatFieldsOfLines(gs[1..]);
      assert LinesOf(gs)[1..] == LinesOf(gs[1..]);
    }
  }

  /** For a positive width, `Wrap` produces the greedy wrap of the text's fields. */
  lemma WrapIsGreedy(text: string, width: int)
    requires width > 0
    ensures IsGreedyWrap(Wrap(text, width), Fields(text), width)
  {
    var words := Fields(text);
    FieldsAreWords(text);
    var gs := PackGroups(words, width, []);
    PackKeepsWords(words, width, []);
    PackGroupsAreWords(words, width, []);
    PackWithinWidth(words, width, []);
    PackIsGreedy(words, width, []);
    var lines := LinesOf(gs);
    forall i | 0 <= i < |gs| ensures Fields(lines[i]) == gs[i] {
      assert gs[i] in gs;
      FieldsUnwords(gs[i]);
    }
    forall i | 0 <= i < |gs| ensures AllWords(gs[i]) {
      assert gs[i] in gs;
    }
    ConcatFieldsOfLines(gs);
    assert [] + words == words;
    forall i | 0 <= i < |lines| ensures |lines[i]| <= width || |Fields(lines[i])| == 1 {
      assert gs[i] in gs;
    }
  }

  /** The first line's words are a prefix of the words. */
  lemma ConcatFieldsHead(lines: seq<string>)
    requires lines != []
    ensures ConcatFields(lines) == Fields(lines[0]) + ConcatFields(lines[1..])
  {
  }

  /** A greedy wrap has lines exactly when there are words. */
  lemma NoWordsNoLines(lines: seq<string>, words: seq<string>, width: int)
    requires IsGreedyWrap(lines, words, width)
    ensures lines == [] <==> words == []
  {
    if lines != [] {
      ConcatFieldsHead(lines);
      assert IsJoinedLine(lines[0]);
    }
  }

  /** In a greedy wrap, any run of leading words longer than the first line
      is too wide to be a line. */
  lemma LongerPrefixTooWide(a: seq<string>, words: seq<string>, width: int, j: nat)
    requires IsGreedyWrap(a, words, width)
    requires a != [] && |Fields(a[0])| < j <= |words|
    ensures |Unwords(words[..j])| > width
  {
    var A := Fields(a[0]);
    var k := |A|;
    ConcatFieldsHead(a);
    assert words[..k] == A;
    assert |ConcatFields(a[1..])| == |words| - k > 0;
    assert |a| >= 2;
    ConcatFieldsHead(a[1..]);
    assert IsJoinedLine(a[1]);
    assert Fields(a[1])[0] == words[k];
    var B := words[..j];
    assert B[..k + 1] == A + [words[k]];
    assert IsJoinedLine(a[0]);
    UnwordsSnoc(A, words[k]);
    UnwordsPrefixShorter(B, k + 1);
  }

  /** Two greedy wraps cannot disagree on how many words the first line holds. */
  lemma FirstLinesAgree(a: seq<string>, b: seq<string>, words: seq<string>, width: int)
    requires IsGreedyWrap(a, words, width) && IsGreedyWrap(b, words, width)
    requires a != [] && b != []
    ensures |Fields(a[0])| >= |Fields(b[0])|
  {
    var m := |Fields(b[0])|;
    ConcatFieldsHead(b);
    assert words[..m] == Fields(b[0]);
    assert IsJoinedLine(b[0]);
    if |Fields(a[0])| < m {
      LongerPrefixTooWide(a, words, width, m);
    }
  }

  /** Dropping the first line of a greedy wrap leaves a greedy wrap of the
      words after that line's. */
  lemma GreedyWrapTail(a: seq<string>, words: seq<string>, width: int)
    requires IsGreedyWrap(a, words, width) && a != []
    ensures IsGreedyWrap(a[1..], words[|Fields(a[0])|..], width)
  {
    ConcatFieldsHead(a);
  }

  /** Greedy wraps are unique. */
  lemma {:induction false} GreedyWrapUnique(a: seq<string>, b: seq<string>, words: seq<string>, width: int)
    requires IsGreedyWrap(a, words, width) && IsGreedyWrap(b, words, width)
    ensures a == b
    decreases |a|
  {
    NoWordsNoLines(a, words, width);
    NoWordsNoLines(b, words, width);
    if a != [] && b != [] {
      FirstLinesAgree(a, b, words, width);
      FirstLinesAgree(b, a, words, width);
      ConcatFieldsHead(a);
      ConcatFieldsHead(b);
      var k := |Fields(a[0])|;
      assert Fields(a[0]) == words[..k] == Fields(b[0]);
      assert IsJoinedLine(a[0]) && IsJoinedLine(b[0]);
      GreedyWrapTail(a, words, width);
      GreedyWrapTail(b, words, width);
      GreedyWrapUnique(a[1..], b[1..], words[k..], width);
      assert a == [a[0]] + a[1..];
      assert b == [b[0]] + b[1..];
    }
  }

  /** For a positive width, the wrap is exactly the greedy wrap of the fields:
      `Wrap` meets the characterisation, and nothing else does. */
  lemma WrapCharacterised(text: string, width: int, lines: seq<string>)
    requires width > 0
    ensures lines == Wrap(text, width) <==> IsGreedyWrap(lines, Fields(text), width)
  {
    WrapIsGreedy(text, width);
    if IsGreedyWrap(lines, Fields(text), width) {
      GreedyWrapUnique(lines, Wrap(text, width), Fields(text), width);
    }
  }

  /** With a positive width, empty or all-space text gives no lines at all. */
  lemma WrapBlank(text: string, width: int)
    requires width > 0
    ensures Wrap(text, width) == [] <==> IsBlank(text)
  {
    FieldsEmptyIffBlank(text);
    WrapIsGreedy(text, width);
  }

  /** Every wrapped line is free of newlines when the width is positive. */
  lemma WrapLinesHaveNoNewline(text: string, width: int)
    requires width > 0
    ensures forall i :: 0 <= i < |Wrap(text, width)| ==> '\n' !in Wrap(text, width)[i]
  {
    var lines := Wrap(text, width);
    WrapIsGreedy(text, width);
    forall i | 0 <= i < |lines| ensures '\n' !in lines[i] {
      FieldsAreWords(lines[i]);
      UnwordsNoNewline(Fields(lines[i]));
    }
  }

  // ---------------------------------------------------------------------
  // wrapText as the source writes it
  // ---------------------------------------------------------------------

  /** `wrapText`: greedily packs the fields of `text` into lines of at most
      `width` runes, never splitting a word. */
  method WrapText(text: string, width: int) returns (wrappedLines: seq<string>)
    ensures wrappedLines == Wrap(text, width)
    ensures width <= 0 ==> wrappedLines == [text]
    ensures width > 0 ==> IsGreedyWrap(wrappedLines, Fields(text), width)
  {
    wrappedLines := [];
    var currentLine := "";
    var words := Fields(text);

    if width <= 0 {
      return wrappedLines + [text];
    }

    FieldsAreWords(text);
    ghost var cur: seq<string> := [];
    ghost var done: seq<seq<string>> := [];
    for i := 0 to |words|
      invariant AllWords(cur) && (|cur| >= 2 ==> |Unwords(cur)| <= width)
      invariant currentLine == Unwords(cur)
      invariant wrappedLines == LinesOf(done)
      invariant done + PackGroups(words[i..], width, cur) == PackGroups(words, width, [])
    {
      var word := words[i];
      PackStep(words, i, width, cur);
      var wordLen := |word|;
      var currentLineLen := |currentLine|;
      assert currentLineLen == 0 <==> cur == [] by {
        if cur != [] { assert |Unwords(cur)| >= |cur[0]| > 0 by { UnwordsFirstShorter(cur); } }
      }

      if currentLineLen + 1 + wordLen > width && currentLineLen > 0 {
        wrappedLines := wrappedLines + [currentLine];
        currentLine := word;
        assert (done + [cur]) + PackGroups(words[i + 1..], width, [word]) == done + ([cur] + PackGroups(words[i + 1..], width, [word]));
        assert LinesOf(done + [cur]) == LinesOf(done) + [Unwords(cur)];
        done := done + [cur];
        cur := [word];
      } else if currentLineLen == 0 {
        assert cur + [word] == [word];
        currentLine := word;
        cur := [word];
      } else {
        UnwordsSnoc(cur, word);
        currentLine := currentLine + " " + word;
        cur := cur + [word];
      }
    }

    if currentLine != "" {
      wrappedLines := wrappedLines + [currentLine];
      assert LinesOf(done + [cur]) == LinesOf(done) + [Unwords(cur)];
      done := done + [cur];
    } else {
      assert cur == [] by {
        if cur != [] { UnwordsFirstShorter(cur); }
      }
      assert done + [] == done;
    }
    assert wrappedLines == Wrap(text, width);
    WrapIsGreedy(text, width);
  }

  /** The joined line is at least as long as its first word. */
  lemma UnwordsFirstShorter(ws: seq<string>)
    requires ws != []
    ensures |Unwords(ws)| >= |ws[0]|
    ensures IsWord(ws[0]) ==> |Unwords(ws)| > 0
  {
  }

  // ---------------------------------------------------------------------
  // basicWrapText: the wrapped lines between quote marks
  // ---------------------------------------------------------------------

  /** What `basicWrapText` returns: a tab is put before the text, the result
      is wrapped, and the lines are joined by newlines between double quotes. */
  function BasicWrap(text: string, width: int): string {
    "\"" + JoinLines(Wrap("\t" + text, width)) + "\""
  }

  /** `basicWrapText`. */
  method BasicWrapText(text: string, width: int) returns (lineReturn: string)
    ensures lineReturn == BasicWrap(text, width)
  {
    var wrapedLines := WrapText("\t" + text, width);
    lineReturn := QuoteLines(wrapedLines);
  }

  /** The loop of `basicWrapText`: opens a quote, adds the lines with a
      newline before every line but the first, and closes the quote. */
  method QuoteLines(wrapedLines: seq<string>) returns (lineReturn: string)
    ensures lineReturn == "\"" + JoinLines(wrapedLines) + "\""
  {
    lineReturn := "\"";

    for i := 0 to |wrapedLines|
      invariant lineReturn == "\"" + JoinLines(wrapedLines[..i])
    {
      var line := wrapedLines[i];
      JoinLinesSnoc(wrapedLines, i);
      if i != 0 {
        lineReturn := lineReturn + "\n" + line;
      } else {
        lineReturn := lineReturn + line;
      }
    }
    lineReturn := lineReturn + "\"";
    assert wrapedLines[..|wrapedLines|] == wrapedLines;
  }

  /** With a positive width the leading tab is a separator and is dropped, so
      the result is the wrap of the text itself between quote marks. */
  lemma BasicWrapDropsTab(text: string, width: int)
    requires width > 0
    ensures BasicWrap(text, width) == "\"" + JoinLines(Wrap(text, width)) + "\""
  {
    assert ("\t" + text)[1..] == text;
  }

  /** With a positive width the quoted text has one line break fewer than the
      wrap has lines, and empty or blank text gives just the two quote marks. */
  lemma BasicWrapLineBreaks(text: string, width: int)
    requires width > 0
    ensures NewlineCount(BasicWrap(text, width)) == if IsBlank(text) then 0 else |Wrap(text, width)| - 1
    ensures IsBlank(text) <==> BasicWrap(text, width) == "\"\""
  {
    BasicWrapDropsTab(text, width);
    WrapBlank(text, width);
    var lines := Wrap(text, width);
    var r := BasicWrap(text, width);
    assert multiset(r) == multiset("\"") + multiset(JoinLines(lines)) + multiset("\"");
    if lines != [] {
      WrapLinesHaveNoNewline(text, width);
      JoinLinesNewlines(lines);
      WrapIsGreedy(text, width);
      assert IsJoinedLine(lines[0]);
      JoinLinesLength(lines);
      assert |r| > 2;
    }
  }

  /** Joined lines are at least as long as the first line. */
  lemma {:induction false} JoinLinesLength(ls: seq<string>)
    requires ls != []
    ensures |JoinLines(ls)| >= |ls[0]|
    decreases |ls|
  {
    if |ls| > 1 {
      JoinLinesLength(ls[..|ls| - 1]);
    }
  }

  // ---------------------------------------------------------------------
  // complexWrapText: each wrapped line framed between bars
  // ---------------------------------------------------------------------

  /** The opening of framed row `i`: the first row leaves room for an opening mark. */
  function RowStart(i: nat): string {
    if i == 0 then " |     " else " | "
  }

  /** `s` followed by as many spaces as it takes to reach `n` bytes (none if
      it already has `n` bytes or more). */
  function PadBytes(s: string, n: int): (r: string)
    ensures |r| >= |s| && r[..|s|] == s && r[|s|..] == Spaces(|r| - |s|)
    ensures ByteLen(r) == if ByteLen(s) < n then n else ByteLen(s)
  {
    var k := if ByteLen(s) < n then n - ByteLen(s) else 0;
    Padded(s, k);
    s + Spaces(k)
  }

  /** `s` followed by `k` spaces: its parts, and its byte length. */
  lemma Padded(s: string, k: nat)
    ensures (s + Spaces(k))[..|s|] == s && (s + Spaces(k))[|s|..] == Spaces(k)
    ensures ByteLen(s + Spaces(k)) == ByteLen(s) + k
  {
    ByteLenAppend(s, Spaces(k));
    SpacesByteLen(k);
  }

  /** The padding loop shared by `complexWrapText` and the bordered display:
      appends one space at a time while the byte length is below `n`. */
  method PadWithSpaces(s: string, n: int) returns (r: string)
    ensures r == PadBytes(s, n)
  {
    r := s;
    ghost var k: nat := 0;
    assert s + Spaces(0) == s;
    while ByteLen(r) < n
      invariant r == s + Spaces(k)
      invariant ByteLen(r) == ByteLen(s) + k
      invariant k == 0 || ByteLen(r) <= n
      decreases n - ByteLen(r)
    {
      Padded(s, k + 1);
      assert Spaces(k + 1) == Spaces(k) + " ";
      assert s + Spaces(k + 1) == (s + Spaces(k)) + " ";
      r := r + " ";
      k := k + 1;
    }
    assert k == if ByteLen(s) < n then n - ByteLen(s) else 0;
  }

  /** Framed row `i` for wrapped line `line`: the opening, the line, spaces up
      to `width - 1` bytes, and the closing bar. */
  function Row(i: nat, line: string, width: int): string {
    PadBytes(RowStart(i) + line, width - 1) + " |"
  }

  function Rows(lines: seq<string>, width: int): seq<string> {
    seq(|lines|, i requires 0 <= i < |lines| => Row(i, lines[i], width))
  }

  /** What `complexWrapText` returns: the text wrapped ten columns narrower
      than `width`, one framed row per line, rows separated by newlines. */
  function ComplexWrap(text: string, width: int): string {
    JoinLines(Rows(Wrap(text, width - 10), width))
  }

  /** `complexWrapText`. */
  method ComplexWrapText(text: string, width: int) returns (returnLine: string)
    ensures returnLine == ComplexWrap(text, width)
  {
    var wrapedLines := WrapText(text, width - 10);
    returnLine := FenceLines(wrapedLines, width);
  }

  /** The loop of `complexWrapText`: frames the wrapped lines one by one and
      joins them with newlines. */
  method FenceLines(wrapedLines: seq<string>, width: int) returns (returnLine: string)
    ensures returnLine == JoinLines(Rows(wrapedLines, width))
  {
    ghost var rows := Rows(wrapedLines, width);
    returnLine := "";

    var i := 0;
    while i < |wrapedLines|
      invariant i <= |wrapedLines|
      invariant 0 < i < |wrapedLines| ==> returnLine == JoinLines(rows[..i]) + "\n"
      invariant i == 0 || i == |wrapedLines| ==> returnLine == JoinLines(rows[..i])
    {
      var last := i == |wrapedLines| - 1;
      var fenceLine := FenceLine(i, wrapedLines[i], width, last);
      assert rows[i] == Row(i, wrapedLines[i], width);
      AppendRow(rows, i, returnLine, fenceLine, last);
      returnLine := returnLine + fenceLine;
      i := i + 1;
    }
    assert rows[..|rows|] == rows;
  }

  /** One step of the loop of `complexWrapText`. */
  lemma AppendRow(rows: seq<string>, i: nat, acc: string, fenceLine: string, last: bool)
    requires i < |rows|
    requires fenceLine == rows[i] + (if last then "" else "\n")
    requires i == 0 ==> acc == ""
    requires i > 0 ==> acc == JoinLines(rows[..i]) + "\n"
    ensures acc + fenceLine == JoinLines(rows[..i + 1]) + (if last then "" else "\n")
  {
    JoinLinesSnoc(rows, i);
  }

  /** The body of the loop of `complexWrapText`: row `i`, followed by a
      newline unless it is the last one. */
  method FenceLine(i: nat, line: string, width: int, last: bool) returns (fenceLine: string)
    ensures fenceLine == Row(i, line, width) + (if last then "" else "\n")
  {
    fenceLine := "";

    // start fence
    if i == 0 {
      fenceLine := fenceLine + " |     " + line;
    } else {
      fenceLine := fenceLine + " | " + line;
    }

    assert fenceLine == RowStart(i) + line;

    // middle
    fenceLine := PadWithSpaces(fenceLine, width - 1);
    ghost var padded := fenceLine;

    // end fence
    if last {
      fenceLine := fenceLine + " |";
    } else {
      fenceLine := fenceLine + " |\n";
      assert " |\n" == " |" + "\n";
      assert fenceLine == (padded + " |") + "\n";
    }
  }

  /** Adding row `i` to the rows before it. */
  lemma JoinLinesSnoc(rows: seq<string>, i: nat)
    requires i < |rows|
    ensures JoinLines(rows[..i + 1]) == if i == 0 then rows[0] else JoinLines(rows[..i]) + "\n" + rows[i]
  {
    assert rows[..i + 1][..i] == rows[..i];
  }

  /** The shape of one framed row: the opening, then the line, then only
      spaces, then the closing bar; it reaches `width - 1` bytes before the bar
      unless the opening and line are already longer. */
  lemma RowShape(i: nat, line: string, width: int)
    ensures var row := Row(i, line, width);
      var body := RowStart(i) + line;
      |row| >= |body| + 2 &&
      row[..|body|] == body &&
      (forall k :: |body| <= k < |row| - 2 ==> row[k] == ' ') &&
      row[|row| - 2..] == " |" &&
      ByteLen(row) == 2 + (if ByteLen(body) < width - 1 then width - 1 else ByteLen(body))
  {
    var body := RowStart(i) + line;
    var padded := PadBytes(body, width - 1);
    ByteLenAppend(padded, " |");
  }

  /** Framing a newline-free line adds no newline. */
  lemma RowHasNoNewline(i: nat, line: string, width: int)
    requires '\n' !in line
    ensures '\n' !in Row(i, line, width)
  {
    var body := RowStart(i) + line;
    var padded := PadBytes(body, width - 1);
    var pad := Spaces(|padded| - |body|);
    assert padded == body + pad;
    assert '\n' !in pad;
    assert '\n' !in RowStart(i);
  }

  /** The bars line up: for a frame wider than ten columns, every row whose
      line is ASCII and within the wrap width is exactly `width + 1` bytes
      (and, being ASCII, that many columns). */
  lemma RowsAligned(text: string, width: int)
    requires width > 10
    ensures var lines := Wrap(text, width - 10);
      forall i :: 0 <= i < |lines| && IsAscii(lines[i]) && |lines[i]| <= width - 10 ==>
        ByteLen(Rows(lines, width)[i]) == width + 1
  {
    var lines := Wrap(text, width - 10);
    forall i | 0 <= i < |lines| && IsAscii(lines[i]) && |lines[i]| <= width - 10
      ensures ByteLen(Rows(lines, width)[i]) == width + 1
    {
      ByteLenAscii(lines[i]);
      ByteLenAppend(RowStart(i), lines[i]);
      assert ByteLen(RowStart(i)) <= 7 by { ByteLenAscii(RowStart(i)); }
      RowShape(i, lines[i], width);
    }
  }

  /** For a frame wider than ten columns there is one row per wrapped line:
      the rows are separated by exactly one newline each and blank text gives
      no rows at all. */
  lemma ComplexWrapRowCount(text: string, width: int)
    requires width > 10
    ensures var lines := Wrap(text, width - 10);
      (lines == [] <==> IsBlank(text)) &&
      (lines == [] ==> ComplexWrap(text, width) == "") &&
      (lines != [] ==> NewlineCount(ComplexWrap(text, width)) == |lines| - 1)
  {
    var lines := Wrap(text, width - 10);
    WrapBlank(text, width - 10);
    if lines != [] {
      var rows := Rows(lines, width);
      WrapLinesHaveNoNewline(text, width - 10);
      forall i | 0 <= i < |rows| ensures '\n' !in rows[i] {
        RowHasNoNewline(i, lines[i], width);
      }
      JoinLinesNewlines(rows);
    }
  }

  // ---------------------------------------------------------------------
  // The bordered display: cap line and author padding
  // ---------------------------------------------------------------------

  /** The strings `DisplayQuoteWrapedBoarder` prints for `quote` on a terminal
      `terminalWidth` columns wide: the cap line drawn above and below, the
      framed quote text, and the padded author. */
  method BorderedQuoteParts(quote: Quotes.Quote, terminalWidth: int)
    returns (capString: string, wrappedQuote: string, author: string)
    ensures var w := if terminalWidth < 90 then terminalWidth else 90;
      wrappedQuote == ComplexWrap(quote.text, w - 4) &&
      |capString| == 1 + (if w - 4 > 0 then w - 4 else 0) && capString[0] == ' ' &&
      (forall k :: 1 <= k < |capString| ==> capString[k] == '-') &&
      author == PadBytes(quote.author, w - 10)
  {
    var width := if terminalWidth < 90 then terminalWidth else 90;
    var paddingMargin := 4;
    wrappedQuote := ComplexWrapText(quote.text, width - paddingMargin);

    capString := " ";
    var n := 0;
    while n < width - paddingMargin
      invariant 0 <= n && |capString| == 1 + n && capString[0] == ' '
      invariant width - paddingMargin > 0 ==> n <= width - paddingMargin
      invariant width - paddingMargin <= 0 ==> n == 0
      invariant forall k :: 1 <= k < |capString| ==> capString[k] == '-'
    {
      capString := capString + "-";
      n := n + 1;
    }

    author := PadWithSpaces(quote.author, width - paddingMargin - 6);
  }
}

/** The parts of Go's `strings`, `unicode` and `unicode/utf8` packages that the
    quote formatter and the tag filter rely on. A Go string is modelled as a
    sequence of runes (`seq<char>`, one char per Unicode scalar value); its
    byte length, which Go's `len` returns, is the UTF-8 length `ByteLen`. */
module GoStrings {

  /** `unicode.IsSpace`: the Unicode White_Space characters. */
  predicate IsSpace(c: char) {
    c == '\t' || c == '\n' || c == '\U{000B}' || c == '\U{000C}' || c == '\r' || c == ' ' ||
    c == '\U{0085}' || c == '\U{00A0}' || c == '\U{1680}' ||
    ('\U{2000}' <= c <= '\U{200A}') ||
    c == '\U{2028}' || c == '\U{2029}' || c == '\U{202F}' || c == '\U{205F}' || c == '\U{3000}'
  }

  /** All characters of `s` are white space (this includes the empty string). */
  predicate IsBlank(s: string) {
    forall i :: 0 <= i < |s| ==> IsSpace(s[i])
  }

  /** A field as `strings.Fields` produces it: non-empty, no white space inside. */
  predicate IsWord(w: string) {
    w != [] && forall i :: 0 <= i < |w| ==> !IsSpace(w[i])
  }

  predicate AllWords(ws: seq<string>) {
    forall i :: 0 <= i < |ws| ==> IsWord(ws[i])
  }

  // ---------------------------------------------------------------------
  // strings.Fields
  // ---------------------------------------------------------------------

  /** Length of the run of non-space characters that starts `s`. */
  function LeadingWordLen(s: string): (n: nat)
    ensures n <= |s|
    ensures forall i :: 0 <= i < n ==> !IsSpace(s[i])
    ensures n < |s| ==> IsSpace(s[n])
  {
    if s == [] || IsSpace(s[0]) then 0 else 1 + LeadingWordLen(s[1..])
  }

  /** `strings.Fields`: the maximal runs of non-space characters, in order. */
  function Fields(s: string): (ws: seq<string>)
    decreases |s|
  {
    if s == [] then []
    else if IsSpace(s[0]) then Fields(s[1..])
    else
      var n := LeadingWordLen(s);
      [s[..n]] + Fields(s[n..])
  }

  /** Every field is a word: non-empty and free of white space. */
  lemma {:induction false} FieldsAreWords(s: string)
    ensures AllWords(Fields(s))
    decreases |s|
  {
    if s == [] {
    } else if IsSpace(s[0]) {
      FieldsAreWords(s[1..]);
    } else {
      var n := LeadingWordLen(s);
      FieldsAreWords(s[n..]);
    }
  }

  /** A string has no fields exactly when it is empty or all white space. */
  lemma {:induction false} FieldsEmptyIffBlank(s: string)
    ensures Fields(s) == [] <==> IsBlank(s)
    decreases |s|
  {
    if s == [] {
    } else if IsSpace(s[0]) {
      FieldsEmptyIffBlank(s[1..]);
      if IsBlank(s[1..]) {
        forall i | 0 <= i < |s| ensures IsSpace(s[i]) {
          if i > 0 { assert s[i] == s[1..][i - 1]; }
        }
      }
    } else {
      assert !IsSpace(s[0]);
    }
  }

  /** A word followed by a space or by nothing is read back as that word. */
  lemma LeadingWordLenOfWord(w: string, rest: string)
    requires IsWord(w)
    requires rest == [] || IsSpace(rest[0])
    ensures LeadingWordLen(w + rest) == |w|
    decreases |w|
  {
    if |w| > 1 {
      assert (w + rest)[1..] == w[1..] + rest;
      LeadingWordLenOfWord(w[1..], rest);
    } else {
      assert (w + rest)[1..] == rest;
    }
  }

  // ---------------------------------------------------------------------
  // Joining words with single spaces (what the wrapper builds a line from)
  // ---------------------------------------------------------------------

  /** The words of `ws` joined by single spaces. */
  function Unwords(ws: seq<string>): string {
    if ws == [] then ""
    else if |ws| == 1 then ws[0]
    else ws[0] + " " + Unwords(ws[1..])
  }

  /** Joining two non-empty groups puts exactly one space between them. */
  lemma {:induction false} UnwordsAppend(x: seq<string>, y: seq<string>)
    requires x != [] && y != []
    ensures Unwords(x + y) == Unwords(x) + " " + Unwords(y)
    decreases |x|
  {
    if |x| == 1 {
      assert (x + y)[1..] == y;
    } else {
      assert (x + y)[1..] == x[1..] + y;
      UnwordsAppend(x[1..], y);
    }
  }

  /** The shape the wrapper relies on when it extends its current line. */
  lemma UnwordsSnoc(x: seq<string>, w: string)
    requires x != []
    ensures Unwords(x + [w]) == Unwords(x) + " " + w
  {
    UnwordsAppend(x, [w]);
  }

  /** Joined length: the words plus one separator between each pair. */
  lemma {:induction false} UnwordsPrefixShorter(ws: seq<string>, j: nat)
    requires 1 <= j <= |ws|
    ensures |Unwords(ws[..j])| <= |Unwords(ws)|
  {
    if j < |ws| {
      UnwordsAppend(ws[..j], ws[j..]);
      assert ws[..j] + ws[j..] == ws;
    } else {
      assert ws[..j] == ws;
    }
  }

  /** Round trip: splitting words joined by spaces gives the words back. */
  lemma {:induction false} FieldsUnwords(ws: seq<string>)
    requires AllWords(ws)
    ensures Fields(Unwords(ws)) == ws
    decreases |ws|
  {
    if ws == [] {
    } else if |ws| == 1 {
      var w := ws[0];
      LeadingWordLenOfWord(w, []);
      assert w + [] == w;
      assert w[|w|..] == [];
    } else {
      var w, rest := ws[0], Unwords(ws[1..]);
      var s := w + " " + rest;
      LeadingWordLenOfWord(w, " " + rest);
      assert s == w + (" " + rest);
      assert s[..|w|] == w;
      assert s[|w|..] == " " + rest;
      assert (" " + rest)[1..] == rest;
      FieldsUnwords(ws[1..]);
    }
  }

  /** A space-free word contains no newline, and so neither does a line built from words. */
  lemma {:induction false} UnwordsNoNewline(ws: seq<string>)
    requires AllWords(ws)
    ensures '\n' !in Unwords(ws)
    decreases |ws|
  {
    if |ws| == 1 {
      assert IsWord(ws[0]);
    } else if |ws| > 1 {
      assert IsWord(ws[0]);
      UnwordsNoNewline(ws[1..]);
    }
  }

  // ---------------------------------------------------------------------
  // strings.TrimSpace and strings.ToLower
  // ---------------------------------------------------------------------

  /** Drops leading white space; what is dropped is all space, the rest a suffix. */
  function TrimLeft(s: string): (r: string)
    ensures |r| <= |s| && r == s[|s| - |r|..]
    ensures IsBlank(s[..|s| - |r|])
    ensures r == [] || !IsSpace(r[0])
  {
    if s != [] && IsSpace(s[0]) then TrimLeft(s[1..]) else s
  }

  /** Drops trailing white space; what is dropped is all space, the rest a prefix. */
  function TrimRight(s: string): (r: string)
    ensures |r| <= |s| && r == s[..|r|]
    ensures IsBlank(s[|r|..])
    ensures r == [] || !IsSpace(r[|r| - 1])
    ensures r != [] ==> r[0] == s[0]
  {
    if s != [] && IsSpace(s[|s| - 1]) then TrimRight(s[..|s| - 1]) else s
  }

  /** `strings.TrimSpace`. */
  function TrimSpace(s: string): string {
    TrimRight(TrimLeft(s))
  }

  /** The trimmed string is the slice `s[i..i + |r|]` between two all-space
      margins, and it neither starts nor ends with white space. */
  lemma TrimSpaceShape(s: string) returns (i: nat)
    ensures var r := TrimSpace(s);
      (r == [] || (!IsSpace(r[0]) && !IsSpace(r[|r| - 1]))) &&
      i + |r| <= |s| && r == s[i..i + |r|] && IsBlank(s[..i]) && IsBlank(s[i + |r|..])
  {
    var l := TrimLeft(s);
    i := |s| - |l|;
    TrimmedParts(s, i, l, TrimRight(l));
  }

  /** Trimming from the left to `l`, then from the right to `r`, leaves `r`
      as a slice of `s` between two all-space margins. */
  lemma TrimmedParts(s: string, i: nat, l: string, r: string)
    requires i <= |s| && l == s[i..] && IsBlank(s[..i]) && (l == [] || !IsSpace(l[0]))
    requires |r| <= |l| && r == l[..|r|] && IsBlank(l[|r|..])
    requires (r == [] || !IsSpace(r[|r| - 1])) && (r != [] ==> r[0] == l[0])
    ensures (r == [] || (!IsSpace(r[0]) && !IsSpace(r[|r| - 1]))) &&
      i + |r| <= |s| && r == s[i..i + |r|] && IsBlank(s[..i]) && IsBlank(s[i + |r|..])
  {
    assert s[i..][..|r|] == s[i..i + |r|];
    assert s[i..][|r|..] == s[i + |r|..];
  }

  /** Trimming leaves nothing exactly when the input is blank. */
  lemma TrimSpaceEmptyIffBlank(s: string)
    ensures TrimSpace(s) == [] <==> IsBlank(s)
  {
    var i := TrimSpaceShape(s);
    if TrimSpace(s) == [] {
      assert s[..i] + s[i..] == s;
      forall k | 0 <= k < |s| ensures IsSpace(s[k]) {
        if k < i { assert s[k] == s[..i][k]; } else { assert s[k] == s[i..][k - i]; }
      }
    } else {
      assert s[i] == TrimSpace(s)[0];
    }
  }

  /** A string without surrounding white space is left alone. */
  lemma TrimSpaceOfTrimmed(s: string)
    requires s == [] || (!IsSpace(s[0]) && !IsSpace(s[|s| - 1]))
    ensures TrimSpace(s) == s
  {
  }

  /** `unicode.ToLower` for the ASCII and Latin-1 upper-case letters. */
  function LowerChar(c: char): char {
    if 'A' <= c <= 'Z' || ('\U{00C0}' <= c <= '\U{00DE}' && c != '\U{00D7}') then
      (c as int + 32) as char
    else c
  }

  /** `strings.ToLower`, rune by rune. */
  function ToLower(s: string): string {
    seq(|s|, i requires 0 <= i < |s| => LowerChar(s[i]))
  }

  /** Lower-casing twice is lower-casing once. */
  lemma ToLowerIdempotent(s: string)
    ensures ToLower(ToLower(s)) == ToLower(s)
  {
    forall i | 0 <= i < |s| ensures LowerChar(LowerChar(s[i])) == LowerChar(s[i]) {
      LowerCharIdempotent(s[i]);
    }
  }

  lemma LowerCharIdempotent(c: char)
    ensures LowerChar(LowerChar(c)) == LowerChar(c)
    ensures IsSpace(LowerChar(c)) <==> IsSpace(c)
  {
  }

  /** Lower-casing neither creates nor removes white space, so it commutes
      with trimming on an already trimmed string. */
  lemma ToLowerKeepsTrimmed(s: string)
    requires s == [] || (!IsSpace(s[0]) && !IsSpace(s[|s| - 1]))
    ensures TrimSpace(ToLower(s)) == ToLower(s)
  {
    if s != [] {
      LowerCharIdempotent(s[0]);
      LowerCharIdempotent(s[|s| - 1]);
      TrimSpaceOfTrimmed(ToLower(s));
    }
  }

  // ---------------------------------------------------------------------
  // unicode/utf8 lengths: Go's len(s) counts bytes, RuneCountInString runes
  // ---------------------------------------------------------------------

  /** Number of bytes of the UTF-8 encoding of one rune. */
  function RuneBytes(c: char): (n: nat)
    ensures 1 <= n <= 4
    ensures n == 1 <==> c < '\U{0080}'
  {
    if c < '\U{0080}' then 1
    else if c < '\U{0800}' then 2
    else if c < '\U{10000}' then 3
    else 4
  }

  /** `len(s)` on a Go string: its UTF-8 byte length. */
  function ByteLen(s: string): (n: nat)
    ensures |s| <= n <= 4 * |s|
  {
    if s == [] then 0 else ByteLen(s[..|s| - 1]) + RuneBytes(s[|s| - 1])
  }

  predicate IsAscii(s: string) {
    forall i :: 0 <= i < |s| ==> s[i] < '\U{0080}'
  }

  /** Byte length adds up over concatenation. */
  lemma {:induction false} ByteLenAppend(a: string, b: string)
    ensures ByteLen(a + b) == ByteLen(a) + ByteLen(b)
    decreases |b|
  {
    if b == [] {
      assert a + b == a;
    } else {
      assert (a + b)[..|a + b| - 1] == a + b[..|b| - 1];
      ByteLenAppend(a, b[..|b| - 1]);
    }
  }

  /** For ASCII text, bytes and runes coincide. */
  lemma {:induction false} ByteLenAscii(s: string)
    ensures ByteLen(s) == |s| <==> IsAscii(s)
    decreases |s|
  {
    if s != [] {
      var p := s[..|s| - 1];
      ByteLenAscii(p);
      if IsAscii(s) {
        assert IsAscii(p) by { forall i | 0 <= i < |p| ensures p[i] < '\U{0080}' { assert p[i] == s[i]; } }
      } else if ByteLen(s) == |s| {
        assert ByteLen(p) >= |p|;
        assert RuneBytes(s[|s| - 1]) == 1;
        forall i | 0 <= i < |s| ensures s[i] < '\U{0080}' {
          if i < |s| - 1 { assert s[i] == p[i]; }
        }
        assert false;
      }
    }
  }

  /** `n` spaces. */
  function Spaces(n: nat): (r: string)
    ensures |r| == n
    ensures forall i :: 0 <= i < n ==> r[i] == ' '
  {
    if n == 0 then [] else Spaces(n - 1) + " "
  }

  /** `n` spaces take `n` bytes. */
  lemma {:induction false} SpacesByteLen(n: nat)
    ensures ByteLen(Spaces(n)) == n
  {
    if n > 0 {
      SpacesByteLen(n - 1);
      assert Spaces(n)[..n - 1] == Spaces(n - 1);
      assert RuneBytes(' ') == 1;
    } else {
      assert Spaces(n) == [];
    }
  }

  // ---------------------------------------------------------------------
  // Lines joined with "\n"
  // ---------------------------------------------------------------------

  /** The lines joined by newlines, with no trailing newline. */
  function JoinLines(ls: seq<string>): string {
    if ls == [] then ""
    else if |ls| == 1 then ls[0]
    else JoinLines(ls[..|ls| - 1]) + "\n" + ls[|ls| - 1]
  }

  /** Number of newline characters in a string. */
  function NewlineCount(s: string): nat {
    multiset(s)['\n']
  }

  /** Joining newline-free lines puts in exactly one newline per gap. */
  lemma {:induction false} JoinLinesNewlines(ls: seq<string>)
    requires ls != []
    requires forall i :: 0 <= i < |ls| ==> '\n' !in ls[i]
    ensures NewlineCount(JoinLines(ls)) == |ls| - 1
    decreases |ls|
  {
    if |ls| == 1 {
      assert multiset(ls[0])['\n'] == 0;
    } else {
      var p := ls[..|ls| - 1];
      JoinLinesNewlines(p);
      assert multiset(ls[|ls| - 1])['\n'] == 0;
      assert multiset(JoinLines(ls)) == multiset(JoinLines(p)) + multiset("\n") + multiset(ls[|ls| - 1]);
    }
  }
}

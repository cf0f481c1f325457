/** The string operations the program relies on: `str::split_whitespace`,
    `str::lines`, splitting at a separator, and left-aligned padding as
    `{:<N}` formats it. Strings are sequences of Unicode scalar values. */
module Text {

  /** Rust's `char::is_whitespace`: the Unicode White_Space property. */
  predicate IsWhitespace(c: char) {
    || ('\t' <= c <= '\r')
    || c == ' '
    || c == '\U{85}'
    || c == '\U{A0}'
    || c == '\U{1680}'
    || ('\U{2000}' <= c <= '\U{200A}')
    || c == '\U{2028}'
    || c == '\U{2029}'
    || c == '\U{202F}'
    || c == '\U{205F}'
    || c == '\U{3000}'
  }

  predicate NoWhitespace(s: string) {
    forall i | 0 <= i < |s| :: !IsWhitespace(s[i])
  }

  /** Printable ASCII other than the space. */
  predicate IsGraphic(c: char) {
    '!' <= c <= '~'
  }

  /** A word of printable ASCII has no whitespace. */
  lemma GraphicIsWord(s: string)
    requires forall i | 0 <= i < |s| :: IsGraphic(s[i])
    ensures NoWhitespace(s)
  {
  }

  predicate AllWhitespace(s: string) {
    forall i | 0 <= i < |s| :: IsWhitespace(s[i])
  }

  // ---------------------------------------------------------------------------
  // split_whitespace

  /** The longest prefix of s that holds no whitespace. */
  function Word(s: string): (w: string)
    ensures |w| <= |s| && w == s[..|w|] && NoWhitespace(w)
    ensures |w| < |s| ==> IsWhitespace(s[|w|])
  {
    if s == [] || IsWhitespace(s[0]) then [] else [s[0]] + Word(s[1..])
  }

  /** The maximal runs of non-whitespace characters of s, in order. */
  function Tokens(s: string): seq<string>
    decreases |s|
  {
    if s == [] then []
    else if IsWhitespace(s[0]) then Tokens(s[1..])
    else
      var w := Word(s);
      [w] + Tokens(s[|w|..])
  }

  /** Every token is a non-empty run without whitespace. */
  lemma {:induction false} TokensAreWords(s: string)
    ensures forall i | 0 <= i < |Tokens(s)| :: Tokens(s)[i] != [] && NoWhitespace(Tokens(s)[i])
    decreases |s|
  {
    if s != [] {
      if IsWhitespace(s[0]) {
        TokensAreWords(s[1..]);
      } else {
        TokensAreWords(s[|Word(s)|..]);
      }
    }
  }

  /** Word is determined by its contract: the prefix that stops at the first
      whitespace character. */
  lemma {:induction false} WordIsLongestPrefix(s: string, w: string)
    requires |w| <= |s| && w == s[..|w|] && NoWhitespace(w)
    requires |w| < |s| ==> IsWhitespace(s[|w|])
    ensures Word(s) == w
  {
    if s != [] && !IsWhitespace(s[0]) {
      assert w != [];
      WordIsLongestPrefix(s[1..], w[1..]);
    }
  }

  /** Empty and whitespace-only text has no tokens. */
  lemma {:induction false} TokensOfBlank(s: string)
    requires AllWhitespace(s)
    ensures Tokens(s) == []
  {
    if s != [] {
      TokensOfBlank(s[1..]);
    }
  }

  /** Leading whitespace does not change the tokens. */
  lemma {:induction false} TokensSkipLeading(g: string, s: string)
    requires AllWhitespace(g)
    ensures Tokens(g + s) == Tokens(s)
  {
    if g != [] {
      assert (g + s)[0] == g[0] && (g + s)[1..] == g[1..] + s;
      TokensSkipLeading(g[1..], s);
    } else {
      assert g + s == s;
    }
  }

  /** A single word is its own only token. */
  lemma TokensOfWord(w: string)
    requires w != [] && NoWhitespace(w)
    ensures Tokens(w) == [w]
  {
    assert Word(w) == w;
    assert w[|w|..] == [];
  }

  /** Text starting with whitespace has the tokens of the rest. */
  lemma TokensAfterBlank(s: string)
    requires s != [] && IsWhitespace(s[0])
    ensures Tokens(s) == Tokens(s[1..])
  {
  }

  /** Text starting with a word has that word as its first token. */
  lemma TokensAfterWord(s: string)
    requires s != [] && !IsWhitespace(s[0])
    ensures 0 < |Word(s)| <= |s|
    ensures Tokens(s) == [Word(s)] + Tokens(s[|Word(s)|..])
  {
  }

  /** When a starts with a word, so does a + [c] + b for a whitespace
      character c, and the same word. */
  lemma WordBeforeSpace(a: string, c: char, b: string)
    requires a != [] && !IsWhitespace(a[0]) && IsWhitespace(c)
    ensures |Word(a)| <= |a|
    ensures Tokens(a + [c] + b) == [Word(a)] + Tokens(a[|Word(a)|..] + [c] + b)
  {
    var s := a + [c] + b;
    var w := Word(a);
    assert s[..|w|] == a[..|w|];
    if |w| < |a| {
      assert s[|w|] == a[|w|];
    } else {
      assert s[|w|] == c;
    }
    WordIsLongestPrefix(s, w);
    TokensAfterWord(s);
    assert s[|w|..] == a[|w|..] + [c] + b;
  }

  /** One whitespace character separates the tokens of what comes before it
      from the tokens of what comes after it. */
  lemma {:induction false} TokensSplitAt(a: string, c: char, b: string)
    requires IsWhitespace(c)
    ensures Tokens(a + [c] + b) == Tokens(a) + Tokens(b)
    decreases |a|, 1
  {
    if a == [] {
      var s := a + [c] + b;
      TokensAfterBlank(s);
      assert s[1..] == b;
    } else if IsWhitespace(a[0]) {
      TokensSplitAfterBlank(a, c, b);
    } else {
      TokensSplitAfterWord(a, c, b);
    }
  }

  /** TokensSplitAt when a starts with whitespace. */
  lemma {:induction false} TokensSplitAfterBlank(a: string, c: char, b: string)
    requires a != [] && IsWhitespace(a[0]) && IsWhitespace(c)
    ensures Tokens(a + [c] + b) == Tokens(a) + Tokens(b)
    decreases |a|, 0
  {
    var s := a + [c] + b;
    TokensAfterBlank(s);
    TokensAfterBlank(a);
    assert s[1..] == a[1..] + [c] + b;
    TokensSplitAt(a[1..], c, b);
  }

  /** TokensSplitAt when a starts with a word. */
  lemma {:induction false} TokensSplitAfterWord(a: string, c: char, b: string)
    requires a != [] && !IsWhitespace(a[0]) && IsWhitespace(c)
    ensures Tokens(a + [c] + b) == Tokens(a) + Tokens(b)
    decreases |a|, 0
  {
    var w := Word(a);
    WordBeforeSpace(a, c, b);
    TokensAfterWord(a);
    TokensSplitAt(a[|w|..], c, b);
  }

  /** A non-empty gap of whitespace separates the tokens of what comes
      before it from the tokens of what comes after it. */
  lemma TokensSplit(a: string, g: string, b: string)
    requires g != [] && AllWhitespace(g)
    ensures Tokens(a + g + b) == Tokens(a) + Tokens(b)
  {
    assert a + g + b == a + [g[0]] + (g[1..] + b);
    TokensSplitAt(a, g[0], g[1..] + b);
    TokensSkipLeading(g[1..], b);
  }

  /** Trailing whitespace does not change the tokens. */
  lemma TokensSkipTrailing(s: string, g: string)
    requires AllWhitespace(g)
    ensures Tokens(s + g) == Tokens(s)
  {
    if g != [] {
      assert s + g == s + g + [];
      TokensSplit(s, g, []);
      assert Tokens([]) == [];
    } else {
      assert s + g == s;
    }
  }

  // ---------------------------------------------------------------------------
  // lines

  /** The index of the first '\n' in s, or |s| when there is none. */
  function LineEnd(s: string): (n: nat)
    ensures n <= |s| && '\n' !in s[..n]
    ensures n < |s| ==> s[n] == '\n'
  {
    if s == [] || s[0] == '\n' then 0 else 1 + LineEnd(s[1..])
  }

  /** Removes one '\r' at the end of a line, as `str::lines` does before '\n'. */
  function StripCr(l: string): (r: string)
    ensures r == l || (l == r + ['\r'])
  {
    if l != [] && l[|l| - 1] == '\r' then l[..|l| - 1] else l
  }

  /** Rust's `str::lines`: pieces ended by '\n' (with a '\r' right before the
      '\n' removed); a last piece without '\n' is kept as it is, and a final
      '\n' does not start an empty line. */
  function Lines(s: string): (ls: seq<string>)
    ensures forall i | 0 <= i < |ls| :: '\n' !in ls[i]
    decreases |s|
  {
    if s == [] then []
    else
      var n := LineEnd(s);
      if n == |s| then [s] else [StripCr(s[..n])] + Lines(s[n + 1..])
  }

  /** Each line followed by '\n', as a text file holds them. */
  function Unlines(ls: seq<string>): string {
    if ls == [] then [] else ls[0] + "\n" + Unlines(ls[1..])
  }

  /** Reading the lines of a file written line by line gives those lines back. */
  lemma {:induction false} LinesOfUnlines(ls: seq<string>)
    requires forall i | 0 <= i < |ls| :: '\n' !in ls[i]
    requires forall i | 0 <= i < |ls| :: ls[i] == [] || ls[i][|ls[i]| - 1] != '\r'
    ensures Lines(Unlines(ls)) == ls
  {
    if ls != [] {
      var l := ls[0];
      var s := Unlines(ls);
      assert s == l + "\n" + Unlines(ls[1..]);
      assert s[..|l|] == l && s[|l|] == '\n';
      assert LineEnd(s) == |l|;
      assert s[|l| + 1..] == Unlines(ls[1..]);
      LinesOfUnlines(ls[1..]);
    }
  }

  // ---------------------------------------------------------------------------
  // Splitting at a separator

  /** The pieces of s between occurrences of sep (always at least one). */
  function Split(s: string, sep: char): (parts: seq<string>)
    ensures |parts| >= 1
    ensures forall i | 0 <= i < |parts| :: sep !in parts[i]
    decreases |s|
  {
    if s == [] then [[]]
    else
      var rest := Split(s[1..], sep);
      if s[0] == sep then [[]] + rest else [[s[0]] + rest[0]] + rest[1..]
  }

  /** The pieces put back together with sep between them. */
  function Join(parts: seq<string>, sep: char): string
    requires |parts| >= 1
  {
    if |parts| == 1 then parts[0] else parts[0] + [sep] + Join(parts[1..], sep)
  }

  /** Splitting loses nothing. */
  lemma {:induction false} JoinOfSplit(s: string, sep: char)
    ensures Join(Split(s, sep), sep) == s
    decreases |s|
  {
    if s != [] {
      var rest := Split(s[1..], sep);
      JoinOfSplit(s[1..], sep);
      if s[0] != sep && |rest| > 1 {
        assert rest[1..] != [];
        assert Join(rest, sep) == rest[0] + [sep] + Join(rest[1..], sep);
      }
    }
  }

  lemma {:induction false} SplitWithoutSeparator(p: string, sep: char)
    requires sep !in p
    ensures Split(p, sep) == [p]
  {
    if p != [] {
      SplitWithoutSeparator(p[1..], sep);
      assert [p[0]] + p[1..] == p;
    }
  }

  lemma {:induction false} SplitAtFirst(p: string, sep: char, t: string)
    requires sep !in p
    ensures Split(p + [sep] + t, sep) == [p] + Split(t, sep)
  {
    if p == [] {
      assert (p + [sep] + t)[1..] == t;
    } else {
      assert (p + [sep] + t)[0] == p[0] && (p + [sep] + t)[1..] == p[1..] + [sep] + t;
      SplitAtFirst(p[1..], sep, t);
      assert [p[0]] + p[1..] == p;
    }
  }

  /** Splitting the joined pieces gives the pieces back when none of them
      holds the separator. */
  lemma {:induction false} SplitOfJoin(parts: seq<string>, sep: char)
    requires |parts| >= 1
    requires forall i | 0 <= i < |parts| :: sep !in parts[i]
    ensures Split(Join(parts, sep), sep) == parts
  {
    if |parts| == 1 {
      SplitWithoutSeparator(parts[0], sep);
    } else {
      SplitAtFirst(parts[0], sep, Join(parts[1..], sep));
      SplitOfJoin(parts[1..], sep);
    }
  }

  // ---------------------------------------------------------------------------
  // Padding

  function Spaces(n: nat): (s: string)
    ensures |s| == n && forall i | 0 <= i < n :: s[i] == ' '
  {
    seq(n, _ => ' ')
  }

  /** `format!("{:<width$}", s)`: s, then spaces up to width characters;
      never truncates. */
  function PadRight(s: string, width: nat): (r: string)
    ensures |r| == if |s| < width then width else |s|
  {
    if |s| < width then s + Spaces(width - |s|) else s
  }

  /** A padded text is the text followed by spaces only. */
  lemma PadRightSplit(s: string, width: nat)
    ensures PadRight(s, width) == s + PadRight(s, width)[|s|..]
    ensures forall i | |s| <= i < |PadRight(s, width)| :: PadRight(s, width)[i] == ' '
    ensures AllWhitespace(PadRight(s, width)[|s|..])
  {
    var r := PadRight(s, width);
    assert r == r[..|s|] + r[|s|..];
  }

  /** A padded text followed by a space: the text is the first token, if
      it is not empty. */
  lemma TokensOfPadded(w: string, width: nat, rest: string)
    requires NoWhitespace(w)
    ensures Tokens(PadRight(w, width) + " " + rest) == (if w == [] then [] else [w]) + Tokens(rest)
  {
    PadRightSplit(w, width);
    var g := PadRight(w, width)[|w|..] + " ";
    assert PadRight(w, width) + " " + rest == w + g + rest;
    if w == [] {
      assert w + g + rest == g + rest;
      TokensSkipLeading(g, rest);
    } else {
      TokensOfWordThenGap(w, g, rest);
    }
  }

  /** A word, a gap and the rest: the word is the first token. */
  lemma TokensOfWordThenGap(w: string, g: string, rest: string)
    requires w != [] && NoWhitespace(w)
    requires g != [] && AllWhitespace(g)
    ensures Tokens(w + g + rest) == [w] + Tokens(rest)
  {
    TokensSplit(w, g, rest);
    TokensOfWord(w);
  }

  // ---------------------------------------------------------------------------
  // Rows of left-aligned cells

  /** One `{:<width}` placeholder of a format string with its argument. */
  datatype Cell = Cell(text: string, width: nat)

  /** The cells, each padded to its width, separated by single spaces. */
  function Cells(cs: seq<Cell>): string
    requires |cs| >= 1
    decreases |cs|
  {
    var head := PadRight(cs[0].text, cs[0].width);
    if |cs| == 1 then head else head + " " + Cells(cs[1..])
  }

  /** The texts of the cells that are not empty, in order. */
  function NonEmptyTexts(cs: seq<Cell>): seq<string>
    decreases |cs|
  {
    if cs == [] then []
    else (if cs[0].text == [] then [] else [cs[0].text]) + NonEmptyTexts(cs[1..])
  }

  /** Splitting a row of cells at whitespace gives back the texts of the
      non-empty cells, provided no text holds whitespace itself. */
  lemma {:induction false} TokensOfCells(cs: seq<Cell>)
    requires |cs| >= 1
    requires forall i | 0 <= i < |cs| :: NoWhitespace(cs[i].text)
    ensures Tokens(Cells(cs)) == NonEmptyTexts(cs)
    decreases |cs|
  {
    var t := cs[0].text;
    if |cs| == 1 {
      PadRightSplit(t, cs[0].width);
      TokensSkipTrailing(t, PadRight(t, cs[0].width)[|t|..]);
      if t != [] {
        TokensOfWord(t);
      }
      assert NonEmptyTexts(cs[1..]) == [];
    } else {
      TokensOfPadded(t, cs[0].width, Cells(cs[1..]));
      TokensOfCells(cs[1..]);
    }
  }
}

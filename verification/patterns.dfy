/** The regular expressions of the region classifier, each read as the
    predicate "a search finds a match" or as the count `len(re.findall(...))`.
    Character classes are those of module Strings (whitespace as in Latin-1,
    digits and word characters ASCII) and IGNORECASE is ASCII lower-casing. */
module Patterns {
  import opened Strings

  /** `(^|\n)` without MULTILINE: the start of the text or just after a newline
      (also what `^` means in MULTILINE mode). */
  predicate AtLineHead(s: string, p: int) {
    p == 0 || (0 < p <= |s| && s[p - 1] == '\n')
  }

  /** `run+stop` matched at `q`: one or more `run` characters, then a `stop`
      character. */
  predicate RunThen(s: string, q: nat, run: char -> bool, stop: char -> bool)
    decreases |s| - q
  {
    q < |s| && run(s[q]) && ((q + 1 < |s| && stop(s[q + 1])) || RunThen(s, q + 1, run, stop))
  }

  // ----- figures -----

  /** `figure_patterns`: `fig\.?|figure|diagram|plot|image|graph`, ignoring case. */
  predicate FigureKeyword(text: string) {
    var t := Lower(text);
    Contains(t, "fig") || Contains(t, "figure") || Contains(t, "diagram")
    || Contains(t, "plot") || Contains(t, "image") || Contains(t, "graph")
  }

  /** `(^|\n)Fig(\.|ure)\s+\d+` matched at `p`. */
  predicate FigureCaptionAt(text: string, p: nat) {
    AtLineHead(text, p)
    && ((StartsAt(text, "Fig.", p) && RunThen(text, p + 4, IsSpace, IsDigit))
        || (StartsAt(text, "Figure", p) && RunThen(text, p + 6, IsSpace, IsDigit)))
  }

  predicate FigureCaption(text: string) {
    exists p: nat | p <= |text| :: FigureCaptionAt(text, p)
  }

  // ----- tables -----

  /** `\|\s+\|` matched at `i`. */
  predicate PipeGapAt(text: string, i: nat) {
    i < |text| && text[i] == '|' && RunThen(text, i + 1, IsSpace, IsPipe)
  }

  /** `\+\-+\+` matched at `i`. */
  predicate DashRuleAt(text: string, i: nat) {
    i < |text| && text[i] == '+' && RunThen(text, i + 1, IsDash, IsPlus)
  }

  /** `table_patterns`: `table|tabular|\|\s+\||\+\-+\+`, ignoring case. */
  predicate TableKeyword(text: string) {
    var t := Lower(text);
    Contains(t, "table") || Contains(t, "tabular")
    || (exists i: nat | i < |text| :: PipeGapAt(text, i))
    || (exists i: nat | i < |text| :: DashRuleAt(text, i))
  }

  /** `(^|\n)Table\s+\d+` matched at `p`. */
  predicate TableCaptionAt(text: string, p: nat) {
    AtLineHead(text, p) && StartsAt(text, "Table", p) && RunThen(text, p + 5, IsSpace, IsDigit)
  }

  predicate TableCaption(text: string) {
    exists p: nat | p <= |text| :: TableCaptionAt(text, p)
  }

  /** `len(re.findall(r'\s{2,}', line))`: the maximal whitespace runs of
      length two or more, each counted where it starts. */
  function WideGapCount(line: string): nat {
    WideGapsFrom(line, 0)
  }

  function WideGapsFrom(s: string, i: nat): nat
    decreases |s| - i
  {
    if i + 1 >= |s| then 0
    else
      (if IsSpace(s[i]) && IsSpace(s[i + 1]) && (i == 0 || !IsSpace(s[i - 1])) then 1 else 0)
      + WideGapsFrom(s, i + 1)
  }

  /** The lines with more than one wide gap: candidate table rows. */
  function AlignedLineCount(lines: seq<string>): (n: nat)
    ensures n <= |lines|
  {
    if lines == [] then 0
    else (if WideGapCount(lines[0]) > 1 then 1 else 0) + AlignedLineCount(lines[1..])
  }

  /** The column-alignment test of `_is_table`: more than three lines after
      stripping, and the share of aligned lines above one half. */
  predicate GridLike(text: string) {
    var lines := Split(Strip(text), '\n');
    |lines| > 3 && (AlignedLineCount(lines) as real) / (|lines| as real) > 0.5
  }

  // ----- lists -----

  /** `\d+\.\s` matched at `q`. */
  predicate NumberedAt(s: string, q: nat)
    decreases |s| - q
  {
    q < |s| && IsDigit(s[q])
    && ((q + 2 < |s| && s[q + 1] == '.' && IsSpace(s[q + 2])) || NumberedAt(s, q + 1))
  }

  /** `(\d+\.|•|\*|\-)\s` matched at `p`. */
  predicate ListMarkerAt(s: string, p: nat) {
    (p + 1 < |s| && (s[p] == '•' || s[p] == '*' || s[p] == '-') && IsSpace(s[p + 1]))
    || NumberedAt(s, p)
  }

  /** `len(list_patterns.findall(text))` for `^(\d+\.|•|\*|\-)\s` in MULTILINE
      mode: the line starts that carry a list marker. A match ends at the
      latest just after the next newline, so matches never overlap. */
  function ListItemCount(text: string): nat {
    ListItemsFrom(text, 0)
  }

  function ListItemsFrom(s: string, p: nat): nat
    decreases |s| - p
  {
    if p >= |s| then 0
    else (if AtLineHead(s, p) && ListMarkerAt(s, p) then 1 else 0) + ListItemsFrom(s, p + 1)
  }
  /** The lines that begin with a list marker, read line by line; a line
      that ends in a newline may use that newline as the marker's
      whitespace. */
  function MarkedLines(lines: seq<string>): nat {
    if |lines| == 0 then 0
    else if |lines| == 1 then (if ListMarkerAt(lines[0], 0) then 1 else 0)
    else (if ListMarkerAt(lines[0] + "\n", 0) then 1 else 0) + MarkedLines(lines[1..])
  }

  /** The multiline search counts exactly the lines of the text that begin
      with a list marker. */
  lemma ListItemCountLines(text: string)
    ensures ListItemCount(text) == MarkedLines(Split(text, '\n'))
  {
    JoinSplit(text, '\n');
    SplitPartsFree(text, '\n');
    ItemsJoinedLines(Split(text, '\n'));
  }

  lemma {:induction false} ItemsJoinedLines(lines: seq<string>)
    requires |lines| >= 1
    requires forall i | 0 <= i < |lines| :: '\n' !in lines[i]
    ensures ListItemCount(Join(lines, "\n")) == MarkedLines(lines)
  {
    if |lines| == 1 {
      ItemsLastLine(lines[0]);
    } else {
      ItemsLine(lines[0], Join(lines[1..], "\n"));
      ItemsJoinedLines(lines[1..]);
    }
  }

  /** A text of one line holds at most one list item, at its start. */
  lemma ItemsLastLine(a: string)
    requires '\n' !in a
    ensures ListItemCount(a) == if ListMarkerAt(a, 0) then 1 else 0
  {
    if a != [] {
      ItemsNoHead(a, 1, |a|);
    }
  }

  /** A first line ending in a newline adds one item when it begins with a
      marker; the rest of the text is counted as if it stood alone. */
  lemma ItemsLine(a: string, b: string)
    requires '\n' !in a
    ensures ListItemCount(a + "\n" + b) == (if ListMarkerAt(a + "\n", 0) then 1 else 0) + ListItemCount(b)
  {
    var s := a + "\n" + b;
    ItemsNoHead(s, 1, |a| + 1);
    ItemsShift(a + "\n", b, 0);
    MarkerLineEnd(a, b);
  }

  /** No position inside a line is a line start, so none adds an item. */
  lemma {:induction false} ItemsNoHead(s: string, p: nat, e: nat)
    requires 0 < p <= e <= |s|
    requires forall k | p - 1 <= k < e - 1 :: s[k] != '\n'
    ensures ListItemsFrom(s, p) == ListItemsFrom(s, e)
    decreases e - p
  {
    if p < e {
      assert !AtLineHead(s, p);
      ItemsNoHead(s, p + 1, e);
    }
  }

  /** Counting from a line start of `x + b` is counting in `b` alone. */
  lemma {:induction false} ItemsShift(x: string, b: string, q: nat)
    requires x == [] || x[|x| - 1] == '\n'
    ensures ListItemsFrom(x + b, |x| + q) == ListItemsFrom(b, q)
    decreases |b| - q
  {
    if q < |b| {
      var s := x + b;
      assert AtLineHead(s, |x| + q) == AtLineHead(b, q) by {
        if q > 0 {
          assert s[|x| + q - 1] == b[q - 1];
        } else if x != [] {
          assert s[|x| - 1] == x[|x| - 1];
        }
      }
      MarkerShift(x, b, q);
      ItemsShift(x, b, q + 1);
    }
  }

  lemma MarkerShift(x: string, b: string, q: nat)
    ensures ListMarkerAt(x + b, |x| + q) == ListMarkerAt(b, q)
  {
    NumberedShift(x, b, q);
    if q + 1 < |b| {
      assert (x + b)[|x| + q] == b[q] && (x + b)[|x| + q + 1] == b[q + 1];
    }
  }

  lemma {:induction false} NumberedShift(x: string, b: string, q: nat)
    ensures NumberedAt(x + b, |x| + q) == NumberedAt(b, q)
    decreases |b| - q
  {
    if q < |b| {
      var s := x + b;
      assert s[|x| + q] == b[q];
      if q + 2 < |b| {
        assert s[|x| + q + 1] == b[q + 1] && s[|x| + q + 2] == b[q + 2];
      }
      NumberedShift(x, b, q + 1);
    }
  }

  /** A marker at the start of a line never reaches past the line's newline. */
  lemma MarkerLineEnd(a: string, b: string)
    requires '\n' !in a
    ensures ListMarkerAt(a + "\n" + b, 0) == ListMarkerAt(a + "\n", 0)
  {
    NumberedLineEnd(a, b, 0);
    if a != [] {
      assert (a + "\n" + b)[0] == (a + "\n")[0] && (a + "\n" + b)[1] == (a + "\n")[1];
    }
  }

  lemma {:induction false} NumberedLineEnd(a: string, b: string, q: nat)
    requires '\n' !in a && q <= |a|
    ensures NumberedAt(a + "\n" + b, q) == NumberedAt(a + "\n", q)
    decreases |a| - q
  {
    var s1, s2 := a + "\n" + b, a + "\n";
    assert s1[q] == s2[q];
    if q < |a| {
      assert s1[q + 1] == s2[q + 1];
      if q + 2 <= |a| {
        assert s1[q + 2] == s2[q + 2];
      }
      NumberedLineEnd(a, b, q + 1);
    }
  }


  // ----- equations -----

  predicate IsOperator(c: char) {
    c == '=' || c == '+' || c == '-' || c == '*' || c == '/'
  }

  /** `equation_patterns`, ignoring case: the word "equation", an arithmetic
      operator, or one of the LaTeX commands `\sum`, `\int`, `\prod`, `\div`,
      `\approx` the pattern evidently means. */
  predicate EquationKeyword(text: string) {
    var t := Lower(text);
    Contains(t, "equation") || (exists i | 0 <= i < |text| :: IsOperator(text[i]))
    || Contains(t, "\\sum") || Contains(t, "\\int") || Contains(t, "\\prod")
    || Contains(t, "\\div") || Contains(t, "\\approx")
  }

  /** The symbol class of `_is_equation`: plus, minus, star, slash, equals,
      parentheses, braces, brackets and caret. */
  predicate IsMathSymbol(c: char) {
    IsOperator(c) || c == '(' || c == ')' || c == '{' || c == '}' || c == '[' || c == ']' || c == '^'
  }

  /** The number of math symbols in `text` (a `findall` over that class). */
  function MathSymbolCount(text: string): (n: nat)
    ensures n <= |text|
  {
    if text == [] then 0
    else (if IsMathSymbol(text[0]) then 1 else 0) + MathSymbolCount(text[1..])
  }

  /** `len(re.findall(r'\b\w+\b', text))`: the maximal runs of word characters. */
  function WordCount(text: string): nat {
    WordsFrom(text, 0)
  }

  function WordsFrom(s: string, i: nat): nat
    decreases |s| - i
  {
    if i >= |s| then 0
    else (if IsWordChar(s[i]) && (i == 0 || !IsWordChar(s[i - 1])) then 1 else 0) + WordsFrom(s, i + 1)
  }

  // ----- titles -----

  /** The class `[\w\s\.\:]`. */
  predicate TitleChar(c: char) {
    IsWordChar(c) || IsSpace(c) || c == '.' || c == ':'
  }

  /** `[\w\s\.\:]{0,budget}$` in MULTILINE mode matched at `q`: at most
      `budget` title characters, then the end of the text or a newline. */
  predicate TitleTail(s: string, q: nat, budget: nat)
    decreases budget
  {
    q == |s| || (q < |s| && s[q] == '\n')
    || (budget > 0 && q < |s| && TitleChar(s[q]) && TitleTail(s, q + 1, budget - 1))
  }

  /** `^[A-Z0-9][\w\s\.\:]{0,100}$` in MULTILINE mode matched at `p`. */
  predicate TitleLineAt(s: string, p: nat) {
    p < |s| && AtLineHead(s, p) && (IsUpper(s[p]) || IsDigit(s[p])) && TitleTail(s, p + 1, 100)
  }

  /** `title_patterns.search(text)`. */
  predicate TitleLine(text: string) {
    exists p: nat | p < |text| :: TitleLineAt(text, p)
  }

  /** `\d+\.\d+` matched at `i` (a digit, a dot, a digit). */
  predicate DecimalAt(text: string, i: nat) {
    i + 2 < |text| && IsDigit(text[i]) && text[i + 1] == '.' && IsDigit(text[i + 2])
  }

  /** `\d+\)` matched at `i` (a digit, a closing parenthesis). */
  predicate ParenNumberAt(text: string, i: nat) {
    i + 1 < |text| && IsDigit(text[i]) && text[i + 1] == ')'
  }

  /** `re.search(r'^[A-Z]\.|\d+\.\d+|\d+\)', text)`: `^` without MULTILINE is
      the start of the text only. */
  predicate SectionNumbering(text: string) {
    (|text| >= 2 && IsUpper(text[0]) && text[1] == '.')
    || (exists i: nat | i < |text| :: DecimalAt(text, i))
    || (exists i: nat | i < |text| :: ParenNumberAt(text, i))
  }
}

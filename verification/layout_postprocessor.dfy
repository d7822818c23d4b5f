/** The region classifier: heuristics that retype the generic `text` and
    `unknown` regions of a layout page as figure, table, list, equation or
    title from their text and geometry. */
module LayoutPostprocessor {
  import opened Wrappers
  import opened Strings
  import opened Patterns
  import opened Regions
  import LayoutAnalyzer

  /** Only regions the layout engine left generic are reconsidered. */
  predicate IsCandidate(r: Region) {
    r.regionType == "text" || r.regionType == "unknown"
  }

  /** The types the classifier can give. */
  predicate IsAssignedType(t: string) {
    t == "figure" || t == "table" || t == "list" || t == "equation" || t == "title"
  }

  /** Width over height of a four-entry box, 0 when the height is not positive. */
  function AspectRatio(bbox: seq<real>): real
    requires |bbox| == 4
  {
    var width := bbox[2] - bbox[0];
    var height := bbox[3] - bbox[1];
    if height > 0.0 then width / height else 0.0
  }

  /** The shape test of `_is_figure`: a wide, short-texted box. */
  predicate WideShape(text: string, bbox: seq<real>) {
    |bbox| == 4 && AspectRatio(bbox) > 1.5 && |text| < 200
  }

  predicate IsFigure(text: string, r: Region) {
    FigureKeyword(text) || FigureCaption(text) || WideShape(text, r.bboxRaw)
  }

  predicate IsTable(text: string) {
    TableKeyword(text) || TableCaption(text) || GridLike(text)
  }

  predicate IsList(text: string) {
    ListItemCount(text) > 1
  }

  /** A list is a text of which at least two lines begin with a list marker. */
  lemma IsListLines(text: string)
    ensures IsList(text) <==> MarkedLines(Split(text, '\n')) >= 2
  {
    ListItemCountLines(text);
  }

  /** Two numbered lines make a list; one bulleted line does not. */
  lemma ListExamples()
    ensures IsList("1. a\n2. b")
    ensures !IsList("- a")
  {
    ItemsLine("1. a", "2. b");
    assert ListMarkerAt("1. a\n", 0);
    ItemsLastLine("2. b");
    assert ListMarkerAt("2. b", 0);
    assert "1. a" + "\n" + "2. b" == "1. a\n2. b";
    ItemsLastLine("- a");
  }

  predicate IsEquation(text: string) {
    var symbols := MathSymbolCount(text);
    EquationKeyword(text) && symbols > 0
    && (symbols as real) / ((WordCount(text) + 1) as real) > 0.3
  }

  /** Near the top of the page: the normalised box's top edge above 30%. */
  predicate NearTop(r: Region) {
    |r.bboxNorm| == 4 && r.bboxNorm[1] < 0.3
  }

  predicate IsTitle(text: string, r: Region) {
    |text| <= 100 && TitleLine(text) && (NearTop(r) || SectionNumbering(text))
  }

  /** The outcomes of the five tests on one region's text. */
  datatype Checks = Checks(figure: bool, table: bool, list: bool, equation: bool, title: bool)

  function ChecksOf(text: string, r: Region): Checks {
    Checks(IsFigure(text, r), IsTable(text), IsList(text), IsEquation(text), IsTitle(text, r))
  }

  /** The first test that holds, in the order figure, table, list, equation,
      title, names the type; `original` when none holds. */
  function FirstMatch(original: string, c: Checks): string {
    if c.figure then "figure"
    else if c.table then "table"
    else if c.list then "list"
    else if c.equation then "equation"
    else if c.title then "title"
    else original
  }

  /** The type `_enhance_region` gives: the region's own type when its text is
      empty or it is not a candidate, else the first test that holds. */
  function Classify(r: Region): string {
    var text := TextOf(r.content);
    if text == [] || !IsCandidate(r) then r.regionType else FirstMatch(r.regionType, ChecksOf(text, r))
  }

  /** `_enhance_region`: a copy of the region with its type reclassified; no
      other field changes. */
  function EnhanceRegion(r: Region): (e: Region)
    ensures e.bboxRaw == r.bboxRaw && e.bboxNorm == r.bboxNorm
    ensures e.content == r.content && e.page == r.page
  {
    r.(regionType := Classify(r))
  }

  /** The type after enhancing is the region's own or one the classifier
      gives; a region that is not a candidate, or whose content has no text
      (table and raw content included), comes back unchanged. */
  lemma EnhanceRegionType(r: Region)
    ensures var e := EnhanceRegion(r);
      e.regionType == r.regionType || IsAssignedType(e.regionType)
    ensures !IsCandidate(r) || TextOf(r.content) == [] ==> EnhanceRegion(r) == r
  {
    var text := TextOf(r.content);
    if text != [] && IsCandidate(r) {
      FirstMatchType(r.regionType, ChecksOf(text, r));
    }
  }

  lemma FirstMatchType(original: string, c: Checks)
    ensures FirstMatch(original, c) == original || IsAssignedType(FirstMatch(original, c))
  {
  }

  /** A page as `process_regions` rebuilds it: the page number, 1 when the
      key is missing, and every region enhanced, in order. */
  function EnhancePage(p: PageRecord): (q: LayoutPage)
    ensures q.page == p.page.GetOr(1)
    ensures |q.results| == |p.results.GetOr([])|
    ensures forall i | 0 <= i < |q.results| :: q.results[i] == EnhanceRegion(p.results.GetOr([])[i])
  {
    var regions := p.results.GetOr([]);
    LayoutPage(p.page.GetOr(1), seq(|regions|, i requires 0 <= i < |regions| => EnhanceRegion(regions[i])))
  }

  /** `process_regions`: one enhanced page per input page, in order. */
  method ProcessRegions(pages: seq<PageRecord>) returns (enhanced: seq<LayoutPage>)
    ensures |enhanced| == |pages|
    ensures forall i | 0 <= i < |pages| :: enhanced[i] == EnhancePage(pages[i])
  {
    enhanced := [];
    var k := 0;
    while k < |pages|
      invariant 0 <= k <= |pages|
      invariant |enhanced| == k
      invariant forall i | 0 <= i < k :: enhanced[i] == EnhancePage(pages[i])
    {
      var page := pages[k];
      var regions := page.results.GetOr([]);
      var enhancedResults: seq<Region> := [];
      var j := 0;
      while j < |regions|
        invariant 0 <= j <= |regions|
        invariant |enhancedResults| == j
        invariant forall i | 0 <= i < j :: enhancedResults[i] == EnhanceRegion(regions[i])
      {
        var region := EnhanceRegion(regions[j]);
        enhancedResults := enhancedResults + [region];
        j := j + 1;
      }
      assert enhancedResults == EnhancePage(page).results;
      enhanced := enhanced + [LayoutPage(page.page.GetOr(1), enhancedResults)];
      k := k + 1;
    }
  }

  // ----- properties of the classifier -----

  /** A ratio over a positive denominator exceeds a threshold exactly when
      the numerator exceeds the threshold times the denominator. */
  lemma RatioAbove(a: real, d: real, t: real)
    requires d > 0.0
    ensures a / d > t <==> a > t * d
  {
    var q := a / d;
    assert a == q * d;
    if q > t {
      assert q * d > t * d;
    } else {
      assert q * d <= t * d;
    }
  }

  /** The geometric figure test as an inequality on the box: a positive height,
      a width more than one and a half times it, and fewer than 200 characters.
      A box of height zero or less never passes. */
  lemma WideShapeIff(text: string, bbox: seq<real>)
    ensures WideShape(text, bbox) <==>
      |bbox| == 4 && bbox[3] - bbox[1] > 0.0
      && bbox[2] - bbox[0] > 1.5 * (bbox[3] - bbox[1]) && |text| < 200
  {
    if |bbox| == 4 && bbox[3] - bbox[1] > 0.0 {
      RatioAbove(bbox[2] - bbox[0], bbox[3] - bbox[1], 1.5);
    }
  }

  /** The equation density test as an inequality on counts: ten symbols for
      every three words-plus-one, strictly. */
  lemma EquationIff(text: string)
    ensures IsEquation(text) <==>
      EquationKeyword(text) && MathSymbolCount(text) > 0
      && 10 * MathSymbolCount(text) > 3 * (WordCount(text) + 1)
  {
    EquationRatio(EquationKeyword(text), MathSymbolCount(text), WordCount(text), IsEquation(text));
  }

  /** The equation test's ratio, over the counts alone. */
  lemma EquationRatio(keyword: bool, s: nat, w: nat, equation: bool)
    requires equation == (keyword && s > 0 && (s as real) / ((w + 1) as real) > 0.3)
    ensures equation <==> keyword && s > 0 && 10 * s > 3 * (w + 1)
  {
    RatioAbove(s as real, (w + 1) as real, 0.3);
  }

  /** The grid test as an inequality on counts: more than three lines, and
      more than half of them aligned. */
  lemma GridLikeIff(text: string)
    ensures GridLike(text) <==>
      var lines := Split(Strip(text), '\n');
      |lines| > 3 && 2 * AlignedLineCount(lines) > |lines|
  {
    var lines := Split(Strip(text), '\n');
    GridRatio(AlignedLineCount(lines), |lines|, GridLike(text));
  }

  /** The grid test's ratio, over the counts alone. */
  lemma GridRatio(a: nat, n: nat, grid: bool)
    requires grid == (n > 3 && (a as real) / (n as real) > 0.5)
    ensures grid <==> n > 3 && 2 * a > n
  {
    if n > 3 {
      RatioAbove(a as real, n as real, 0.5);
    }
  }

  /** The tests run in a fixed order and the first that holds decides; each
      type is given exactly when its own test holds and no earlier one does. */
  lemma ClassifyFirstMatch(r: Region)
    requires IsCandidate(r) && TextOf(r.content) != []
    ensures var text := TextOf(r.content);
      && (Classify(r) == "figure" <==> IsFigure(text, r))
      && (Classify(r) == "table" <==> !IsFigure(text, r) && IsTable(text))
      && (Classify(r) == "list" <==> !IsFigure(text, r) && !IsTable(text) && IsList(text))
      && (Classify(r) == "equation" <==>
            !IsFigure(text, r) && !IsTable(text) && !IsList(text) && IsEquation(text))
      && (Classify(r) == "title" <==>
            !IsFigure(text, r) && !IsTable(text) && !IsList(text) && !IsEquation(text)
            && IsTitle(text, r))
      && (Classify(r) == r.regionType <==>
            !IsFigure(text, r) && !IsTable(text) && !IsList(text) && !IsEquation(text)
            && !IsTitle(text, r))
  {
    var text := TextOf(r.content);
    FirstMatchOrder(r.regionType, ChecksOf(text, r));
  }

  lemma FirstMatchOrder(original: string, c: Checks)
    requires !IsAssignedType(original)
    ensures FirstMatch(original, c) == "figure" <==> c.figure
    ensures FirstMatch(original, c) == "table" <==> !c.figure && c.table
    ensures FirstMatch(original, c) == "list" <==> !c.figure && !c.table && c.list
    ensures FirstMatch(original, c) == "equation" <==> !c.figure && !c.table && !c.list && c.equation
    ensures FirstMatch(original, c) == "title" <==> !c.figure && !c.table && !c.list && !c.equation && c.title
    ensures FirstMatch(original, c) == original <==>
      !c.figure && !c.table && !c.list && !c.equation && !c.title
  {
  }

  /** A retyped region is no longer a candidate, so enhancing it again
      changes nothing. */
  lemma EnhanceRegionIdempotent(r: Region)
    ensures EnhanceRegion(EnhanceRegion(r)) == EnhanceRegion(r)
  {
    var e := EnhanceRegion(r);
    EnhanceRegionType(r);
    if e != r {
      assert IsAssignedType(e.regionType);
      assert !IsCandidate(e);
      EnhanceRegionType(e);
    }
  }

  /** Processing already processed pages gives them back unchanged. */
  lemma EnhancePageIdempotent(p: PageRecord)
    ensures EnhancePage(AsRecord(EnhancePage(p))) == EnhancePage(p)
  {
    var q := EnhancePage(p);
    var q2 := EnhancePage(AsRecord(q));
    forall i | 0 <= i < |q.results|
      ensures q2.results[i] == q.results[i]
    {
      EnhanceRegionIdempotent(p.results.GetOr([])[i]);
    }
  }

  /** The caption checks of `_is_figure` and `_is_table` can never decide:
      a caption match is always a keyword match too. */
  lemma CaptionsSubsumed(text: string)
    ensures FigureCaption(text) ==> FigureKeyword(text)
    ensures TableCaption(text) ==> TableKeyword(text)
  {
    if FigureCaption(text) {
      var p: nat :| p <= |text| && FigureCaptionAt(text, p);
      if StartsAt(text, "Fig.", p) {
        StartsAtPrefix(text, "Fig.", 3, p);
      } else {
        StartsAtPrefix(text, "Figure", 3, p);
      }
      LowerStartsAt(text, "Fig", "fig", p);
    }
    if TableCaption(text) {
      var p: nat :| p <= |text| && TableCaptionAt(text, p);
      LowerStartsAt(text, "Table", "table", p);
    }
  }

  /** An occurrence of a pattern is an occurrence of each of its prefixes. */
  lemma StartsAtPrefix(s: string, pat: string, n: nat, p: nat)
    requires StartsAt(s, pat, p) && n <= |pat|
    ensures StartsAt(s, pat[..n], p)
  {
    assert s[p..p + n] == s[p..p + |pat|][..n];
  }

  /** An occurrence of `pat` in `s` is an occurrence of its lower-case form in
      `Lower(s)`. */
  lemma LowerStartsAt(s: string, pat: string, low: string, p: nat)
    requires StartsAt(s, pat, p) && low == Lower(pat)
    ensures Contains(Lower(s), low)
  {
    assert StartsAt(Lower(s), low, p);
  }

  /** The text of the analyser's placeholder region is a title line. */
  lemma PlaceholderTextIsTitleLine()
    ensures TitleLine("No regions detected")
  {
    var text := "No regions detected";
    assert forall i | 1 <= i < |text| :: TitleChar(text[i]);
    TitleTailAll(text, 1, 100);
    assert TitleLineAt(text, 0);
  }

  /** A candidate whose text passes the title test is retyped, whatever test
      decides first. */
  lemma TitleRetypes(r: Region)
    requires IsCandidate(r) && TextOf(r.content) != []
    requires IsTitle(TextOf(r.content), r)
    ensures IsAssignedType(EnhanceRegion(r).regionType)
  {
    var c := ChecksOf(TextOf(r.content), r);
    FirstMatchTitle(r.regionType, c);
  }

  lemma FirstMatchTitle(original: string, c: Checks)
    requires c.title
    ensures IsAssignedType(FirstMatch(original, c))
  {
  }

  /** The placeholder region the analyser emits for an empty page is a
      candidate with text that passes the title test: "No regions detected"
      starts with a capital and has only title characters, and the
      placeholder's box always lies near the top. */
  lemma PlaceholderIsTitle(width: nat, height: nat, page: int)
    ensures var r := LayoutAnalyzer.Placeholder(width, height, page);
      IsCandidate(r) && TextOf(r.content) != [] && IsTitle(TextOf(r.content), r)
  {
    var r := LayoutAnalyzer.Placeholder(width, height, page);
    PlaceholderTextIsTitleLine();
    assert NearTop(r);
  }

  /** So the placeholder does not keep its type "unknown": the classifier
      gives it one of its own types. */
  lemma PlaceholderRetyped(width: nat, height: nat, page: int)
    ensures IsAssignedType(EnhanceRegion(LayoutAnalyzer.Placeholder(width, height, page)).regionType)
  {
    PlaceholderIsTitle(width, height, page);
    TitleRetypes(LayoutAnalyzer.Placeholder(width, height, page));
  }

  /** A line of title characters is matched by the tail of the title pattern. */
  lemma {:induction false} TitleTailAll(s: string, q: nat, budget: nat)
    requires q <= |s| && |s| - q <= budget
    requires forall i | q <= i < |s| :: TitleChar(s[i])
    ensures TitleTail(s, q, budget)
    decreases |s| - q
  {
    if q < |s| {
      TitleTailAll(s, q + 1, budget - 1);
    }
  }
}

/** OCR line post-processing: each line the OCR engine reads on a page image
    gets clean text, a normalised box, a rounded confidence and a
    low-confidence flag, and the page's lines are put in top-to-bottom order.
    The OCR engine is outside the model: its lines are part of the input. */
module OcrPaddle {
  import opened Wrappers
  import opened Strings
  import opened Rounding
  import Sources

  datatype Point = Point(x: real, y: real)

  /** The four corners of a line's box as the engine gives them, clockwise
      from the top left. */
  datatype Quad = Quad(p0: Point, p1: Point, p2: Point, p3: Point)

  /** One line read by the engine: its box, its text and its confidence. */
  datatype EngineLine = EngineLine(box: Quad, text: string, confidence: real)

  /** A decoded page image: its size in pixels and the engine's lines, in the
      order the engine emits them. */
  datatype OcrImage = OcrImage(width: nat, height: nat, lines: seq<EngineLine>)

  datatype OcrLine = OcrLine(
    text: string,
    confidence: real,
    bboxRaw: Quad,
    bboxNorm: seq<real>,
    lowConfidence: bool,
    lineClass: Option<string>,
    page: int)

  datatype OcrPage = OcrPage(page: int, results: seq<OcrLine>)

  /** Lines read with a confidence below this are flagged. */
  const LowConfidenceThreshold: real := 0.7

  const ZeroDivision := "ZeroDivisionError: division by zero"

  // ----- text -----

  /** `re.sub(r'\s+', ' ', text.strip())`: no whitespace at either end, every
      inner whitespace run one plain space, and the other characters kept, in
      order. */
  function CleanText(text: string): (r: string)
    ensures r == [] || (!IsSpace(r[0]) && !IsSpace(r[|r| - 1]))
    ensures SingleSpaced(r)
    ensures NonSpace(r) == NonSpace(text)
  {
    CollapseWs(Strip(text))
  }

  /** Cleaning is `' '.join(text.split())`: the words of the text, one plain
      space apart. */
  lemma CleanTextWords(text: string)
    ensures CleanText(text) == Join(Words(text), " ")
  {
    CollapseStripWords(text);
  }

  /** Stripping text without whitespace at its ends changes nothing. */
  lemma StripFixes(s: string)
    requires s == [] || (!IsSpace(s[0]) && !IsSpace(s[|s| - 1]))
    ensures Strip(s) == s
  {
    assert TrimRight(s) == s;
    assert TrimLeft(s) == s;
  }

  /** Cleaning clean text changes nothing. */
  lemma CleanTextIdempotent(text: string)
    ensures CleanText(CleanText(text)) == CleanText(text)
  {
    var r := CleanText(text);
    StripFixes(r);
    CollapseWsFixes(r);
  }

  // ----- one line -----

  /** The result built for one engine line on page `page`: the box is
      normalised from corners 0 and 2, which raises on a zero dimension. */
  function MakeLine(line: EngineLine, width: nat, height: nat, page: int): (r: Result<OcrLine, string>)
    ensures r.Success? <==> width > 0 && height > 0
    ensures r.Success? ==>
      && r.value.text == CleanText(line.text)
      && r.value.bboxRaw == line.box
      && r.value.bboxNorm == [Round6(line.box.p0.x / width as real), Round6(line.box.p0.y / height as real),
                              Round6(line.box.p2.x / width as real), Round6(line.box.p2.y / height as real)]
      && (r.value.lowConfidence <==> line.confidence < LowConfidenceThreshold)
      && r.value.lineClass == None
      && r.value.page == page
  {
    if width == 0 || height == 0 then Failure(ZeroDivision)
    else
      var w, h := width as real, height as real;
      var norm := [Round6(line.box.p0.x / w), Round6(line.box.p0.y / h),
                   Round6(line.box.p2.x / w), Round6(line.box.p2.y / h)];
      Success(OcrLine(CleanText(line.text), Round4(line.confidence), line.box, norm,
                      line.confidence < LowConfidenceThreshold, None, page))
  }

  /** The stored confidence is within half a ten-thousandth of the engine's,
      and the flag is decided on the engine's own value, not the rounded one. */
  lemma MakeLineConfidence(line: EngineLine, width: nat, height: nat, page: int)
    requires width > 0 && height > 0
    ensures var l := MakeLine(line, width, height, page).value;
      line.confidence - 0.00005 <= l.confidence <= line.confidence + 0.00005
  {
    Round4Error(line.confidence);
  }

  /** A confidence just under the threshold is flagged although it is
      stored rounded up to the threshold. */
  lemma FlagUsesRawConfidence()
    ensures var l := MakeLine(EngineLine(Quad(Point(0.0, 0.0), Point(0.0, 0.0), Point(0.0, 0.0), Point(0.0, 0.0)),
                                         "", 0.69999), 1, 1, 1).value;
      l.lowConfidence && l.confidence == 0.7
  {
    assert RoundHalfEven(0.69999 * 10000.0) == 7000;
  }

  /** The top-left and bottom-right corners of a box scaled to the unit
      square: x divided by the page's width, y by its height. */
  function ScaledCorners(box: Quad, width: nat, height: nat): (r: seq<real>)
    requires width > 0 && height > 0
    ensures |r| == 4
  {
    [box.p0.x / width as real, box.p0.y / height as real, box.p2.x / width as real, box.p2.y / height as real]
  }

  /** Each normalised coordinate is within half a millionth of the scaled
      corner coordinate it stands for. */
  lemma MakeLineBoxAccurate(line: EngineLine, width: nat, height: nat, page: int)
    requires width > 0 && height > 0
    ensures var n := MakeLine(line, width, height, page).value.bboxNorm;
      var exact := ScaledCorners(line.box, width, height);
      forall k | 0 <= k < 4 :: exact[k] - 0.0000005 <= n[k] <= exact[k] + 0.0000005
  {
    var n := MakeLine(line, width, height, page).value.bboxNorm;
    var exact := ScaledCorners(line.box, width, height);
    assert forall k | 0 <= k < 4 :: n[k] == Round6(exact[k]);
    forall k | 0 <= k < 4
      ensures exact[k] - 0.0000005 <= n[k] <= exact[k] + 0.0000005
    {
      Round6Error(exact[k]);
    }
  }

  /** The results of the engine's lines, in engine order; the first line
      that raises decides the outcome. */
  function MakeAll(lines: seq<EngineLine>, width: nat, height: nat, page: int): Result<seq<OcrLine>, string> {
    if lines == [] then Success([])
    else
      match MakeAll(lines[..|lines| - 1], width, height, page)
      case Failure(e) => Failure(e)
      case Success(ls) =>
        match MakeLine(lines[|lines| - 1], width, height, page)
        case Failure(e) => Failure(e)
        case Success(l) => Success(ls + [l])
  }

  /** Building succeeds exactly when there is nothing to divide or both
      dimensions are positive, and then gives one result per engine line, in
      order. */
  lemma {:induction false} MakeAllSuccess(lines: seq<EngineLine>, width: nat, height: nat, page: int)
    ensures MakeAll(lines, width, height, page).Success? <==> lines == [] || (width > 0 && height > 0)
    ensures MakeAll(lines, width, height, page).Failure? ==> MakeAll(lines, width, height, page).error == ZeroDivision
    ensures MakeAll(lines, width, height, page).Success? ==>
      var ls := MakeAll(lines, width, height, page).value;
      |ls| == |lines|
      && forall i | 0 <= i < |lines| :: MakeLine(lines[i], width, height, page) == Success(ls[i])
  {
    if lines != [] {
      var init, last := lines[..|lines| - 1], lines[|lines| - 1];
      MakeAllSuccess(init, width, height, page);
      match MakeAll(init, width, height, page) {
        case Failure(_) =>
        case Success(front) =>
          match MakeLine(last, width, height, page) {
            case Failure(_) =>
            case Success(l) =>
              var ls := front + [l];
              assert MakeAll(lines, width, height, page) == Success(ls);
              forall i | 0 <= i < |lines|
                ensures MakeLine(lines[i], width, height, page) == Success(ls[i])
              {
                if i < |init| {
                  assert init[i] == lines[i];
                  assert ls[i] == front[i];
                  assert MakeLine(init[i], width, height, page) == Success(front[i]);
                } else {
                  assert i == |lines| - 1;
                  assert lines[i] == last;
                  assert ls[i] == l;
                }
              }
          }
      }
    }
  }

  // ----- ordering -----

  /** The sort key: the top edge `y1` of the line's raw box. */
  function Top(l: OcrLine): real {
    l.bboxRaw.p0.y
  }

  /** Inserts `x` into a line list after every line whose top edge is not
      below its own. */
  function InsertByTop(s: seq<OcrLine>, x: OcrLine): (r: seq<OcrLine>)
    ensures |r| == |s| + 1
  {
    if s == [] then [x]
    else if Top(x) < Top(s[0]) then [x] + s
    else [s[0]] + InsertByTop(s[1..], x)
  }

  /** `blocks.sort(key=lambda b: b[0])`: Python's sort is stable, here an
      insertion sort that keeps lines with equal keys in their order. */
  function SortByTop(s: seq<OcrLine>): (r: seq<OcrLine>)
    ensures |r| == |s|
  {
    if s == [] then [] else InsertByTop(SortByTop(s[..|s| - 1]), s[|s| - 1])
  }

  ghost predicate SortedByTop(s: seq<OcrLine>) {
    forall i, j | 0 <= i < j < |s| :: Top(s[i]) <= Top(s[j])
  }

  /** The lines whose key is `k`, in order. */
  function WithTop(s: seq<OcrLine>, k: real): seq<OcrLine> {
    if s == [] then []
    else WithTop(s[..|s| - 1], k) + (if Top(s[|s| - 1]) == k then [s[|s| - 1]] else [])
  }

  lemma {:induction false} WithTopAppend(a: seq<OcrLine>, b: seq<OcrLine>, k: real)
    ensures WithTop(a + b, k) == WithTop(a, k) + WithTop(b, k)
    decreases |b|
  {
    if b == [] {
      assert a + b == a;
    } else {
      assert (a + b)[..|a + b| - 1] == a + b[..|b| - 1];
      WithTopAppend(a, b[..|b| - 1], k);
    }
  }

  lemma WithTopOne(x: OcrLine, k: real)
    ensures WithTop([x], k) == if Top(x) == k then [x] else []
  {
    assert [x][..0] == [];
  }

  /** A sorted list with `x` inserted is sorted. */
  lemma {:induction false} InsertByTopSorted(s: seq<OcrLine>, x: OcrLine)
    requires SortedByTop(s)
    ensures SortedByTop(InsertByTop(s, x))
  {
    if s != [] && Top(x) >= Top(s[0]) {
      var t := s[1..];
      InsertByTopSorted(t, x);
      InsertByTopPerm(t, x);
      var rt := InsertByTop(t, x);
      var r := [s[0]] + rt;
      forall j | 0 < j < |r|
        ensures Top(s[0]) <= Top(r[j])
      {
        assert r[j] == rt[j - 1];
        assert rt[j - 1] in multiset(rt);
        assert rt[j - 1] in multiset(t) || rt[j - 1] == x;
      }
    }
  }

  /** Inserting adds `x` and keeps every other line. */
  lemma {:induction false} InsertByTopPerm(s: seq<OcrLine>, x: OcrLine)
    ensures multiset(InsertByTop(s, x)) == multiset(s) + multiset{x}
  {
    if s != [] && Top(x) >= Top(s[0]) {
      InsertByTopPerm(s[1..], x);
      assert s == [s[0]] + s[1..];
    }
  }

  /** In a sorted list, `x` lands after every line with its key. */
  lemma {:induction false} InsertByTopStable(s: seq<OcrLine>, x: OcrLine, k: real)
    requires SortedByTop(s)
    ensures WithTop(InsertByTop(s, x), k) == WithTop(s, k) + WithTop([x], k)
  {
    if s == [] {
      assert [x] == [] + [x];
    } else if Top(x) < Top(s[0]) {
      InsertBeforeStable(s, x, k);
    } else {
      var t := s[1..];
      assert SortedByTop(t);
      InsertByTopStable(t, x, k);
      InsertAfterStable(s, x, k);
    }
  }

  /** `x` goes in front of a sorted list whose first key is above its own. */
  lemma InsertBeforeStable(s: seq<OcrLine>, x: OcrLine, k: real)
    requires SortedByTop(s) && s != [] && Top(x) < Top(s[0])
    ensures WithTop(InsertByTop(s, x), k) == WithTop(s, k) + WithTop([x], k)
  {
    WithTopOne(x, k);
    assert InsertByTop(s, x) == [x] + s;
    WithTopAppend([x], s, k);
    if Top(x) == k {
      NoneWithTop(s, k);
    }
  }

  /** `x` goes past the head of `s` and lands stably in the tail. */
  lemma InsertAfterStable(s: seq<OcrLine>, x: OcrLine, k: real)
    requires s != [] && Top(x) >= Top(s[0])
    requires WithTop(InsertByTop(s[1..], x), k) == WithTop(s[1..], k) + WithTop([x], k)
    ensures WithTop(InsertByTop(s, x), k) == WithTop(s, k) + WithTop([x], k)
  {
    var t := s[1..];
    assert InsertByTop(s, x) == [s[0]] + InsertByTop(t, x);
    assert s == [s[0]] + t;
    WithTopAppend([s[0]], InsertByTop(t, x), k);
    WithTopAppend([s[0]], t, k);
  }

  /** In a sorted list whose first key is above `k`, no line has key `k`. */
  lemma {:induction false} NoneWithTop(s: seq<OcrLine>, k: real)
    requires SortedByTop(s) && s != [] && k < Top(s[0])
    ensures WithTop(s, k) == []
    decreases |s|
  {
    if |s| > 1 {
      NoneWithTop(s[..|s| - 1], k);
    }
    assert Top(s[0]) <= Top(s[|s| - 1]);
  }

  /** The sort gives a sorted list. */
  lemma {:induction false} SortByTopSorted(s: seq<OcrLine>)
    ensures SortedByTop(SortByTop(s))
  {
    if s != [] {
      SortByTopSorted(s[..|s| - 1]);
      InsertByTopSorted(SortByTop(s[..|s| - 1]), s[|s| - 1]);
    }
  }

  /** The sort gives a permutation of its input. */
  lemma {:induction false} SortByTopPerm(s: seq<OcrLine>)
    ensures multiset(SortByTop(s)) == multiset(s)
  {
    if s != [] {
      var init, x := s[..|s| - 1], s[|s| - 1];
      SortByTopPerm(init);
      InsertByTopPerm(SortByTop(init), x);
      assert s == init + [x];
    }
  }

  /** The sort keeps lines with equal keys in their input order. */
  lemma {:induction false} SortByTopStable(s: seq<OcrLine>, k: real)
    ensures WithTop(SortByTop(s), k) == WithTop(s, k)
  {
    if s != [] {
      var init, x := s[..|s| - 1], s[|s| - 1];
      SortByTopStable(init, k);
      SortByTopSorted(init);
      InsertByTopStable(SortByTop(init), x, k);
      assert s == init + [x];
      WithTopAppend(init, [x], k);
    }
  }

  // ----- pages -----

  /** The page `_process_pil_image` returns. */
  function ReadPage(image: OcrImage, page: int): Result<OcrPage, string> {
    match MakeAll(image.lines, image.width, image.height, page)
    case Failure(e) => Failure(e)
    case Success(ls) => Success(OcrPage(page, SortByTop(ls)))
  }

  /** The page's results are the results of the engine's lines ordered top
      to bottom; lines with equal tops keep the engine's order. */
  lemma ReadPageOrder(image: OcrImage, page: int, k: real)
    requires ReadPage(image, page).Success?
    ensures var p := ReadPage(image, page).value;
      var made := MakeAll(image.lines, image.width, image.height, page).value;
      && SortedByTop(p.results)
      && multiset(p.results) == multiset(made)
      && WithTop(p.results, k) == WithTop(made, k)
  {
    var made := MakeAll(image.lines, image.width, image.height, page).value;
    SortByTopSorted(made);
    SortByTopPerm(made);
    SortByTopStable(made, k);
  }

  /** One result per engine line, each tagged with the page. */
  lemma ReadPageTags(image: OcrImage, page: int, p: OcrPage)
    requires ReadPage(image, page) == Success(p)
    ensures p.page == page && |p.results| == |image.lines|
    ensures forall i | 0 <= i < |p.results| :: p.results[i].page == page
  {
    MakeAllSuccess(image.lines, image.width, image.height, page);
    var made := MakeAll(image.lines, image.width, image.height, page).value;
    assert p.results == SortByTop(made);
    SortByTopPerm(made);
    forall i | 0 <= i < |made|
      ensures made[i].page == page
    {
      assert MakeLine(image.lines[i], image.width, image.height, page) == Success(made[i]);
    }
    SamePages(made, p.results, page);
  }

  /** Reordering lines keeps them all tagged with the same page. */
  lemma SamePages(a: seq<OcrLine>, b: seq<OcrLine>, page: int)
    requires multiset(a) == multiset(b)
    requires forall i | 0 <= i < |a| :: a[i].page == page
    ensures forall i | 0 <= i < |b| :: b[i].page == page
  {
    forall i | 0 <= i < |b|
      ensures b[i].page == page
    {
      assert b[i] in multiset(a);
    }
  }

  /** The body of `_process_pil_image`'s loop for one engine line of a page
      with positive dimensions. */
  method BuildLine(line: EngineLine, width: nat, height: nat, page: int) returns (block: OcrLine)
    requires width > 0 && height > 0
    ensures MakeLine(line, width, height, page) == Success(block)
  {
    var w, h := width as real, height as real;
    var norm := [Round6(line.box.p0.x / w), Round6(line.box.p0.y / h),
                 Round6(line.box.p2.x / w), Round6(line.box.p2.y / h)];
    block := OcrLine(CleanText(line.text), Round4(line.confidence), line.box, norm,
                     line.confidence < LowConfidenceThreshold, None, page);
  }

  /** `_process_pil_image`. */
  method ProcessPilImage(image: OcrImage, page: int) returns (r: Result<OcrPage, string>)
    ensures r == ReadPage(image, page)
  {
    var lines := image.lines;
    var blocks: seq<OcrLine> := [];
    var i := 0;
    while i < |lines|
      invariant 0 <= i <= |lines|
      invariant MakeAll(lines[..i], image.width, image.height, page) == Success(blocks)
    {
      assert lines[..i + 1][..i] == lines[..i];
      var line := lines[i];
      if image.width == 0 || image.height == 0 {
        MakeAllSuccess(lines, image.width, image.height, page);
        return Failure(ZeroDivision);
      }
      var block := BuildLine(line, image.width, image.height, page);
      assert MakeAll(lines[..i + 1], image.width, image.height, page) == Success(blocks + [block]);
      blocks := blocks + [block];
      i := i + 1;
    }
    assert lines[..i] == lines;
    blocks := SortByTop(blocks);
    r := Success(OcrPage(page, blocks));
  }

  // ----- the document -----

  /** The pages of a document, numbered from 1 in order. */
  function ReadAll(images: seq<OcrImage>): Result<seq<OcrPage>, string> {
    if images == [] then Success([])
    else
      match ReadAll(images[..|images| - 1])
      case Failure(e) => Failure(e)
      case Success(ps) =>
        match ReadPage(images[|images| - 1], |images|)
        case Failure(e) => Failure(e)
        case Success(p) => Success(ps + [p])
  }

  /** The response of `extract_text_and_boxes`. */
  function Extract(input: Sources.Input<OcrImage>): Result<seq<OcrPage>, string> {
    match Sources.PagesOf(input)
    case Failure(e) => Failure(e)
    case Success(images) => ReadAll(images)
  }

  /** Reading succeeds exactly when every page does, and then page `i`
      (from 0) is the page image `i` read as page number `i + 1`. */
  lemma {:induction false} ReadAllSuccess(images: seq<OcrImage>)
    ensures ReadAll(images).Success? <==> forall i | 0 <= i < |images| :: ReadPage(images[i], i + 1).Success?
    ensures ReadAll(images).Success? ==>
      var ps := ReadAll(images).value;
      |ps| == |images|
      && forall i | 0 <= i < |images| :: ReadPage(images[i], i + 1) == Success(ps[i]) && ps[i].page == i + 1
  {
    if images != [] {
      var init, last := images[..|images| - 1], images[|images| - 1];
      ReadAllSuccess(init);
      assert forall i | 0 <= i < |init| :: init[i] == images[i];
      match ReadAll(init) {
        case Failure(_) =>
        case Success(front) =>
          match ReadPage(last, |images|) {
            case Failure(_) =>
            case Success(p) =>
              var ps := front + [p];
              assert ReadAll(images) == Success(ps);
              forall i | 0 <= i < |images|
                ensures ReadPage(images[i], i + 1) == Success(ps[i]) && ps[i].page == i + 1
              {
                if i < |init| {
                  assert ps[i] == front[i];
                } else {
                  assert i == |images| - 1;
                }
              }
          }
      }
    }
  }

  /** Once a prefix of the pages raises, the whole document raises the same
      error. */
  lemma {:induction false} ReadAllFailure(images: seq<OcrImage>, k: nat)
    requires k <= |images|
    requires ReadAll(images[..k]).Failure?
    ensures ReadAll(images) == ReadAll(images[..k])
    decreases |images| - k
  {
    if k < |images| {
      assert images[..k + 1][..k] == images[..k];
      ReadAllFailure(images, k + 1);
    } else {
      assert images[..k] == images;
    }
  }

  /** A PDF gives at most three pages, numbered 1 to n in the order of the
      rasterised pages; an image path or a stream gives one page numbered 1. */
  lemma ExtractPages(input: Sources.Input<OcrImage>)
    requires Extract(input).Success?
    ensures var ps := Extract(input).value;
      && |ps| <= Sources.MaxPdfPages
      && (forall i | 0 <= i < |ps| :: ps[i].page == i + 1)
      && (input.Path? && Sources.IsPdfName(input.name) ==>
            |ps| == (if |input.rasterized| < Sources.MaxPdfPages then |input.rasterized| else Sources.MaxPdfPages)
            && forall i | 0 <= i < |ps| :: ReadPage(input.rasterized[i], i + 1) == Success(ps[i]))
      && (!(input.Path? && Sources.IsPdfName(input.name)) ==> |ps| == 1)
  {
    ReadAllSuccess(Sources.PagesOf(input).value);
  }

  /** The loop over the page images, numbering pages from 1. */
  method ReadPages(images: seq<OcrImage>) returns (r: Result<seq<OcrPage>, string>)
    ensures r == ReadAll(images)
  {
    var pages: seq<OcrPage> := [];
    var i := 0;
    while i < |images|
      invariant 0 <= i <= |images|
      invariant ReadAll(images[..i]) == Success(pages)
    {
      assert images[..i + 1][..i] == images[..i];
      var p := ProcessPilImage(images[i], i + 1);
      if p.Failure? {
        assert ReadAll(images[..i + 1]) == Failure(p.error);
        ReadAllFailure(images, i + 1);
        return Failure(p.error);
      }
      assert ReadAll(images[..i + 1]) == Success(pages + [p.value]);
      pages := pages + [p.value];
      i := i + 1;
    }
    assert images[..i] == images;
    r := Success(pages);
  }

  /** `extract_text_and_boxes`. */
  method ExtractTextAndBoxes(input: Sources.Input<OcrImage>) returns (r: Result<seq<OcrPage>, string>)
    ensures r == Extract(input)
  {
    var source := Sources.PagesOf(input);
    if source.Failure? {
      return Failure(source.error);
    }
    r := ReadPages(source.value);
  }
}

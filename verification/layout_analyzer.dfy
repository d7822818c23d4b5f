/** The layout page assembler: turns what the layout engine detects on each
    page image into regions with a normalised box and decoded content, puts a
    placeholder on pages where nothing is detected, and numbers the pages of
    the input. The engine itself is outside the model: its detections are
    part of the input. */
module LayoutAnalyzer {
  import opened Wrappers
  import opened Strings
  import opened Rounding
  import Py
  import opened Regions
  import Sources

  /** One entry of the engine's output: its `type`, `bbox` and `res` keys,
      each of which may be missing. */
  datatype Detection = Detection(kind: Option<string>, bbox: Option<seq<real>>, res: Option<Py.Value>)

  /** A decoded page image: its size in pixels and the engine's detections on
      it, in the order the engine emits them. */
  datatype PageImage = PageImage(width: nat, height: nat, detections: seq<Detection>)

  /** `ast.literal_eval` applied to a text that starts with `[`: such a text
      denotes a list or is rejected, so the outcome is the list's items or
      None when Python raises. */
  type LiteralEval = string -> Option<seq<Py.Value>>

  const DefaultBox: seq<real> := [0.0, 0.0, 0.0, 0.0]

  const ZeroDivision := "ZeroDivisionError: division by zero"

  const BadUnpack := "ValueError: wrong number of values to unpack"

  const NonStrItem := "TypeError: sequence item: expected str instance"

  // ----- normalisation -----

  /** The box relative to the page size, x by width and y by height, rounded
      to six decimals. Unpacking a box that is not four numbers raises, and
      so does dividing by a zero dimension. */
  function Normalise(bbox: seq<real>, width: nat, height: nat): (r: Result<seq<real>, string>)
    ensures r.Success? <==> |bbox| == 4 && width > 0 && height > 0
    ensures r.Success? ==> |r.value| == 4
    ensures r.Failure? ==> r.error == if |bbox| != 4 then BadUnpack else ZeroDivision
  {
    if |bbox| != 4 then Failure(BadUnpack)
    else if width == 0 || height == 0 then Failure(ZeroDivision)
    else
      var w, h := width as real, height as real;
      Success([Round6(bbox[0] / w), Round6(bbox[1] / h), Round6(bbox[2] / w), Round6(bbox[3] / h)])
  }

  /** Each normalised coordinate is within half a millionth of the exact
      ratio. */
  lemma NormaliseAccurate(bbox: seq<real>, width: nat, height: nat)
    requires Normalise(bbox, width, height).Success?
    ensures var n := Normalise(bbox, width, height).value;
      var w, h := width as real, height as real;
      && bbox[0] / w - 0.0000005 <= n[0] <= bbox[0] / w + 0.0000005
      && bbox[1] / h - 0.0000005 <= n[1] <= bbox[1] / h + 0.0000005
      && bbox[2] / w - 0.0000005 <= n[2] <= bbox[2] / w + 0.0000005
      && bbox[3] / h - 0.0000005 <= n[3] <= bbox[3] / h + 0.0000005
  {
    var w, h := width as real, height as real;
    Round6Error(bbox[0] / w);
    Round6Error(bbox[1] / h);
    Round6Error(bbox[2] / w);
    Round6Error(bbox[3] / h);
  }

  /** A box lying on the page, corners ordered, normalises to a box inside the
      unit square with its corners still ordered. */
  lemma NormaliseInUnitSquare(bbox: seq<real>, width: nat, height: nat)
    requires |bbox| == 4 && width > 0 && height > 0
    requires 0.0 <= bbox[0] <= bbox[2] <= width as real
    requires 0.0 <= bbox[1] <= bbox[3] <= height as real
    ensures var n := Normalise(bbox, width, height).value;
      0.0 <= n[0] <= n[2] <= 1.0 && 0.0 <= n[1] <= n[3] <= 1.0
  {
    var w, h := width as real, height as real;
    assert Round6(0.0) == 0.0 && Round6(1.0) == 1.0;
    UnitRatio(bbox[0], bbox[2], w);
    UnitRatio(bbox[1], bbox[3], h);
  }

  /** Dividing `0 <= a <= b <= d` by `d` and rounding keeps the order and
      stays within `[0, 1]`. */
  lemma UnitRatio(a: real, b: real, d: real)
    requires d > 0.0 && 0.0 <= a <= b <= d
    ensures 0.0 <= Round6(a / d) <= Round6(b / d) <= 1.0
  {
    DivideOrdered(0.0, a, d);
    DivideOrdered(a, b, d);
    DivideOrdered(b, d, d);
    assert d / d == 1.0;
    Round6Monotone(0.0, a / d);
    Round6Monotone(a / d, b / d);
    Round6Monotone(b / d, 1.0);
    Round6Exact(0);
    Round6Exact(1);
  }

  /** Dividing by a positive number keeps the order. */
  lemma DivideOrdered(a: real, b: real, d: real)
    requires d > 0.0 && a <= b
    ensures a / d <= b / d
  {
    var x, y := a / d, b / d;
    assert x * d == a && y * d == b;
  }

  // ----- content decoding -----

  /** The text an item of a list payload contributes, if any: a dictionary's
      `text` entry; when `acceptPairs` holds, also a pair's second element's
      first element (when that is a non-empty list) or the second element
      itself (when that is a string). */
  function ItemText(item: Py.Value, acceptPairs: bool): Option<Py.Value> {
    match item
    case Dict(entries) => Py.Get(entries, "text")
    case List(xs) =>
      if acceptPairs && |xs| > 1 then
        if xs[1].List? && |xs[1].items| > 0 then Some(xs[1].items[0])
        else if xs[1].Str? then Some(xs[1])
        else None
      else None
    case _ => None
  }

  /** The texts collected from the items, in order, skipping items that
      contribute none. */
  function TextItems(items: seq<Py.Value>, acceptPairs: bool): (texts: seq<Py.Value>)
    ensures |texts| <= |items|
  {
    if items == [] then []
    else
      var t := ItemText(items[|items| - 1], acceptPairs);
      TextItems(items[..|items| - 1], acceptPairs) + (if t.Some? then [t.value] else [])
  }

  /** Collecting from two runs of items is collecting from each in turn. */
  lemma {:induction false} TextItemsAppend(a: seq<Py.Value>, b: seq<Py.Value>, acceptPairs: bool)
    ensures TextItems(a + b, acceptPairs) == TextItems(a, acceptPairs) + TextItems(b, acceptPairs)
    decreases |b|
  {
    if b == [] {
      assert a + b == a;
    } else {
      var b' := b[..|b| - 1];
      assert (a + b)[..|a + b| - 1] == a + b';
      TextItemsAppend(a, b', acceptPairs);
    }
  }

  /** One item contributes its text, or nothing. */
  lemma TextItemsOne(item: Py.Value, acceptPairs: bool)
    ensures TextItems([item], acceptPairs) ==
      if ItemText(item, acceptPairs).Some? then [ItemText(item, acceptPairs).value] else []
  {
    assert [item][..0] == [];
  }

  /** The text loop of `_process_layout_from_image`. */
  method CollectTexts(items: seq<Py.Value>, acceptPairs: bool) returns (texts: seq<Py.Value>)
    ensures texts == TextItems(items, acceptPairs)
  {
    texts := [];
    var i := 0;
    while i < |items|
      invariant 0 <= i <= |items|
      invariant texts == TextItems(items[..i], acceptPairs)
    {
      var item := items[i];
      assert items[..i + 1][..i] == items[..i];
      match item {
        case Dict(entries) =>
          var t := Py.Get(entries, "text");
          if t.Some? {
            texts := texts + [t.value];
          }
        case List(xs) =>
          if acceptPairs && |xs| > 1 {
            if xs[1].List? && |xs[1].items| > 0 {
              texts := texts + [xs[1].items[0]];
            } else if xs[1].Str? {
              texts := texts + [xs[1]];
            }
          }
        case _ =>
      }
      i := i + 1;
    }
    assert items[..i] == items;
  }

  predicate AllStr(values: seq<Py.Value>) {
    forall i | 0 <= i < |values| :: values[i].Str?
  }

  /** The strings held by values that are all strings, in order. */
  function Strs(values: seq<Py.Value>): (r: seq<string>)
    requires AllStr(values)
    ensures |r| == |values|
    ensures forall i | 0 <= i < |values| :: values[i] == Py.Str(r[i])
  {
    seq(|values|, i requires 0 <= i < |values| => values[i].s)
  }

  /** `"\n".join(values)`, which raises TypeError on an item that is not a
      string. */
  function JoinTexts(values: seq<Py.Value>): (r: Result<string, string>)
    ensures r.Success? <==> AllStr(values)
  {
    if AllStr(values) then Success(Join(Strs(values), "\n")) else Failure(NonStrItem)
  }

  /** Newline-free texts can be read back from the joined text by splitting
      it at newlines. */
  lemma JoinTextsSplit(values: seq<Py.Value>)
    requires values != [] && AllStr(values)
    requires forall i | 0 <= i < |values| :: '\n' !in values[i].s
    ensures Split(JoinTexts(values).value, '\n') == Strs(values)
  {
    SplitJoin(Strs(values), '\n');
  }

  /** A payload of exactly one string that starts with `[`: the engine's
      printed form of a list, which the assembler parses leniently. */
  predicate IsPrintedList(res: Py.Value) {
    res.List? && |res.items| == 1 && res.items[0].Str? && StartsWith(res.items[0].s, "[")
  }

  /** The content of a region of type `kind` with payload `res`. */
  function DecodeContent(kind: string, res: Py.Value, literalEval: LiteralEval): Result<Content, string> {
    if kind == "table" then
      if res.Dict? then
        Success(TableContent(Py.Get(res.entries, "html").GetOr(Py.Str("")),
                             Py.Get(res.entries, "boxes").GetOr(Py.List([]))))
      else Success(TableContent(Py.Str(""), Py.List([])))
    else if res.List? then
      if IsPrintedList(res) then
        match literalEval(res.items[0].s)
        case None => Success(TextContent(Py.Repr(res)))
        case Some(parsed) =>
          var joined := JoinTexts(TextItems(parsed, false));
          if joined.Success? then Success(TextContent(joined.value))
          else Success(TextContent(Py.Repr(res)))
      else
        var joined := JoinTexts(TextItems(res.items, true));
        if joined.Success? then Success(TextContent(joined.value)) else Failure(joined.error)
    else Success(RawContent(Py.StrOf(res)))
  }

  /** The decoding rules. A table region always gets table content: the
      payload's `html` and `boxes` entries when it is a dictionary, with an
      empty string and an empty list for what is missing. A printed list never
      fails: its parsed texts joined by newlines when it parses to a list
      whose texts are all strings, else the payload's printed form. Any other
      list gives its texts joined by newlines, or TypeError when one of them
      is not a string. Every other payload is kept as its printed form. */
  lemma DecodeContentCases(kind: string, res: Py.Value, literalEval: LiteralEval)
    ensures kind == "table" && res.Dict? ==>
      DecodeContent(kind, res, literalEval)
      == Success(TableContent(Py.Get(res.entries, "html").GetOr(Py.Str("")),
                              Py.Get(res.entries, "boxes").GetOr(Py.List([]))))
    ensures kind == "table" && !res.Dict? ==>
      DecodeContent(kind, res, literalEval) == Success(TableContent(Py.Str(""), Py.List([])))
    ensures kind != "table" && IsPrintedList(res) ==>
      var printed := "[" + Py.ReprStr(res.items[0].s) + "]";
      match literalEval(res.items[0].s)
      case None => DecodeContent(kind, res, literalEval) == Success(TextContent(printed))
      case Some(parsed) =>
        var texts := TextItems(parsed, false);
        DecodeContent(kind, res, literalEval)
        == Success(TextContent(if AllStr(texts) then Join(Strs(texts), "\n") else printed))
    ensures kind != "table" && res.List? && !IsPrintedList(res) ==>
      var texts := TextItems(res.items, true);
      DecodeContent(kind, res, literalEval)
      == if AllStr(texts) then Success(TextContent(Join(Strs(texts), "\n"))) else Failure(NonStrItem)
    ensures kind != "table" && !res.List? ==>
      DecodeContent(kind, res, literalEval) == Success(RawContent(Py.StrOf(res)))
  {
    if kind != "table" && IsPrintedList(res) {
      assert Py.ReprItems(res.items) == Py.Repr(res.items[0]);
    }
  }

  /** A region without a payload gets empty text. */
  lemma MissingPayloadIsEmptyText(kind: string, literalEval: LiteralEval)
    requires kind != "table"
    ensures DecodeContent(kind, Py.List([]), literalEval) == Success(TextContent(""))
  {
    assert TextItems([], true) == [];
    assert Strs([]) == [];
  }

  // ----- regions and pages -----

  /** The region made of one detection on page `page`: missing type and box
      default to `unknown` and four zeros; the raw box is kept as given. */
  function DecodeRegion(d: Detection, width: nat, height: nat, page: int, literalEval: LiteralEval)
    : (r: Result<Region, string>)
    ensures r.Success? ==>
      && r.value.regionType == d.kind.GetOr("unknown")
      && r.value.bboxRaw == d.bbox.GetOr(DefaultBox)
      && Normalise(r.value.bboxRaw, width, height) == Success(r.value.bboxNorm)
      && DecodeContent(r.value.regionType, d.res.GetOr(Py.List([])), literalEval) == Success(r.value.content)
      && r.value.page == page
    ensures r.Failure? <==>
      Normalise(d.bbox.GetOr(DefaultBox), width, height).Failure?
      || DecodeContent(d.kind.GetOr("unknown"), d.res.GetOr(Py.List([])), literalEval).Failure?
    ensures r.Failure? ==>
      r.error == if Normalise(d.bbox.GetOr(DefaultBox), width, height).Failure?
                 then Normalise(d.bbox.GetOr(DefaultBox), width, height).error
                 else DecodeContent(d.kind.GetOr("unknown"), d.res.GetOr(Py.List([])), literalEval).error
  {
    var kind := d.kind.GetOr("unknown");
    var bbox := d.bbox.GetOr(DefaultBox);
    match Normalise(bbox, width, height)
    case Failure(e) => Failure(e)
    case Success(norm) =>
      match DecodeContent(kind, d.res.GetOr(Py.List([])), literalEval)
      case Failure(e) => Failure(e)
      case Success(content) => Success(Region(kind, bbox, norm, content, page))
  }

  /** The regions of a run of detections, in emission order; the first
      detection that raises decides the outcome. */
  function DecodeAll(ds: seq<Detection>, width: nat, height: nat, page: int, literalEval: LiteralEval)
    : Result<seq<Region>, string>
  {
    if ds == [] then Success([])
    else
      match DecodeAll(ds[..|ds| - 1], width, height, page, literalEval)
      case Failure(e) => Failure(e)
      case Success(rs) =>
        match DecodeRegion(ds[|ds| - 1], width, height, page, literalEval)
        case Failure(e) => Failure(e)
        case Success(r) => Success(rs + [r])
  }

  /** Decoding succeeds exactly when every detection decodes, and then gives
      one region per detection, in order. */
  lemma {:induction false} DecodeAllSuccess(ds: seq<Detection>, width: nat, height: nat, page: int,
                                            literalEval: LiteralEval)
    ensures DecodeAll(ds, width, height, page, literalEval).Success? <==>
      forall i | 0 <= i < |ds| :: DecodeRegion(ds[i], width, height, page, literalEval).Success?
    ensures DecodeAll(ds, width, height, page, literalEval).Success? ==>
      var rs := DecodeAll(ds, width, height, page, literalEval).value;
      |rs| == |ds|
      && forall i | 0 <= i < |ds| :: rs[i] == DecodeRegion(ds[i], width, height, page, literalEval).value
  {
    if ds != [] {
      var init := ds[..|ds| - 1];
      DecodeAllSuccess(init, width, height, page, literalEval);
      assert forall i | 0 <= i < |init| :: init[i] == ds[i];
    }
  }

  /** Once a prefix of the detections raises, the whole run raises the same
      error. */
  lemma {:induction false} DecodeAllFailure(ds: seq<Detection>, k: nat, width: nat, height: nat, page: int,
                                            literalEval: LiteralEval)
    requires k <= |ds|
    requires DecodeAll(ds[..k], width, height, page, literalEval).Failure?
    ensures DecodeAll(ds, width, height, page, literalEval) == DecodeAll(ds[..k], width, height, page, literalEval)
    decreases |ds| - k
  {
    if k < |ds| {
      assert ds[..k + 1][..k] == ds[..k];
      DecodeAllFailure(ds, k + 1, width, height, page, literalEval);
    } else {
      assert ds[..k] == ds;
    }
  }

  /** The region of an empty page: type `unknown`, the whole page as its box
      and the text "No regions detected". */
  function Placeholder(width: nat, height: nat, page: int): Region {
    Region("unknown", [0.0, 0.0, width as real, height as real], [0.0, 0.0, 1.0, 1.0],
           TextContent("No regions detected"), page)
  }

  /** The page `_process_layout_from_image` returns. */
  function AssemblePage(image: PageImage, page: int, literalEval: LiteralEval): Result<LayoutPage, string> {
    match DecodeAll(image.detections, image.width, image.height, page, literalEval)
    case Failure(e) => Failure(e)
    case Success(rs) => Success(LayoutPage(page, if rs == [] then [Placeholder(image.width, image.height, page)] else rs))
  }

  /** A page with no detections gets exactly the placeholder, whatever its
      size, since nothing is divided. */
  lemma EmptyPageHasPlaceholder(image: PageImage, page: int, literalEval: LiteralEval)
    requires image.detections == []
    ensures AssemblePage(image, page, literalEval) ==
      Success(LayoutPage(page, [Placeholder(image.width, image.height, page)]))
  {
  }

  /** A page with detections gets one region per detection, in emission
      order (no sorting), each tagged with the page number; it fails exactly
      when some detection fails. */
  lemma AssemblePageRegions(image: PageImage, page: int, literalEval: LiteralEval)
    requires image.detections != []
    ensures AssemblePage(image, page, literalEval).Success? <==>
      forall i | 0 <= i < |image.detections| ::
        DecodeRegion(image.detections[i], image.width, image.height, page, literalEval).Success?
    ensures AssemblePage(image, page, literalEval).Success? ==>
      var p := AssemblePage(image, page, literalEval).value;
      p.page == page && |p.results| == |image.detections|
      && forall i | 0 <= i < |p.results| ::
           p.results[i] == DecodeRegion(image.detections[i], image.width, image.height, page, literalEval).value
           && p.results[i].page == page
  {
    DecodeAllSuccess(image.detections, image.width, image.height, page, literalEval);
  }

  /** The body of the region loop of `_process_layout_from_image`: one
      detection made into a region. */
  method BuildRegion(d: Detection, width: nat, height: nat, page: int, literalEval: LiteralEval)
    returns (r: Result<Region, string>)
    ensures r == DecodeRegion(d, width, height, page, literalEval)
  {
    var kind := d.kind.GetOr("unknown");
    var bbox := d.bbox.GetOr(DefaultBox);
    if |bbox| != 4 || width == 0 || height == 0 {
      return Failure(if |bbox| != 4 then BadUnpack else ZeroDivision);
    }
    var w, h := width as real, height as real;
    var norm := [Round6(bbox[0] / w), Round6(bbox[1] / h), Round6(bbox[2] / w), Round6(bbox[3] / h)];
    var res := d.res.GetOr(Py.List([]));
    var content: Content;
    if kind == "table" {
      if res.Dict? {
        content := TableContent(Py.Get(res.entries, "html").GetOr(Py.Str("")),
                                Py.Get(res.entries, "boxes").GetOr(Py.List([])));
      } else {
        content := TableContent(Py.Str(""), Py.List([]));
      }
    } else if res.List? {
      if IsPrintedList(res) {
        var parsed := literalEval(res.items[0].s);
        if parsed.None? {
          content := TextContent(Py.Repr(res));
        } else {
          var texts := CollectTexts(parsed.value, false);
          var joined := JoinTexts(texts);
          content := if joined.Success? then TextContent(joined.value) else TextContent(Py.Repr(res));
        }
      } else {
        var texts := CollectTexts(res.items, true);
        var joined := JoinTexts(texts);
        if joined.Failure? {
          return Failure(joined.error);
        }
        content := TextContent(joined.value);
      }
    } else {
      content := RawContent(Py.StrOf(res));
    }
    r := Success(Region(kind, bbox, norm, content, page));
  }

  /** The region loop of `_process_layout_from_image`: the detections made
      into regions in emission order, stopping at the first that raises. */
  method BuildRegions(ds: seq<Detection>, width: nat, height: nat, page: int, literalEval: LiteralEval)
    returns (r: Result<seq<Region>, string>)
    ensures r == DecodeAll(ds, width, height, page, literalEval)
  {
    var layoutResults: seq<Region> := [];
    var i := 0;
    while i < |ds|
      invariant 0 <= i <= |ds|
      invariant DecodeAll(ds[..i], width, height, page, literalEval) == Success(layoutResults)
    {
      assert ds[..i + 1][..i] == ds[..i];
      var region := BuildRegion(ds[i], width, height, page, literalEval);
      if region.Failure? {
        assert DecodeAll(ds[..i + 1], width, height, page, literalEval) == Failure(region.error);
        DecodeAllFailure(ds, i + 1, width, height, page, literalEval);
        return Failure(region.error);
      }
      assert DecodeAll(ds[..i + 1], width, height, page, literalEval) == Success(layoutResults + [region.value]);
      layoutResults := layoutResults + [region.value];
      i := i + 1;
    }
    assert ds[..i] == ds;
    r := Success(layoutResults);
  }

  /** `_process_layout_from_image`. */
  method ProcessLayoutFromImage(image: PageImage, page: int, literalEval: LiteralEval)
    returns (r: Result<LayoutPage, string>)
    ensures r == AssemblePage(image, page, literalEval)
  {
    var regions := BuildRegions(image.detections, image.width, image.height, page, literalEval);
    if regions.Failure? {
      return Failure(regions.error);
    }
    var layoutResults := regions.value;
    if layoutResults == [] {
      layoutResults := layoutResults + [Placeholder(image.width, image.height, page)];
      assert layoutResults == [Placeholder(image.width, image.height, page)];
    }
    r := Success(LayoutPage(page, layoutResults));
  }

  // ----- the document -----

  /** The pages of a document, numbered from 1 in order; the first page that
      raises decides the outcome. */
  function AssembleAll(images: seq<PageImage>, literalEval: LiteralEval): Result<seq<LayoutPage>, string> {
    if images == [] then Success([])
    else
      match AssembleAll(images[..|images| - 1], literalEval)
      case Failure(e) => Failure(e)
      case Success(ps) =>
        match AssemblePage(images[|images| - 1], |images|, literalEval)
        case Failure(e) => Failure(e)
        case Success(p) => Success(ps + [p])
  }

  /** The response of `analyze_layout`. */
  function Analyze(input: Sources.Input<PageImage>, literalEval: LiteralEval): Result<seq<LayoutPage>, string> {
    match Sources.PagesOf(input)
    case Failure(e) => Failure(e)
    case Success(images) => AssembleAll(images, literalEval)
  }

  /** Assembling succeeds exactly when every page does, and then page `i`
      (from 0) is the page image `i` assembled as page number `i + 1`. */
  lemma {:induction false} AssembleAllSuccess(images: seq<PageImage>, literalEval: LiteralEval)
    ensures AssembleAll(images, literalEval).Success? <==>
      forall i | 0 <= i < |images| :: AssemblePage(images[i], i + 1, literalEval).Success?
    ensures AssembleAll(images, literalEval).Success? ==>
      var ps := AssembleAll(images, literalEval).value;
      |ps| == |images|
      && forall i | 0 <= i < |images| ::
           AssemblePage(images[i], i + 1, literalEval) == Success(ps[i]) && ps[i].page == i + 1
  {
    if images != [] {
      var init, last := images[..|images| - 1], images[|images| - 1];
      AssembleAllSuccess(init, literalEval);
      assert forall i | 0 <= i < |init| :: init[i] == images[i];
      match AssembleAll(init, literalEval) {
        case Failure(_) =>
        case Success(front) =>
          match AssemblePage(last, |images|, literalEval) {
            case Failure(_) =>
            case Success(p) =>
              var ps := front + [p];
              assert AssembleAll(images, literalEval) == Success(ps);
              forall i | 0 <= i < |images|
                ensures AssemblePage(images[i], i + 1, literalEval) == Success(ps[i]) && ps[i].page == i + 1
              {
                if i < |init| {
                  assert ps[i] == front[i];
                } else {
                  assert i == |images| - 1;
                }
              }
          }
      }
    }
  }

  /** Once a prefix of the pages raises, the whole document raises the same
      error. */
  lemma {:induction false} AssembleAllFailure(images: seq<PageImage>, k: nat, literalEval: LiteralEval)
    requires k <= |images|
    requires AssembleAll(images[..k], literalEval).Failure?
    ensures AssembleAll(images, literalEval) == AssembleAll(images[..k], literalEval)
    decreases |images| - k
  {
    if k < |images| {
      assert images[..k + 1][..k] == images[..k];
      AssembleAllFailure(images, k + 1, literalEval);
    } else {
      assert images[..k] == images;
    }
  }

  /** A PDF gives at most three pages, numbered 1 to n in the order of the
      rasterised pages; an image path or a stream gives one page numbered 1. */
  lemma AnalyzePages(input: Sources.Input<PageImage>, literalEval: LiteralEval)
    requires Analyze(input, literalEval).Success?
    ensures var ps := Analyze(input, literalEval).value;
      && |ps| <= Sources.MaxPdfPages
      && (forall i | 0 <= i < |ps| :: ps[i].page == i + 1)
      && (input.Path? && Sources.IsPdfName(input.name) ==>
            |ps| == (if |input.rasterized| < Sources.MaxPdfPages then |input.rasterized| else Sources.MaxPdfPages)
            && forall i | 0 <= i < |ps| :: AssemblePage(input.rasterized[i], i + 1, literalEval) == Success(ps[i]))
      && (!(input.Path? && Sources.IsPdfName(input.name)) ==> |ps| == 1)
  {
    var images := Sources.PagesOf(input).value;
    AssembleAllSuccess(images, literalEval);
  }

  /** The loop over the page images, numbering pages from 1. */
  method AssemblePages(images: seq<PageImage>, literalEval: LiteralEval) returns (r: Result<seq<LayoutPage>, string>)
    ensures r == AssembleAll(images, literalEval)
  {
    var pages: seq<LayoutPage> := [];
    var i := 0;
    while i < |images|
      invariant 0 <= i <= |images|
      invariant AssembleAll(images[..i], literalEval) == Success(pages)
    {
      assert images[..i + 1][..i] == images[..i];
      var p := ProcessLayoutFromImage(images[i], i + 1, literalEval);
      if p.Failure? {
        assert AssembleAll(images[..i + 1], literalEval) == Failure(p.error);
        AssembleAllFailure(images, i + 1, literalEval);
        return Failure(p.error);
      }
      assert AssembleAll(images[..i + 1], literalEval) == Success(pages + [p.value]);
      pages := pages + [p.value];
      i := i + 1;
    }
    assert images[..i] == images;
    r := Success(pages);
  }

  /** `analyze_layout`. */
  method AnalyzeLayout(input: Sources.Input<PageImage>, literalEval: LiteralEval)
    returns (r: Result<seq<LayoutPage>, string>)
    ensures r == Analyze(input, literalEval)
  {
    var source := Sources.PagesOf(input);
    if source.Failure? {
      return Failure(source.error);
    }
    r := AssemblePages(source.value, literalEval);
  }
}

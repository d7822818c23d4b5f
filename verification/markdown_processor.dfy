/** The markdown processor: flattens an OCR response into raw text with page
    markers and asks the language model to turn that text into Markdown,
    falling back to the raw text when no API key is configured. */
module MarkdownProcessor {
  import opened Wrappers
  import opened Strings
  import opened Llm
  import OcrPaddle

  /** The system prompt used when the conversion prompt file is missing. */
  const DefaultPrompt := "You are an expert at converting raw OCR text into well-structured Markdown. Preserve the document structure, identify headers, lists, tables, and other elements. Use appropriate Markdown formatting for each element type."

  const UserPrefix := "Convert this OCR text to well-formatted Markdown:\n\n"

  const Temperature: real := 0.3

  const BodyError := "Error processing markdown: "

  const RaisedError := "Error converting to markdown: "

  // ----- raw text -----

  /** The marker before a page's lines: `--- Page n ---` and a blank line,
      after a blank line unless the page comes first. */
  function Marker(page: int, first: bool): string {
    if first then "--- Page " + IntToString(page) + " ---\n\n"
    else "\n\n--- Page " + IntToString(page) + " ---\n\n"
  }

  /** Each line's text followed by a newline, in order. */
  function LinesText(results: seq<OcrPaddle.OcrLine>): string {
    if results == [] then ""
    else LinesText(results[..|results| - 1]) + (results[|results| - 1].text + "\n")
  }

  /** The raw text of a document: for each page, in order, its marker and
      then its lines. */
  function RawText(pages: seq<OcrPaddle.OcrPage>): string {
    if pages == [] then ""
    else
      var last := pages[|pages| - 1];
      RawText(pages[..|pages| - 1]) + (Marker(last.page, |pages| == 1) + LinesText(last.results))
  }

  /** The raw text is empty exactly when there are no pages, so "nothing
      written yet" and "first page" are the same test. */
  lemma {:induction false} RawTextEmpty(pages: seq<OcrPaddle.OcrPage>)
    ensures RawText(pages) == "" <==> pages == []
  {
    if pages != [] {
      var last := pages[|pages| - 1];
      var m := Marker(last.page, |pages| == 1);
      assert |m| > 0;
      assert |RawText(pages)| >= |m|;
    }
  }

  /** A non-empty document's raw text opens with the first page's marker,
      without leading blank lines. */
  lemma {:induction false} RawTextStart(pages: seq<OcrPaddle.OcrPage>)
    requires pages != []
    ensures StartsWith(RawText(pages), Marker(pages[0].page, true))
  {
    var m := Marker(pages[0].page, true);
    var init := pages[..|pages| - 1];
    var last := pages[|pages| - 1];
    var tail := Marker(last.page, |pages| == 1) + LinesText(last.results);
    assert RawText(pages) == RawText(init) + tail;
    if |pages| == 1 {
      assert RawText(init) == "";
      assert RawText(pages) == m + LinesText(last.results);
      StartsWithAppend(m, LinesText(last.results), m);
    } else {
      RawTextStart(init);
      assert init[0] == pages[0];
      StartsWithAppend(RawText(init), tail, m);
    }
  }

  lemma AppendAssoc(a: string, b: string, c: string)
    ensures (a + b) + c == a + (b + c)
  {
  }

  lemma StartsWithAppend(a: string, b: string, m: string)
    requires StartsWith(a, m)
    ensures StartsWith(a + b, m)
  {
    assert (a + b)[..|m|] == a[..|m|];
  }

  /** Two one-line pages holding "A" and "B" give
      `--- Page 1 ---\n\nA\n\n\n--- Page 2 ---\n\nB\n`: the line's own newline
      and the next marker's blank line make three newlines in a row. */
  lemma TwoPageExample(a: OcrPaddle.OcrLine, b: OcrPaddle.OcrLine)
    requires a.text == "A" && b.text == "B"
    ensures RawText([OcrPaddle.OcrPage(1, [a]), OcrPaddle.OcrPage(2, [b])])
      == "--- Page 1 ---\n\nA\n\n\n--- Page 2 ---\n\nB\n"
  {
    var p1, p2 := OcrPaddle.OcrPage(1, [a]), OcrPaddle.OcrPage(2, [b]);
    FirstPageExample(a);
    assert LinesText([b]) == "B\n" by {
      assert [b][..0] == [];
    }
    assert Marker(2, false) == "\n\n--- Page 2 ---\n\n" by {
      assert IntToString(2) == "2";
    }
    assert RawText([p1, p2]) == RawText([p1]) + (Marker(2, false) + LinesText([b])) by {
      RawTextStep([p1, p2], 1);
      assert [p1, p2][..2] == [p1, p2] && [p1, p2][..1] == [p1];
    }
    TwoPageLiteral();
  }

  lemma TwoPageLiteral()
    ensures "--- Page 1 ---\n\nA\n" + ("\n\n--- Page 2 ---\n\n" + "B\n")
      == "--- Page 1 ---\n\nA\n\n\n--- Page 2 ---\n\nB\n"
  {
  }

  lemma FirstPageExample(a: OcrPaddle.OcrLine)
    requires a.text == "A"
    ensures RawText([OcrPaddle.OcrPage(1, [a])]) == "--- Page 1 ---\n\nA\n"
  {
    var p1 := OcrPaddle.OcrPage(1, [a]);
    assert [p1][..0] == [];
    assert LinesText([a]) == "A\n" by {
      assert [a][..0] == [];
    }
    assert Marker(1, true) == "--- Page 1 ---\n\n" by {
      assert IntToString(1) == "1";
    }
  }

  /** One more page adds its marker and its lines. */
  lemma RawTextStep(pages: seq<OcrPaddle.OcrPage>, k: nat)
    requires k < |pages|
    ensures RawText(pages[..k + 1]) == RawText(pages[..k]) + (Marker(pages[k].page, k == 0) + LinesText(pages[k].results))
  {
    assert pages[..k + 1][..k] == pages[..k];
  }

  /** One more line adds its text and a newline. */
  lemma LinesTextStep(results: seq<OcrPaddle.OcrLine>, j: nat)
    requires j < |results|
    ensures LinesText(results[..j + 1]) == LinesText(results[..j]) + (results[j].text + "\n")
  {
    assert results[..j + 1][..j] == results[..j];
  }

  /** The inner loop of `ocr_to_raw_text`: each line's text and a newline. */
  method AppendLines(raw: string, results: seq<OcrPaddle.OcrLine>) returns (r: string)
    ensures r == raw + LinesText(results)
  {
    r := raw;
    var j := 0;
    while j < |results|
      invariant 0 <= j <= |results|
      invariant r == raw + LinesText(results[..j])
    {
      LinesTextStep(results, j);
      AppendAssoc(raw, LinesText(results[..j]), results[j].text + "\n");
      r := r + (results[j].text + "\n");
      j := j + 1;
    }
    assert results[..j] == results;
  }

  /** `ocr_to_raw_text`. */
  method OcrToRawText(pages: seq<OcrPaddle.OcrPage>) returns (raw: string)
    ensures raw == RawText(pages)
  {
    raw := "";
    var k := 0;
    while k < |pages|
      invariant 0 <= k <= |pages|
      invariant raw == RawText(pages[..k])
    {
      var pageResult := pages[k];
      ghost var before := raw;
      ghost var marker := Marker(pageResult.page, k == 0);
      assert raw == "" <==> k == 0 by {
        RawTextEmpty(pages[..k]);
      }
      if raw != "" {
        raw := raw + ("\n\n--- Page " + IntToString(pageResult.page) + " ---\n\n");
      } else {
        raw := raw + ("--- Page " + IntToString(pageResult.page) + " ---\n\n");
      }
      assert raw == before + marker;
      raw := AppendLines(raw, pageResult.results);
      assert raw == RawText(pages[..k + 1]) by {
        AppendAssoc(before, marker, LinesText(pageResult.results));
        RawTextStep(pages, k);
      }
      k := k + 1;
    }
    assert pages[..k] == pages;
  }

  // ----- conversion -----

  /** `convert_to_markdown` for a processor whose key is `apiKey`, with the
      conversion prompt file's text (None when missing) and the endpoint's
      answer to each request. Without a key the raw text comes back and no
      request is sent; otherwise one request is sent and the reply decides
      the text, an exception included. */
  function ConvertToMarkdown(pages: seq<OcrPaddle.OcrPage>, apiKey: Option<string>, promptFile: Option<string>,
                             endpoint: Request -> Reply): (out: Outcome)
    ensures !HasKey(apiKey) ==> out == Outcome(RawText(pages), None)
    ensures HasKey(apiKey) ==>
      out.sent == Some(Request(Model, if promptFile.Some? then promptFile.value else DefaultPrompt,
                               UserPrefix + RawText(pages), Temperature, apiKey.value))
    ensures HasKey(apiKey) && HasChoice(endpoint(out.sent.value)) ==>
      out.text == endpoint(out.sent.value).choices.value[0]
    ensures HasKey(apiKey) && endpoint(out.sent.value).Body? && !HasChoice(endpoint(out.sent.value)) ==>
      out.text == BodyError + endpoint(out.sent.value).json
    ensures HasKey(apiKey) && endpoint(out.sent.value).Raised? ==>
      out.text == RaisedError + endpoint(out.sent.value).message + ("\n\nRaw text:\n" + RawText(pages))
  {
    var raw := RawText(pages);
    if !HasKey(apiKey) then Outcome(raw, None)
    else
      var request := Request(Model, promptFile.GetOr(DefaultPrompt), UserPrefix + raw, Temperature, apiKey.value);
      Outcome(ReplyText(endpoint(request), BodyError, RaisedError, "\n\nRaw text:\n" + raw), Some(request))
  }

  /** An exception never escapes: its text still carries the whole raw text. */
  lemma RaisedKeepsRawText(pages: seq<OcrPaddle.OcrPage>, apiKey: Option<string>, promptFile: Option<string>,
                           endpoint: Request -> Reply)
    requires HasKey(apiKey)
    requires endpoint(ConvertToMarkdown(pages, apiKey, promptFile, endpoint).sent.value).Raised?
    ensures EndsWith(ConvertToMarkdown(pages, apiKey, promptFile, endpoint).text, RawText(pages))
  {
    var out := ConvertToMarkdown(pages, apiKey, promptFile, endpoint);
    var msg := endpoint(out.sent.value).message;
    var raw := RawText(pages);
    var front := RaisedError + msg + "\n\nRaw text:\n";
    AppendAssoc(RaisedError + msg, "\n\nRaw text:\n", raw);
    assert out.text == front + raw;
    assert out.text[|out.text| - |raw|..] == raw;
  }
}

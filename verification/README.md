# Document parsing back end: post-processing core

This project is a Dafny model of the post-processing code in the document
parsing back end. That code surrounds the OCR and layout engines, and the
model proves properties about it. It covers five services:

- **Layout post-processor** (`LayoutPostprocessor`). It re-types `text` and
  `unknown` regions. The tests run in a fixed order, and the first match
  wins: figure, table, list, equation, title. A region whose tests all fail
  keeps its type.
- **Layout analyser** (`LayoutAnalyzer`). It turns the engine's detections
  into regions. Each region gets a normalised box and decoded content. A
  page with no detections gets a placeholder region. A PDF is cut to its
  first three pages, numbered from 1.
- **OCR service** (`OcrPaddle`). It cleans each line's whitespace and
  normalises its box. It flags low-confidence lines and stably sorts the
  lines of a page by their top edge. PDFs get the same page cap.
- **Markdown processor** (`MarkdownProcessor`). It folds the OCR pages into
  raw text with page markers. It then sends that text to a chat-completion
  endpoint, or returns it unchanged when there is no API key.
- **Markdown refiner** (`MarkdownRefiner`). It sends Markdown to the same
  kind of endpoint. A missing API key is an error.

Shared modules:

- `Wrappers`: Option and Result.
- `Strings`: character classes (Latin-1 whitespace, ASCII digits and
  letters), lower-casing, strip, whitespace collapsing, `str.split()`, split
  and join, number printing.
- `Rounding`: Python's `round(x, n)` on exact reals.
- `Py`: the loosely typed engine payload and its `repr`, with Python's
  choice of quote and its escapes.
- `Regions`: the region data.
- `Patterns`: the post-processor's regular expressions, written as
  predicates.
- `Sources`: input dispatch and the page cap.
- `Llm`: the request, the reply and key resolution.

Three behaviours of the code are easy to miss:

- A title needs the title pattern, and either a normalised top coordinate below 0.3 or
  section numbering.
- The raw-text fold separates two pages with three newlines: `"A\n"`
  followed by `"\n\n--- Page 2 ---"`.
- The layout analyser keeps the engine's emission order and does not sort
  regions.

Nothing in the model performs I/O. The engines' output, the prompt files,
`ast.literal_eval` and the HTTP endpoint are all parameters:

- the engines' output is `PageImage` / `OcrImage` values;
- the prompt files are `Option<string>`;
- `ast.literal_eval` is a `LiteralEval` function;
- the HTTP endpoint is a `Request -> Reply` function.

## Model

| member | source | states |
|---|---|---|
| LayoutPostprocessor.ProcessRegions | backend/services/layout_postprocessor.py:18-45 | One output page per input page, in order. In each page every region is replaced by its enhanced copy, region count and order kept. A missing page number becomes 1. A missing result list becomes empty. |
| LayoutPostprocessor.EnhancePage | backend/services/layout_postprocessor.py:28-45 | The page number defaults to 1. The region count is kept. Region i of the output is region i of the input, enhanced. |
| LayoutPostprocessor.EnhanceRegion | backend/services/layout_postprocessor.py:47-93 | The raw box, normalised box, content and page are copied unchanged. Only the type may differ. |
| LayoutPostprocessor.EnhanceRegionType | backend/services/layout_postprocessor.py:58-93 | The new type is the old type or one of figure/table/list/equation/title. A region that is not `text`/`unknown`, or whose content has no text (table and raw content included), comes back identical. |
| LayoutPostprocessor.ClassifyFirstMatch | backend/services/layout_postprocessor.py:67-93 | For a candidate with text, each type is given exactly when its own test holds and every earlier test fails. The type is kept exactly when all five tests fail. Both directions are proved. |
| LayoutPostprocessor.FirstMatchOrder | backend/services/layout_postprocessor.py:67-93 | The first-match chain over five test outcomes, as an if-and-only-if for each outcome. |
| LayoutPostprocessor.EnhanceRegionIdempotent | backend/services/layout_postprocessor.py:63-93 | Enhancing twice equals enhancing once, because a retyped region is no longer a candidate. |
| LayoutPostprocessor.EnhancePageIdempotent | backend/services/layout_postprocessor.py:18-45 | Processing an already processed page changes nothing. |
| LayoutPostprocessor.WideShapeIff | backend/services/layout_postprocessor.py:106-115 | The shape test fires exactly when the box has 4 entries, height > 0, width > 1.5 * height and the text is shorter than 200. A height of 0 or less never fires. |
| LayoutPostprocessor.GridLikeIff | backend/services/layout_postprocessor.py:131-137 | The grid test fires exactly when the stripped text has more than 3 lines and twice the number of aligned lines exceeds the line count (strictly more than half). |
| LayoutPostprocessor.EquationIff | backend/services/layout_postprocessor.py:148-159 | The equation test fires exactly when the keyword pattern matches, there is at least one math symbol, and 10 * symbols > 3 * (words + 1). |
| LayoutPostprocessor.CaptionsSubsumed | backend/services/layout_postprocessor.py:98-104 | A text that matches the figure caption pattern also matches the figure keyword pattern. The same holds for tables. The caption checks never decide on their own. |
| LayoutPostprocessor.LowerStartsAt | backend/services/layout_postprocessor.py:12-16 | A match in the text gives a case-insensitive match of the lower-cased pattern. |
| LayoutPostprocessor.TitleRetypes | backend/services/layout_postprocessor.py:161-182 | A candidate with text that passes the title test is always given an assigned type, whichever test decides first. |
| LayoutPostprocessor.PlaceholderTextIsTitleLine | backend/services/layout_postprocessor.py:16 | "No regions detected" matches the title-line pattern. |
| LayoutPostprocessor.PlaceholderIsTitle | backend/services/layout_analyzer.py:177-186 | The analyser's placeholder region is a candidate with text and passes the title test. |
| LayoutPostprocessor.PlaceholderRetyped | backend/services/layout_analyzer.py:177-186 | The placeholder never keeps type `unknown` after post-processing. It gets one of the classifier's types. |
| LayoutPostprocessor.TitleTailAll | backend/services/layout_postprocessor.py:16 | A line made only of title characters, within the length bound, matches the tail of the title pattern. |
| Patterns.AlignedLineCount | backend/services/layout_postprocessor.py:131-137 | The number of lines with two or more wide whitespace gaps is at most the number of lines. |
| Patterns.MathSymbolCount | backend/services/layout_postprocessor.py:153 | The number of math symbols is at most the text length. |
| LayoutAnalyzer.Normalise | backend/services/layout_analyzer.py:109-115 | Normalisation succeeds exactly when the box has 4 numbers and both page dimensions are positive. It then gives 4 coordinates. Otherwise it fails with the unpacking error or the division error, in Python's order. |
| LayoutAnalyzer.NormaliseAccurate | backend/services/layout_analyzer.py:109-115 | Each normalised coordinate is within 0.0000005 of x/width or y/height. |
| LayoutAnalyzer.NormaliseInUnitSquare | backend/services/layout_analyzer.py:109-115 | A box inside the page normalises to coordinates in [0,1]. The corners keep their order. |
| LayoutAnalyzer.UnitRatio | backend/services/layout_analyzer.py:111-114 | Rounded ratios of ordered values below the divisor are ordered and lie in [0,1]. |
| LayoutAnalyzer.TextItems | backend/services/layout_analyzer.py:147-161 | At most one text is collected per payload item. |
| LayoutAnalyzer.TextItemsAppend | backend/services/layout_analyzer.py:147-161 | Collecting from two lists one after the other gives the two collections one after the other. Item order is kept. |
| LayoutAnalyzer.TextItemsOne | backend/services/layout_analyzer.py:149-160 | A single item contributes exactly the text extracted from it, or nothing. The text is its `text` entry, the head of a non-empty list as second element, or a string second element. |
| LayoutAnalyzer.CollectTexts | backend/services/layout_analyzer.py:147-160 | The appending loop collects exactly the texts that the item-by-item specification gives. |
| LayoutAnalyzer.Strs | backend/services/layout_analyzer.py:161 | The string contents of an all-string list: entry i is the string that item i holds. |
| LayoutAnalyzer.JoinTexts | backend/services/layout_analyzer.py:161 | Joining with a newline succeeds exactly when every collected item is a string. |
| LayoutAnalyzer.JoinTextsSplit | backend/services/layout_analyzer.py:161 | Splitting the joined text on newlines gives back the collected strings, when none of them contains a newline. |
| LayoutAnalyzer.DecodeContentCases | backend/services/layout_analyzer.py:118-164 | The exact content for every payload. A table region takes `html` and `cells` from the `html` and `boxes` entries of a dictionary payload, `""` and `[]` for what is missing, and `""` and `[]` for any other payload. A one-string list starting with `[` is parsed: when the parse gives items whose texts are all strings, the content is those texts joined by newlines; when the parse fails or a text is not a string, it is `str(payload)`, i.e. `[` + the quoted string + `]`. Any other list gives its texts joined by newlines, or fails with TypeError when a text is not a string. Any other payload becomes raw data `str(payload)`. |
| LayoutAnalyzer.MissingPayloadIsEmptyText | backend/services/layout_analyzer.py:118 | A region without `res` gets the empty text. |
| LayoutAnalyzer.DecodeRegion | backend/services/layout_analyzer.py:104-175 | The type defaults to `unknown` and the box to `[0,0,0,0]`. The raw box is stored unchanged, the normalised box is `Normalise`, and the page tag is the page. Decoding fails exactly when normalisation or content decoding does, with the normalisation error first and the decoding error otherwise. |
| LayoutAnalyzer.DecodeAllSuccess | backend/services/layout_analyzer.py:104-175 | All detections decode exactly when each one does. Region i is then detection i decoded, in emission order. |
| LayoutAnalyzer.DecodeAllFailure | backend/services/layout_analyzer.py:104-175 | The first detection that raises decides the error of the whole page. |
| LayoutAnalyzer.EmptyPageHasPlaceholder | backend/services/layout_analyzer.py:177-188 | A page without detections gives exactly one region: `unknown`, raw box `[0,0,w,h]`, normalised box `[0,0,1,1]`, text "No regions detected". |
| LayoutAnalyzer.AssemblePageRegions | backend/services/layout_analyzer.py:104-188 | A page with detections gives one region per detection, in emission order, each tagged with the page. No placeholder is added and nothing is sorted. |
| LayoutAnalyzer.BuildRegion | backend/services/layout_analyzer.py:105-175 | One iteration of the detection loop builds the region that `DecodeRegion` specifies. |
| LayoutAnalyzer.BuildRegions | backend/services/layout_analyzer.py:104-175 | The appending loop over the detections builds exactly the regions that `DecodeAll` specifies, stopping at the first that raises. |
| LayoutAnalyzer.ProcessLayoutFromImage | backend/services/layout_analyzer.py:95-188 | The region loop and the conditional placeholder build exactly the page that `AssemblePage` specifies. |
| LayoutAnalyzer.AssembleAllSuccess | backend/services/layout_analyzer.py:36-45 | A document assembles exactly when every page does. Page i is then page image i assembled with number i+1. |
| LayoutAnalyzer.AssembleAllFailure | backend/services/layout_analyzer.py:36-45 | The first page that raises decides the error of the whole document. |
| LayoutAnalyzer.AnalyzePages | backend/services/layout_analyzer.py:29-45 | At most 3 pages, numbered 1..n. A PDF of n rasterised pages gives exactly min(3, n) pages, page i from rasterised page i. An image path or a stream gives exactly one page. |
| LayoutAnalyzer.AssemblePages | backend/services/layout_analyzer.py:36-40 | The loop over page images builds exactly the pages `AssembleAll` specifies. |
| LayoutAnalyzer.AnalyzeLayout | backend/services/layout_analyzer.py:29-52 | The dispatch and the page loop give exactly `Analyze`. |
| Sources.PagesOf | backend/services/layout_analyzer.py:29-45 | A PDF gives its first min(3, n) rasterised pages, in order. An image path or a stream gives one image. Any other path fails, because its string is read as a stream. |
| OcrPaddle.CleanText | backend/services/ocr_paddleocr.py:63 | The cleaned text has no leading or trailing whitespace and no run of two whitespace characters. Its non-space characters are those of the input, in order. |
| OcrPaddle.CleanTextWords | backend/services/ocr_paddleocr.py:63 | Cleaning gives exactly the words of the text (Python's `str.split()`), joined by single spaces. |
| OcrPaddle.StripFixes | backend/services/ocr_paddleocr.py:63 | Stripping a text without edge whitespace leaves it as it is. |
| OcrPaddle.CleanTextIdempotent | backend/services/ocr_paddleocr.py:63 | Cleaning twice equals cleaning once. |
| OcrPaddle.MakeLine | backend/services/ocr_paddleocr.py:54-74 | A line block is built exactly when both page dimensions are positive. It then holds the cleaned text, the engine quad as raw box, and as normalised box corner 0 and corner 2 divided by width and height, each rounded to 6 decimals. `low_confidence` holds exactly when the confidence is below 0.7. The line class is None and the page is set. |
| OcrPaddle.MakeLineBoxAccurate | backend/services/ocr_paddleocr.py:55-62 | Each normalised coordinate is within 0.0000005 of the matching corner coordinate divided by the page width or height. |
| OcrPaddle.MakeLineConfidence | backend/services/ocr_paddleocr.py:68 | The stored confidence is within 0.00005 of the engine's. |
| OcrPaddle.FlagUsesRawConfidence | backend/services/ocr_paddleocr.py:68-71 | A confidence of 0.69999 is flagged low although it is stored rounded to 0.7. |
| OcrPaddle.MakeAllSuccess | backend/services/ocr_paddleocr.py:52-75 | Building succeeds exactly when there are no lines or both dimensions are positive. It gives one block per engine line, in order. Otherwise the error is the division error. |
| OcrPaddle.InsertByTop | backend/services/ocr_paddleocr.py:77-78 | Inserting adds exactly one element. |
| OcrPaddle.SortByTop | backend/services/ocr_paddleocr.py:77-78 | Sorting keeps the length. |
| OcrPaddle.WithTopAppend | backend/services/ocr_paddleocr.py:77-78 | The lines with a given key in a concatenation are those of each part, in order. |
| OcrPaddle.WithTopOne | backend/services/ocr_paddleocr.py:77-78 | A single line has the given key or contributes nothing. |
| OcrPaddle.InsertByTopSorted | backend/services/ocr_paddleocr.py:77-78 | Inserting into a list sorted by top edge keeps it sorted. |
| OcrPaddle.InsertByTopPerm | backend/services/ocr_paddleocr.py:77-78 | Inserting adds exactly the new line to the multiset. |
| OcrPaddle.InsertByTopStable | backend/services/ocr_paddleocr.py:77-78 | The inserted line lands after every line with the same key. |
| OcrPaddle.NoneWithTop | backend/services/ocr_paddleocr.py:77-78 | A sorted list whose first key is above k has no line with key k. |
| OcrPaddle.SortByTopSorted | backend/services/ocr_paddleocr.py:77-78 | The sorted lines are in ascending order of top edge. |
| OcrPaddle.SortByTopPerm | backend/services/ocr_paddleocr.py:77-78 | The sorted lines are a permutation of the input. |
| OcrPaddle.SortByTopStable | backend/services/ocr_paddleocr.py:77-78 | For every key, the lines with that key keep their input order, as Python's stable sort does. |
| OcrPaddle.ReadPageOrder | backend/services/ocr_paddleocr.py:47-78 | A page's results are the built blocks, sorted ascending by top edge, permuted only, with ties kept in engine order. |
| OcrPaddle.ReadPageTags | backend/services/ocr_paddleocr.py:65-78 | A page has one result per engine line, and every result carries the page number. |
| OcrPaddle.SamePages | backend/services/ocr_paddleocr.py:77-78 | A permutation keeps the page tag on every line. |
| OcrPaddle.BuildLine | backend/services/ocr_paddleocr.py:54-74 | One iteration of the line loop builds the block that `MakeLine` specifies. |
| OcrPaddle.ProcessPilImage | backend/services/ocr_paddleocr.py:47-78 | The appending loop followed by the sort gives exactly the page that `ReadPage` specifies. |
| OcrPaddle.ReadAllSuccess | backend/services/ocr_paddleocr.py:26-34 | A document is read exactly when every page is. Page i is then image i read with number i+1. |
| OcrPaddle.ReadAllFailure | backend/services/ocr_paddleocr.py:26-34 | The first page that raises decides the error of the whole document. |
| OcrPaddle.ExtractPages | backend/services/ocr_paddleocr.py:23-34 | At most 3 pages, numbered 1..n. A PDF of n rasterised pages gives exactly min(3, n) pages, page i from rasterised page i. An image path or a stream gives exactly one page. |
| OcrPaddle.ReadPages | backend/services/ocr_paddleocr.py:26-29 | The loop over page images builds exactly the pages `ReadAll` specifies. |
| OcrPaddle.ExtractTextAndBoxes | backend/services/ocr_paddleocr.py:23-34 | The dispatch and the page loop give exactly `Extract`. |
| MarkdownProcessor.RawTextEmpty | backend/services/markdown_processor.py:22-36 | The raw text is empty exactly when there are no pages. |
| MarkdownProcessor.RawTextStart | backend/services/markdown_processor.py:28-31 | A non-empty document's raw text starts with the first page's marker without leading newlines. |
| MarkdownProcessor.TwoPageExample | backend/services/markdown_processor.py:22-36 | Two pages holding "A" and "B" give `"--- Page 1 ---\n\nA\n\n\n--- Page 2 ---\n\nB\n"`. |
| MarkdownProcessor.RawTextStep | backend/services/markdown_processor.py:24-34 | Each page appends its marker, with leading newlines unless it is the first page, and then its lines. |
| MarkdownProcessor.LinesTextStep | backend/services/markdown_processor.py:33-34 | Each result appends its text and a newline. |
| MarkdownProcessor.AppendLines | backend/services/markdown_processor.py:33-34 | The inner loop appends each line's text and a newline, in order: the result is the text so far followed by `LinesText` of the page's lines. |
| MarkdownProcessor.OcrToRawText | backend/services/markdown_processor.py:16-36 | The nested `+=` loops, which test whether the text is still empty, build exactly `RawText`. |
| MarkdownProcessor.ConvertToMarkdown | backend/services/markdown_processor.py:38-89 | With no key, the result is exactly the raw text and no request is sent. Otherwise the request carries model gpt-4o, the prompt file or the default prompt, the fixed prefix plus the raw text, and temperature 0.3. A reply with choices gives the first choice's content. A reply without choices gives "Error processing markdown: " + the JSON. A raised error gives "Error converting to markdown: e\n\nRaw text:\n" + the raw text. |
| MarkdownProcessor.RaisedKeepsRawText | backend/services/markdown_processor.py:88-89 | When the request raises, the returned text ends with the full raw text. |
| MarkdownRefiner.RefineMarkdown | backend/services/markdown_refiner.py:15-73 | Refining raises exactly when there is no key, before any request. Otherwise the request carries the prompt file or the default prompt, the input Markdown verbatim as user content, and temperature 0.1. A reply with choices gives the first choice's content. A reply without choices gives "Error in LLM response: " + the JSON. A raised error gives "Failed to refine markdown: " + e. |
| MarkdownRefiner.RefineNeverRaisesWithKey | backend/services/markdown_refiner.py:44-73 | With a key, refining never raises, whatever the endpoint does. |
| Llm.ResolveKey | backend/services/markdown_processor.py:12-14 | A key is present exactly when the given key or the environment's is non-empty. A non-empty given key wins. |
| Rounding.RoundHalfEven | backend/services/layout_analyzer.py:111-114 | The result is within 1/2 of x, and an exact tie goes to the even integer, as Python's `round` does. |
| Rounding.Round6Error | backend/services/layout_analyzer.py:111-114 | Rounding to 6 decimals is off by at most 0.0000005. |
| Rounding.Round4Error | backend/services/ocr_paddleocr.py:68 | Rounding to 4 decimals is off by at most 0.00005. |
| Rounding.Round6Monotone | backend/services/ocr_paddleocr.py:57-62 | Rounding keeps the order of coordinates. |
| Rounding.Round6Exact | backend/services/layout_analyzer.py:111-114 | Whole numbers such as 0 and 1 are unchanged by rounding. |
| Rounding.Round6Idempotent | backend/services/layout_analyzer.py:111-114 | Rounding a rounded value changes nothing. |
| Py.Get | backend/services/layout_analyzer.py:121-126 | `dict.get` finds a value exactly when some entry has the key. The value found belongs to such an entry. |
| Strings.Lower | backend/services/layout_postprocessor.py:12-16 | Lower-casing keeps the length and leaves no upper-case ASCII letter. Every other character stays in place, and each upper-case letter becomes the letter 32 code points above it. |
| Strings.LowerIdempotent | backend/services/layout_postprocessor.py:12-16 | Lower-casing twice equals lower-casing once. |
| Strings.Strip | backend/services/ocr_paddleocr.py:63 | The result is a slice `s[i..j]` of the input with only whitespace before `i` and after `j`, and it neither starts nor ends with whitespace. Its non-space characters are those of the input. |
| Strings.CollapseWs | backend/services/ocr_paddleocr.py:63 | Whitespace runs become single spaces. The result is empty exactly when the input is. Edge whitespace agrees with the input, and the non-space characters are kept. |
| Strings.CollapseStripWords | backend/services/ocr_paddleocr.py:63 | Stripping and then collapsing whitespace gives the words of the text, as Python's `str.split()` finds them, joined by single spaces. |
| Strings.WordsAreWords | backend/services/ocr_paddleocr.py:63 | Every word found is non-empty and holds no whitespace. |
| Strings.CollapseWsFixes | backend/services/ocr_paddleocr.py:63 | Collapsing a single-spaced text that does not start with whitespace changes nothing. |
| Strings.Split | backend/services/layout_postprocessor.py:131-133 | Splitting always gives at least one part. |
| Strings.JoinSplit | backend/services/layout_postprocessor.py:131-133 | Joining the parts of a split with the separator gives the string back. |
| Strings.SplitJoin | backend/services/layout_analyzer.py:161 | Splitting a join of separator-free parts gives back the parts. |
| Strings.SplitPartsFree | backend/services/layout_postprocessor.py:131-133 | No part of a split holds the separator. |
| Patterns.ListItemCountLines | backend/services/layout_postprocessor.py:141-146 | The multiline search counts exactly the lines that begin with a list marker. A line that ends in a newline may use that newline as the marker's whitespace. |
| LayoutPostprocessor.IsListLines | backend/services/layout_postprocessor.py:141-146 | A text is a list exactly when at least two of its lines begin with a list marker. |
| LayoutPostprocessor.ListExamples | backend/services/layout_postprocessor.py:141-146 | "1. a\n2. b" is a list. A single bulleted line "- a" is not. |
| Py.QuoteFor | backend/services/layout_analyzer.py:146 | `repr` quotes with `"` exactly when the string holds a `'` and no `"`, and with `'` otherwise. |
| Py.EscapeChar | backend/services/layout_analyzer.py:146 | The quote character is written as backslash-quote, and no other character's escape contains the quote. |
| Py.ReprStr | backend/services/layout_analyzer.py:146 | `repr` of a string is the chosen quote, the escaped string, and the same quote. |
| Py.UnescapeEscape | backend/services/layout_analyzer.py:146 | Reading the escaped text back as a Python string literal gives the original string, so escaping loses nothing. |
| Py.ReprDoubleQuoted | backend/services/layout_analyzer.py:146 | A string with a `'`, no `"` and nothing else to escape is printed between double quotes as it is. |
| Py.ReprQuotedListExample | backend/services/layout_analyzer.py:146 | `str(["it's"])` is `["it's"]`, with double quotes. |

## Left out

- The PaddleOCR and PPStructure engines, PIL, numpy, PDF rasterisation and
  `asyncio.to_thread`. Their output is an input to the model.
- The `uuid4` region and line ids. They are random and nothing depends on
  them.
- `print` and logging calls. They have no effect on results.
- The HTTP requests, the prompt-file reads and the environment lookup. They
  are parameters: an endpoint function, `Option<string>` values and a
  resolved key.
- The `Content-Type` header is not modelled. The `Authorization` header is
  the request's `bearer` field.
- A prompt file that exists but cannot be read is not modelled. Only
  present or missing is.
- `ast.literal_eval` is an abstract parameter. On a text starting with `[`,
  it yields the list's items or fails.
- Whitespace is the Latin-1 part of Python's: `\s`, `str.strip()` and
  `str.split()` treat the characters below U+0100 as Python does, but
  whitespace above U+00FF (such as U+2003 or U+3000) is neither stripped
  nor collapsed. `\w` and `\d` are the ASCII classes, where Python's are
  Unicode. Case-insensitive matching is ASCII lower-casing.
- The equation pattern at backend/services/layout_postprocessor.py:15
  contains `\i` and `\p`, which are bad escapes. On Python 3.7 and later
  `re.compile` raises `re.error` on it, so the post-processor cannot be
  constructed as written. The model gives the classifier the authors
  evidently meant: `\sum`, `\int`, `\prod`, `\div` and `\approx` are
  read as those literal words.
- Py.ReprStr: characters above U+00FF that Python cannot print are written
  as they are; Python writes them as `\u` or `\U` escapes.
- Strings.CollapseWs: its own contract gives the shape of the result, not
  the result itself. Strings.CollapseStripWords states the exact result for
  stripped text, which is how the OCR service uses it.
- Binary floating point is not modelled. Coordinates, thresholds and
  confidences are exact reals, and `round` is exact half-to-even rounding.
- Ill-typed engine output is not modelled, such as a non-string region type
  or non-numeric box entries. Page sizes are natural numbers.
- A chat reply whose first choice lacks `message.content` raises inside the
  `try` block. The model counts that reply as a raised error.
- The engine's output for a page is always a list of lines with four-point
  boxes. Some engine versions return `None` in place of that list for an
  image without text, and the loop then raises. That case is not modelled.
- `list.sort` is modelled by its specification: a stable insertion sort by
  the block's top edge `y1`. It is proved sorted, a permutation and stable.
- The routes, `main.py`, the file handler, the EasyOCR wrapper and the
  frontend are not part of this model.
- Patterns.AlignedLineCount: only the bound by the line count is stated.
  Its meaning is fixed by its definition and by LayoutPostprocessor.GridLikeIff.
- Patterns.MathSymbolCount: only the bound by the text length is stated.
  Its use is stated by LayoutPostprocessor.EquationIff.
- Strings.Split: only the part count is stated. Strings.JoinSplit states the
  round trip.
- OcrPaddle.InsertByTop: only the length is stated. Sortedness, permutation
  and stability are stated by the lemmas beside it.
- OcrPaddle.SortByTop: only the length is stated. Sortedness, permutation
  and stability are stated by the lemmas beside it.
- LayoutAnalyzer.TextItems: only the count bound is stated. Content and
  order are stated by TextItemsOne and TextItemsAppend.

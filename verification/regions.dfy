/** The layout data the analyser produces and the classifier consumes: a
    region's content, the region itself and a page of regions. */
module Regions {
  import opened Wrappers
  import Py

  /** What a region holds: text, a table's HTML and cell boxes, or the
      printed form of a payload the decoder does not recognise. */
  datatype Content =
    | TextContent(text: string)
    | TableContent(html: Py.Value, cells: Py.Value)
    | RawContent(rawData: string)

  /** `content.get("text", "")`. */
  function TextOf(c: Content): string {
    if c.TextContent? then c.text else ""
  }

  /** One detected zone of a page, with its box in pixels and relative to
      the page size, and the 1-based page it lies on. */
  datatype Region = Region(
    regionType: string,
    bboxRaw: seq<real>,
    bboxNorm: seq<real>,
    content: Content,
    page: int)

  datatype LayoutPage = LayoutPage(page: int, results: seq<Region>)

  /** A page as the dictionary the classifier receives, where either key
      may be missing. */
  datatype PageRecord = PageRecord(page: Option<int>, results: Option<seq<Region>>)

  /** `page.dict()`: a page as a dictionary with both keys present. */
  function AsRecord(p: LayoutPage): PageRecord {
    PageRecord(Some(p.page), Some(p.results))
  }
}

/** How `analyze_layout` and `extract_text_and_boxes` turn their input into a
    list of page images: a PDF path is rasterised and cut to three pages, an
    image path or an uploaded stream is one page. The rasteriser and the
    image decoder are outside the model: their outputs are part of the
    input. */
module Sources {
  import opened Wrappers
  import opened Strings

  /** The most pages of a PDF that are analysed. */
  const MaxPdfPages: nat := 3

  /** The input file: a path, with what the rasteriser would make of it as a
      PDF and what the image decoder would make of it as an image, or an
      uploaded stream already decoded. */
  datatype Input<Img> =
    | Path(name: string, rasterized: seq<Img>, decoded: Img)
    | Stream(image: Img)

  predicate IsPdfName(name: string) {
    EndsWith(Lower(name), ".pdf")
  }

  predicate IsImageName(name: string) {
    var low := Lower(name);
    EndsWith(low, ".png") || EndsWith(low, ".jpg") || EndsWith(low, ".jpeg")
  }

  /** The pages to process, in order. A path that is neither a PDF nor an
      image falls through to the stream branch, where a string has no
      `read` and Python raises AttributeError. */
  function PagesOf<Img>(input: Input<Img>): (r: Result<seq<Img>, string>)
    ensures r.Success? ==> 1 <= |r.value| <= MaxPdfPages || (input.Path? && input.rasterized == [])
    ensures r.Success? && input.Path? && IsPdfName(input.name) ==>
      |r.value| == (if |input.rasterized| < MaxPdfPages then |input.rasterized| else MaxPdfPages)
      && r.value == input.rasterized[..|r.value|]
    ensures r.Success? && !(input.Path? && IsPdfName(input.name)) ==>
      r.value == [if input.Path? then input.decoded else input.image]
    ensures r.Failure? <==> input.Path? && !IsPdfName(input.name) && !IsImageName(input.name)
  {
    match input
    case Path(name, rasterized, decoded) =>
      if IsPdfName(name) then
        Success(if |rasterized| < MaxPdfPages then rasterized else rasterized[..MaxPdfPages])
      else if IsImageName(name) then Success([decoded])
      else Failure("AttributeError: 'str' object has no attribute 'read'")
    case Stream(image) => Success([image])
  }
}

/** The markdown refiner: sends markdown to the language model for cleaning
    and returns its answer, or an error text when the reply has no answer or
    the exchange raises. Without an API key it refuses before sending
    anything. */
module MarkdownRefiner {
  import opened Wrappers
  import opened Llm

  /** The system prompt used when the refinement prompt file is missing. */
  const DefaultPrompt := "You are an expert Markdown formatter.\nRefine the given markdown to be clean, consistent, and free of OCR errors.\nFix formatting, clean up tables, and ensure proper document structure."

  const Temperature: real := 0.1

  const NoKeyError := "ValueError: No API key provided for LLM markdown refinement."

  const BodyError := "Error in LLM response: "

  const RaisedError := "Failed to refine markdown: "

  /** `refine_markdown` for a refiner whose key is `apiKey`, with the
      refinement prompt file's text (None when missing) and the endpoint's
      answer to each request. */
  function RefineMarkdown(rawMarkdown: string, apiKey: Option<string>, promptFile: Option<string>,
                          endpoint: Request -> Reply): (r: Result<Outcome, string>)
    ensures r.Failure? <==> !HasKey(apiKey)
    ensures r.Failure? ==> r.error == NoKeyError
    ensures r.Success? ==> r.value.sent.Some?
    ensures r.Success? ==> var request := r.value.sent.value;
      && request.user == rawMarkdown
      && request.system == (if promptFile.Some? then promptFile.value else DefaultPrompt)
      && request.model == Model && request.temperature == Temperature
      && request.bearer == apiKey.value
    ensures r.Success? ==> var reply := endpoint(r.value.sent.value);
      && (HasChoice(reply) ==> r.value.text == reply.choices.value[0])
      && (reply.Body? && !HasChoice(reply) ==> r.value.text == BodyError + reply.json)
      && (reply.Raised? ==> r.value.text == RaisedError + reply.message)
  {
    if !HasKey(apiKey) then Failure(NoKeyError)
    else
      var request := Request(Model, promptFile.GetOr(DefaultPrompt), rawMarkdown, Temperature, apiKey.value);
      Success(Outcome(ReplyText(endpoint(request), BodyError, RaisedError, ""), Some(request)))
  }

  /** Whatever the endpoint answers, a refiner with a key returns a text: an
      exception never escapes, and an error text is never empty. */
  lemma RefineNeverRaisesWithKey(rawMarkdown: string, apiKey: Option<string>, promptFile: Option<string>,
                                 endpoint: Request -> Reply)
    requires HasKey(apiKey)
    ensures var r := RefineMarkdown(rawMarkdown, apiKey, promptFile, endpoint);
      r.Success? && (!HasChoice(endpoint(r.value.sent.value)) ==> r.value.text != "")
  {
  }
}

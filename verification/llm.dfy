/** What the two markdown services share: the API key lookup, the chat
    completion request they send and the shapes a reply can take. The HTTP
    endpoint is outside the model: it is a function from request to reply. */
module Llm {
  import opened Wrappers

  /** The model both services ask for. */
  const Model := "gpt-4o"

  /** The chat completion request: model, system prompt, user message,
      sampling temperature and the bearer token of the Authorization header. */
  datatype Request = Request(model: string, system: string, user: string, temperature: real, bearer: string)

  /** What `requests.post(...).json()` leads to: a decoded body, with the
      message contents of its `choices` when that key is present and its
      `json.dumps` form, or an exception raised while sending, decoding or
      reading the first choice. */
  datatype Reply =
    | Body(choices: Option<seq<string>>, json: string)
    | Raised(message: string)

  /** What a service returns, and the request it sent, if any. */
  datatype Outcome = Outcome(text: string, sent: Option<Request>)

  /** A key is usable when present and non-empty (Python's truthiness). */
  predicate HasKey(key: Option<string>) {
    key.Some? && key.value != ""
  }

  /** `llm_api_key or os.environ.get("OPENAI_API_KEY")`: the given key unless
      it is missing or empty, then the environment's. */
  function ResolveKey(given: Option<string>, env: Option<string>): (key: Option<string>)
    ensures HasKey(key) <==> HasKey(given) || HasKey(env)
    ensures HasKey(given) ==> key == given
    ensures !HasKey(given) ==> key == env
  {
    if HasKey(given) then given else env
  }

  /** A body carries an answer when its `choices` are present and non-empty. */
  predicate HasChoice(reply: Reply) {
    reply.Body? && reply.choices.Some? && |reply.choices.value| > 0
  }

  /** The text a service makes of a reply: the first choice's content; or,
      for a body without choices, `bodyError` followed by the dumped body;
      or, for an exception, its message between `raisedBefore` and
      `raisedAfter`. */
  function ReplyText(reply: Reply, bodyError: string, raisedBefore: string, raisedAfter: string): (text: string)
    ensures HasChoice(reply) ==> text == reply.choices.value[0]
    ensures reply.Body? && !HasChoice(reply) ==> text == bodyError + reply.json
    ensures reply.Raised? ==> text == raisedBefore + reply.message + raisedAfter
  {
    match reply
    case Body(choices, json) =>
      if choices.Some? && |choices.value| > 0 then choices.value[0] else bodyError + json
    case Raised(message) => raisedBefore + message + raisedAfter
  }
}

// The routing and fallback decisions of `generate_with_fallback` and
// `query_llm` (app.py:207-253). The providers themselves are a parameter:
// `respond` says what a call to a hosted model produces.
module Gateway {
  import opened Wrappers
  import opened Strings

  const GROQ_PREFIX := "groq/"
  const MODELS_PREFIX := "models/"
  const FALLBACK_MODEL := "gemini-1.5-flash"
  const NO_GROQ_KEY := "Error: GROQ_API_KEY not found in secrets."
  const ERROR_PREFIX := "Error generating content: "

  /** An opened image attached to a prompt; only its identity matters here. */
  datatype Image = Image(id: nat)

  /** One request to a hosted model. */
  datatype Call =
    | Gemini(model: string, prompt: string, image: Option<Image>)
    | Groq(model: string, prompt: string)

  /**
   * What a request produces: a reply text; an exception raised by the
   * request itself; or a reply whose text cannot be read (reading the
   * reply raises, which for Gemini happens only after the fallback logic).
   */
  datatype Outcome = Returned(text: string) | Raised(message: string) | Unreadable(message: string)

  /** The outcome of the last request made, and every request made in order. */
  datatype Attempt = Attempt(outcome: Outcome, calls: seq<Call>)

  /** What `query_llm` returns, with the requests it made. */
  datatype Answer = Answer(text: string, calls: seq<Call>)

  /** The fallback test on an exception's text. */
  predicate IsNotFound(message: string)
  {
    Contains(message, "404") || Contains(Lower(message), "not found")
  }

  /** `generate_with_fallback`. */
  function GenerateWithFallback(modelName: string, prompt: string, image: Option<Image>, respond: Call -> Outcome): Attempt
  {
    var first := Gemini(ReplaceAll(modelName, MODELS_PREFIX, ""), prompt, image);
    var o := respond(first);
    if o.Raised? && IsNotFound(o.message) then
      var second := Gemini(FALLBACK_MODEL, prompt, image);
      Attempt(respond(second), [first, second])
    else
      Attempt(o, [first])
  }

  /** A failed request becomes the error text the caller sees. */
  function Reported(o: Outcome): string
  {
    match o
    case Returned(t) => t
    case Raised(m) => ERROR_PREFIX + m
    case Unreadable(m) => ERROR_PREFIX + m
  }

  /** `query_llm`: `hasGroqClient` says whether a Groq key was configured. */
  function QueryLlm(prompt: string, modelName: string, image: Option<Image>, hasGroqClient: bool, respond: Call -> Outcome): Answer
  {
    if StartsWith(modelName, GROQ_PREFIX) then
      if !hasGroqClient then Answer(NO_GROQ_KEY, [])
      else
        var c := Groq(ReplaceAll(modelName, GROQ_PREFIX, ""), prompt);
        Answer(Reported(respond(c)), [c])
    else
      var a := GenerateWithFallback(modelName, prompt, image, respond);
      Answer(Reported(a.outcome), a.calls)
  }

  /**
   * Without a Groq client, a Groq model name yields exactly the sentinel
   * text, and no request is made; it is the only case without a request.
   */
  lemma NoGroqClient(prompt: string, modelName: string, image: Option<Image>, hasGroqClient: bool, respond: Call -> Outcome)
    ensures QueryLlm(prompt, modelName, image, hasGroqClient, respond).calls == []
        <==> StartsWith(modelName, GROQ_PREFIX) && !hasGroqClient
    ensures StartsWith(modelName, GROQ_PREFIX) && !hasGroqClient ==>
      QueryLlm(prompt, modelName, image, hasGroqClient, respond).text == NO_GROQ_KEY
  {
  }

  /**
   * The caller sees the reply of the last request made, or that request's
   * error wrapped as "Error generating content: <message>".
   */
  lemma ReportsLastRequest(prompt: string, modelName: string, image: Option<Image>, hasGroqClient: bool, respond: Call -> Outcome)
    ensures var a := QueryLlm(prompt, modelName, image, hasGroqClient, respond);
      a.calls != [] ==>
        match respond(a.calls[|a.calls| - 1])
        case Returned(t) => a.text == t
        case Raised(m) => a.text == ERROR_PREFIX + m
        case Unreadable(m) => a.text == ERROR_PREFIX + m
  {
  }

  /**
   * At most two requests are made. A second one happens only on the Gemini
   * path, only when the first raised an error whose text contains "404" or
   * (in any case) "not found", and it asks `gemini-1.5-flash` with the same
   * prompt and image.
   */
  lemma FallbackOnlyOnNotFound(prompt: string, modelName: string, image: Option<Image>, hasGroqClient: bool, respond: Call -> Outcome)
    ensures var a := QueryLlm(prompt, modelName, image, hasGroqClient, respond);
      |a.calls| <= 2 &&
      (|a.calls| == 2 <==>
        !StartsWith(modelName, GROQ_PREFIX) && respond(a.calls[0]).Raised? && IsNotFound(respond(a.calls[0]).message)) &&
      (|a.calls| == 2 ==> a.calls[1] == Gemini(FALLBACK_MODEL, prompt, image))
  {
  }

  /**
   * The first request goes to the named provider: Groq (without the image)
   * for a `groq/` name, Gemini with the prompt and image otherwise.
   */
  lemma FirstRequest(prompt: string, modelName: string, image: Option<Image>, hasGroqClient: bool, respond: Call -> Outcome)
    ensures var a := QueryLlm(prompt, modelName, image, hasGroqClient, respond);
      a.calls != [] ==>
        (StartsWith(modelName, GROQ_PREFIX) <==> a.calls[0].Groq?) &&
        a.calls[0].prompt == prompt &&
        (a.calls[0].Gemini? ==> a.calls[0].image == image)
  {
  }

  /** A provider prefix in front of a plain model name is dropped before the request. */
  lemma PrefixDropped(prefix: string, model: string, prompt: string, image: Option<Image>, respond: Call -> Outcome)
    requires prefix == GROQ_PREFIX || prefix == MODELS_PREFIX
    requires !Contains(model, prefix)
    ensures var a := QueryLlm(prompt, prefix + model, image, true, respond);
      a.calls[0].model == model
  {
    var m := prefix + model;
    assert m[..|prefix|] == prefix && m[|prefix|..] == model;
    ReplaceAbsent(model, prefix, "");
    if prefix == MODELS_PREFIX {
      assert !StartsWith(m, GROQ_PREFIX) by {
        assert m[0] == 'm';
      }
    } else {
      assert StartsWith(m, GROQ_PREFIX);
    }
  }

  /** A Gemini model name without "models/" is sent unchanged. */
  lemma GeminiNameUnchanged(prompt: string, modelName: string, image: Option<Image>, hasGroqClient: bool, respond: Call -> Outcome)
    requires !StartsWith(modelName, GROQ_PREFIX) && !Contains(modelName, MODELS_PREFIX)
    ensures QueryLlm(prompt, modelName, image, hasGroqClient, respond).calls[0] == Gemini(modelName, prompt, image)
  {
    ReplaceAbsent(modelName, MODELS_PREFIX, "");
  }
}

/**
 * The `/api/generate-blog` endpoint: topic validation, the guarded call to the
 * generative-language service (callGeminiPrompt) and the choice of status and
 * body. The service client, a module global set once at start-up, becomes the
 * `configured` flag; the remote call becomes the `Reply` it would produce.
 */
module GenerateBlog {
  import opened Wrappers
  import opened Text
  import opened GeminiResponse
  import opened BlogPrompt

  /** The model identifier every request asks for. */
  const Model: string := "gemini-2.5-flash"

  const InvalidTopicMessage: string := "topic is required and should be a short string"
  const NotConfiguredMessage: string := "Gemini client not configured (set GEMINI_API_KEY in .env)"
  const NoUsableTextMessage: string := "Gemini produced no usable text."
  const FallbackMessage: string := "Internal server error"

  /** The JSON request body; `NoBody` when it is missing (`req.body || {}`). */
  datatype RequestBody = NoBody | Body(topic: Field, wordCount: WordCount)

  /** What the remote `generateContent` call would do: return a response, or throw with a message. */
  datatype Reply = Returned(response: Response) | Threw(message: string)

  /** The one outbound call: the model asked for and the prompt sent as its contents. */
  datatype GenerateRequest = GenerateRequest(model: string, contents: string)

  /** The outcome of callGeminiPrompt, with the outbound call it made, if any. */
  datatype Attempt = Attempt(result: Result<string>, sent: Option<GenerateRequest>)

  datatype ResponseBody = Blog(topic: string, markdown: string) | Error(error: string)

  /** The HTTP answer together with the outbound call made while producing it. */
  datatype Exchange = Exchange(status: int, body: ResponseBody, sent: Option<GenerateRequest>)

  /** `topic` from `req.body || {}`: missing when there is no body. */
  function TopicOf(body: RequestBody): Field {
    match body
    case NoBody => Missing
    case Body(t, _) => t
  }

  /** `wordCount` from `req.body || {}`: omitted when there is no body, so the default applies. */
  function WordCountOf(body: RequestBody): WordCount {
    match body
    case NoBody => Omitted
    case Body(_, w) => w
  }

  /** A usable topic: a string whose trimmed length is at least 3. */
  predicate ValidTopic(t: Field) {
    t.Str? && |Trim(t.s)| >= 3
  }

  /**
   * The guard as the handler writes it: `!topic || typeof topic !== "string" ||
   * topic.trim().length < 3`. Only `Missing` and the empty string are falsy
   * among the values that reach the later tests, and that test is subsumed:
   * the guard rejects exactly the topics that are not valid.
   */
  predicate TopicRejected(t: Field): (b: bool)
    ensures b <==> !ValidTopic(t)
  {
    t.Missing? || (t.Str? && t.s == "") || !t.Str? || |Trim(t.s)| < 3
  }

  /**
   * callGeminiPrompt(prompt, model): fails with the configuration message and no
   * call when the client is missing; otherwise sends one request and yields the
   * extracted text, the no-usable-text failure, or the thrown message.
   */
  function CallGeminiPrompt(prompt: string, model: string, configured: bool, reply: Reply): (a: Attempt)
    ensures a.sent == (if configured then Some(GenerateRequest(model, prompt)) else None)
    ensures !configured ==> a.result == Failed(NotConfiguredMessage)
    ensures a.result.Ok? <==> configured && reply.Returned? && Extract(reply.response).Some?
    ensures a.result.Ok? ==> reply.Returned? && a.result.value == Extract(reply.response).value
    ensures a.result.Ok? ==> a.result.value != [] && IsTrimmed(a.result.value)
    ensures configured && reply.Threw? ==> a.result == Failed(reply.message)
    ensures configured && reply.Returned? && Extract(reply.response).None?
      ==> a.result == Failed(NoUsableTextMessage)
  {
    if !configured then Attempt(Failed(NotConfiguredMessage), None)
    else
      var sent := Some(GenerateRequest(model, prompt));
      match reply
      case Threw(m) => Attempt(Failed(m), sent)
      case Returned(resp) =>
        match Extract(resp)
        case None => Attempt(Failed(NoUsableTextMessage), sent)
        case Some(text) => Attempt(Ok(text), sent)
  }

  /** `err?.message || "Internal server error"`. */
  function ErrorMessage(m: string): (r: string)
    ensures r != []
    ensures m != [] ==> r == m
  {
    if m != [] then m else FallbackMessage
  }

  /**
   * The handler once the topic has passed the guard: call the service with the
   * prompt and answer 200 with the echoed topic and the text, or 500 with the
   * failure's message.
   */
  function Respond(topic: string, prompt: string, configured: bool, reply: Reply): (x: Exchange)
    ensures x.status in {200, 500}
    ensures x.status == 200 <==> configured && reply.Returned? && Extract(reply.response).Some?
    ensures x.status == 200 ==> x.body == Blog(topic, Extract(reply.response).value)
    ensures x.status == 500 ==> x.body.Error? && x.body.error != []
    ensures x.sent == (if configured then Some(GenerateRequest(Model, prompt)) else None)
  {
    var a := CallGeminiPrompt(prompt, Model, configured, reply);
    match a.result
    case Ok(markdown) => Exchange(200, Blog(topic, markdown), a.sent)
    case Failed(m) => Exchange(500, Error(ErrorMessage(m)), a.sent)
  }

  /**
   * The POST /api/generate-blog handler: 400 for a rejected topic before any
   * prompt is built or call made; 500 with the conversion's message, and no call,
   * when building the prompt throws; otherwise Respond with the single-shot prompt.
   */
  function HandleGenerateBlog(body: RequestBody, configured: bool, reply: Reply): (x: Exchange)
    ensures x.status in {200, 400, 500}
    ensures x.status == 400 <==> !ValidTopic(TopicOf(body))
    ensures x.status == 200 <==> x.body.Blog?
    ensures x.sent.Some? <==> ValidTopic(TopicOf(body)) && !WordCountOf(body).Unrenderable? && configured
    ensures x.body.Error? ==> x.body.error != []
  {
    var topic := TopicOf(body);
    if TopicRejected(topic) then Exchange(400, Error(InvalidTopicMessage), None)
    else
      match SingleShotPrompt(topic.s, WordCountOf(body))
      case Failed(m) => Exchange(500, Error(ErrorMessage(m)), None)
      case Ok(prompt) => Respond(topic.s, prompt, configured, reply)
  }

  /** An invalid topic gets 400 with the fixed message, and nothing is sent. */
  lemma InvalidTopicIsRejectedFirst(body: RequestBody, configured: bool, reply: Reply)
    requires !ValidTopic(TopicOf(body))
    ensures HandleGenerateBlog(body, configured, reply) == Exchange(400, Error(InvalidTopicMessage), None)
  {
  }

  /**
   * Past the guard, the handler builds the prompt from the topic and word count:
   * when that throws it answers 500 with the conversion's message and sends
   * nothing, whatever the client; otherwise it responds with that prompt.
   */
  lemma GuardPassed(body: RequestBody, configured: bool, reply: Reply)
    requires ValidTopic(TopicOf(body))
    ensures WordCountOf(body).Unrenderable? ==>
      HandleGenerateBlog(body, configured, reply)
        == Exchange(500, Error(ErrorMessage(WordCountOf(body).message)), None)
    ensures !WordCountOf(body).Unrenderable? ==>
      HandleGenerateBlog(body, configured, reply)
        == Respond(TopicOf(body).s, SingleShotPrompt(TopicOf(body).s, WordCountOf(body)).value, configured, reply)
  {
  }

  lemma RespondUnconfigured(topic: string, prompt: string, reply: Reply)
    ensures Respond(topic, prompt, false, reply) == Exchange(500, Error(NotConfiguredMessage), None)
  {
  }

  lemma RespondNoUsableText(topic: string, prompt: string, resp: Response)
    requires Extract(resp).None?
    ensures Respond(topic, prompt, true, Returned(resp))
         == Exchange(500, Error(NoUsableTextMessage), Some(GenerateRequest(Model, prompt)))
  {
  }

  lemma RespondThrown(topic: string, prompt: string, m: string)
    ensures Respond(topic, prompt, true, Threw(m))
         == Exchange(500, Error(if m == "" then FallbackMessage else m), Some(GenerateRequest(Model, prompt)))
  {
  }

  /**
   * A valid topic with a word count that cannot be rendered gets 500 with the
   * conversion's message (or the fallback text), and nothing is sent, whether or
   * not a client is configured and whatever the service would have replied.
   */
  lemma UnrenderableWordCountFails(body: RequestBody, configured: bool, reply: Reply)
    requires ValidTopic(TopicOf(body)) && WordCountOf(body).Unrenderable?
    ensures var m := WordCountOf(body).message;
      HandleGenerateBlog(body, configured, reply) == Exchange(500, Error(if m == "" then FallbackMessage else m), None)
  {
    GuardPassed(body, configured, reply);
  }

  /**
   * A valid topic with no client configured gets 500 and nothing is sent. The
   * message is the configuration message, unless the word count cannot be
   * rendered: the prompt is built before the client is consulted.
   */
  lemma UnconfiguredClientFails(body: RequestBody, reply: Reply)
    requires ValidTopic(TopicOf(body))
    ensures !WordCountOf(body).Unrenderable? ==>
      HandleGenerateBlog(body, false, reply) == Exchange(500, Error(NotConfiguredMessage), None)
    ensures WordCountOf(body).Unrenderable? ==>
      HandleGenerateBlog(body, false, reply) == Exchange(500, Error(ErrorMessage(WordCountOf(body).message)), None)
  {
    GuardPassed(body, false, reply);
    if !WordCountOf(body).Unrenderable? {
      RespondUnconfigured(TopicOf(body).s, SingleShotPrompt(TopicOf(body).s, WordCountOf(body)).value, reply);
    }
  }

  /**
   * A valid topic with a configured client sends a request exactly when the word
   * count can be rendered, and then exactly one: the fixed model and a prompt that
   * quotes the topic and asks for the requested number of words (the default when
   * omitted).
   */
  lemma ValidRequestSendsPrompt(body: RequestBody, reply: Reply)
    requires ValidTopic(TopicOf(body))
    ensures HandleGenerateBlog(body, true, reply).sent.Some? <==> !WordCountOf(body).Unrenderable?
    ensures var x := HandleGenerateBlog(body, true, reply);
      x.sent.Some? ==>
      && x.sent == Some(GenerateRequest(Model, SingleShotPrompt(TopicOf(body).s, WordCountOf(body)).value))
      && Occurs(TopicLine(TopicOf(body).s), x.sent.value.contents)
      && Occurs(LengthRule(Rendered(WordCountOf(body)).value), x.sent.value.contents)
      && (WordCountOf(body).Omitted? ==> Occurs(LengthRule(DefaultWordCount), x.sent.value.contents))
  {
    GuardPassed(body, true, reply);
  }

  /**
   * A returned response with no usable text gets 500 with the no-usable-text
   * message; when the word count cannot be rendered no call is made and the
   * conversion's message is the answer instead.
   */
  lemma NoUsableTextFails(body: RequestBody, resp: Response)
    requires ValidTopic(TopicOf(body)) && Extract(resp).None?
    ensures HandleGenerateBlog(body, true, Returned(resp)).status == 500
    ensures HandleGenerateBlog(body, true, Returned(resp)).body
         == Error(if WordCountOf(body).Unrenderable? then ErrorMessage(WordCountOf(body).message) else NoUsableTextMessage)
  {
    GuardPassed(body, true, Returned(resp));
    if !WordCountOf(body).Unrenderable? {
      RespondNoUsableText(TopicOf(body).s, SingleShotPrompt(TopicOf(body).s, WordCountOf(body)).value, resp);
    }
  }

  /**
   * A thrown call gets 500 with the thrown message, or the fallback text when it
   * has none; when the word count cannot be rendered the call is never made and
   * the conversion's message takes the thrown message's place.
   */
  lemma ThrownMessageSurfaces(body: RequestBody, m: string)
    requires ValidTopic(TopicOf(body))
    ensures HandleGenerateBlog(body, true, Threw(m)).status == 500
    ensures var thrown := if WordCountOf(body).Unrenderable? then WordCountOf(body).message else m;
      HandleGenerateBlog(body, true, Threw(m)).body == Error(if thrown == "" then FallbackMessage else thrown)
  {
    GuardPassed(body, true, Threw(m));
    if !WordCountOf(body).Unrenderable? {
      RespondThrown(TopicOf(body).s, SingleShotPrompt(TopicOf(body).s, WordCountOf(body)).value, m);
    }
  }

  /**
   * Status 200 happens exactly for a valid topic, a renderable word count, a
   * configured client and a returned response with usable text; the body then
   * echoes the topic as sent and carries the extracted text as the Markdown.
   */
  lemma SuccessIff(body: RequestBody, configured: bool, reply: Reply)
    ensures var x := HandleGenerateBlog(body, configured, reply);
      x.status == 200 <==>
        ValidTopic(TopicOf(body)) && !WordCountOf(body).Unrenderable?
        && configured && reply.Returned? && Extract(reply.response).Some?
    ensures var x := HandleGenerateBlog(body, configured, reply);
      x.status == 200 ==>
        x.body == Blog(TopicOf(body).s, Extract(reply.response).value)
        && x.body.markdown != [] && IsTrimmed(x.body.markdown)
  {
    if ValidTopic(TopicOf(body)) {
      GuardPassed(body, configured, reply);
    }
  }

  /** A direct text "Hello" answers `{topic, markdown: "Hello"}`. */
  lemma HelloExample(topic: string)
    requires |Trim(topic)| >= 3
    ensures HandleGenerateBlog(Body(Str(topic), Omitted), true, Returned(Present(Envelope(Str("Hello"), None))))
         .body == Blog(topic, "Hello")
  {
    var reply := Returned(Present(Envelope(Str("Hello"), None)));
    DirectTextExample();
    SuccessIff(Body(Str(topic), Omitted), true, reply);
  }
}

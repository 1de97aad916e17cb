/**
 The `/answer` handler: strip and clean the text, build the request body for
 the Gemini `generateContent` endpoint, send it with the API key, and map the
 upstream reply (or the failure to get one) to the handler's response.
 */
module Answer {
  import opened Wrappers
  import opened Text
  import opened Tags
  import opened Cleaning
  import opened Json

  const Endpoint: string :=
    "https://generativelanguage.googleapis.com/v1beta/models/gemini-2.5-flash:generateContent"
  const PromptPrefix: string :=
    "Analise o seguinte texto extra\U{ED}do de um PDF e responda suas perguntas de forma clara e objetiva:\n\n"

  const InternalError: int := 500
  const ApiErrorPrefix: string := "Erro na API Gemini: "
  const AnswerErrorPrefix: string := "Erro ao gerar respostas: "
  /** `str()` of the HTTPException raised for a missing key, which the
      handler's own generic `except` catches and wraps again. */
  const MissingKeyMessage: string := "500: GEMINI_API_KEY n\U{E3}o configurada"

  /** Where the prompt sits in the request body. */
  const PromptPath: seq<Step> := [Key("contents"), Index(0), Key("parts"), Index(0), Key("text")]
  /** Where the handler looks for the generated answer in the response body. */
  const AnswerPath: seq<Step> :=
    [Key("candidates"), Index(0), Key("content"), Key("parts"), Index(0), Key("text")]

  /** The request body: one content holding one part whose text is the fixed
      instruction followed by the cleaned text. */
  function Payload(cleaned: string): Json {
    Object(map["contents" := Array([
      Object(map["parts" := Array([
        Object(map["text" := Str(PromptPrefix + cleaned)])])])])])
  }

  /** Reads the cleaned text back out of a request body: the inverse of
      Payload. */
  function PromptText(body: Json): (r: Option<string>)
    ensures r.Some? ==> Follow(body, PromptPath) == Some(Str(PromptPrefix + r.value))
  {
    match Follow(body, PromptPath)
    case Some(Str(t)) =>
      if StartsWith(t, PromptPrefix) then
        assert t == PromptPrefix + t[|PromptPrefix|..];
        Some(t[|PromptPrefix|..])
      else None
    case _ => None
  }

  /** The body is exactly the value Nest builds for the prompt at
      PromptPath: a single content with a single part. */
  lemma PayloadShape(cleaned: string)
    ensures Payload(cleaned) == Nest(PromptPath, Str(PromptPrefix + cleaned))
  {
    var leaf := Str(PromptPrefix + cleaned);
    assert PromptPath[1..][1..][1..][1..][1..] == [];
    assert seq(0, _ => Null) + [Nest(PromptPath[2..], leaf)] == [Nest(PromptPath[2..], leaf)];
    assert seq(0, _ => Null) + [Nest(PromptPath[4..], leaf)] == [Nest(PromptPath[4..], leaf)];
  }

  /** Round trip: the text that was put into the body is the text read back. */
  lemma PayloadRoundTrip(cleaned: string)
    ensures PromptText(Payload(cleaned)) == Some(cleaned)
  {
    PayloadShape(cleaned);
    FollowNest(PromptPath, Str(PromptPrefix + cleaned));
    var t := PromptPrefix + cleaned;
    assert t[..|PromptPrefix|] == PromptPrefix && t[|PromptPrefix|..] == cleaned;
  }

  function Headers(apiKey: string): map<string, string> {
    map["Content-Type" := "application/json", "x-goog-api-key" := apiKey]
  }

  /** What `r.json()` gives: a parsed value, or the parse error's message. */
  datatype Body = Parsed(value: Json) | NotJson(message: string)

  /** What `requests.post` gives: an exception (connection refused, timeout,
      ...) or a response with its status, raw text and body. */
  datatype Upstream =
    | Raised(message: string)
    | Responded(status: int, text: string, body: Body)

  /** One outbound POST. */
  datatype Request = Request(url: string, headers: map<string, string>, payload: Json)

  /** The handler's response, with the calls it made. */
  datatype Reply = Reply(result: Outcome<seq<Json>>, sent: seq<Request>)

  /** `raise_for_status()` raises for client and server errors only. */
  predicate IsHttpError(status: int) {
    400 <= status < 600
  }

  /** The error kinds the handler can produce. */
  predicate WellFormedError(status: int, detail: string) {
    || (status == InternalError && StartsWith(detail, AnswerErrorPrefix))
    || (IsHttpError(status) && StartsWith(detail, ApiErrorPrefix))
  }

  /** Maps the upstream outcome to the handler's result. A failed subscript
      (KeyError, IndexError, TypeError) ends as a 500 like any other
      exception; the text of Python's message after the prefix is not
      modelled. */
  function Respond(upstream: Upstream): (r: Outcome<seq<Json>>)
    ensures r.Ok? ==>
      && |r.value| == 1
      && upstream.Responded? && !IsHttpError(upstream.status) && upstream.body.Parsed?
      && Follow(upstream.body.value, AnswerPath) == Some(r.value[0])
    ensures r.Err? ==> WellFormedError(r.status, r.detail)
    ensures upstream.Responded? && IsHttpError(upstream.status) ==>
      r == Err(upstream.status, ApiErrorPrefix + upstream.text)
    ensures r.Err? && !(upstream.Responded? && IsHttpError(upstream.status)) ==>
      r.status == InternalError && StartsWith(r.detail, AnswerErrorPrefix)
  {
    match upstream
    case Raised(message) => Err(InternalError, AnswerErrorPrefix + message)
    case Responded(status, text, body) =>
      if IsHttpError(status) then Err(status, ApiErrorPrefix + text)
      else
        match body
        case NotJson(message) => Err(InternalError, AnswerErrorPrefix + message)
        case Parsed(value) =>
          match Follow(value, AnswerPath)
          case Some(answer) => Ok([answer])
          case None => Err(InternalError, AnswerErrorPrefix)
  }

  /** The `/answer` handler, with the environment's GEMINI_API_KEY and the
      upstream reply as parameters. */
  function GenerateAnswers(texto: string, apiKey: Option<string>, upstream: Upstream): (reply: Reply)
    ensures reply.sent == [] <==> apiKey.None? || apiKey.value == ""
    ensures reply.sent != [] ==>
      reply.sent == [Request(Endpoint, Headers(apiKey.value), Payload(Clean(texto)))]
    ensures reply.result.Ok? ==>
      && |reply.result.value| == 1
      && upstream.Responded? && !IsHttpError(upstream.status) && upstream.body.Parsed?
      && Follow(upstream.body.value, AnswerPath) == Some(reply.result.value[0])
    ensures reply.result.Err? ==> WellFormedError(reply.result.status, reply.result.detail)
    ensures reply.sent == [] ==> reply.result == Err(InternalError, AnswerErrorPrefix + MissingKeyMessage)
    ensures reply.sent != [] && upstream.Responded? && IsHttpError(upstream.status) ==>
      reply.result == Err(upstream.status, ApiErrorPrefix + upstream.text)
    ensures reply.result.Err? && !(reply.sent != [] && upstream.Responded? && IsHttpError(upstream.status)) ==>
      reply.result.status == InternalError && StartsWith(reply.result.detail, AnswerErrorPrefix)
  {
    if apiKey.None? || apiKey.value == "" then
      Reply(Err(InternalError, AnswerErrorPrefix + MissingKeyMessage), [])
    else
      var request := Request(Endpoint, Headers(apiKey.value), Payload(Clean(texto)));
      Reply(Respond(upstream), [request])
  }

  /** Without a key nothing is sent and the reply is the same 500 whatever
      the upstream would have said. The handler's own generic `except` catches
      the missing-key exception, so its detail carries the handler's prefix in
      front of the exception's text. */
  lemma MissingKey(texto: string, apiKey: Option<string>, u1: Upstream, u2: Upstream)
    requires apiKey.None? || apiKey.value == ""
    ensures GenerateAnswers(texto, apiKey, u1) == GenerateAnswers(texto, apiKey, u2)
    ensures GenerateAnswers(texto, apiKey, u1).sent == []
    ensures GenerateAnswers(texto, apiKey, u1).result == Err(InternalError, AnswerErrorPrefix + MissingKeyMessage)
  {
  }

  /** The prompt that reaches the model is the cleaned text: free of tags,
      glyphs and redundant whitespace, and holding every other visible
      character of the input in order. */
  lemma PromptIsClean(texto: string, apiKey: Option<string>, upstream: Upstream)
    requires GenerateAnswers(texto, apiKey, upstream).sent != []
    ensures PromptText(GenerateAnswers(texto, apiKey, upstream).sent[0].payload) == Some(Clean(texto))
    ensures IsClean(Clean(texto)) && NonSpace(Clean(texto)) == Kept(texto)
  {
    PayloadRoundTrip(Clean(texto));
    CleanIsClean(texto);
    CleanKeeps(texto);
  }

  /** Cleaning the text beforehand changes nothing: the handler sees its
      input only through Clean. */
  lemma PreCleaned(texto: string, apiKey: Option<string>, upstream: Upstream)
    ensures GenerateAnswers(Clean(texto), apiKey, upstream) == GenerateAnswers(texto, apiKey, upstream)
  {
    CleanIdempotent(texto);
  }

  /** With a key, the request is sent and the reply is Respond's mapping of
      what came back. */
  lemma KeySent(texto: string, key: string, upstream: Upstream)
    requires key != ""
    ensures GenerateAnswers(texto, Some(key), upstream).result == Respond(upstream)
  {
    assert GenerateAnswers(texto, Some(key), upstream) == Reply(Respond(upstream), [Request(Endpoint, Headers(key), Payload(Clean(texto)))]);
  }

  /** A client or server error from the upstream is passed on with its own
      status and body. */
  lemma UpstreamError(texto: string, key: string, status: int, text: string, body: Body)
    requires key != "" && IsHttpError(status)
    ensures GenerateAnswers(texto, Some(key), Responded(status, text, body)).result
      == Err(status, ApiErrorPrefix + text)
  {
    KeySent(texto, key, Responded(status, text, body));
  }

  /** The handler succeeds exactly when it got a non-error response whose
      body holds a value at the answer path, and then returns that value
      alone. */
  lemma AnswerFound(texto: string, key: string, upstream: Upstream, answer: Json)
    requires key != ""
    ensures GenerateAnswers(texto, Some(key), upstream).result == Ok([answer]) <==>
      && upstream.Responded? && !IsHttpError(upstream.status) && upstream.body.Parsed?
      && Follow(upstream.body.value, AnswerPath) == Some(answer)
  {
    KeySent(texto, key, upstream);
  }

  /** A well-formed model reply carrying `answer` yields `[answer]`, for
      every success status. */
  lemma WellFormedReply(texto: string, key: string, status: int, text: string, answer: Json)
    requires key != "" && !IsHttpError(status)
    ensures GenerateAnswers(texto, Some(key), Responded(status, text, Parsed(Nest(AnswerPath, answer)))).result
      == Ok([answer])
  {
    FollowNest(AnswerPath, answer);
    AnswerFound(texto, key, Responded(status, text, Parsed(Nest(AnswerPath, answer))), answer);
  }

  /** A non-error reply whose body has nothing at the answer path, for
      whatever reason (no candidates, an empty list, a candidate without
      content, a value of the wrong kind on the way), is a 500. */
  lemma MissingAnswer(texto: string, key: string, status: int, text: string, value: Json)
    requires key != "" && !IsHttpError(status) && Follow(value, AnswerPath).None?
    ensures GenerateAnswers(texto, Some(key), Responded(status, text, Parsed(value))).result
      == Err(InternalError, AnswerErrorPrefix)
  {
    KeySent(texto, key, Responded(status, text, Parsed(value)));
  }

  /** An exception from the POST itself is a 500 carrying its message. */
  lemma UpstreamRaised(texto: string, key: string, message: string)
    requires key != ""
    ensures GenerateAnswers(texto, Some(key), Raised(message)).result == Err(InternalError, AnswerErrorPrefix + message)
  {
    KeySent(texto, key, Raised(message));
  }

  /** A non-error reply whose body is not JSON is a 500 carrying the parse
      error's message. */
  lemma NotJsonReply(texto: string, key: string, status: int, text: string, message: string)
    requires key != "" && !IsHttpError(status)
    ensures GenerateAnswers(texto, Some(key), Responded(status, text, NotJson(message))).result
      == Err(InternalError, AnswerErrorPrefix + message)
  {
    KeySent(texto, key, Responded(status, text, NotJson(message)));
  }
}

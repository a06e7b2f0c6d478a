/**
 * The default export of functions/asistente.ts: an HTTP handler that
 * accepts a POST carrying `{ "prompt": string }`, downloads the public site
 * as context, asks a chat-completion model for an answer and replies with
 * JSON.  The two outbound calls are parameters (`fetch` for the site GET,
 * `complete` for the completion API), and the handler also reports which
 * of them it made, in order.
 */
module Assistant {
  import opened JsStrings
  import Whitespace
  import SiteFetcher

  const Post: JsString := Lit("POST")
  const SiteUrl: JsString := Lit("https://jbceramicaa.netlify.app/")
  const SiteMaxChars: nat := 20000
  const ModelName: JsString := Lit("openai/gpt-oss-20b")
  const Temperature: real := 0.2
  const MaxTokens: nat := 512
  const SiteHeader: JsString := Lit("EXTRACTO_WEB (texto extraído automáticamente de la web oficial):\n")

  const MethodNotAllowed: JsString := Lit("Método no permitido")
  const MissingPrompt: JsString := Lit("Falta el campo 'prompt'")
  const ProcessingFailed: JsString := Lit("Error al procesar la consulta")
  // The placeholder reply, as two joined literals.
  const NoReply: JsString := Lit("No se pudo generar ") + Lit("una respuesta en este momento.")

  /** The `prompt` property of the parsed body. */
  datatype PromptField =
    | Absent              // undefined: no such property, or the body is not an object
    | NotAString          // null, a number, a boolean, an array or an object
    | Str(value: JsString)

  /** What `await req.json()` followed by `const { prompt } = …` produces. */
  datatype Body =
    | ReadFailed(details: JsString)   // the body is not JSON or cannot be read; the error's message
    | NullJson(details: JsString)      // the body is JSON `null`: destructuring throws a TypeError
    | Parsed(prompt: PromptField)     // any other JSON value

  datatype Request = Request(verb: JsString, body: Body)

  datatype Role = System | User
  datatype Message = Message(role: Role, content: JsString)
  datatype CompletionRequest = CompletionRequest(
    model: JsString, messages: seq<Message>, temperature: real, maxTokens: nat)

  /** One entry of `completion.choices`; None when its message or content is null or missing. */
  datatype Choice = Choice(content: Option<JsString>)

  /** How building the client and calling the completion API ended. */
  datatype Completion =
    | CompletionFailed(details: JsString)   // `error.message || String(error)`
    | Completed(choices: seq<Choice>)

  /** The JSON bodies the handler sends. */
  datatype ResponseBody =
    | Error(error: JsString)
    | Failure(error: JsString, details: JsString)
    | Reply(response: JsString)

  datatype Response = Response(status: nat, body: ResponseBody)

  /** An outbound call the handler made. */
  datatype Call = SiteGet(url: JsString) | ModelCall(request: CompletionRequest)

  datatype Outcome = Outcome(response: Response, calls: seq<Call>)

  /** `!prompt || typeof prompt !== "string"` is false: a non-empty string. */
  predicate ValidPrompt(p: PromptField)
  {
    p.Str? && p.value != []
  }

  /** The second system message: the fixed header line, then the site text. */
  function SiteMessage(siteText: JsString): (c: JsString)
    ensures |c| == |SiteHeader| + |siteText|
    ensures c[..|SiteHeader|] == SiteHeader && c[|SiteHeader|..] == siteText
  {
    SiteHeader + siteText
  }

  /**
   * The request sent to the model: the instructions, then the site text,
   * both as system messages, then the visitor's prompt as the only user
   * message.
   */
  function BuildRequest(systemPrompt: JsString, siteText: JsString, prompt: JsString): (q: CompletionRequest)
    ensures q.model == ModelName && q.temperature == Temperature && q.maxTokens == MaxTokens
    ensures |q.messages| == 3
    ensures q.messages[0] == Message(System, systemPrompt)
    ensures q.messages[1] == Message(System, SiteMessage(siteText))
    ensures q.messages[2] == Message(User, prompt)
    ensures forall i :: 0 <= i < |q.messages| ==> (q.messages[i].role == User <==> i == |q.messages| - 1)
  {
    CompletionRequest(
      ModelName,
      [Message(System, systemPrompt), Message(System, SiteMessage(siteText)), Message(User, prompt)],
      Temperature,
      MaxTokens)
  }

  /** The request determines the instructions, the site text and the prompt it was built from. */
  lemma BuildRequestInjective(p1: JsString, s1: JsString, u1: JsString, p2: JsString, s2: JsString, u2: JsString)
    requires BuildRequest(p1, s1, u1) == BuildRequest(p2, s2, u2)
    ensures p1 == p2 && s1 == s2 && u1 == u2
  {
    var m1 := SiteMessage(s1);
    var m2 := SiteMessage(s2);
    assert m1 == m2;
    assert s1 == m1[|SiteHeader|..] == m2[|SiteHeader|..] == s2;
  }

  /** `completion.choices[0]?.message?.content`. */
  function FirstContent(choices: seq<Choice>): Option<JsString>
  {
    if |choices| == 0 then None else choices[0].content
  }

  /**
   * `completion.choices[0]?.message?.content?.trim() || placeholder`: the
   * reply is never empty and never starts or ends with whitespace.
   */
  function ReplyText(choices: seq<Choice>): (r: JsString)
    ensures r != []
    ensures !IsWs(r[0]) && !IsWs(r[|r| - 1])
  {
    assert NoReply[0] == 'N' as int && NoReply[|NoReply| - 1] == '.' as int;
    match FirstContent(choices)
    case None => NoReply
    case Some(c) =>
      var t := Whitespace.Trim(c);
      if t == [] then NoReply else t
  }

  /**
   * The model's text is used, trimmed, exactly when the first choice has
   * content that is not all whitespace; it is then a piece of that content
   * with only whitespace around it.  Otherwise the placeholder is sent.
   */
  lemma ReplyTextCases(choices: seq<Choice>)
    ensures FirstContent(choices).None? ==> ReplyText(choices) == NoReply
    ensures FirstContent(choices).Some? ==>
      var c := FirstContent(choices).value;
      && ((forall k :: 0 <= k < |c| ==> IsWs(c[k])) ==> ReplyText(choices) == NoReply)
      && ((exists k :: 0 <= k < |c| && !IsWs(c[k])) ==>
            && ReplyText(choices) == Whitespace.Trim(c)
            && exists a: nat :: Whitespace.TrimmedAt(c, ReplyText(choices), a))
  {
    if FirstContent(choices).Some? {
      Whitespace.TrimEmptyIffBlank(FirstContent(choices).value);
    }
  }

  /** The reply is already trimmed: trimming it again changes nothing. */
  lemma ReplyTextTrimmed(choices: seq<Choice>)
    ensures Whitespace.Trim(ReplyText(choices)) == ReplyText(choices)
  {
    Whitespace.TrimSolid(ReplyText(choices));
  }

  /** Only the first choice is read. */
  lemma OnlyFirstChoiceRead(first: Choice, rest1: seq<Choice>, rest2: seq<Choice>)
    ensures ReplyText([first] + rest1) == ReplyText([first] + rest2)
  {
  }

  /**
   * The text of the site, as fetched on this call with its 20000-unit
   * budget: never empty, and after a successful download at most the
   * budget plus the truncation marker.
   */
  function SiteText(fetch: JsString -> SiteFetcher.FetchOutcome): (t: JsString)
    ensures t != []
    ensures fetch(SiteUrl).Received? && SiteFetcher.IsOk(fetch(SiteUrl).status) ==> |t| <= SiteMaxChars + 14
  {
    var outcome := fetch(SiteUrl);
    if outcome.Received? then
      SiteFetcher.CleanTextBound(outcome.body, SiteMaxChars);
      SiteFetcher.FetchSiteText(outcome, SiteMaxChars)
    else
      SiteFetcher.FetchSiteText(outcome, SiteMaxChars)
  }


  /** The handler. */
  function Handle(
    req: Request,
    systemPrompt: JsString,
    fetch: JsString -> SiteFetcher.FetchOutcome,
    complete: CompletionRequest -> Completion): (out: Outcome)
    ensures out.response.status in {200, 400, 405, 500}
    ensures out.response.status == 405 <==> req.verb != Post
    ensures out.response.status == 400 <==>
      req.verb == Post && req.body.Parsed? && !ValidPrompt(req.body.prompt)
    ensures out.response.status == 200 ==> out.response.body.Reply? && out.response.body.response != []
    ensures out.response.status == 500 <==> out.response.body.Failure?
    ensures out.response.body.Failure? ==> out.response.body.error == ProcessingFailed
    ensures out.calls != [] <==> req.verb == Post && req.body.Parsed? && ValidPrompt(req.body.prompt)
  {
    if req.verb != Post then
      Outcome(Response(405, Error(MethodNotAllowed)), [])
    else
      match req.body
      case ReadFailed(details) => Outcome(Response(500, Failure(ProcessingFailed, details)), [])
      case NullJson(details) => Outcome(Response(500, Failure(ProcessingFailed, details)), [])
      case Parsed(prompt) =>
        if !ValidPrompt(prompt) then
          Outcome(Response(400, Error(MissingPrompt)), [])
        else
          var request := BuildRequest(systemPrompt, SiteText(fetch), prompt.value);
          var calls := [SiteGet(SiteUrl), ModelCall(request)];
          match complete(request)
          case CompletionFailed(details) => Outcome(Response(500, Failure(ProcessingFailed, details)), calls)
          case Completed(choices) => Outcome(Response(200, Reply(ReplyText(choices))), calls)
  }

  /**
   * A request with a valid prompt: the site is fetched once, then the
   * completion request is built and handed to the model once.  A client
   * that cannot be constructed is folded into a failed completion, so the
   * list then still records that model call.
   */
  lemma ValidRequestCalls(prompt: JsString, body: Body, systemPrompt: JsString,
                          fetch: JsString -> SiteFetcher.FetchOutcome,
                          complete: CompletionRequest -> Completion)
    requires body == Parsed(Str(prompt)) && prompt != []
    ensures var out := Handle(Request(Post, body), systemPrompt, fetch, complete);
      var q := BuildRequest(systemPrompt, SiteText(fetch), prompt);
      && out.calls == [SiteGet(SiteUrl), ModelCall(q)]
      && (complete(q).CompletionFailed? ==>
            out.response == Response(500, Failure(ProcessingFailed, complete(q).details)))
      && (complete(q).Completed? ==>
            out.response == Response(200, Reply(ReplyText(complete(q).choices))))
  {
  }

  /**
   * Any method but POST gets 405 with the fixed error, before the body is
   * read and without any outbound call: the body, the site and the model
   * make no difference.
   */
  lemma MethodCheckedFirst(
    verb: JsString, b1: Body, b2: Body, p1: JsString, p2: JsString,
    f1: JsString -> SiteFetcher.FetchOutcome, f2: JsString -> SiteFetcher.FetchOutcome,
    c1: CompletionRequest -> Completion, c2: CompletionRequest -> Completion)
    requires verb != Post
    ensures Handle(Request(verb, b1), p1, f1, c1) == Handle(Request(verb, b2), p2, f2, c2)
    ensures Handle(Request(verb, b1), p1, f1, c1) == Outcome(Response(405, Error(MethodNotAllowed)), [])
  {
  }

  /** A POST whose prompt is missing, empty or not a string gets 400, without any outbound call. */
  lemma InvalidPromptRejected(
    prompt: PromptField, p: JsString,
    fetch: JsString -> SiteFetcher.FetchOutcome, complete: CompletionRequest -> Completion)
    requires !ValidPrompt(prompt)
    ensures Handle(Request(Post, Parsed(prompt)), p, fetch, complete)
      == Outcome(Response(400, Error(MissingPrompt)), [])
  {
  }

  /**
   * A 500 answer comes from the body failing to parse or destructure, or
   * from the completion call failing, and carries that error's message as
   * `details`.  A failed site download is never one of them.
   */
  lemma ServerErrorCauses(req: Request, p: JsString,
                          fetch: JsString -> SiteFetcher.FetchOutcome,
                          complete: CompletionRequest -> Completion)
    ensures var out := Handle(req, p, fetch, complete);
      out.response.status == 500 <==>
        req.verb == Post &&
        (|| req.body.ReadFailed?
         || req.body.NullJson?
         || (req.body.Parsed? && ValidPrompt(req.body.prompt) &&
             complete(BuildRequest(p, SiteText(fetch), req.body.prompt.value)).CompletionFailed?))
    ensures req.verb == Post && !req.body.Parsed? ==>
      Handle(req, p, fetch, complete).response == Response(500, Failure(ProcessingFailed, req.body.details))
  {
  }

  /**
   * Whatever happens to the site download, a valid request against a
   * completion API that answers is a 200, and the model sees the download
   * error in place of the site text.
   */
  lemma SiteFailureStillAnswers(prompt: JsString, p: JsString, status: nat, body: JsString,
                                complete: CompletionRequest -> Completion)
    requires prompt != [] && !SiteFetcher.IsOk(status)
    requires forall q :: complete(q).Completed?
    ensures var fetch := (url: JsString) => SiteFetcher.Received(status, body);
      var out := Handle(Request(Post, Parsed(Str(prompt))), p, fetch, complete);
      && out.response.status == 200
      && out.calls[1].request.messages[1].content ==
           SiteHeader + SiteFetcher.DownloadErrorPrefix + Decimal(status)
  {
    var fetch := (url: JsString) => SiteFetcher.Received(status, body);
    assert SiteText(fetch) == SiteFetcher.DownloadErrorPrefix + Decimal(status);
    assert SiteHeader + (SiteFetcher.DownloadErrorPrefix + Decimal(status))
        == SiteHeader + SiteFetcher.DownloadErrorPrefix + Decimal(status);
  }

  /** A completion API that answers "Hola" gives `{"response": "Hola"}` with status 200. */
  lemma HolaExample(prompt: JsString, p: JsString, fetch: JsString -> SiteFetcher.FetchOutcome)
    requires prompt != []
    ensures var complete := (q: CompletionRequest) => Completed([Choice(Some(Lit("Hola")))]);
      Handle(Request(Post, Parsed(Str(prompt))), p, fetch, complete)
        .response == Response(200, Reply(Lit("Hola")))
  {
    var hola := Lit("Hola");
    assert [] + hola + [] == hola;
    Whitespace.TrimAround([], hola, []);
  }

  /** A completion API that returns no choices gives the placeholder with status 200. */
  lemma NoChoicesPlaceholder(prompt: JsString, p: JsString, fetch: JsString -> SiteFetcher.FetchOutcome)
    requires prompt != []
    ensures var complete := (q: CompletionRequest) => Completed([]);
      Handle(Request(Post, Parsed(Str(prompt))), p, fetch, complete)
        .response == Response(200, Reply(NoReply))
  {
  }
}

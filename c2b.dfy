/**
  The customer-to-business (C2B) client: it runs a request through the shared
  pipeline and maps the decoded body to a standard three-field response. This
  layer is fail-soft: an I/O failure becomes one exception notification and an
  absent result, never a propagated exception.
 */
module C2B {
  import opened Wrappers
  import opened ErrorHandling
  import opened MPesaApi

  /** The standard response; a field is None when its key is missing from the body. */
  datatype MPesaStandardResponse = MPesaStandardResponse(
    conversationId: Option<string>,
    originatorConversationId: Option<string>,
    responseDescription: Option<string>)

  const ConversationIdKey := "ConversationID"
  const OriginatorConversationIdKey := "OriginatorConversationID"
  const ResponseDescriptionKey := "ResponseDescription"
  const C2BErrorMessage := "Error executing C2B Request"

  /** A map lookup that answers None for a missing key, as Java's `Map.get` answers null. */
  function FieldOf(body: JsonObject, key: string): (v: Option<string>)
    ensures v.Some? <==> key in body
    ensures v.Some? ==> v.value == body[key]
  {
    if key in body then Some(body[key]) else None
  }

  /** The three response fields, each taken from its own key of the body. */
  function ExtractStandardResponse(body: JsonObject): (r: MPesaStandardResponse)
    ensures r.conversationId.Some? <==> ConversationIdKey in body
    ensures r.originatorConversationId.Some? <==> OriginatorConversationIdKey in body
    ensures r.responseDescription.Some? <==> ResponseDescriptionKey in body
    ensures ConversationIdKey in body ==> r.conversationId.value == body[ConversationIdKey]
    ensures OriginatorConversationIdKey in body ==>
              r.originatorConversationId.value == body[OriginatorConversationIdKey]
    ensures ResponseDescriptionKey in body ==> r.responseDescription.value == body[ResponseDescriptionKey]
  {
    MPesaStandardResponse(
      FieldOf(body, ConversationIdKey),
      FieldOf(body, OriginatorConversationIdKey),
      FieldOf(body, ResponseDescriptionKey))
  }

  /** What a C2B request returns for an exchange: a response exactly when a body was decoded. */
  function C2BResult(e: Exchange): (r: Option<MPesaStandardResponse>)
    ensures r.Some? <==> e.Completed? && e.body.Some?
    ensures r.Some? ==> r.value == ExtractStandardResponse(e.body.value)
  {
    match e
    case Failed(_) => None
    case Completed(_, _, _, body) =>
      if body.Some? then Some(ExtractStandardResponse(body.value)) else None
  }

  /**
    The notifications a C2B request sends: for a failure exactly one exception
    notification, otherwise only the pipeline's validation notifications.
   */
  ghost function C2BNotifications(e: Exchange): (ns: seq<Notification>)
    ensures e.Failed? <==> exists n | n in ns :: n.ExceptionNote?
    ensures e.Failed? ==> ns == [ExceptionNote(C2BErrorMessage, e.cause)]
    ensures e.Completed? ==> ns == Validate(ResponsePayload(e))
  {
    match e
    case Failed(cause) =>
      var ns := [ExceptionNote(C2BErrorMessage, cause)];
      assert ns[0] in ns;
      ns
    case Completed(_, _, _, _) => Validate(ResponsePayload(e))
  }

  /** A C2B client; it is an API client base for the given C2B URL. */
  class C2BApiClientBase {
    const api: MPesaApiClientBase

    constructor (url: string)
      ensures fresh(api) && fresh(api.selfHandler)
      ensures api.url == url && api.accessToken == None
      ensures api.errorHandler == api.selfHandler && api.selfHandler.log == []
    {
      api := new MPesaApiClientBase(url);
    }

    /** Runs the pipeline; never propagates an exception. */
    method ExecuteC2BRequest(exchange: Exchange) returns (response: Option<MPesaStandardResponse>)
      modifies api.errorHandler
      ensures response == C2BResult(exchange)
      ensures api.errorHandler.log == old(api.errorHandler.log) + C2BNotifications(exchange)
    {
      response := None;
      var outcome := api.GetJsonPayload(exchange);
      match outcome
      case Success(payload) =>
        var jsonMap := payload.jsonMap;
        if jsonMap.Some? {
          response := Some(ExtractStandardResponse(jsonMap.value));
        }
      case Failure(ex) =>
        api.errorHandler.HandleException(C2BErrorMessage, ex);
    }
  }

  // ---------------------------------------------------------------------------
  // Properties of the fail-soft mapping

  /** A 2xx status with a body: no notification and a response. */
  lemma SuccessIsQuiet(e: Exchange)
    requires e.Completed? && IsSuccessStatus(e.statusCode) && e.body.Some?
    ensures C2BNotifications(e) == [] && C2BResult(e).Some?
  {
  }

  /** An unsuccessful status with a body: one error notification, yet a response is still returned. */
  lemma ErrorStatusStillResponds(e: Exchange)
    requires e.Completed? && !IsSuccessStatus(e.statusCode) && e.body.Some?
    ensures C2BNotifications(e) == [ErrorNote(ServerErrorMessage(e.statusCode, e.reasonPhrase))]
    ensures C2BResult(e) == Some(ExtractStandardResponse(e.body.value))
  {
    assert |C2BNotifications(e)| == 1;
  }

  /** The accepted-request scenario: status 201 and a full body. */
  lemma AcceptedScenario()
    ensures var e := Completed(201, "Created", [],
                               Some(map["ConversationID" := "c1", "OriginatorConversationID" := "o1",
                                        "ResponseDescription" := "Accepted"]));
            C2BResult(e) == Some(MPesaStandardResponse(Some("c1"), Some("o1"), Some("Accepted"))) &&
            C2BNotifications(e) == []
  {
  }

  /** The server-error scenario: status 500 without a body. */
  lemma InternalServerErrorScenario()
    ensures var e := Completed(500, "Internal Server Error", [], None);
            C2BResult(e) == None &&
            C2BNotifications(e) ==
              [ErrorNote(ServerErrorPrefix + "500 - Internal Server Error"),
               ErrorNote(NoBodyPrefix + "500 - Internal Server Error")]
  {
    InternalServerErrorInfo();
    var e := Completed(500, "Internal Server Error", [], None);
    assert Validate(ResponsePayload(e)) ==
             [ErrorNote(ServerErrorMessage(500, "Internal Server Error")),
              ErrorNote(NoBodyMessage(500, "Internal Server Error"))];
  }

  /** Once the handler is swapped, notifications reach the new handler and not the client's own. */
  method SwappedHandlerScenario(url: string, code: int, reason: string)
    returns (r1: Option<MPesaStandardResponse>, r2: Option<MPesaStandardResponse>,
             own: seq<Notification>, swapped: seq<Notification>)
    ensures r1 == None && r2 == None
    ensures own == []
    ensures swapped == [ExceptionNote(C2BErrorMessage, IOError("connection refused"))] +
                       Validate(JsonResponsePayload(code, reason, map[], None))
  {
    var client := new C2BApiClientBase(url);
    var h := new ErrorHandler();
    client.api.SetExceptionHandler(h);
    r1 := client.ExecuteC2BRequest(Failed(IOError("connection refused")));
    r2 := client.ExecuteC2BRequest(Completed(code, reason, [], None));
    own := client.api.selfHandler.log;
    swapped := h.log;
  }
}

/**
  The shared request/validate pipeline of the client base class: building the
  authenticated POST request, turning a completed HTTP exchange into a response
  payload, and reporting an unsuccessful status or a missing body to the
  client's current error handler.

  The network exchange itself is an input (`Exchange`): either it failed with an
  I/O exception, or it completed with a status line, a header list and a decoded
  JSON body, which is absent when the body decoded to JSON `null`.
 */
module MPesaApi {
  import opened Wrappers
  import opened Decimal
  import opened ErrorHandling

  /** A decoded JSON object whose values are strings. */
  type JsonObject = map<string, string>

  /** One HTTP header, as a (name, value) pair. */
  datatype Header = Header(name: string, value: string)

  /** The outcome of executing a request and decoding its response. */
  datatype Exchange =
    | Failed(cause: IOError)
    | Completed(statusCode: int, reasonPhrase: string, headers: seq<Header>, body: Option<JsonObject>)

  /** An HTTP POST request descriptor: target URI and ordered header list. */
  datatype PostRequest = PostRequest(uri: string, headers: seq<Header>)

  /** The status, headers and decoded body of one completed exchange. */
  datatype JsonResponsePayload = JsonResponsePayload(
    statusCode: int,
    statusMessage: string,
    headerMap: map<string, string>,
    jsonMap: Option<JsonObject>)

  const ContentTypeHeader := "Content-Type"
  const JsonMediaType := "application/json"
  const AuthorizationHeader := "Authorization"
  const BearerPrefix := "Bearer "
  const ServerErrorPrefix := "Server returned error response. INFO: "
  const NoBodyPrefix := "There was no response body. INFO: "

  /** How Java's string concatenation renders a possibly null String. */
  function JavaString(s: Option<string>): (r: string)
    ensures s.Some? ==> r == s.value
    ensures s.None? ==> r == "null"
  {
    match s
    case Some(v) => v
    case None => "null"
  }

  /**
    An unset token yields the same Authorization value as the literal token
    "null", so the server cannot tell the two apart.
   */
  lemma UnsetTokenLooksLikeNullToken()
    ensures Header(AuthorizationHeader, BearerPrefix + JavaString(None)) ==
            Header(AuthorizationHeader, BearerPrefix + JavaString(Some("null")))
  {
  }

  // ---------------------------------------------------------------------------
  // Request headers

  /** Position of the first header named `name`, or `|hs|` when there is none. */
  function FirstWithName(hs: seq<Header>, name: string): (k: nat)
    ensures k <= |hs|
    ensures k < |hs| ==> hs[k].name == name
    ensures forall j :: 0 <= j < k ==> hs[j].name != name
  {
    if |hs| == 0 then 0
    else if hs[0].name == name then 0
    else 1 + FirstWithName(hs[1..], name)
  }

  /**
    Sets header `name` on a request: the first header with that name is
    replaced, and when there is none the header is appended.
   */
  function SetHeader(hs: seq<Header>, name: string, value: string): (r: seq<Header>)
    ensures Header(name, value) in r
    ensures FirstWithName(hs, name) < |hs| ==> r == hs[FirstWithName(hs, name) := Header(name, value)]
    ensures FirstWithName(hs, name) == |hs| ==> r == hs + [Header(name, value)]
  {
    if |hs| == 0 then [Header(name, value)]
    else if hs[0].name == name then [Header(name, value)] + hs[1..]
    else
      var rest := SetHeader(hs[1..], name, value);
      assert FirstWithName(hs, name) < |hs| ==>
               [hs[0]] + rest == hs[FirstWithName(hs, name) := Header(name, value)];
      [hs[0]] + rest
  }

  // ---------------------------------------------------------------------------
  // Response headers

  /** The names occurring in a header list. */
  ghost function HeaderNames(hs: seq<Header>): set<string> {
    set h | h in hs :: h.name
  }

  /** True when `i` is the last position of `hs` that carries the name `hs[i].name`. */
  ghost predicate IsLastWithName(hs: seq<Header>, i: int) {
    0 <= i < |hs| && forall j :: i < j < |hs| ==> hs[j].name != hs[i].name
  }

  /** The map obtained by putting every header of `hs`, in order, into an empty map. */
  ghost function HeaderMap(hs: seq<Header>): (m: map<string, string>)
    ensures m.Keys == HeaderNames(hs)
  {
    if |hs| == 0 then map[]
    else
      var prefix := hs[..|hs| - 1];
      assert hs == prefix + [hs[|hs| - 1]];
      HeaderMap(prefix)[hs[|hs| - 1].name := hs[|hs| - 1].value]
  }

  /** Copies the response headers into a fresh map, a later header overwriting an earlier one. */
  method CopyHeaders(allHeaders: seq<Header>) returns (headerMap: map<string, string>)
    ensures headerMap == HeaderMap(allHeaders)
  {
    headerMap := map[];
    var i := 0;
    while i < |allHeaders|
      invariant 0 <= i <= |allHeaders|
      invariant headerMap == HeaderMap(allHeaders[..i])
    {
      headerMap := headerMap[allHeaders[i].name := allHeaders[i].value];
      assert allHeaders[..i + 1][..i] == allHeaders[..i];
      i := i + 1;
    }
    assert allHeaders[..i] == allHeaders;
  }

  /** The value stored for a header name is the value of the last header with that name. */
  lemma {:induction false} HeaderMapLastWins(hs: seq<Header>, i: int)
    requires IsLastWithName(hs, i)
    ensures hs[i].name in HeaderMap(hs) && HeaderMap(hs)[hs[i].name] == hs[i].value
  {
    var prefix := hs[..|hs| - 1];
    if i < |hs| - 1 {
      assert prefix[i] == hs[i];
      assert IsLastWithName(prefix, i);
      HeaderMapLastWins(prefix, i);
    }
  }

  /** `HeaderMapLastWins` for every position at once. */
  lemma HeaderMapAllLastWins(hs: seq<Header>)
    ensures forall i | IsLastWithName(hs, i) :: HeaderMap(hs)[hs[i].name] == hs[i].value
  {
    forall i | IsLastWithName(hs, i)
      ensures HeaderMap(hs)[hs[i].name] == hs[i].value
    {
      HeaderMapLastWins(hs, i);
    }
  }

  /** Every name in the header map comes from a last header with that name, and holds its value. */
  lemma {:induction false} HeaderMapValue(hs: seq<Header>, name: string)
    requires name in HeaderMap(hs)
    ensures exists i :: IsLastWithName(hs, i) && hs[i].name == name && HeaderMap(hs)[name] == hs[i].value
  {
    var n := |hs| - 1;
    if hs[n].name == name {
      assert IsLastWithName(hs, n);
    } else {
      var prefix := hs[..n];
      HeaderMapValue(prefix, name);
      var i :| IsLastWithName(prefix, i) && prefix[i].name == name && HeaderMap(prefix)[name] == prefix[i].value;
      assert hs[i] == prefix[i];
      assert IsLastWithName(hs, i);
    }
  }

  // ---------------------------------------------------------------------------
  // Validation

  /** A 2xx status: exactly the codes the bad-status check lets through. */
  predicate IsSuccessStatus(code: int)
    ensures IsSuccessStatus(code) <==> !(code < 200 || code >= 300)
  {
    200 <= code < 300
  }

  /** The "code - reason" text that both validation messages end with. */
  function StatusInfo(code: int, message: string): (r: string)
    ensures IntToString(code) <= r
    ensures |r| == |IntToString(code)| + 3 + |message|
    ensures r[|IntToString(code)|..|IntToString(code)| + 3] == " - "
    ensures r[|r| - |message|..] == message
  {
    IntToString(code) + " - " + message
  }

  /** Position of the first `c` in `s`, or `|s|` when there is none. */
  function IndexOf(s: string, c: char): (k: nat)
    ensures k <= |s|
    ensures k < |s| ==> s[k] == c
    ensures forall j :: 0 <= j < k ==> s[j] != c
  {
    if |s| == 0 then 0
    else if s[0] == c then 0
    else 1 + IndexOf(s[1..], c)
  }

  /** Reads a "code - reason" text back into its code and reason. */
  function ParseStatusInfo(s: string): Option<(int, string)> {
    var k := IndexOf(s, ' ');
    if k + 3 <= |s| && s[k..k + 3] == " - " then
      match ParseInt(s[..k])
      case Some(code) => Some((code, s[k + 3..]))
      case None => None
    else None
  }

  /** The status information determines the status code and the reason phrase. */
  lemma StatusInfoRoundTrip(code: int, message: string)
    ensures ParseStatusInfo(StatusInfo(code, message)) == Some((code, message))
  {
    var d := IntToString(code);
    var s := StatusInfo(code, message);
    assert s[|d|] == ' ';
    var k := IndexOf(s, ' ');
    assert k == |d|;
    assert s[..k] == d;
    assert s[k..k + 3] == " - ";
    assert s[k + 3..] == message;
    IntToStringRoundTrip(code);
  }

  /** The bad-status message: the fixed prefix, then the status information. */
  function ServerErrorMessage(code: int, message: string): (r: string)
    ensures ServerErrorPrefix <= r
    ensures r[|ServerErrorPrefix|..] == StatusInfo(code, message)
  {
    ServerErrorPrefix + StatusInfo(code, message)
  }

  /** The missing-body message: the fixed prefix, then the status information. */
  function NoBodyMessage(code: int, message: string): (r: string)
    ensures NoBodyPrefix <= r
    ensures r[|NoBodyPrefix|..] == StatusInfo(code, message)
  {
    NoBodyPrefix + StatusInfo(code, message)
  }

  /** The status information of a 500 response reads "500 - Internal Server Error". */
  lemma InternalServerErrorInfo()
    ensures StatusInfo(500, "Internal Server Error") == "500 - Internal Server Error"
  {
    Render500();
  }

  /** The two validation messages can never be confused with each other. */
  lemma ValidationMessagesDiffer(code: int, message: string, code': int, message': string)
    ensures ServerErrorMessage(code, message) != NoBodyMessage(code', message')
  {
    assert ServerErrorMessage(code, message)[0] == 'S';
    assert NoBodyMessage(code', message')[0] == 'T';
  }

  /**
    The notifications validating a payload sends: one for a status outside
    [200, 300), then one for a missing body. Both checks are independent.
   */
  function Validate(p: JsonResponsePayload): (ns: seq<Notification>)
    ensures forall n | n in ns :: n.ErrorNote?
    ensures |ns| == (if IsSuccessStatus(p.statusCode) then 0 else 1) + (if p.jsonMap.None? then 1 else 0)
    ensures ns == [] <==> IsSuccessStatus(p.statusCode) && p.jsonMap.Some?
    ensures !IsSuccessStatus(p.statusCode) <==>
              ns != [] && ns[0] == ErrorNote(ServerErrorMessage(p.statusCode, p.statusMessage))
    ensures p.jsonMap.None? <==>
              ns != [] && ns[|ns| - 1] == ErrorNote(NoBodyMessage(p.statusCode, p.statusMessage))
  {
    ValidationMessagesDiffer(p.statusCode, p.statusMessage, p.statusCode, p.statusMessage);
    (if p.statusCode < 200 || p.statusCode >= 300
     then [ErrorNote(ServerErrorMessage(p.statusCode, p.statusMessage))] else [])
    + (if p.jsonMap.None? then [ErrorNote(NoBodyMessage(p.statusCode, p.statusMessage))] else [])
  }

  /**
    The payload a completed exchange yields: its status line and body, and a
    header map holding, for each header name, the value of the last header
    with that name.
   */
  ghost function ResponsePayload(e: Exchange): (p: JsonResponsePayload)
    requires e.Completed?
    ensures p.statusCode == e.statusCode && p.statusMessage == e.reasonPhrase && p.jsonMap == e.body
    ensures p.headerMap.Keys == HeaderNames(e.headers)
    ensures forall i | IsLastWithName(e.headers, i) :: p.headerMap[e.headers[i].name] == e.headers[i].value
  {
    HeaderMapAllLastWins(e.headers);
    JsonResponsePayload(e.statusCode, e.reasonPhrase, HeaderMap(e.headers), e.body)
  }

  // ---------------------------------------------------------------------------
  // The client base

  /** State shared by every API client: target URL, bearer token and current error handler. */
  class MPesaApiClientBase {
    const url: string
    var accessToken: Option<string>
    var errorHandler: ErrorHandler
    /** The client's own handler implementation, which receives notifications by default. */
    const selfHandler: ErrorHandler

    constructor (url: string)
      ensures this.url == url
      ensures accessToken == None
      ensures fresh(selfHandler) && selfHandler.log == []
      ensures errorHandler == selfHandler
    {
      var own := new ErrorHandler();
      this.url := url;
      accessToken := None;
      selfHandler := own;
      errorHandler := own;
    }

    method GetUrl() returns (u: string)
      ensures u == url
    {
      u := url;
    }

    method GetAccessToken() returns (t: Option<string>)
      ensures t == accessToken
    {
      t := accessToken;
    }

    method SetAccessToken(accessToken: Option<string>)
      modifies this`accessToken
      ensures this.accessToken == accessToken
      ensures errorHandler == old(errorHandler)
    {
      this.accessToken := accessToken;
    }

    method GetExceptionHandler() returns (h: ErrorHandler)
      ensures h == errorHandler
    {
      h := errorHandler;
    }

    method SetExceptionHandler(errorHandler: ErrorHandler)
      modifies this`errorHandler
      ensures this.errorHandler == errorHandler
      ensures accessToken == old(accessToken)
    {
      this.errorHandler := errorHandler;
    }

    /** A POST to `url` carrying exactly the JSON content type and the bearer authorization. */
    method CreateBasicMPesaPostRequest() returns (httpPost: PostRequest)
      ensures httpPost.uri == url
      ensures httpPost.headers == [Header(ContentTypeHeader, JsonMediaType),
                                   Header(AuthorizationHeader, BearerPrefix + JavaString(accessToken))]
    {
      httpPost := PostRequest(url, []);
      httpPost := httpPost.(headers := SetHeader(httpPost.headers, ContentTypeHeader, JsonMediaType));
      httpPost := httpPost.(headers := SetHeader(httpPost.headers, AuthorizationHeader, BearerPrefix + JavaString(accessToken)));
    }

    /**
      Turns an exchange into a payload. A failed exchange propagates its
      exception and notifies nobody; a completed one is validated, its
      notifications going to the current error handler, and its payload is
      returned whatever the validation found.
     */
    method GetJsonPayload(exchange: Exchange) returns (r: Result<JsonResponsePayload, IOError>)
      modifies errorHandler
      ensures exchange.Failed? ==> r == Failure(exchange.cause) && errorHandler.log == old(errorHandler.log)
      ensures exchange.Completed? ==>
                r == Success(ResponsePayload(exchange)) &&
                errorHandler.log == old(errorHandler.log) + Validate(ResponsePayload(exchange))
    {
      if exchange.Failed? {
        return Failure(exchange.cause);
      }
      var headerMap := CopyHeaders(exchange.headers);
      var payload := JsonResponsePayload(exchange.statusCode, exchange.reasonPhrase, headerMap, exchange.body);

      var statusCode := payload.statusCode;
      var statusInfo := StatusInfo(statusCode, payload.statusMessage);
      if statusCode < 200 || statusCode >= 300 {
        errorHandler.HandleError(ServerErrorPrefix + statusInfo);
      }
      if payload.jsonMap.None? {
        errorHandler.HandleError(NoBodyPrefix + statusInfo);
      }
      r := Success(payload);
    }
  }
}

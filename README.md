# M-Pesa Daraja client: request/validate pipeline and fail-soft C2B mapping

This project models the core of a Java client library for Safaricom's Daraja
(M-Pesa) HTTP API and proves properties of that model:

- **`MPesaApi`** covers the API client base class. The client owns a fixed
  target URL, a bearer access token (null until set) and a swappable error
  handler, which starts out as the client's own handler. The module builds the
  authenticated POST request, with exactly the `Content-Type: application/json`
  and `Authorization: Bearer <token>` headers. It turns a completed HTTP
  exchange into a response payload: status code, reason phrase, a header map in
  which a later header overwrites an earlier one with the same name, and the
  decoded body or none. It then validates the payload with two independent
  checks. A status outside [200, 300) sends one error notification. A missing
  body sends one more, after the first. The payload is returned either way. A
  failed exchange propagates its I/O exception and sends no notification.
- **`C2B`** covers the customer-to-business client. It runs the pipeline and
  maps a decoded body to a three-field standard response. A missing key gives
  an absent field, and a missing body gives an absent result. An I/O failure
  becomes exactly one exception notification ("Error executing C2B Request")
  and an absent result, never a propagated exception.
- **`ErrorHandling`** holds the handler capability. Each handler is an object
  that appends every error or exception notification it receives to a `log`, in
  order. Swapping the client's handler changes which log receives later
  notifications.
- **`Decimal`** renders an integer the way Java's `%d` does. It also has a
  parser that reads the rendering back, which is used to prove that the
  "code - reason" status text determines both the code and the reason.

The network exchange is an input to the model (`Exchange`). It is either
`Failed(cause)`, standing for any `IOException` from executing the request,
reading the entity or decoding the JSON, or `Completed(statusCode,
reasonPhrase, headers, body)`. There `body` is `None` when the response text
decodes to JSON `null`. An empty response text makes the JSON decoder throw
instead, which is the `Failed` case.

Modelling choices:
- The Java client passes `this` as its own error handler. In the model that
  handler is a separate object, `selfHandler`, created by the constructor.
- `C2BAPIClientBase extends MPesaAPIClientBase`. In the model, inheritance
  becomes composition: the C2B client holds its base client in `api`.
- Java's possibly-null `String` token is an `Option<string>`. Concatenating a
  null token gives `"Bearer null"`, as in Java.

## Model

| member | source | states |
|---|---|---|
| `MPesaApi.MPesaApiClientBase.constructor` | src/main/java/brad/tech/api/safaricom/daraja/MPesaAPIClientBase.java:18-25 | The url is the argument and is immutable (a `const`); the token is unset (null); the error handler is the client's own handler, whose log is empty |
| `MPesaApi.MPesaApiClientBase.GetUrl` | src/main/java/brad/tech/api/safaricom/daraja/MPesaAPIClientBase.java:27-29 | Returns the configured url |
| `MPesaApi.MPesaApiClientBase.GetAccessToken` | src/main/java/brad/tech/api/safaricom/daraja/MPesaAPIClientBase.java:31-33 | Returns the current token |
| `MPesaApi.MPesaApiClientBase.SetAccessToken` | src/main/java/brad/tech/api/safaricom/daraja/MPesaAPIClientBase.java:35-37 | Afterwards the token is the value set; only the token field may change, so the url and the error handler stay the same |
| `MPesaApi.MPesaApiClientBase.GetExceptionHandler` | src/main/java/brad/tech/api/safaricom/daraja/MPesaAPIClientBase.java:116-118 | Returns the current error handler |
| `MPesaApi.MPesaApiClientBase.SetExceptionHandler` | src/main/java/brad/tech/api/safaricom/daraja/MPesaAPIClientBase.java:120-122 | Afterwards the handler is the one given; the token is unchanged |
| `MPesaApi.FirstWithName` | src/main/java/brad/tech/api/safaricom/daraja/MPesaAPIClientBase.java:53-54 | Finds the position of the first header with a given name, or the list length when no header has that name |
| `MPesaApi.SetHeader` | src/main/java/brad/tech/api/safaricom/daraja/MPesaAPIClientBase.java:53-54 | If a header with the name exists, the first one is replaced by the new header and every other header stays in place. Otherwise the new header is appended at the end |
| `MPesaApi.JavaString` | src/main/java/brad/tech/api/safaricom/daraja/MPesaAPIClientBase.java:54 | Definition of Java's rendering of a possibly null string: the value itself, or `null`. `CreateBasicMPesaPostRequest` and `UnsetTokenLooksLikeNullToken` build on it |
| `MPesaApi.UnsetTokenLooksLikeNullToken` | src/main/java/brad/tech/api/safaricom/daraja/MPesaAPIClientBase.java:54 | An unset token gives the same Authorization header as the literal token `null`, so the malformed header cannot be told apart from a real one |
| `MPesaApi.MPesaApiClientBase.CreateBasicMPesaPostRequest` | src/main/java/brad/tech/api/safaricom/daraja/MPesaAPIClientBase.java:51-57 | The request targets the client's url and carries exactly two headers, in order: `Content-Type: application/json` and `Authorization: Bearer <token>` (with `null` for an unset token) |
| `MPesaApi.HeaderMap` | src/main/java/brad/tech/api/safaricom/daraja/MPesaAPIClientBase.java:70-74 | The map built from a header list has exactly the header names of the list as keys |
| `MPesaApi.CopyHeaders` | src/main/java/brad/tech/api/safaricom/daraja/MPesaAPIClientBase.java:70-74 | The loop that puts every response header into an empty map produces the header map of the whole list, whose keys are exactly the header names |
| `MPesaApi.HeaderMapLastWins` | src/main/java/brad/tech/api/safaricom/daraja/MPesaAPIClientBase.java:72-74 | For the last header with a given name, the map holds that header's value (duplicates overwrite) |
| `MPesaApi.HeaderMapValue` | src/main/java/brad/tech/api/safaricom/daraja/MPesaAPIClientBase.java:72-74 | Every name in the header map comes from a last header with that name, and the map holds that header's value |
| `MPesaApi.HeaderMapAllLastWins` | src/main/java/brad/tech/api/safaricom/daraja/MPesaAPIClientBase.java:72-74 | For every header that is the last with its name, the map holds that header's value |
| `Decimal.NatToString` | src/main/java/brad/tech/api/safaricom/daraja/MPesaAPIClientBase.java:84 | The rendering of a natural number is a non-empty digit string without a leading zero |
| `Decimal.IntToString` | src/main/java/brad/tech/api/safaricom/daraja/MPesaAPIClientBase.java:84 | `%d` rendering: non-empty, starts with `-` exactly for negative numbers; a non-negative number gives only digits, and a negative one gives `-` followed by only digits |
| `Decimal.NatToStringValue` | src/main/java/brad/tech/api/safaricom/daraja/MPesaAPIClientBase.java:84 | The digits rendered for `n` denote `n` |
| `Decimal.IntToStringRoundTrip` | src/main/java/brad/tech/api/safaricom/daraja/MPesaAPIClientBase.java:84 | Parsing the `%d` rendering of any integer gives that integer back |
| `Decimal.IntToStringInjective` | src/main/java/brad/tech/api/safaricom/daraja/MPesaAPIClientBase.java:84 | Distinct status codes are rendered differently |
| `Decimal.Render500` | src/main/java/brad/tech/api/safaricom/daraja/MPesaAPIClientBase.java:84 | Status 500 is rendered as `500` |
| `MPesaApi.StatusInfo` | src/main/java/brad/tech/api/safaricom/daraja/MPesaAPIClientBase.java:84 | Definition of the `"%d - %s"` text: the rendered code, then ` - `, then the reason. That the text determines both parts is proved in `StatusInfoRoundTrip` |
| `MPesaApi.InternalServerErrorInfo` | src/main/java/brad/tech/api/safaricom/daraja/MPesaAPIClientBase.java:84 | The status information of status 500 with reason "Internal Server Error" is `500 - Internal Server Error` |
| `MPesaApi.StatusInfoRoundTrip` | src/main/java/brad/tech/api/safaricom/daraja/MPesaAPIClientBase.java:82-84 | The "code - reason" text can be read back into the exact status code and reason phrase, so it determines both |
| `MPesaApi.IsSuccessStatus` | src/main/java/brad/tech/api/safaricom/daraja/MPesaAPIClientBase.java:87 | Definition of a 2xx status as the negation of the check `code < 200` or `code >= 300`. The notifications it decides are fixed in `Validate` |
| `MPesaApi.ServerErrorMessage` | src/main/java/brad/tech/api/safaricom/daraja/MPesaAPIClientBase.java:88 | Definition of the bad-status message as its fixed prefix followed by the status information. `ValidationMessagesDiffer` and `Validate` give it weight |
| `MPesaApi.NoBodyMessage` | src/main/java/brad/tech/api/safaricom/daraja/MPesaAPIClientBase.java:93 | Definition of the missing-body message as its fixed prefix followed by the status information. `ValidationMessagesDiffer` and `Validate` give it weight |
| `MPesaApi.ValidationMessagesDiffer` | src/main/java/brad/tech/api/safaricom/daraja/MPesaAPIClientBase.java:88-93 | The bad-status message and the missing-body message are never equal |
| `MPesaApi.Validate` | src/main/java/brad/tech/api/safaricom/daraja/MPesaAPIClientBase.java:82-94 | Only error notifications are sent. They number one for a status outside [200,300) plus one for a missing body. There are none exactly when the status is 2xx and a body is present. The first is the "Server returned error response. INFO: code - reason" message exactly when the status is bad. The last is the "There was no response body. INFO: code - reason" message exactly when the body is missing |
| `MPesaApi.ResponsePayload` | src/main/java/brad/tech/api/safaricom/daraja/MPesaAPIClientBase.java:60-78 | The payload of a completed exchange has its status code, reason phrase and body. Its header map has exactly the header names as keys. For each name it holds the value of the last header with that name |
| `MPesaApi.MPesaApiClientBase.GetJsonPayload` | src/main/java/brad/tech/api/safaricom/daraja/MPesaAPIClientBase.java:59-98 | A failed exchange propagates its exception and leaves the handler's log unchanged. A completed one returns the payload: status, reason phrase, header map and body of the exchange. That holds even when validation complains. Exactly the validation notifications are appended to the current handler's log, and no other handler changes |
| `ErrorHandling.ErrorHandler.HandleError` | src/main/java/brad/tech/api/safaricom/daraja/MPesaAPIClientBase.java:111-114 | Appends one error notification carrying the message |
| `ErrorHandling.ErrorHandler.HandleException` | src/main/java/brad/tech/api/safaricom/daraja/MPesaAPIClientBase.java:100-109 | Appends one exception notification carrying the message and the cause |
| `C2B.C2BApiClientBase.constructor` | src/main/java/brad/tech/api/safaricom/daraja/v1/c2b/C2BAPIClientBase.java:17-19 | The base client gets the C2B url, an unset token and its own handler |
| `C2B.FieldOf` | src/main/java/brad/tech/api/safaricom/daraja/v1/c2b/C2BAPIClientBase.java:27-29 | Definition of `Map.get`: the stored value, or absent (Java null) exactly when the key is missing. `ExtractStandardResponse` and `C2BResult` build on it |
| `C2B.ExtractStandardResponse` | src/main/java/brad/tech/api/safaricom/daraja/v1/c2b/C2BAPIClientBase.java:26-31 | The three fields, in order, are the values under `ConversationID`, `OriginatorConversationID` and `ResponseDescription`; each is absent exactly when its key is missing |
| `C2B.C2BResult` | src/main/java/brad/tech/api/safaricom/daraja/v1/c2b/C2BAPIClientBase.java:21-37 | A response is returned exactly when the exchange completed with a body, and it is the extraction of that body. A failure or a missing body gives null |
| `C2B.C2BNotifications` | src/main/java/brad/tech/api/safaricom/daraja/v1/c2b/C2BAPIClientBase.java:24-35 | A failure sends exactly one exception notification, "Error executing C2B Request" with the cause. An exception notification is sent only then. A completed exchange sends exactly the pipeline's validation notifications |
| `C2B.C2BApiClientBase.ExecuteC2BRequest` | src/main/java/brad/tech/api/safaricom/daraja/v1/c2b/C2BAPIClientBase.java:21-38 | Returns the C2B result and appends exactly the C2B notifications to the current handler. There is no error outcome, so nothing propagates |
| `C2B.SuccessIsQuiet` | src/main/java/brad/tech/api/safaricom/daraja/v1/c2b/C2BAPIClientBase.java:24-32 | A 2xx status with a body sends no notification and returns a response |
| `C2B.ErrorStatusStillResponds` | src/main/java/brad/tech/api/safaricom/daraja/v1/c2b/C2BAPIClientBase.java:25-31 | A bad status with a body sends only the one bad-status notification, and the response is still returned |
| `C2B.AcceptedScenario` | src/main/java/brad/tech/api/safaricom/daraja/v1/c2b/C2BAPIClientBase.java:25-31 | Status 201 with the three keys c1, o1, Accepted gives the response ("c1","o1","Accepted") and no notifications |
| `C2B.InternalServerErrorScenario` | src/main/java/brad/tech/api/safaricom/daraja/v1/c2b/C2BAPIClientBase.java:25-37 | Status 500 "Internal Server Error" without a body gives a null result and two notifications, the bad-status one and then the missing-body one, each ending in "500 - Internal Server Error" |
| `C2B.SwappedHandlerScenario` | src/main/java/brad/tech/api/safaricom/daraja/v1/c2b/C2BAPIClientBase.java:33-35 | After the handler is swapped, a failure and then a bodiless exchange both return null. Both notify only the new handler, in order, and the client's own handler receives nothing |

## Left out

- The HTTP exchange itself is not modelled: creating the client, `execute`, and closing the connection (try-with-resources). A request's result is the `Exchange` input, so `GetJsonPayload` takes that outcome instead of the request.
- JSON decoding and reading the entity as text are not modelled. They appear only as their result: a present body, an absent body (the text was JSON `null`), or the `Failed` case when they throw an `IOException`.
- Non-string body values are not modelled, so the body is a map of strings. A non-string value would make the `(String)` cast throw `ClassCastException`. A JSON `null` value would read as an absent field, and the model cannot express it.
- Unchecked exceptions are not modelled. They would propagate even through the C2B layer, which promises only to catch `IOException`. Among them:
  - a `ClassCastException` from the casts of body values;
  - the library's refusal of a response without an entity;
  - a `NullPointerException` after `setExceptionHandler(null)`, which the source accepts (MPesaAPIClientBase.java:120-122), when either validation check or the C2B catch branch calls the handler;
  - when the POST is constructed (MPesaAPIClientBase.java:52), a `NullPointerException` for a null URL, or an `IllegalArgumentException` for one the URI parser rejects.
- `MPesaApi.MPesaApiClientBase.SetExceptionHandler`: the handler parameter cannot be null, so the model does not capture the null handler that the source accepts.
- `MPesaApi.MPesaApiClientBase.CreateBasicMPesaPostRequest`: building the request always succeeds, because URL syntax is not modelled.
- Console output of the default handler is not modelled: the `printf` formatting, the stream choice and the stack trace. Notifications are recorded in the handler's log.
- `ErrorHandling.ErrorHandler.HandleException`: the handler records the exception value, not the Java message and cause text it would print.
- `MPesaApi.SetHeader`: the HTTP library matches header names without regard to case, but the model compares them exactly. This changes nothing for the two fixed header names.
- `Decimal.IntToString`: the rendering assumes a locale with ASCII digits. Status codes are unbounded integers rather than 32-bit `int`, which makes no difference here because nothing overflows.
- The status reason phrase is a plain string; a null reason phrase, which Java would render as `null`, is not modelled.
- Error handlers are instances of one recording class. The Java interface allows any implementation, for example another client, but the model has no traits, so this cannot be expressed.
- `C2BAPIClientBase` inherits from the base class, but in the model it holds a base client (`api`) and reaches the inherited members through it.
- The resource-bundle consumer interface, the payload class and the standard-response class are not part of this model. The payload and the response are modelled as records inferred from how their constructors, getters and setters are used.
- The OAuth integration test runs against the live network, so there is nothing in it to model.
- Thread safety is not modelled, because the code is single-threaded.

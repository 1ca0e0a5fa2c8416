/**
 The HTTP transport of the login client: every request goes to a fixed base
 address, carries a header map that starts with three static entries and
 picks up the session cookie from `Set-Cookie` response headers, and every
 response is either decoded as the expected body (2xx) or turned into an
 `IllegalState` exception whose message joins the provider's field errors.

 The HTTP client, Gson and the `java.net.URI` parser are parameters: a
 `Reply` is what `HttpClient.send` produced, and `Env` holds the decoders
 and the URI syntax check.
 */
module SwedbankLoginAdapter {
  import opened Results
  import opened Beans
  import opened Strings

  const BasePath: string := "https://online.swedbank.se/TDE_DAP_Portal_REST_WEB/api"

  /** The fixed discovery link. */
  const LoginMethodsLink: Link := Link(Get, "/v5/identification/")

  const AuthorizationKey: string := "Authorization"
  const ClientKey: string := "X-Client"
  const ContentTypeKey: string := "Content-Type"
  const CookieKey: string := "Cookie"

  /** The response header the session cookie is read from. */
  const SetCookieKey: string := "set-cookie"

  /** The token a cookie fragment must contain to be taken as the session cookie. */
  const SessionMarker: string := "JSESSIONID"

  /** The header map the adapter is created with. */
  const InitialHeaders: map<string, string> := map[
    AuthorizationKey := "QjdkWkhRY1k3OFZSVno5bDoxNTkyMjI3MzYxNzA2",
    ClientKey := "loginititatorapp",
    ContentTypeKey := "application/json"
  ]

  /** A body publisher: `noBody()` or `ofString(text)`. */
  datatype Payload = NoBody | OfString(text: string)

  /** The request handed to the HTTP client. GET requests carry no body publisher. */
  datatype HttpRequest = HttpRequest(requestMethod: string, uri: string, headers: map<string, string>, body: Option<Payload>)

  /** A response; header names are taken as already lower-cased. */
  datatype HttpResponse = HttpResponse(statusCode: int, headers: map<string, seq<string>>, body: string)

  /** What `HttpClient.send` did with a request. */
  datatype Reply = Received(response: HttpResponse) | IoFailure

  /** The Gson conversions the adapter uses; `None` is a body Gson cannot decode. */
  datatype Gson = Gson(
    toJson: MobileBankIDRequest -> string,
    methodsFromJson: string -> Option<AuthenticationMethodsResponse>,
    initiationFromJson: string -> Option<LoginInitiationResponse>,
    errorsFromJson: string -> Option<HttpException>)

  /** The collaborators the adapter cannot see into. */
  datatype Env = Env(gson: Gson, isUri: string -> bool)

  // ---------------------------------------------------------------- headers

  /** `b` differs from `a` at most in the `Cookie` entry. */
  predicate OnlyCookieDiffers(a: map<string, string>, b: map<string, string>)
  {
    && a.Keys - {CookieKey} == b.Keys - {CookieKey}
    && forall k | k in a && k != CookieKey :: k in b && b[k] == a[k]
  }

  /**
   The header-map invariant: the three static headers hold their initial
   values and the only other key is `Cookie`.
   */
  predicate WellFormedHeaders(h: map<string, string>)
  {
    && (forall k | k in InitialHeaders :: k in h && h[k] == InitialHeaders[k])
    && h.Keys <= InitialHeaders.Keys + {CookieKey}
  }

  lemma InitialHeadersWellFormed()
    ensures WellFormedHeaders(InitialHeaders)
    ensures CookieKey !in InitialHeaders
  {
  }

  lemma OnlyCookieDiffersKeepsWellFormed(a: map<string, string>, b: map<string, string>)
    requires WellFormedHeaders(a)
    requires OnlyCookieDiffers(a, b)
    ensures WellFormedHeaders(b)
  {
    assert CookieKey !in InitialHeaders;
    forall k | k in InitialHeaders
      ensures k in b && b[k] == InitialHeaders[k]
    {
      assert k in a.Keys - {CookieKey};
    }
    forall k | k in b
      ensures k in InitialHeaders.Keys + {CookieKey}
    {
      if k != CookieKey {
        assert k in b.Keys - {CookieKey};
      }
    }
  }

  // ---------------------------------------------------------------- session cookie

  /** Every `;`-separated fragment of every value, in order. */
  function Fragments(values: seq<string>): (r: seq<string>)
    decreases |values|
  {
    if |values| == 0 then [] else Split(values[0], ';') + Fragments(values[1..])
  }

  lemma {:induction false} InFragments(values: seq<string>, f: string)
    ensures f in Fragments(values) <==> exists v :: v in values && f in Split(v, ';')
    decreases |values|
  {
    if |values| > 0 {
      InFragments(values[1..], f);
      if f in Split(values[0], ';') {
        assert values[0] in values;
      }
      forall v | v in values[1..]
        ensures v in values
      {
      }
      if exists v :: v in values && f in Split(v, ';') {
        var v :| v in values && f in Split(v, ';');
        if v != values[0] {
          assert v in values[1..];
        }
      }
    }
  }

  /** The fragment the cookie update picks from a response, if any. */
  function SessionFragment(response: HttpResponse): (r: Option<string>)
    ensures r.Some? ==> && SetCookieKey in response.headers
                        && r.value in Fragments(response.headers[SetCookieKey])
                        && Contains(r.value, SessionMarker)
    ensures r.None? <==> SetCookieKey !in response.headers
                         || forall f | f in Fragments(response.headers[SetCookieKey]) :: !Contains(f, SessionMarker)
  {
    if SetCookieKey in response.headers
    then FirstContaining(Fragments(response.headers[SetCookieKey]), SessionMarker)
    else None
  }

  /** `f` is a fragment of some `Set-Cookie` value of `response` and holds the session marker. */
  ghost predicate IsSessionFragment(response: HttpResponse, f: string)
  {
    && SetCookieKey in response.headers
    && (exists v :: v in response.headers[SetCookieKey] && f in Split(v, ';'))
    && Contains(f, SessionMarker)
  }

  /** The header map after a response: the `Cookie` entry replaced by the session fragment, if any. */
  function UpdateSessionCookie(headers: map<string, string>, response: HttpResponse): (h: map<string, string>)
    ensures OnlyCookieDiffers(headers, h)
  {
    match SessionFragment(response)
    case Some(cookie) => headers[CookieKey := cookie]
    case None => headers
  }

  /**
   The cookie update in terms of the response alone: when some fragment of
   some `Set-Cookie` value holds the session marker, `Cookie` becomes one such
   fragment verbatim; otherwise the map does not change at all.
   */
  lemma UpdateSessionCookieSpec(headers: map<string, string>, response: HttpResponse)
    ensures (exists f :: IsSessionFragment(response, f)) ==>
              var h := UpdateSessionCookie(headers, response);
              CookieKey in h && IsSessionFragment(response, h[CookieKey])
    ensures (forall f :: !IsSessionFragment(response, f)) ==> UpdateSessionCookie(headers, response) == headers
  {
    if SetCookieKey in response.headers {
      var values := response.headers[SetCookieKey];
      var frags := Fragments(values);
      match FirstContaining(frags, SessionMarker)
      case Some(f) =>
        InFragments(values, f);
        assert IsSessionFragment(response, f);
      case None =>
        forall f | IsSessionFragment(response, f)
          ensures false
        {
          InFragments(values, f);
        }
    }
  }

  // ---------------------------------------------------------------- requests

  /**
   What the request builder is given for a link's method: POST sends the
   body, or an empty one when there is none; GET sends no body; any other
   name is rejected.
   */
  function RequestMethodConsumer(name: string, body: Option<Payload>): (r: Result<Option<Payload>>)
    ensures r.Success? <==> name == Post || name == Get
    ensures name == Get ==> r == Success(None)
    ensures name == Post && body.Some? ==> r == Success(body)
    ensures name == Post && body.None? ==> r == Success(Some(NoBody))
    ensures r.Failure? ==> r.error == IllegalState(name + " request method is not supported")
  {
    if name == Post then Success(Some(if body.Some? then body.value else NoBody))
    else if name == Get then Success(None)
    else Failure(IllegalState(name + " request method is not supported"))
  }

  /** One request: what was sent (if anything), the header map after it, and the response. */
  datatype Exchange = Exchange(sent: Option<HttpRequest>, headers: map<string, string>, response: Result<HttpResponse>)

  /**
   `performRequest`: build the address and the request, hand it to the
   client, and take the session cookie from the response.
   */
  function PerformRequest(env: Env, headers: map<string, string>, link: Link, body: Option<Payload>, reply: Reply): (x: Exchange)
    ensures x.sent.Some? <==> env.isUri(BasePath + link.uri) && (link.requestMethod == Get || link.requestMethod == Post)
    ensures x.sent.Some? ==> && x.sent.value.uri == BasePath + link.uri
                             && x.sent.value.requestMethod == link.requestMethod
                             && x.sent.value.headers == headers
                             && x.sent.value.body == RequestMethodConsumer(link.requestMethod, body).value
    ensures x.sent.None? ==> x.headers == headers && x.response.Failure?
    ensures !env.isUri(BasePath + link.uri) ==> x.response == Failure(Unexpected(UriSyntax))
    ensures x.sent.Some? && reply.IoFailure? ==> x.response == Failure(Unexpected(Io))
    ensures env.isUri(BasePath + link.uri) && x.sent.None? ==>
              x.response == Failure(IllegalState(link.requestMethod + " request method is not supported"))
    ensures x.response.Success? ==> x.sent.Some? && reply == Received(x.response.value)
    ensures x.sent.Some? && reply.Received? ==> x.headers == UpdateSessionCookie(headers, reply.response)
    ensures x.sent.None? || reply.IoFailure? ==> x.headers == headers
    ensures reply.Received? && x.sent.Some? ==> x.response == Success(reply.response)
    ensures OnlyCookieDiffers(headers, x.headers)
  {
    var uri := BasePath + link.uri;
    if !env.isUri(uri) then Exchange(None, headers, Failure(Unexpected(UriSyntax)))
    else
      match RequestMethodConsumer(link.requestMethod, body)
      case Failure(e) => Exchange(None, headers, Failure(e))
      case Success(payload) =>
        var request := HttpRequest(link.requestMethod, uri, headers, payload);
        match reply
        case IoFailure => Exchange(Some(request), headers, Failure(Unexpected(Io)))
        case Received(response) => Exchange(Some(request), UpdateSessionCookie(headers, response), Success(response))
  }

  // ---------------------------------------------------------------- responses

  /** A 2xx status: 200 <= statusCode < 300. */
  predicate IsSuccessful(statusCode: int)
    ensures IsSuccessful(statusCode) <==> statusCode / 100 == 2
  {
    200 <= statusCode < 300
  }

  /** The field messages, as `map(FieldError::getMessage)` lists them. */
  function FieldMessages(fields: seq<FieldError>): seq<string>
  {
    MapSeq(fields, (f: FieldError) => f.message)
  }

  /** The exception message for an error body: the field messages joined by ", ". */
  function ErrorText(e: HttpException): (r: string)
    ensures |e.errorMessages.fields| == 0 ==> r == ""
    ensures |e.errorMessages.fields| > 0 ==> e.errorMessages.fields[0].message <= r
  {
    Join(FieldMessages(e.errorMessages.fields), ", ")
  }

  /**
   `parseResponse`: a 2xx response decodes as the expected body; any other
   status decodes as an error body and fails with its joined messages.
   */
  function ParseResponse<T>(response: HttpResponse, fromJson: string -> Option<T>, errorsFromJson: string -> Option<HttpException>): (r: Result<T>)
    ensures r.Success? ==> IsSuccessful(response.statusCode) && fromJson(response.body) == Some(r.value)
    ensures r.Failure? && r.error.IllegalState? ==>
              && !IsSuccessful(response.statusCode)
              && errorsFromJson(response.body).Some?
              && r.error.message == ErrorText(errorsFromJson(response.body).value)
  {
    if IsSuccessful(response.statusCode) then
      match fromJson(response.body)
      case Some(v) => Success(v)
      case None => Failure(Unexpected(Decoding))
    else
      match errorsFromJson(response.body)
      case Some(e) => Failure(IllegalState(ErrorText(e)))
      case None => Failure(Unexpected(Decoding))
  }

  /**
   Classification by status code alone: exactly the codes in [200, 300)
   can yield a decoded body, and every other code yields the error text
   whenever the error body decodes.
   */
  lemma ParseResponseClassifies<T>(response: HttpResponse, fromJson: string -> Option<T>, errorsFromJson: string -> Option<HttpException>)
    ensures ParseResponse(response, fromJson, errorsFromJson).Success? <==>
              IsSuccessful(response.statusCode) && fromJson(response.body).Some?
    ensures !IsSuccessful(response.statusCode) && errorsFromJson(response.body).Some? ==>
              ParseResponse(response, fromJson, errorsFromJson) == Failure(IllegalState(ErrorText(errorsFromJson(response.body).value)))
    ensures !IsSuccessful(199) && IsSuccessful(200) && IsSuccessful(299) && !IsSuccessful(300)
  {
  }

  // ---------------------------------------------------------------- operations

  /** One adapter operation: what was sent, the header map after it, and its result. */
  datatype AdapterCall<T> = AdapterCall(sent: Option<HttpRequest>, headers: map<string, string>, result: Result<T>)

  /** `getAllLoginMethods`: GET the discovery link and unwrap the method list. */
  function GetAllLoginMethods(env: Env, headers: map<string, string>, reply: Reply): (c: AdapterCall<seq<AuthenticationMethod>>)
    ensures env.isUri(BasePath + "/v5/identification/") <==> c.sent.Some?
    ensures c.sent.Some? ==> c.sent.value == HttpRequest(Get, BasePath + "/v5/identification/", headers, None)
    ensures c.result.Success? ==>
              && reply.Received? && IsSuccessful(reply.response.statusCode)
              && env.gson.methodsFromJson(reply.response.body) == Some(AuthenticationMethodsResponse(c.result.value))
    ensures c.sent.Some? && reply.Received? && IsSuccessful(reply.response.statusCode)
            && env.gson.methodsFromJson(reply.response.body).Some? ==>
              c.result == Success(env.gson.methodsFromJson(reply.response.body).value.authenticationMethods)
    ensures c.sent.None? ==> c.result == Failure(Unexpected(UriSyntax))
    ensures c.sent.Some? && reply.IoFailure? ==> c.result == Failure(Unexpected(Io))
    ensures c.sent.Some? && c.result.Failure? && c.result.error.IllegalState? ==>
              && reply.Received? && !IsSuccessful(reply.response.statusCode)
              && env.gson.errorsFromJson(reply.response.body).Some?
              && c.result.error.message == ErrorText(env.gson.errorsFromJson(reply.response.body).value)
    ensures c.sent.Some? && reply.Received? && IsSuccessful(reply.response.statusCode)
            && env.gson.methodsFromJson(reply.response.body).None? ==>
              c.result == Failure(Unexpected(Decoding))
    ensures c.sent.Some? && reply.Received? ==> c.headers == UpdateSessionCookie(headers, reply.response)
    ensures c.sent.None? || reply.IoFailure? ==> c.headers == headers
    ensures OnlyCookieDiffers(headers, c.headers)
  {
    var x := PerformRequest(env, headers, LoginMethodsLink, None, reply);
    match x.response
    case Failure(e) => AdapterCall(x.sent, x.headers, Failure(e))
    case Success(response) =>
      match ParseResponse(response, env.gson.methodsFromJson, env.gson.errorsFromJson)
      case Failure(e) => AdapterCall(x.sent, x.headers, Failure(e))
      case Success(body) => AdapterCall(x.sent, x.headers, Success(body.authenticationMethods))
  }

  /** The body `initiateLogin` posts: the user id, not on the same device. */
  function InitiationBody(userId: string): MobileBankIDRequest
  {
    MobileBankIDRequest(false, userId)
  }

  /** `initiateLogin`: send the JSON request body to the method's location. */
  function InitiateLogin(env: Env, headers: map<string, string>, userId: string, authMethod: AuthenticationMethod, reply: Reply): (c: AdapterCall<LoginInitiationResponse>)
    ensures c.sent.Some? <==>
              env.isUri(BasePath + authMethod.location.uri)
              && (authMethod.location.requestMethod == Get || authMethod.location.requestMethod == Post)
    ensures c.sent.Some? ==>
              && c.sent.value.uri == BasePath + authMethod.location.uri
              && c.sent.value.requestMethod == authMethod.location.requestMethod
              && c.sent.value.headers == headers
    ensures c.sent.Some? && authMethod.location.requestMethod == Post ==>
              c.sent.value.body == Some(OfString(env.gson.toJson(MobileBankIDRequest(false, userId))))
    ensures c.sent.Some? && authMethod.location.requestMethod == Get ==> c.sent.value.body.None?
    ensures !env.isUri(BasePath + authMethod.location.uri) ==> c.result == Failure(Unexpected(UriSyntax))
    ensures c.sent.None? && env.isUri(BasePath + authMethod.location.uri) ==>
              c.result == Failure(IllegalState(authMethod.location.requestMethod + " request method is not supported"))
    ensures c.result.Success? ==>
              && reply.Received? && IsSuccessful(reply.response.statusCode)
              && env.gson.initiationFromJson(reply.response.body) == Some(c.result.value)
    ensures c.sent.Some? && reply.Received? && IsSuccessful(reply.response.statusCode)
            && env.gson.initiationFromJson(reply.response.body).Some? ==>
              c.result == Success(env.gson.initiationFromJson(reply.response.body).value)
    ensures c.sent.Some? && reply.IoFailure? ==> c.result == Failure(Unexpected(Io))
    ensures c.sent.Some? && c.result.Failure? && c.result.error.IllegalState? ==>
              && reply.Received? && !IsSuccessful(reply.response.statusCode)
              && env.gson.errorsFromJson(reply.response.body).Some?
              && c.result.error.message == ErrorText(env.gson.errorsFromJson(reply.response.body).value)
    ensures c.sent.Some? && reply.Received? && IsSuccessful(reply.response.statusCode)
            && env.gson.initiationFromJson(reply.response.body).None? ==>
              c.result == Failure(Unexpected(Decoding))
    ensures c.sent.Some? && reply.Received? ==> c.headers == UpdateSessionCookie(headers, reply.response)
    ensures c.sent.None? || reply.IoFailure? ==> c.headers == headers
    ensures OnlyCookieDiffers(headers, c.headers)
  {
    var requestBody := env.gson.toJson(InitiationBody(userId));
    var x := PerformRequest(env, headers, authMethod.location, Some(OfString(requestBody)), reply);
    match x.response
    case Failure(e) => AdapterCall(x.sent, x.headers, Failure(e))
    case Success(response) =>
      AdapterCall(x.sent, x.headers, ParseResponse(response, env.gson.initiationFromJson, env.gson.errorsFromJson))
  }

  /** `getLoginStatus`: request the link and keep only the status of the decoded response. */
  function GetLoginStatus(env: Env, headers: map<string, string>, link: Link, reply: Reply): (c: AdapterCall<LoginStatus>)
    ensures c.sent.Some? <==> env.isUri(BasePath + link.uri) && (link.requestMethod == Get || link.requestMethod == Post)
    ensures c.sent.Some? ==>
              && c.sent.value.uri == BasePath + link.uri
              && c.sent.value.requestMethod == link.requestMethod
              && (link.requestMethod == Get ==> c.sent.value.body.None?)
              && (link.requestMethod == Post ==> c.sent.value.body == Some(NoBody))
              && c.sent.value.headers == headers
    ensures c.result.Success? ==>
              && reply.Received? && IsSuccessful(reply.response.statusCode)
              && env.gson.initiationFromJson(reply.response.body).Some?
              && c.result.value == env.gson.initiationFromJson(reply.response.body).value.status
    ensures c.sent.Some? && reply.Received? && IsSuccessful(reply.response.statusCode)
            && env.gson.initiationFromJson(reply.response.body).Some? ==>
              c.result == Success(env.gson.initiationFromJson(reply.response.body).value.status)
    ensures !env.isUri(BasePath + link.uri) ==> c.result == Failure(Unexpected(UriSyntax))
    ensures c.sent.None? && env.isUri(BasePath + link.uri) ==>
              c.result == Failure(IllegalState(link.requestMethod + " request method is not supported"))
    ensures c.sent.Some? && c.result.Failure? && c.result.error.IllegalState? ==>
              && reply.Received? && !IsSuccessful(reply.response.statusCode)
              && env.gson.errorsFromJson(reply.response.body).Some?
              && c.result.error.message == ErrorText(env.gson.errorsFromJson(reply.response.body).value)
    ensures c.sent.Some? && reply.Received? && IsSuccessful(reply.response.statusCode)
            && env.gson.initiationFromJson(reply.response.body).None? ==>
              c.result == Failure(Unexpected(Decoding))
    ensures c.sent.Some? && reply.IoFailure? ==> c.result == Failure(Unexpected(Io))
    ensures c.sent.Some? && reply.Received? ==> c.headers == UpdateSessionCookie(headers, reply.response)
    ensures c.sent.None? || reply.IoFailure? ==> c.headers == headers
    ensures OnlyCookieDiffers(headers, c.headers)
  {
    var x := PerformRequest(env, headers, link, None, reply);
    match x.response
    case Failure(e) => AdapterCall(x.sent, x.headers, Failure(e))
    case Success(response) =>
      match ParseResponse(response, env.gson.initiationFromJson, env.gson.errorsFromJson)
      case Failure(e) => AdapterCall(x.sent, x.headers, Failure(e))
      case Success(body) => AdapterCall(x.sent, x.headers, Success(body.status))
  }

  /**
   A non-2xx response whose error body decodes fails each of the three
   operations with the same message: the field messages joined by ", ".
   */
  lemma AllOperationsReportFieldErrors(env: Env, headers: map<string, string>, userId: string,
                                       authMethod: AuthenticationMethod, link: Link, response: HttpResponse)
    requires !IsSuccessful(response.statusCode)
    requires env.gson.errorsFromJson(response.body).Some?
    requires env.isUri(BasePath + LoginMethodsLink.uri)
    requires env.isUri(BasePath + authMethod.location.uri) && authMethod.location.requestMethod in {Get, Post}
    requires env.isUri(BasePath + link.uri) && link.requestMethod in {Get, Post}
    ensures var expected := IllegalState(ErrorText(env.gson.errorsFromJson(response.body).value));
            && GetAllLoginMethods(env, headers, Received(response)).result == Failure(expected)
            && InitiateLogin(env, headers, userId, authMethod, Received(response)).result == Failure(expected)
            && GetLoginStatus(env, headers, link, Received(response)).result == Failure(expected)
  {
  }

  /** The provider's two field errors from the adapter tests, joined. */
  lemma TwoFieldErrorsJoined()
    ensures ErrorText(HttpException(ErrorMessages([FieldError("Bad error"), FieldError("Worse error")])))
            == "Bad error, Worse error"
  {
    var fields := [FieldError("Bad error"), FieldError("Worse error")];
    assert FieldMessages(fields) == ["Bad error", "Worse error"];
    JoinTwo("Bad error", "Worse error", ", ");
  }

  // ---------------------------------------------------------------- sessions

  /** One call on the adapter, as the login handler makes them. */
  datatype Operation =
    | ListMethods
    | Initiate(userId: string, authMethod: AuthenticationMethod)
    | Status(link: Link)

  datatype Step = Step(op: Operation, reply: Reply)

  /** The observable part of one operation: the request sent and the header map after it. */
  datatype Effect = Effect(sent: Option<HttpRequest>, headers: map<string, string>)

  function Perform(env: Env, headers: map<string, string>, step: Step): (e: Effect)
    ensures OnlyCookieDiffers(headers, e.headers)
    ensures e.sent.Some? ==> e.sent.value.headers == headers
    ensures e.sent.Some? && step.reply.Received? ==> e.headers == UpdateSessionCookie(headers, step.reply.response)
    ensures e.sent.None? || step.reply.IoFailure? ==> e.headers == headers
  {
    match step.op
    case ListMethods =>
      var c := GetAllLoginMethods(env, headers, step.reply);
      Effect(c.sent, c.headers)
    case Initiate(userId, authMethod) =>
      var c := InitiateLogin(env, headers, userId, authMethod, step.reply);
      Effect(c.sent, c.headers)
    case Status(link) =>
      var c := GetLoginStatus(env, headers, link, step.reply);
      Effect(c.sent, c.headers)
  }

  /** The effects of a sequence of operations on one adapter, starting from `headers`. */
  function Trace(env: Env, headers: map<string, string>, steps: seq<Step>): (t: seq<Effect>)
    ensures |t| == |steps|
    decreases |steps|
  {
    if |steps| == 0 then []
    else
      var e := Perform(env, headers, steps[0]);
      [e] + Trace(env, e.headers, steps[1..])
  }

  /** The header map in force before step `i`. */
  function HeadersBefore(headers: map<string, string>, t: seq<Effect>, i: nat): map<string, string>
    requires i <= |t|
  {
    if i == 0 then headers else t[i - 1].headers
  }

  /**
   Over any sequence of operations, every request carries the header map in
   force at the time, and that map keeps the static headers at their initial
   values, with `Cookie` as the only other key.
   */
  lemma {:induction false} HeadersStayWellFormed(env: Env, headers: map<string, string>, steps: seq<Step>)
    requires WellFormedHeaders(headers)
    ensures forall i | 0 <= i < |steps| :: WellFormedHeaders(Trace(env, headers, steps)[i].headers)
    ensures forall i | 0 <= i < |steps| :: Trace(env, headers, steps)[i].sent.Some? ==>
              Trace(env, headers, steps)[i].sent.value.headers == HeadersBefore(headers, Trace(env, headers, steps), i)
    decreases |steps|
  {
    if |steps| > 0 {
      var t := Trace(env, headers, steps);
      var e := Perform(env, headers, steps[0]);
      OnlyCookieDiffersKeepsWellFormed(headers, e.headers);
      HeadersStayWellFormed(env, e.headers, steps[1..]);
      var rest := Trace(env, e.headers, steps[1..]);
      assert t == [e] + rest;
      forall i | 0 <= i < |t|
        ensures WellFormedHeaders(t[i].headers)
        ensures t[i].sent.Some? ==> t[i].sent.value.headers == HeadersBefore(headers, t, i)
      {
        if i > 0 {
          assert t[i] == rest[i - 1];
          assert WellFormedHeaders(rest[i - 1].headers);
          assert HeadersBefore(headers, t, i) == HeadersBefore(e.headers, rest, i - 1);
        } else {
          assert t[0] == e;
          assert WellFormedHeaders(e.headers);
        }
      }
    }
  }

  /** The reply of a step cannot change the session cookie. */
  predicate KeepsCookie(step: Step)
  {
    step.reply.IoFailure? || SessionFragment(step.reply.response).None?
  }

  /**
   Once `Cookie` holds a value, every later request carries exactly that
   value for as long as no reply brings a new session fragment.
   */
  lemma {:induction false} CookieCarriedForward(env: Env, headers: map<string, string>, steps: seq<Step>, i: nat)
    requires CookieKey in headers
    requires i < |steps|
    requires forall j | 0 <= j < i :: KeepsCookie(steps[j])
    ensures var t := Trace(env, headers, steps);
            t[i].sent.Some? ==> CookieKey in t[i].sent.value.headers && t[i].sent.value.headers[CookieKey] == headers[CookieKey]
    decreases i
  {
    var e := Perform(env, headers, steps[0]);
    if i == 0 {
    } else {
      assert e.headers == headers by {
        assert KeepsCookie(steps[0]);
      }
      CookieCarriedForward(env, headers, steps[1..], i - 1);
    }
  }

  /** A reply carrying a session fragment makes the very next request carry it as `Cookie`. */
  lemma NewCookieCarriedByNextRequest(env: Env, headers: map<string, string>, steps: seq<Step>, i: nat)
    requires i + 1 < |steps|
    requires var t := Trace(env, headers, steps); t[i].sent.Some?
    requires steps[i].reply.Received? && SessionFragment(steps[i].reply.response).Some?
    ensures var t := Trace(env, headers, steps);
            t[i + 1].sent.Some? ==>
              && CookieKey in t[i + 1].sent.value.headers
              && t[i + 1].sent.value.headers[CookieKey] == SessionFragment(steps[i].reply.response).value
  {
    TraceAt(env, headers, steps, i);
    TraceAt(env, headers, steps, i + 1);
  }

  /** Step `i` of a trace is the step performed on the header map left by step `i - 1`. */
  lemma {:induction false} TraceAt(env: Env, headers: map<string, string>, steps: seq<Step>, i: nat)
    requires i < |steps|
    ensures var t := Trace(env, headers, steps);
            t[i] == Perform(env, HeadersBefore(headers, t, i), steps[i])
    decreases i
  {
    if i > 0 {
      var t := Trace(env, headers, steps);
      var e := Perform(env, headers, steps[0]);
      var rest := Trace(env, e.headers, steps[1..]);
      assert t == [e] + rest;
      assert t[i] == rest[i - 1];
      assert steps[i] == steps[1..][i - 1];
      assert HeadersBefore(headers, t, i) == HeadersBefore(e.headers, rest, i - 1);
      TraceAt(env, e.headers, steps[1..], i - 1);
    }
  }
}

/** The web frontend's HTTP client: how a response becomes data or one of three error classes,
    which message an error carries, which headers a request sends, and how an authentication
    failure logs the browser out. `fetch` itself is an input: what it returned or threw. */
module ApiClient {
  import opened Strings

  // ---------------------------------------------------------------------------------------------
  // Endpoints
  // ---------------------------------------------------------------------------------------------

  const BaseUrl := "http://localhost:8000/api"
  const LoginEndpoint := BaseUrl + "/login/"
  const LogoutEndpoint := BaseUrl + "/logout/"
  const GetEmailsEndpoint := BaseUrl + "/get_emails/"
  const VoteEndpoint := BaseUrl + "/vote/"

  function DeleteEndpoint(id: nat): string {
    BaseUrl + "/delete_email/" + NatToString(id) + "/"
  }

  /** Only the vote endpoint holds `/vote/`, so only there does a 409 mean a duplicate vote. */
  lemma VoteEndpointOnly(id: nat)
    ensures Contains(VoteEndpoint, "/vote/", false)
    ensures !Contains(DeleteEndpoint(id), "/vote/", false)
  {
    assert OccursAt(VoteEndpoint, "/vote/", |BaseUrl|, false);
    var d := DeleteEndpoint(id);
    forall i | 0 <= i <= |d| - 6 ensures !OccursAt(d, "/vote/", i, false) {
      DeleteEndpointChars(id, i);
      assert !SameChar(d[i], "/vote/"[0], false) || !SameChar(d[i + 1], "/vote/"[1], false);
    }
  }

  /** Where a `/` can sit in a delete endpoint, the next character is never a `v`. */
  lemma DeleteEndpointChars(id: nat, i: nat)
    requires i + 1 < |DeleteEndpoint(id)|
    ensures DeleteEndpoint(id)[i] != '/' || DeleteEndpoint(id)[i + 1] != 'v'
  {
    var prefix := BaseUrl + "/delete_email/";
    var digits := NatToString(id);
    assert DeleteEndpoint(id) == prefix + digits + "/";
    if i + 1 < |prefix| {
      assert DeleteEndpoint(id)[i] == prefix[i] && DeleteEndpoint(id)[i + 1] == prefix[i + 1];
    } else if i + 1 < |prefix| + |digits| {
      assert DeleteEndpoint(id)[i + 1] == digits[i + 1 - |prefix|];
    }
  }

  // ---------------------------------------------------------------------------------------------
  // Errors
  // ---------------------------------------------------------------------------------------------

  /** `ApiError` and its two subclasses. */
  datatype ErrorClass = Plain | Authentication | DuplicateVote

  datatype ApiError = ApiError(cls: ErrorClass, message: string, status: int)

  /** The fields of a parsed JSON body the client reads, with the rest of the value. */
  datatype Body<T> = Body(error: Option<string>, message: Option<string>, rest: T)

  /** What `fetch` did: a response (whose JSON body, when it is JSON, parsed or failed to), or an
      exception, which is either `TypeError('Failed to fetch')` or something else. */
  datatype Fetched<T> =
    | Response(status: int, isJson: bool, parsed: Option<Body<T>>)
    | Threw(failedToFetch: bool)

  /** What `apiRequest` resolves to or throws. */
  datatype Outcome<T> = NoContent | Data(data: Option<Body<T>>) | Failed(error: ApiError)

  /** A JavaScript value that is a non-empty string is truthy; a missing one is not. */
  predicate Truthy(s: Option<string>) {
    s.Some? && s.value != []
  }

  /** The message for a status when the body gives none. */
  function StatusMessage(status: int): string {
    if status == 400 then "Invalid request. Please check your input."
    else if status == 401 then "Please log in to continue."
    else if status == 403 then "You do not have permission to perform this action."
    else if status == 404 then "The requested resource was not found."
    else if status == 409 then "This action conflicts with an existing record."
    else if status == 429 then "Too many requests. Please try again later."
    else if status == 500 then "An internal server error occurred. Please try again later."
    else "An unexpected error occurred. Please try again."
  }

  /** `data?.error || getErrorMessage(data, status)`. */
  function ErrorMessage<T>(data: Option<Body<T>>, status: int): (r: string)
    ensures data.Some? && Truthy(data.value.error) ==> r == data.value.error.value
    ensures !(data.Some? && Truthy(data.value.error)) && data.Some? && Truthy(data.value.message)
      ==> r == data.value.message.value
    ensures !(data.Some? && (Truthy(data.value.error) || Truthy(data.value.message))) ==> r == StatusMessage(status)
  {
    if data.Some? && Truthy(data.value.error) then data.value.error.value
    else if data.Some? && Truthy(data.value.message) then data.value.message.value
    else StatusMessage(status)
  }

  /** The error a non-OK response becomes. */
  function Classify<T>(endpoint: string, status: int, data: Option<Body<T>>): (e: ApiError)
    ensures e.status == status && e.message == ErrorMessage(data, status)
    ensures e.cls == Authentication <==> status == 401
    ensures e.cls == DuplicateVote <==> status == 409 && Contains(endpoint, "/vote/", false)
  {
    var message := ErrorMessage(data, status);
    if status == 401 then ApiError(Authentication, message, 401)
    else if status == 409 && Contains(endpoint, "/vote/", false) then ApiError(DuplicateVote, message, 409)
    else ApiError(Plain, message, status)
  }

  predicate IsOk(status: int) {
    200 <= status <= 299
  }

  const InvalidFormat := "Invalid response format from server"
  const NetworkMessage := "Network error. Please check your connection."
  const UnexpectedMessage := "An unexpected error occurred. Please try again."

  /** `apiRequest(endpoint, ...)` once `fetch` has done `fetched`. */
  function ApiRequest<T>(endpoint: string, fetched: Fetched<T>): (r: Outcome<T>)
    ensures r == NoContent <==> fetched.Response? && fetched.status == 204
    ensures fetched.Response? && fetched.status != 204 && fetched.isJson && fetched.parsed.None?
      ==> r == Failed(ApiError(Plain, InvalidFormat, 500))
    ensures r.Data? <==> (fetched.Response? && fetched.status != 204 && IsOk(fetched.status)
      && !(fetched.isJson && fetched.parsed.None?))
    ensures r.Data? ==> r.data == (if fetched.isJson then fetched.parsed else None)
    ensures fetched.Threw? ==> r == Failed(if fetched.failedToFetch then ApiError(Plain, NetworkMessage, 0)
                                           else ApiError(Plain, UnexpectedMessage, 500))
    ensures r.Failed? && r.error.cls == Authentication <==> (fetched.Response? && fetched.status == 401
      && !(fetched.isJson && fetched.parsed.None?))
    ensures r.Failed? && r.error.cls == DuplicateVote <==> (fetched.Response? && fetched.status == 409
      && !(fetched.isJson && fetched.parsed.None?) && Contains(endpoint, "/vote/", false))
  {
    match fetched
    case Threw(failedToFetch) =>
      Failed(if failedToFetch then ApiError(Plain, NetworkMessage, 0) else ApiError(Plain, UnexpectedMessage, 500))
    case Response(status, isJson, parsed) =>
      if status == 204 then NoContent
      else if isJson && parsed.None? then Failed(ApiError(Plain, InvalidFormat, 500))
      else
        var data := if isJson then parsed else None;
        if !IsOk(status) then Failed(Classify(endpoint, status, data)) else Data(data)
  }

  /** A 403 is an error of the base class, whatever the endpoint. */
  lemma ForbiddenIsPlain<T>(endpoint: string, isJson: bool, parsed: Option<Body<T>>)
    requires !(isJson && parsed.None?)
    ensures var r := ApiRequest(endpoint, Response(403, isJson, parsed));
      r.Failed? && r.error.cls == Plain && r.error.status == 403
  {
  }

  // ---------------------------------------------------------------------------------------------
  // Headers
  // ---------------------------------------------------------------------------------------------

  const Defaults: map<string, string> := map["Content-Type" := "application/json", "Accept" := "application/json"]

  /** The headers sent: the defaults, then `Authorization: Token <t>` when the stored token is
      truthy, then the caller's headers, each later one overriding an earlier one of the same name. */
  function Headers(token: Option<string>, caller: map<string, string>): (r: map<string, string>)
    ensures forall k :: k in caller ==> k in r && r[k] == caller[k]
    ensures "Authorization" !in caller ==>
      ("Authorization" in r <==> Truthy(token)) && (Truthy(token) ==> r["Authorization"] == "Token " + token.value)
    ensures forall k :: k in Defaults && k !in caller && k != "Authorization" ==> k in r && r[k] == Defaults[k]
    ensures forall k :: k in r ==> k in caller || k in Defaults || k == "Authorization"
  {
    var auth: map<string, string> := if Truthy(token) then map["Authorization" := "Token " + token.value] else map[];
    Defaults + auth + caller
  }

  // ---------------------------------------------------------------------------------------------
  // fetchWithAuth
  // ---------------------------------------------------------------------------------------------

  /** The parts of the browser the client touches: `localStorage` and the page location. */
  class Browser {
    var storage: map<string, string>
    var location: string

    constructor(storage: map<string, string>, location: string)
      ensures this.storage == storage && this.location == location
    {
      this.storage := storage;
      this.location := location;
    }

    /** `localStorage.getItem(key)`. */
    function Item(key: string): Option<string>
      reads this
    {
      if key in storage then Some(storage[key]) else None
    }
  }

  /** `fetchWithAuth`: the request, with the stored token; on an authentication failure the token is
      removed and the page goes to `/login`; the error is rethrown either way. */
  method FetchWithAuth<T>(b: Browser, endpoint: string, caller: map<string, string>, fetched: Fetched<T>)
      returns (sent: map<string, string>, r: Outcome<T>)
    modifies b
    ensures sent == Headers(old(b.Item("token")), caller)
    ensures r == ApiRequest(endpoint, fetched)
    ensures r.Failed? && r.error.cls == Authentication ==>
      b.storage == old(b.storage) - {"token"} && b.location == "/login"
    ensures !(r.Failed? && r.error.cls == Authentication) ==> unchanged(b)
  {
    sent := Headers(b.Item("token"), caller);
    r := ApiRequest(endpoint, fetched);
    if r.Failed? && r.error.cls == Authentication {
      b.storage := b.storage - {"token"};
      b.location := "/login";
    }
  }
}

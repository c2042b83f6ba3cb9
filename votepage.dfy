/** The voting page of the web frontend: how a failed request becomes an alert, which query the
    filters produce, and what loading the list, voting and deleting do to the page's state. */
module VotePage {
  import opened Strings
  import opened ApiClient
  import EmailCard
  import UriCodec
  import VoteViews
  import AuthRequired

  // ---------------------------------------------------------------------------------------------
  // Alerts
  // ---------------------------------------------------------------------------------------------

  datatype Level = Error | Warning | Info

  datatype Alert = Alert(message: string, level: Level)

  /** What a request threw: an `ApiError` of some class, or anything else. */
  datatype Thrown = Api(e: ApiError) | Unknown

  const LogInAgain := "Please log in again to continue."

  /** `handleError`: a duplicate vote is a warning with the server's message, an authentication
      failure an invitation to log in again, any other API error an error with its message. */
  function HandleError(err: Thrown): (r: Alert)
    ensures r.level == Warning <==> err.Api? && err.e.cls == DuplicateVote
    ensures r.level == Info <==> err.Api? && err.e.cls == Authentication
    ensures err.Api? && err.e.cls != Authentication ==> r.message == err.e.message
    ensures err.Api? && err.e.cls == Authentication ==> r.message == LogInAgain
    ensures err.Unknown? ==> r == Alert(UnexpectedMessage, Error)
  {
    match err
    case Unknown => Alert(UnexpectedMessage, Error)
    case Api(e) =>
      match e.cls
      case DuplicateVote => Alert(e.message, Warning)
      case Authentication => Alert(LogInAgain, Info)
      case Plain => Alert(e.message, Error)
  }

  /** After a failed vote the list is fetched again, except when the vote was a duplicate. */
  predicate Refetches<T>(r: Outcome<T>) {
    !(r.Failed? && r.error.cls == DuplicateVote)
  }

  // ---------------------------------------------------------------------------------------------
  // The filters' query
  // ---------------------------------------------------------------------------------------------

  /** `URLSearchParams` with `show_mine=true` and then `show_unvoted=true` appended when set. */
  function Query(showMine: bool, showUnvoted: bool): string {
    if showMine && showUnvoted then Param("show_mine") + "&" + Param("show_unvoted")
    else if showMine then Param("show_mine")
    else if showUnvoted then Param("show_unvoted")
    else ""
  }

  function Param(name: string): string {
    name + "=" + "true"
  }

  function ListEndpoint(showMine: bool, showUnvoted: bool): string {
    GetEmailsEndpoint + "?" + Query(showMine, showUnvoted)
  }

  /** A name or value with no `+`, `%`, `=` or `&` is a field on its own and decodes to itself. */
  predicate Literal(f: string) {
    '+' !in f && '%' !in f && '=' !in f && '&' !in f
  }

  lemma PlainDecodes(f: string)
    requires Literal(f)
    ensures UriCodec.FormDecode(f) == Some(f)
  {
    UriCodec.DecodePlain(f);
  }

  /** Reading a query of one plain field. */
  lemma OneFieldGet(n: string, v: string, other: string)
    requires Literal(n) && Literal(v) && n != other
    ensures UriCodec.QueryGet(n + "=" + v, n) == Some(v)
    ensures UriCodec.QueryGet(n + "=" + v, other) == None
  {
    var f := n + "=" + v;
    assert '&' !in f;
    SplitNoSep(f, '&');
    UriCodec.NameValuePlain(n, v);
    PlainDecodes(n);
    PlainDecodes(v);
    assert f != [] && [f][1..] == [];
    assert Split(f, '&') == [f];
    assert UriCodec.NameValue(f) == (n, v);
    assert UriCodec.Fields([f]) == [(n, v)];
    assert UriCodec.QueryFields(f) == [(n, v)];
    var fs := [(n, v)];
    assert fs[1..] == [] && fs[0].0 == n;
    assert UriCodec.FirstValue(fs, other) == UriCodec.FirstValue([], other);
  }

  /** Reading a query of two plain fields with distinct names. */
  lemma TwoFieldsGet(n1: string, v1: string, n2: string, v2: string)
    requires Literal(n1) && Literal(v1) && Literal(n2) && Literal(v2) && n1 != n2
    ensures UriCodec.QueryGet((n1 + "=" + v1) + "&" + (n2 + "=" + v2), n1) == Some(v1)
    ensures UriCodec.QueryGet((n1 + "=" + v1) + "&" + (n2 + "=" + v2), n2) == Some(v2)
  {
    var f1, f2 := n1 + "=" + v1, n2 + "=" + v2;
    assert '&' !in f1 && '&' !in f2;
    SplitNoSep(f2, '&');
    SplitFirst(f1, f2, '&');
    UriCodec.NameValuePlain(n1, v1);
    UriCodec.NameValuePlain(n2, v2);
    PlainDecodes(n1);
    PlainDecodes(v1);
    PlainDecodes(n2);
    PlainDecodes(v2);
    var parts := [f1, f2];
    assert f1 != [] && f2 != [] && parts[1..] == [f2] && [f2][1..] == [];
    assert UriCodec.Fields([f2]) == [(n2, v2)];
    var fs := [(n1, v1), (n2, v2)];
    assert UriCodec.QueryFields(f1 + "&" + f2) == fs;
    assert fs[1..] == [(n2, v2)] && fs[1..][1..] == [] && fs[0].0 == n1;
    assert UriCodec.FirstValue(fs[1..], n2) == Some(v2);
    assert UriCodec.FirstValue(fs, n2) == UriCodec.FirstValue(fs[1..], n2);
  }

  lemma FlagValues()
    ensures VoteViews.Flag(Some("true")) && !VoteViews.Flag(None)
  {
    assert LowerString("true") == "true";
  }

  lemma FilterNames()
    ensures Literal("show_mine") && Literal("show_unvoted") && Literal("true") && "show_mine" != "show_unvoted"
  {
    assert "show_mine"[5] != "show_unvoted"[5];
  }

  /** The backend reads both flags back from the query exactly as the filters set them. */
  lemma FiltersReachBackend(showMine: bool, showUnvoted: bool)
    ensures VoteViews.Flag(UriCodec.QueryGet(Query(showMine, showUnvoted), "show_mine")) == showMine
    ensures VoteViews.Flag(UriCodec.QueryGet(Query(showMine, showUnvoted), "show_unvoted")) == showUnvoted
  {
    FlagValues();
    var mine, unvoted, yes := "show_mine", "show_unvoted", "true";
    FilterNames();
    if showMine && showUnvoted {
      TwoFieldsGet(mine, yes, unvoted, yes);
    } else if showMine {
      OneFieldGet(mine, yes, unvoted);
    } else if showUnvoted {
      OneFieldGet(unvoted, yes, mine);
    } else {
      assert UriCodec.QueryFields("") == [];
    }
  }

  // ---------------------------------------------------------------------------------------------
  // The page
  // ---------------------------------------------------------------------------------------------

  /** What `setEmails(data)` stores: the array of a JSON body, or nothing (`null`/`undefined`). */
  function Received(r: Outcome<seq<EmailCard.Email>>): Option<seq<EmailCard.Email>>
    requires !r.Failed?
  {
    if r.Data? && r.data.Some? then Some(r.data.value.rest) else None
  }

  /** What the page shows. */
  datatype Screen =
    | Spinner(caption: Option<string>)
    | LoginNotice(link: string)
    | Listing(alert: Option<Alert>, emails: Option<seq<EmailCard.Email>>)

  class Page {
    var emails: Option<seq<EmailCard.Email>>
    var loading: bool
    var error: Option<Alert>
    var showMineOnly: bool
    var showUnvotedOnly: bool

    constructor()
      ensures emails == Some([]) && loading && error == None && !showMineOnly && !showUnvotedOnly
    {
      emails, loading, error := Some([]), true, None;
      showMineOnly, showUnvotedOnly := false, false;
    }

    /** The render: a spinner while the session is being restored, the login notice (returning to
        this page) without a user, a spinner while the list loads, then the alert and the list. */
    function Render(authLoading: bool, user: Option<string>): (s: Screen)
      reads this
      ensures authLoading ==> s == Spinner(None)
      ensures !authLoading && user.None? ==> s == LoginNotice("/login?redirect=/vote")
      ensures s.Listing? <==> !authLoading && user.Some? && !loading
      ensures s.Listing? ==> s.alert == error && s.emails == emails
    {
      if authLoading then Spinner(None)
      else if user.None? then
        assert !AuthRequired.StartsWith("/vote", "/login");
        assert "/login?redirect=" + "/vote" == "/login?redirect=/vote";
        LoginNotice(AuthRequired.LoginPath("/vote"))
      else if loading then Spinner(Some("Loading emails..."))
      else Listing(error, emails)
    }

    /** `fetchEmails`: the list with the current filters; on success the list is replaced and the
        alert cleared, on failure the alert reports it and the list stays; loading ends either way. */
    method FetchEmails(fetched: Fetched<seq<EmailCard.Email>>) returns (endpoint: string)
      modifies this
      ensures endpoint == ListEndpoint(showMineOnly, showUnvotedOnly)
      ensures var r := ApiRequest(endpoint, fetched);
        if r.Failed? then error == Some(HandleError(Api(r.error))) && emails == old(emails)
        else error == None && emails == Received(r)
      ensures !loading
      ensures showMineOnly == old(showMineOnly) && showUnvotedOnly == old(showUnvotedOnly)
    {
      endpoint := ListEndpoint(showMineOnly, showUnvotedOnly);
      var r := ApiRequest(endpoint, fetched);
      if r.Failed? {
        error := Some(HandleError(Api(r.error)));
      } else {
        emails := Received(r);
        error := None;
      }
      loading := false;
    }

    /** Changing a filter refetches the list when a user is signed in. */
    method SetFilters(mine: bool, unvoted: bool, signedIn: bool, fetched: Fetched<seq<EmailCard.Email>>)
        returns (endpoint: Option<string>)
      modifies this
      ensures showMineOnly == mine && showUnvotedOnly == unvoted
      ensures endpoint.Some? <==> signedIn
      ensures signedIn ==> endpoint.value == ListEndpoint(mine, unvoted) && !loading
      ensures !signedIn ==> emails == old(emails) && error == old(error) && loading == old(loading)
    {
      showMineOnly, showUnvotedOnly := mine, unvoted;
      endpoint := None;
      if signedIn {
        var e := FetchEmails(fetched);
        endpoint := Some(e);
      }
    }

    /** `handleVote`: after a successful vote the list is refetched and the alert cleared; after a
        failed one the alert reports it and the list is refetched unless the vote was a duplicate, the
        refetch then clearing the alert or replacing it with its own failure. */
    method HandleVote(voteFetched: Fetched<()>, listFetched: Fetched<seq<EmailCard.Email>>)
        returns (refetched: bool)
      modifies this
      ensures var r := ApiRequest(VoteEndpoint, voteFetched);
        && (refetched <==> Refetches(r))
        && (!r.Failed? ==> error == None)
        && (r.Failed? && !refetched ==>
              error == Some(HandleError(Api(r.error))) && emails == old(emails) && loading == old(loading))
      ensures var r := ApiRequest(VoteEndpoint, voteFetched);
        var l := ApiRequest(ListEndpoint(showMineOnly, showUnvotedOnly), listFetched);
        && (r.Failed? && refetched ==> error == (if l.Failed? then Some(HandleError(Api(l.error))) else None))
        && (refetched ==> emails == (if l.Failed? then old(emails) else Received(l)) && !loading)
      ensures showMineOnly == old(showMineOnly) && showUnvotedOnly == old(showUnvotedOnly)
    {
      var r := ApiRequest(VoteEndpoint, voteFetched);
      if !r.Failed? {
        var _ := FetchEmails(listFetched);
        error := None;
        refetched := true;
      } else {
        error := Some(HandleError(Api(r.error)));
        refetched := false;
        if r.error.cls != DuplicateVote {
          var _ := FetchEmails(listFetched);
          refetched := true;
        }
      }
    }

    /** `handleDelete`: nothing without confirmation; otherwise the delete request, then as for a
        vote, except that a failure does not refetch. */
    method HandleDelete(id: nat, confirmed: bool, deleteFetched: Fetched<()>,
                        listFetched: Fetched<seq<EmailCard.Email>>) returns (requested: Option<string>)
      modifies this
      ensures requested.Some? <==> confirmed
      ensures !confirmed ==> unchanged(this)
      ensures confirmed ==> requested.value == DeleteEndpoint(id)
      ensures confirmed ==> var r := ApiRequest(DeleteEndpoint(id), deleteFetched);
        if r.Failed? then error == Some(HandleError(Api(r.error))) && emails == old(emails) && loading == old(loading)
        else
          var l := ApiRequest(ListEndpoint(showMineOnly, showUnvotedOnly), listFetched);
          error == None && !loading && emails == (if l.Failed? then old(emails) else Received(l))
    {
      if !confirmed {
        return None;
      }
      requested := Some(DeleteEndpoint(id));
      var r := ApiRequest(DeleteEndpoint(id), deleteFetched);
      if r.Failed? {
        error := Some(HandleError(Api(r.error)));
      } else {
        var _ := FetchEmails(listFetched);
        error := None;
      }
    }
  }

  // ---------------------------------------------------------------------------------------------
  // A repeated vote, end to end
  // ---------------------------------------------------------------------------------------------

  /** The response the backend sends for a reply to a vote, with a given status mapping. */
  function VoteResponse(status: int): Fetched<()> {
    Response(status, true, Some(Body(Some(VoteViews.AlreadyVotedMessage), None, ())))
  }

  /** As written, the backend answers a repeated vote with a 400, so the client raises a plain
      `ApiError`: the page shows an error rather than a warning and refetches the list. */
  lemma DuplicateVoteAsWritten()
    ensures var r := ApiRequest(VoteEndpoint, VoteResponse(VoteViews.VoteStatus(VoteViews.AlreadyVoted)));
      && r == Failed(ApiError(Plain, VoteViews.AlreadyVotedMessage, 400))
      && HandleError(Api(r.error)) == Alert(VoteViews.AlreadyVotedMessage, Error)
      && Refetches(r)
  {
  }

  /** With the intended 409 the client raises `DuplicateVoteError`: the page warns with the server's
      message and keeps the list as it is. */
  lemma DuplicateVoteIntended()
    ensures var r := ApiRequest(VoteEndpoint, VoteResponse(VoteViews.IntendedVoteStatus(VoteViews.AlreadyVoted)));
      && r == Failed(ApiError(DuplicateVote, VoteViews.AlreadyVotedMessage, 409))
      && HandleError(Api(r.error)) == Alert(VoteViews.AlreadyVotedMessage, Warning)
      && !Refetches(r)
  {
    VoteEndpointOnly(0);
  }
}

/** The extension's background script (extension/background.js): the sender's domain, the walk over
    the MIME parts of a message, the payload sent to the server, and the controller that keeps the
    authentication flag and the message and action waiting for the redaction window. */
module Background {
  import opened Strings
  import opened UriCodec
  import opened Preprocessing
  import opened Redaction

  // ---------------------------------------------------------------------------------------------
  // extractDomain(sender)

  /** Position `i` starts a match of `/@([^>]+)/`: an `@` followed by at least one character other
      than `>`. */
  predicate AtMatch(s: string, i: int) {
    0 <= i && i + 1 < |s| && s[i] == '@' && s[i + 1] != '>'
  }

  /** The first match of the expression at or after `i`. */
  function FirstAt(s: string, i: nat): (k: Option<nat>)
    ensures k.Some? ==> i <= k.value && AtMatch(s, k.value)
    ensures k.Some? ==> forall m :: i <= m < k.value ==> !AtMatch(s, m)
    ensures k.None? ==> forall m :: i <= m ==> !AtMatch(s, m)
    decreases |s| - i
  {
    if i + 1 >= |s| then None
    else if AtMatch(s, i) then Some(i)
    else FirstAt(s, i + 1)
  }

  /** The end of the greedy run `[^>]+` that starts at `i`. */
  function GroupEnd(s: string, i: nat): (e: nat)
    requires i <= |s|
    ensures i <= e <= |s| && (e == |s| || s[e] == '>')
    ensures forall m :: i <= m < e ==> s[m] != '>'
    decreases |s| - i
  {
    if i == |s| || s[i] == '>' then i else GroupEnd(s, i + 1)
  }

  /** `extractDomain(sender)` of background.js: the captured group, lower-cased, or `''`. */
  function SenderDomain(sender: string): string {
    match FirstAt(sender, 0)
    case None => []
    case Some(k) => LowerString(sender[k + 1..GroupEnd(sender, k + 1)])
  }

  /** The domain is empty exactly when no `@` is followed by a character other than `>`; otherwise it
      is the lower-cased text after the first such `@`, up to the next `>` or the end. */
  lemma SenderDomainMeaning(sender: string) returns (k: int, e: int)
    ensures SenderDomain(sender) == [] <==> forall m :: !AtMatch(sender, m)
    ensures SenderDomain(sender) != [] ==>
      && AtMatch(sender, k) && (forall m :: 0 <= m < k ==> !AtMatch(sender, m))
      && k + 1 < e <= |sender| && (e == |sender| || sender[e] == '>')
      && (forall m :: k + 1 <= m < e ==> sender[m] != '>')
      && SenderDomain(sender) == LowerString(sender[k + 1..e])
  {
    match FirstAt(sender, 0)
    case None =>
      k, e := -1, -1;
    case Some(i) =>
      k, e := i, GroupEnd(sender, i + 1);
      assert sender[i + 1] != '>';
  }

  // ---------------------------------------------------------------------------------------------
  // processMessageParts

  /** A MIME part as `messages.getFull` reports it: a leaf with its content type and body, or a part
      with nested parts. */
  datatype Part = Leaf(contentType: string, body: string) | Nested(parts: seq<Part>)

  /** The text and HTML accumulated by the loop over `parts`, before the final trim. */
  function Gathered(parts: seq<Part>): (string, string)
    decreases parts, 0
  {
    if parts == [] then ([], [])
    else
      var before := Gathered(parts[..|parts| - 1]);
      var last := Contribution(parts[|parts| - 1]);
      (before.0 + last.0, before.1 + last.1)
  }

  /** What one part adds: the (trimmed) result of the walk for a nested part, a plain-text or HTML
      body followed by a line feed, and nothing for any other content type. */
  function Contribution(p: Part): (string, string)
    decreases p, 2
  {
    match p
    case Nested(children) => Walk(children)
    case Leaf(ct, body) =>
      if ct == "text/plain" then (body + "\n", [])
      else if ct == "text/html" then ([], body + "\n")
      else ([], [])
  }

  /** The fallback walk: both accumulations trimmed. */
  function Walk(parts: seq<Part>): (r: (string, string))
    ensures IsTrimmed(r.0) && IsTrimmed(r.1)
    decreases parts, 1
  {
    var g := Gathered(parts);
    (Trim(g.0), Trim(g.1))
  }

  /** The accumulation follows document order: the parts of `a` come before those of `b`. */
  lemma {:induction false} GatheredAppend(a: seq<Part>, b: seq<Part>)
    ensures Gathered(a + b).0 == Gathered(a).0 + Gathered(b).0
    ensures Gathered(a + b).1 == Gathered(a).1 + Gathered(b).1
    decreases |b|
  {
    if b == [] {
      assert a + b == a;
    } else {
      var b' := b[..|b| - 1];
      GatheredAppend(a, b');
      assert (a + b)[..|a + b| - 1] == a + b';
      assert (a + b)[|a + b| - 1] == b[|b| - 1];
    }
  }

  /** A part of any other content type contributes nothing. */
  lemma OtherTypeIgnored(parts: seq<Part>, ct: string, body: string)
    requires ct != "text/plain" && ct != "text/html"
    ensures Walk(parts + [Leaf(ct, body)]) == Walk(parts)
  {
    var ps := parts + [Leaf(ct, body)];
    assert ps[..|ps| - 1] == parts;
    assert Contribution(Leaf(ct, body)) == ([], []);
    assert Gathered(parts).0 + [] == Gathered(parts).0;
    assert Gathered(parts).1 + [] == Gathered(parts).1;
    assert Gathered(ps) == Gathered(parts);
  }

  /** A single plain-text part gives its body, trimmed, and no HTML. */
  lemma SinglePlain(body: string)
    ensures Walk([Leaf("text/plain", body)]) == (Trim(body + "\n"), [])
  {
    var ps := [Leaf("text/plain", body)];
    assert ps[..0] == [];
    var before, last := Gathered(ps[..0]), Contribution(ps[0]);
    assert before == ([], []);
    assert last == (body + "\n", []);
    assert Gathered(ps) == (before.0 + last.0, before.1 + last.1);
    assert before.0 + last.0 == body + "\n";
    assert before.1 + last.1 == [];
  }

  /** `processMessageParts` past the displayed-message attempt: the loop over the parts, recursing into
      nested ones. */
  method WalkParts(parts: seq<Part>) returns (text: string, html: string)
    ensures (text, html) == Walk(parts)
    decreases parts
  {
    text, html := [], [];
    for i := 0 to |parts|
      invariant (text, html) == Gathered(parts[..i])
    {
      assert parts[..i + 1][..i] == parts[..i];
      match parts[i]
      case Nested(children) =>
        var t, h := WalkParts(children);
        assert Contribution(parts[i]) == (t, h);
        text, html := text + t, html + h;
      case Leaf(ct, body) =>
        if ct == "text/plain" {
          assert Contribution(parts[i]) == (body + "\n", []);
          assert html + [] == html;
          text := text + (body + "\n");
        } else if ct == "text/html" {
          assert Contribution(parts[i]) == ([], body + "\n");
          assert text + [] == text;
          html := html + (body + "\n");
        } else {
          assert Contribution(parts[i]) == ([], []);
          assert text + [] == text && html + [] == html;
        }
    }
    assert parts[..|parts|] == parts;
    text, html := Trim(text), Trim(html);
  }

  /** `processMessageParts(messageId, parts)`. `displayed` is the body of the displayed message, `None`
      when that call throws or gives no body; a non-empty one is taken as the text, untrimmed, with no
      HTML. */
  method ProcessMessageParts(displayed: Option<string>, parts: seq<Part>) returns (text: string, html: string)
    ensures displayed.Some? && displayed.value != [] ==> text == displayed.value && html == []
    ensures !(displayed.Some? && displayed.value != []) ==> (text, html) == Walk(parts)
  {
    if displayed.Some? && displayed.value != [] {
      return displayed.value, [];
    }
    text, html := WalkParts(parts);
  }

  /** `htmlContent || textContent`. */
  function RawContent(text: string, html: string): (r: string)
    ensures html != [] ==> r == html
    ensures html == [] ==> r == text
  {
    if html != [] then html else text
  }

  /** The raw content of a message: the displayed body when there is one, otherwise the HTML of the
      walk when non-empty, otherwise its plain text. */
  function RawOf(parts: seq<Part>, displayed: Option<string>): string {
    if displayed.Some? && displayed.value != [] then displayed.value
    else RawContent(Walk(parts).0, Walk(parts).1)
  }

  /** `processMessageParts` followed by `htmlContent || textContent`. */
  method ReadRawContent(parts: seq<Part>, displayed: Option<string>) returns (raw: string)
    ensures raw == RawOf(parts, displayed)
  {
    var text, html := ProcessMessageParts(displayed, parts);
    raw := RawContent(text, html);
  }

  // ---------------------------------------------------------------------------------------------
  // emailToJSON

  /** The parts of `messages.getFull` the script reads: the first `subject`, `from` and `date` headers
      and the part tree. */
  datatype FullMessage = FullMessage(subject: string, from: string, date: string, parts: seq<Part>)

  /** What the browser computes from a string of HTML: the `href`s of its anchors, its text content,
      and the text content of the tree `htmlToText` rewrites (`None` where that throws); plus the URL
      parser's hostname and `JSON.stringify` of a list of strings. */
  datatype Browser = Browser(
    hrefs: string -> seq<string>,
    textContent: string -> string,
    rendered: string -> Option<string>,
    hostOf: string -> Option<string>,
    stringify: seq<string> -> string)

  /** The payload posted to the server. */
  datatype Payload = Payload(senderDomain: string, subject: string, date: string, content: string, urls: seq<string>)

  /** The summary `extractURLs(content)` returns. */
  function UrlSummary(content: string, b: Browser): seq<string> {
    if content == [] then []
    else Summary(AcceptedHosts(b.hrefs(content), TextOf(b.textContent(content), content), b.hostOf))
  }

  /** `preprocessEmailBody(content)` with the browser's rendering of the decoded text. */
  function Body(content: string, b: Browser): string {
    PreprocessEmailBody(content, b.rendered(DecodeEntities(content)))
  }

  /** The payload `emailToJSON` builds from the raw content of the message. */
  function PayloadOf(m: FullMessage, raw: string, redactedSubject: string, redactedContent: string, b: Browser): Payload {
    Payload(
      SenderDomain(m.from),
      PreprocessSubject(if redactedSubject != [] then redactedSubject else m.subject),
      m.date,
      Body(if redactedContent != [] then redactedContent else raw, b),
      UrlSummary(raw, b))
  }

  /** The link summary comes from the message itself, never from the redacted texts. */
  lemma UrlsFromRawContent(m: FullMessage, raw: string, s1: string, c1: string, s2: string, c2: string, b: Browser)
    ensures PayloadOf(m, raw, s1, c1, b).urls == PayloadOf(m, raw, s2, c2, b).urls
    ensures PayloadOf(m, raw, s1, c1, b).senderDomain == PayloadOf(m, raw, s2, c2, b).senderDomain
  {
  }

  /** An empty redacted text falls back to the original one; a non-empty one replaces it, and either is
      cleaned again before it is sent. */
  lemma PayloadFallback(m: FullMessage, raw: string, rs: string, rc: string, b: Browser)
    ensures rs == [] ==> PayloadOf(m, raw, rs, rc, b).subject == PreprocessSubject(m.subject)
    ensures rs != [] ==> PayloadOf(m, raw, rs, rc, b).subject == PreprocessSubject(rs)
    ensures rc == [] ==> PayloadOf(m, raw, rs, rc, b).content == Body(raw, b)
    ensures rc != [] ==> PayloadOf(m, raw, rs, rc, b).content == Body(rc, b)
    ensures IsTrimmed(PayloadOf(m, raw, rs, rc, b).subject) && NoTag(PayloadOf(m, raw, rs, rc, b).subject)
    ensures '\r' !in PayloadOf(m, raw, rs, rc, b).content
  {
  }

  /** `emailToJSON(fullMessage, redactedSubject, redactedContent)`; an absent redacted text is `''`. */
  method EmailToJSON(m: FullMessage, displayed: Option<string>, redactedSubject: string, redactedContent: string, b: Browser)
    returns (p: Payload)
    ensures p == PayloadOf(m, RawOf(m.parts, displayed), redactedSubject, redactedContent, b)
  {
    var raw := ReadRawContent(m.parts, displayed);
    var urls := ExtractURLs(raw, b.hrefs(raw), b.textContent(raw), b.hostOf);
    var bodyContent := if redactedContent != [] then redactedContent else raw;
    var subject := if redactedSubject != [] then redactedSubject else m.subject;
    p := Payload(SenderDomain(m.from), PreprocessSubject(subject), m.date, Body(bodyContent, b), urls);
  }

  // ---------------------------------------------------------------------------------------------
  // The controller

  /** The menu entries. */
  datatype MenuItem = AnalyzeEmail | SubmitEmail

  /** How a `fetch` to the server ended: it threw, or it answered with a status (and, for a prediction,
      the `phishy` field of its body). */
  datatype Reply = Threw | Answer(status: int, phishy: string)

  predicate IsOk(r: Reply) { r.Answer? && 200 <= r.status <= 299 }

  predicate IsAuthFailure(r: Reply) { r.Answer? && (r.status == 401 || r.status == 403) }

  /** The windows the script opens. */
  datatype Window = LoginPopup | SubmissionResult(success: bool) | PredictionWindow(phishy: string) | RedactionWindow(query: string)

  /** The windows an attempt to submit (`predict` false) or predict opens, given whether a message was
      waiting, the stored token (`''` when there is none) and the server's reply. Errors other than an
      authentication failure only open the submission result, and only for a submission. */
  function AttemptWindows(predict: bool, pending: bool, token: string, reply: Reply): seq<Window> {
    if !pending then (if predict then [] else [SubmissionResult(false)])
    else if token == [] then [LoginPopup]
    else if IsOk(reply) then (if predict then [PredictionWindow(reply.phishy)] else [SubmissionResult(true)])
    else if IsAuthFailure(reply) then [LoginPopup]
    else if predict then []
    else [SubmissionResult(false)]
  }

  /** The login window opens exactly when there was a message to send and either no token or an
      authentication failure; a submission that was attempted always reports whether it succeeded. */
  lemma AttemptWindowsMeaning(predict: bool, pending: bool, token: string, reply: Reply)
    ensures LoginPopup in AttemptWindows(predict, pending, token, reply)
      <==> pending && (token == [] || IsAuthFailure(reply))
    ensures !predict && !(pending && (token == [] || IsAuthFailure(reply))) ==>
      AttemptWindows(predict, pending, token, reply) == [SubmissionResult(pending && IsOk(reply))]
    ensures predict ==> forall w :: w in AttemptWindows(predict, pending, token, reply) ==> !w.SubmissionResult?
  {
    if pending && token != [] && IsOk(reply) {
      assert !IsAuthFailure(reply);
    }
  }

  /** The module-level variables of background.js. */
  class Dispatcher {
    var isAuthenticated: bool
    var currentEmailMessage: Option<FullMessage>
    var currentAction: Option<string>

    constructor()
      ensures !isAuthenticated && currentEmailMessage.None? && currentAction.None?
    {
      isAuthenticated := false;
      currentEmailMessage := None;
      currentAction := None;
    }

    /** The `runtime.onMessage` listener for `AUTH_STATUS`. */
    method OnAuthStatus(value: bool)
      modifies this
      ensures isAuthenticated == value
      ensures unchanged(`currentEmailMessage, `currentAction)
    {
      isAuthenticated := value;
    }

    /** `submitRedactedEmail` (`predict` false) and `predictRedactedEmail` (`predict` true). `token` is
        the stored token, `displayed` and `b` what the browser reports for the waiting message, and
        `reply` how the request ended. Returns the payload sent, if any, and the windows opened. */
    method Attempt(predict: bool, subject: string, content: string, token: string,
                   displayed: Option<string>, b: Browser, reply: Reply)
      returns (sent: Option<Payload>, windows: seq<Window>)
      modifies this
      ensures currentEmailMessage.None? && currentAction.None?
      ensures windows == AttemptWindows(predict, old(currentEmailMessage).Some?, token, reply)
      ensures isAuthenticated == if old(currentEmailMessage).Some? && token != [] && IsAuthFailure(reply)
                                 then false else old(isAuthenticated)
      ensures sent.Some? <==> old(currentEmailMessage).Some? && token != []
      ensures sent.Some? ==> sent.value == PayloadOf(old(currentEmailMessage).value,
        RawOf(old(currentEmailMessage).value.parts, displayed), subject, content, b)
    {
      windows := AttemptWindows(predict, currentEmailMessage.Some?, token, reply);
      sent := None;
      if currentEmailMessage.Some? && token != [] {
        var p := EmailToJSON(currentEmailMessage.value, displayed, subject, content, b);
        sent := Some(p);
        if IsAuthFailure(reply) {
          isAuthenticated := false;
        }
      }
      // finally
      currentEmailMessage := None;
      currentAction := None;
    }

    /** The `runtime.onMessage` listener. */
    method OnMessage(msg: Message, token: string, displayed: Option<string>, b: Browser, reply: Reply)
      returns (sent: Option<Payload>, windows: seq<Window>)
      modifies this
      ensures msg.AuthStatus? ==> isAuthenticated == msg.isAuthenticated && sent.None? && windows == []
      ensures msg.AuthStatus? ==> unchanged(`currentEmailMessage, `currentAction)
      ensures !msg.AuthStatus? ==> currentEmailMessage.None? && currentAction.None?
      ensures !msg.AuthStatus? ==>
        windows == AttemptWindows(msg.PredictRedactedEmail?, old(currentEmailMessage).Some?, token, reply)
    {
      match msg
      case AuthStatus(value) =>
        OnAuthStatus(value);
        sent, windows := None, [];
      case SubmitRedactedEmail(s, c) =>
        sent, windows := Attempt(false, s, c, token, displayed, b, reply);
      case PredictRedactedEmail(s, c) =>
        sent, windows := Attempt(true, s, c, token, displayed, b, reply);
    }

    /** The `menus.onClicked` listener. `authOk` is what `checkAuth` finds when the flag is down,
        `selected` the first selected message, if any; `displayed` and `b` are what the browser reports
        for it. A chosen message is kept waiting with its action and the redaction window opened on
        the hand-off query. */
    method OnMenuClick(item: MenuItem, authOk: bool, token: string, selected: Option<FullMessage>,
                       displayed: Option<string>, b: Browser)
      returns (windows: seq<Window>)
      modifies this
      ensures isAuthenticated == (old(isAuthenticated) || authOk)
      ensures !(old(isAuthenticated) || authOk) || token == [] ==>
        windows == [LoginPopup] && unchanged(`currentEmailMessage, `currentAction)
      ensures (old(isAuthenticated) || authOk) && token != [] && selected.None? ==>
        windows == [] && unchanged(`currentEmailMessage, `currentAction)
      ensures (old(isAuthenticated) || authOk) && token != [] && selected.Some? ==>
        && currentEmailMessage == selected
        && currentAction == Some(ActionFor(item))
        && windows == [RedactionWindow(RedactionQuery(selected.value, displayed, ActionFor(item), b))]
    {
      if !isAuthenticated {
        isAuthenticated := authOk;
        if !authOk {
          return [LoginPopup];
        }
      }
      if token == [] {
        return [LoginPopup];
      }
      if selected.None? {
        return [];
      }
      windows := Open(selected.value, displayed, ActionFor(item), b);
    }

    /** The last steps of the menu handler: keep `m` waiting with `action` and open its redaction
        window. */
    method Open(m: FullMessage, displayed: Option<string>, action: string, b: Browser)
      returns (windows: seq<Window>)
      modifies this
      ensures currentEmailMessage == Some(m) && currentAction == Some(action)
      ensures isAuthenticated == old(isAuthenticated)
      ensures windows == [RedactionWindow(RedactionQuery(m, displayed, action, b))]
    {
      var query := ShowRedactionWindow(m, displayed, action, b);
      currentEmailMessage := Some(m);
      currentAction := Some(action);
      windows := [RedactionWindow(query)];
    }
  }

  /** The action each menu entry records. */
  function ActionFor(item: MenuItem): (a: string)
    ensures a == "predict" <==> item == AnalyzeEmail
  {
    match item
    case AnalyzeEmail => "predict"
    case SubmitEmail => "submit"
  }

  /** The query of the redaction window opened for a message: its subject and raw content cleaned,
      the link summary of the raw content, and the action. */
  function RedactionQuery(m: FullMessage, displayed: Option<string>, action: string, b: Browser): string {
    var content := RawOf(m.parts, displayed);
    HandoffQuery(PreprocessSubject(m.subject), Body(content, b), b.stringify(UrlSummary(content, b)), action)
  }

  /** `processMessageParts` and `showRedactionWindow(subject, content)` of the menu handler: the query
      of the window opened. */
  method ShowRedactionWindow(m: FullMessage, displayed: Option<string>, action: string, b: Browser) returns (query: string)
    ensures query == RedactionQuery(m, displayed, action, b)
  {
    var content := ReadRawContent(m.parts, displayed);
    var urls := ExtractURLs(content, b.hrefs(content), b.textContent(content), b.hostOf);
    query := HandoffQuery(PreprocessSubject(m.subject), Body(content, b), b.stringify(urls), action);
  }
}

/** The backend views that route prediction through a chat model: login, submission with
    server-side PII redaction, and the reading of the model's one-word reply. Their `vote`,
    `process_text` and `redact_pii` are the same code as in `VoteViews` and `MlUtils`. */
module OpenAiViews {
  import opened Strings
  import opened Store
  import opened EmailViews
  import MlUtils

  // ---------------------------------------------------------------------------------------------
  // login
  // ---------------------------------------------------------------------------------------------

  datatype Account = Account(id: int, username: string)

  datatype LoginReply = MissingCredentials | InvalidCredentials | LoggedIn(token: string, userId: int, username: string)

  function LoginStatus(r: LoginReply): int {
    match r
    case MissingCredentials => 400
    case InvalidCredentials => 401
    case LoggedIn(_, _, _) => 200
  }

  /** `login`: `authenticate` checks the credentials and `tokenFor` is the user's token, created on
      first use. */
  function Login(username: Option<string>, password: Option<string>,
                 authenticate: (string, string) -> Option<Account>, tokenFor: int -> string): (r: LoginReply)
    ensures r == MissingCredentials <==> !Given(username) || !Given(password)
    ensures r == InvalidCredentials <==> (Given(username) && Given(password)
      && authenticate(username.value, password.value).None?)
    ensures r.LoggedIn? ==> (authenticate(username.value, password.value) == Some(Account(r.userId, r.username))
      && r.token == tokenFor(r.userId))
  {
    if !Given(username) || !Given(password) then MissingCredentials
    else
      match authenticate(username.value, password.value)
      case None => InvalidCredentials
      case Some(account) => LoggedIn(tokenFor(account.id), account.id, account.username)
  }

  // ---------------------------------------------------------------------------------------------
  // submit
  // ---------------------------------------------------------------------------------------------

  /** `submit` with server-side redaction: the fields are checked as sent, then subject and content
      are stored redacted. This view reads no URL list, so the row gets none. */
  function SubmitRedacted(emails: seq<EmailRow>, nextId: int, user: int, s: Submission, now: int,
                          accepts: EmailRow -> bool, p: MlUtils.PiiPatterns): (r: (SubmitReply, seq<EmailRow>, int))
    ensures r.0 == MissingFields <==> !Complete(s)
    ensures !r.0.Created? ==> r.1 == emails && r.2 == nextId
    ensures r.0.Created? ==> var row := r.0.row;
      && r.1 == emails + [row] && r.2 == nextId + 1
      && row.id == nextId && row.owner == user && row.votesPhishing == 0 && row.votesLegitimate == 0
      && Some(row.senderDomain) == s.senderDomain && Some(row.date) == s.date
      && row.subject == MlUtils.RedactPii(s.subject.value, p)
      && row.content == MlUtils.RedactPii(s.content.value, p)
      && row.urls == []
  {
    if !Complete(s) then (MissingFields, emails, nextId)
    else
      MlUtils.RedactPiiNonEmpty(s.subject.value, p);
      MlUtils.RedactPiiNonEmpty(s.content.value, p);
      SubmitEmail(emails, nextId, user, Redacted(s, p), now, accepts)
  }

  /** The submission with subject and content redacted and no URL list. */
  function Redacted(s: Submission, p: MlUtils.PiiPatterns): Submission
    requires Complete(s)
  {
    Submission(s.senderDomain, s.date, Some(MlUtils.RedactPii(s.subject.value, p)),
               Some(MlUtils.RedactPii(s.content.value, p)), None)
  }

  /** `submit` with redaction, on the shared tables. */
  method SubmitWithRedaction(db: Database, user: int, s: Submission, now: int, accepts: EmailRow -> bool,
                             p: MlUtils.PiiPatterns) returns (reply: SubmitReply)
    requires db.Valid()
    modifies db
    ensures (reply, db.emails, db.nextId) == SubmitRedacted(old(db.emails), old(db.nextId), user, s, now, accepts, p)
    ensures unchanged(db`votes)
    ensures db.Valid()
  {
    if !Given(s.senderDomain) || !Given(s.content) || !Given(s.subject) || !Given(s.date) {
      return MissingFields;
    }
    MlUtils.RedactPiiNonEmpty(s.subject.value, p);
    MlUtils.RedactPiiNonEmpty(s.content.value, p);
    reply := Submit(db, user, Redacted(s, p), now, accepts);
  }

  /** When the patterns only ever match text holding an `@` or a decimal digit, a subject and
      content free of both are stored exactly as sent. */
  lemma CleanSubmissionStoredAsSent(emails: seq<EmailRow>, nextId: int, user: int, s: Submission, now: int,
                                    accepts: EmailRow -> bool, p: MlUtils.PiiPatterns)
    requires MlUtils.Plausible(p) && Complete(s)
    requires forall j :: 0 <= j < |s.subject.value| ==> s.subject.value[j] != '@' && !MlUtils.IsDecimal(s.subject.value[j])
    requires forall j :: 0 <= j < |s.content.value| ==> s.content.value[j] != '@' && !MlUtils.IsDecimal(s.content.value[j])
    ensures SubmitRedacted(emails, nextId, user, s, now, accepts, p)
      == SubmitEmail(emails, nextId, user, s.(urls := None), now, accepts)
  {
    MlUtils.RedactPiiClean(s.subject.value, p);
    MlUtils.RedactPiiClean(s.content.value, p);
    assert Redacted(s, p) == s.(urls := None);
  }

  // ---------------------------------------------------------------------------------------------
  // predict
  // ---------------------------------------------------------------------------------------------

  /** The user message sent to the chat model. */
  function Prompt(sender: string, subject: string, content: string): string {
    "Sender Domain: " + sender + "\nSubject: " + subject + "\nContent: " + content
  }

  /** The model's reply means phishing when, stripped and lower-cased, it is `yes`. */
  predicate Verdict(reply: string) {
    LowerString(PyStrip(reply)) == "yes"
  }

  /** Surrounding whitespace never matters. */
  lemma {:induction false} StripPadded(a: string, w: string, b: string)
    requires forall i :: 0 <= i < |a| ==> IsPySpace(a[i])
    requires forall i :: 0 <= i < |b| ==> IsPySpace(b[i])
    requires w != [] && !IsPySpace(w[0]) && !IsPySpace(w[|w| - 1])
    ensures PyStrip(a + w + b) == w
    decreases |a| + |b|
  {
    var s := a + w + b;
    if a != [] {
      assert s[0] == a[0];
      assert s[1..] == a[1..] + w + b;
      StripPadded(a[1..], w, b);
    } else if b != [] {
      assert s == w + b;
      assert s[0] == w[0] && s[|s| - 1] == b[|b| - 1];
      assert s[..|s| - 1] == [] + w + b[..|b| - 1];
      StripPadded([], w, b[..|b| - 1]);
    } else {
      assert s == w;
    }
  }

  /** A reply that is one word between whitespace means phishing exactly when the word is `yes` in
      any mix of cases. */
  lemma VerdictPadded(a: string, w: string, b: string)
    requires forall i :: 0 <= i < |a| ==> IsPySpace(a[i])
    requires forall i :: 0 <= i < |b| ==> IsPySpace(b[i])
    requires w != [] && !IsPySpace(w[0]) && !IsPySpace(w[|w| - 1])
    ensures Verdict(a + w + b) <==> LowerString(w) == "yes"
  {
    StripPadded(a, w, b);
  }

  /** `predict`: missing fields read as empty; `chat` is the model's reply to the prompt. */
  function PredictByChat(sender: Option<string>, subject: Option<string>, content: Option<string>,
                         chat: string -> string): (r: string)
    ensures r == "yes" <==> Verdict(chat(Prompt(Or(sender, ""), Or(subject, ""), Or(content, ""))))
    ensures r == "yes" || r == "no"
  {
    Phishy(Verdict(chat(Prompt(Or(sender, ""), Or(subject, ""), Or(content, "")))))
  }
}

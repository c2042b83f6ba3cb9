/** The submission and prediction views of the backend: a submitted email is stored exactly as the
    extension sent it (the extension has already redacted it), and a prediction is the classifier's
    verdict as `yes` or `no`. */
module EmailViews {
  import opened Strings
  import opened Store
  import MlUtils

  /** The fields of a request body; a key the body does not carry is `None`. */
  datatype Submission = Submission(senderDomain: Option<string>, date: Option<string>,
                                   subject: Option<string>, content: Option<string>,
                                   urls: Option<seq<string>>)

  /** A field that Python treats as true: present and not the empty string. */
  predicate Given(f: Option<string>) {
    f.Some? && f.value != []
  }

  predicate Complete(s: Submission) {
    Given(s.senderDomain) && Given(s.content) && Given(s.subject) && Given(s.date)
  }

  /** `data.get(key, default)`. */
  function Or<T>(f: Option<T>, default: T): T {
    if f.Some? then f.value else default
  }

  datatype SubmitReply = MissingFields | Invalid | Created(row: EmailRow)

  function SubmitStatus(r: SubmitReply): int {
    match r
    case MissingFields => 400
    case Invalid => 400
    case Created(_) => 201
  }

  /** The reply, the new email table and the next id after `user` submits `s` at time `now`.
      `accepts` is the database's own check of a row, whose `ValidationError` becomes a 400. */
  function SubmitEmail(emails: seq<EmailRow>, nextId: int, user: int, s: Submission, now: int,
                       accepts: EmailRow -> bool): (r: (SubmitReply, seq<EmailRow>, int))
    ensures r.0 == MissingFields <==> !Complete(s)
    ensures !r.0.Created? ==> r.1 == emails && r.2 == nextId
    ensures r.0.Created? ==> var row := r.0.row;
      && r.1 == emails + [row] && r.2 == nextId + 1
      && row.id == nextId && row.owner == user && row.createdAt == now
      && row.votesPhishing == 0 && row.votesLegitimate == 0
      && Some(row.senderDomain) == s.senderDomain && Some(row.date) == s.date
      && Some(row.subject) == s.subject && Some(row.content) == s.content
      && row.urls == Or(s.urls, [])
  {
    if !Complete(s) then (MissingFields, emails, nextId)
    else
      var row := EmailRow(nextId, user, s.senderDomain.value, s.subject.value, s.date.value,
                          s.content.value, Or(s.urls, []), now, 0, 0);
      if accepts(row) then (Created(row), emails + [row], nextId + 1) else (Invalid, emails, nextId)
  }

  /** `submit` on the shared tables. */
  method Submit(db: Database, user: int, s: Submission, now: int, accepts: EmailRow -> bool) returns (reply: SubmitReply)
    requires db.Valid()
    modifies db
    ensures (reply, db.emails, db.nextId) == SubmitEmail(old(db.emails), old(db.nextId), user, s, now, accepts)
    ensures unchanged(db`votes)
    ensures db.Valid()
  {
    if !Given(s.senderDomain) || !Given(s.content) || !Given(s.subject) || !Given(s.date) {
      return MissingFields;
    }
    var row := EmailRow(db.nextId, user, s.senderDomain.value, s.subject.value, s.date.value,
                        s.content.value, Or(s.urls, []), now, 0, 0);
    if !accepts(row) {
      return Invalid;
    }
    db.emails := db.emails + [row];
    db.nextId := db.nextId + 1;
    reply := Created(row);
    SubmitEmailValid(old(db.emails), db.votes, old(db.nextId), user, s, now, accepts);
  }

  /** A submission keeps the tables valid, and the new email, with no votes yet, is tallied. */
  lemma SubmitEmailValid(emails: seq<EmailRow>, votes: seq<VoteRow>, nextId: int, user: int,
                         s: Submission, now: int, accepts: EmailRow -> bool)
    requires ValidTables(emails, votes, nextId)
    ensures var r := SubmitEmail(emails, nextId, user, s, now, accepts);
      ValidTables(r.1, votes, r.2) && (Tallied(emails, votes) ==> Tallied(r.1, votes))
  {
    var r := SubmitEmail(emails, nextId, user, s, now, accepts);
    if r.0.Created? {
      NoBallots(votes, nextId, true);
      NoBallots(votes, nextId, false);
      assert forall k :: 0 <= k < |emails| ==> r.1[k] == emails[k];
    }
  }

  /** `'yes' if is_phishing else 'no'`. */
  function Phishy(isPhishing: bool): (r: string)
    ensures (r == "yes" <==> isPhishing) && (r == "no" <==> !isPhishing)
  {
    if isPhishing then "yes" else "no"
  }

  /** `predict`: missing fields read as empty, and the answer is the classifier's verdict on the
      normalised sender, subject and content. */
  function Predict(sender: Option<string>, subject: Option<string>, content: Option<string>,
                   classify: string -> int): (r: string)
    ensures r == "yes" <==> classify(MlUtils.ProcessText(Or(sender, "")) + " " + MlUtils.ProcessText(Or(subject, ""))
                                     + " " + MlUtils.ProcessText(Or(content, ""))) == 1
    ensures r == "yes" || r == "no"
  {
    Phishy(MlUtils.PredictPhishing(Or(sender, ""), Or(subject, ""), Or(content, ""), classify))
  }
}

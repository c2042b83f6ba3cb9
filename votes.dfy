/** The voting views of the backend: casting a vote (one per user and email, with the counters
    moved on a change of mind), deleting one's own email, and the listing the voting page reads. */
module VoteViews {
  import opened Strings
  import opened Store

  // ---------------------------------------------------------------------------------------------
  // vote
  // ---------------------------------------------------------------------------------------------

  datatype VoteReply = MissingData | EmailNotFound | AlreadyVoted | Recorded(votesPhishing: int, votesLegitimate: int)

  /** The status code each reply is sent with, as written: a repeated vote is a 400. */
  function VoteStatus(r: VoteReply): int {
    match r
    case MissingData => 400
    case EmailNotFound => 404
    case AlreadyVoted => 400
    case Recorded(_, _) => 200
  }

  /** The `error` text of the reply to a repeated vote. */
  const AlreadyVotedMessage := "You have already voted this way for this email"

  /** The status codes the web client expects: a repeated vote is a conflict (409); every other reply
      keeps its status. */
  function IntendedVoteStatus(r: VoteReply): (status: int)
    ensures r == AlreadyVoted ==> status == 409
    ensures r != AlreadyVoted ==> status == VoteStatus(r)
    ensures IsSuccess(status) <==> r.Recorded?
  {
    if r == AlreadyVoted then 409 else VoteStatus(r)
  }

  predicate IsSuccess(status: int) {
    200 <= status <= 299
  }

  /** `max(0, n)`. */
  function Floor(n: int): (r: int)
    ensures r >= 0 && r >= n && (n >= 0 ==> r == n)
  {
    if n < 0 then 0 else n
  }

  /** The direction of the vote `user` holds on `emailId`, if any. */
  function HeldVote(votes: seq<VoteRow>, user: int, emailId: int): Option<bool> {
    match FindVote(votes, user, emailId)
    case None => None
    case Some(k) => Some(votes[k].isPhishing)
  }

  /** The counters after a vote in direction `isPhishing` by a user whose previous vote was
      `previous`: the chosen counter goes up by one and, on a change of mind, the other one goes
      down by one but not below zero. */
  function Tally(e: EmailRow, previous: Option<bool>, isPhishing: bool): (r: EmailRow)
    requires previous != Some(isPhishing)
    ensures r == e.(votesPhishing := r.votesPhishing, votesLegitimate := r.votesLegitimate)
    ensures isPhishing ==> (r.votesPhishing == e.votesPhishing + 1
      && r.votesLegitimate == (if previous.Some? then Floor(e.votesLegitimate - 1) else e.votesLegitimate))
    ensures !isPhishing ==> (r.votesLegitimate == e.votesLegitimate + 1
      && r.votesPhishing == (if previous.Some? then Floor(e.votesPhishing - 1) else e.votesPhishing))
  {
    var lowered :=
      match previous
      case None => e
      case Some(wasPhishing) =>
        if wasPhishing then e.(votesPhishing := Floor(e.votesPhishing - 1))
        else e.(votesLegitimate := Floor(e.votesLegitimate - 1));
    if isPhishing then lowered.(votesPhishing := lowered.votesPhishing + 1)
    else lowered.(votesLegitimate := lowered.votesLegitimate + 1)
  }

  /** The reply and the new tables after `user` posts `email_id` and `is_phishing`. */
  function CastVote(emails: seq<EmailRow>, votes: seq<VoteRow>, user: int,
                    emailId: Option<int>, isPhishing: Option<bool>): (r: (VoteReply, seq<EmailRow>, seq<VoteRow>))
    ensures r.0 == MissingData <==> emailId.None? || isPhishing.None?
    ensures r.0 == EmailNotFound <==> emailId.Some? && isPhishing.Some? && FindEmail(emails, emailId.value).None?
    ensures r.0 == AlreadyVoted <==> (emailId.Some? && isPhishing.Some? && FindEmail(emails, emailId.value).Some?
      && HeldVote(votes, user, emailId.value) == isPhishing)
    ensures !r.0.Recorded? ==> r.1 == emails && r.2 == votes
    ensures r.0.Recorded? ==> |r.1| == |emails| && HeldVote(r.2, user, emailId.value) == isPhishing
  {
    if emailId.None? || isPhishing.None? then (MissingData, emails, votes)
    else
      match FindEmail(emails, emailId.value)
      case None => (EmailNotFound, emails, votes)
      case Some(i) =>
        var p := isPhishing.value;
        var held := HeldVote(votes, user, emailId.value);
        if held == Some(p) then (AlreadyVoted, emails, votes)
        else
          var row := Tally(emails[i], held, p);
          var ballot := VoteRow(user, emailId.value, p);
          var existing := FindVote(votes, user, emailId.value);
          var votes' := if existing.Some? then votes[existing.value := ballot] else votes + [ballot];
          HeldAfter(votes, votes', user, emailId.value, ballot);
          (Recorded(row.votesPhishing, row.votesLegitimate), emails[i := row], votes')
  }

  /** After storing `ballot` as the user's vote, the vote found for the user is `ballot`. */
  lemma HeldAfter(votes: seq<VoteRow>, votes': seq<VoteRow>, user: int, emailId: int, ballot: VoteRow)
    requires ballot.user == user && ballot.emailId == emailId
    requires var existing := FindVote(votes, user, emailId);
      votes' == if existing.Some? then votes[existing.value := ballot] else votes + [ballot]
    ensures HeldVote(votes', user, emailId) == Some(ballot.isPhishing)
  {
    var existing := FindVote(votes, user, emailId);
    if existing.Some? {
      FindVoteUpdate(votes, existing.value, ballot);
    } else {
      assert votes'[|votes'| - 1] == ballot;
    }
  }

  /** Rewriting the vote the lookup found keeps the lookup pointing at it. */
  lemma {:induction false} FindVoteUpdate(votes: seq<VoteRow>, k: nat, ballot: VoteRow)
    requires k < |votes| && ballot.user == votes[k].user && ballot.emailId == votes[k].emailId
    requires FindVote(votes, ballot.user, ballot.emailId) == Some(k)
    ensures FindVote(votes[k := ballot], ballot.user, ballot.emailId) == Some(k)
    decreases |votes|
  {
    var n := |votes|;
    if k < n - 1 {
      assert votes[k := ballot][..n - 1] == votes[..n - 1][k := ballot];
      FindVoteUpdate(votes[..n - 1], k, ballot);
    }
  }

  /** `vote`, step by step on the shared tables. */
  method Vote(db: Database, user: int, emailId: Option<int>, isPhishing: Option<bool>) returns (reply: VoteReply)
    requires db.Valid()
    modifies db
    ensures (reply, db.emails, db.votes) == CastVote(old(db.emails), old(db.votes), user, emailId, isPhishing)
    ensures unchanged(db`nextId)
    ensures db.Valid()
  {
    CastVoteValid(db.emails, db.votes, db.nextId, user, emailId, isPhishing);
    if emailId.None? || isPhishing.None? {
      return MissingData;
    }
    var found := FindEmail(db.emails, emailId.value);
    if found.None? {
      return EmailNotFound;
    }
    var i, p := found.value, isPhishing.value;
    var email := db.emails[i];
    var existing := FindVote(db.votes, user, emailId.value);
    if existing.Some? {
      if db.votes[existing.value].isPhishing == p {
        return AlreadyVoted;
      }
      if db.votes[existing.value].isPhishing {
        email := email.(votesPhishing := Floor(email.votesPhishing - 1));
      } else {
        email := email.(votesLegitimate := Floor(email.votesLegitimate - 1));
      }
      db.votes := db.votes[existing.value := VoteRow(user, emailId.value, p)];
    } else {
      db.votes := db.votes + [VoteRow(user, emailId.value, p)];
    }
    if p {
      email := email.(votesPhishing := email.votesPhishing + 1);
    } else {
      email := email.(votesLegitimate := email.votesLegitimate + 1);
    }
    db.emails := db.emails[i := email];
    reply := Recorded(email.votesPhishing, email.votesLegitimate);
  }

  /** A vote keeps the tables valid: in particular a user never holds two votes on one email and
      no counter goes negative. */
  lemma CastVoteValid(emails: seq<EmailRow>, votes: seq<VoteRow>, nextId: int, user: int,
                      emailId: Option<int>, isPhishing: Option<bool>)
    requires ValidTables(emails, votes, nextId)
    ensures var r := CastVote(emails, votes, user, emailId, isPhishing);
      ValidTables(r.1, r.2, nextId)
  {
    var r := CastVote(emails, votes, user, emailId, isPhishing);
    if r.0.Recorded? {
      var i := FindEmail(emails, emailId.value).value;
      var existing := FindVote(votes, user, emailId.value);
      var ballot := VoteRow(user, emailId.value, isPhishing.value);
      assert r.1 == emails[i := Tally(emails[i], HeldVote(votes, user, emailId.value), isPhishing.value)];
      assert r.2 == if existing.Some? then votes[existing.value := ballot] else votes + [ballot];
      assert emailId.value < nextId;
      if existing.None? {
        assert forall k :: 0 <= k < |r.2| - 1 ==> r.2[k] == votes[k];
      }
    }
  }

  /** A vote keeps every counter equal to the number of votes in its direction; on such tables the
      floor at zero never has anything to do. */
  lemma CastVoteTallied(emails: seq<EmailRow>, votes: seq<VoteRow>, nextId: int, user: int,
                        emailId: Option<int>, isPhishing: Option<bool>)
    requires ValidTables(emails, votes, nextId) && Tallied(emails, votes)
    ensures var r := CastVote(emails, votes, user, emailId, isPhishing);
      Tallied(r.1, r.2)
  {
    var r := CastVote(emails, votes, user, emailId, isPhishing);
    if r.0.Recorded? {
      var id, p := emailId.value, isPhishing.value;
      var i := FindEmail(emails, id).value;
      var existing := FindVote(votes, user, id);
      var ballot := VoteRow(user, id, p);
      var row := Tally(emails[i], HeldVote(votes, user, id), p);
      assert r.1 == emails[i := row];
      if existing.Some? {
        var votes' := votes[existing.value := ballot];
        assert r.2 == votes';
        RecountChanged(emails, votes, i, existing.value, ballot);
        TalliedAfter(emails, votes, votes', i, row);
      } else {
        var votes' := votes + [ballot];
        assert r.2 == votes';
        RecountAdded(emails, votes, i, ballot);
        TalliedAfter(emails, votes, votes', i, row);
      }
    }
  }

  /** Replacing one row's counters by the new counts of its votes, when no other email's votes
      changed, keeps the tables tallied. */
  lemma TalliedAfter(emails: seq<EmailRow>, votes: seq<VoteRow>, votes': seq<VoteRow>, i: nat, row: EmailRow)
    requires i < |emails| && Tallied(emails, votes)
    requires forall a, b :: 0 <= a < b < |emails| ==> emails[a].id != emails[b].id
    requires row.id == emails[i].id
    requires row.votesPhishing == Ballots(votes', row.id, true)
    requires row.votesLegitimate == Ballots(votes', row.id, false)
    requires forall p: bool, k :: 0 <= k < |emails| && k != i ==>
      Ballots(votes', emails[k].id, p) == Ballots(votes, emails[k].id, p)
    ensures Tallied(emails[i := row], votes')
  {
    var r := emails[i := row];
    forall k | 0 <= k < |r|
      ensures r[k].votesPhishing == Ballots(votes', r[k].id, true)
      ensures r[k].votesLegitimate == Ballots(votes', r[k].id, false)
    {
      if k != i {
        assert Ballots(votes', emails[k].id, true) == Ballots(votes, emails[k].id, true);
        assert Ballots(votes', emails[k].id, false) == Ballots(votes, emails[k].id, false);
      }
    }
  }

  /** A change of mind: the user's vote on `emails[i]` is replaced by `ballot`. */
  lemma RecountChanged(emails: seq<EmailRow>, votes: seq<VoteRow>, i: nat, k0: nat, ballot: VoteRow)
    requires i < |emails| && k0 < |votes| && Tallied(emails, votes)
    requires forall a, b :: 0 <= a < b < |emails| ==> emails[a].id != emails[b].id
    requires votes[k0].emailId == emails[i].id && ballot.emailId == emails[i].id
    requires votes[k0].isPhishing != ballot.isPhishing
    ensures var row := Tally(emails[i], Some(votes[k0].isPhishing), ballot.isPhishing);
      var votes' := votes[k0 := ballot];
      && row.id == emails[i].id
      && row.votesPhishing == Ballots(votes', row.id, true)
      && row.votesLegitimate == Ballots(votes', row.id, false)
      && forall p: bool, k :: 0 <= k < |emails| && k != i ==>
           Ballots(votes', emails[k].id, p) == Ballots(votes, emails[k].id, p)
  {
    var id := emails[i].id;
    BallotCounted(votes, k0);
    BallotsUpdate(votes, k0, ballot, id, true);
    BallotsUpdate(votes, k0, ballot, id, false);
    forall p: bool, k | 0 <= k < |emails| && k != i
      ensures Ballots(votes[k0 := ballot], emails[k].id, p) == Ballots(votes, emails[k].id, p)
    {
      assert emails[k].id != id;
      BallotsUpdate(votes, k0, ballot, emails[k].id, p);
    }
  }

  /** A first vote: `ballot` is appended. */
  lemma RecountAdded(emails: seq<EmailRow>, votes: seq<VoteRow>, i: nat, ballot: VoteRow)
    requires i < |emails| && Tallied(emails, votes)
    requires forall a, b :: 0 <= a < b < |emails| ==> emails[a].id != emails[b].id
    requires ballot.emailId == emails[i].id
    ensures var row := Tally(emails[i], None, ballot.isPhishing);
      var votes' := votes + [ballot];
      && row.id == emails[i].id
      && row.votesPhishing == Ballots(votes', row.id, true)
      && row.votesLegitimate == Ballots(votes', row.id, false)
      && forall p: bool, k :: 0 <= k < |emails| && k != i ==>
           Ballots(votes', emails[k].id, p) == Ballots(votes, emails[k].id, p)
  {
    var id := emails[i].id;
    BallotsAppend(votes, ballot, id, true);
    BallotsAppend(votes, ballot, id, false);
    forall p: bool, k | 0 <= k < |emails| && k != i
      ensures Ballots(votes + [ballot], emails[k].id, p) == Ballots(votes, emails[k].id, p)
    {
      assert emails[k].id != id;
      BallotsAppend(votes, ballot, emails[k].id, p);
    }
  }

  /** The scenario of the backend's test: a first vote for phishing, then a change to legitimate,
      leaves one vote (legitimate) and the counters at 0 and 1. */
  lemma ChangeOfMind(e: EmailRow, user: int)
    requires e.votesPhishing == 0 && e.votesLegitimate == 0
    ensures var first := CastVote([e], [], user, Some(e.id), Some(true));
      var second := CastVote(first.1, first.2, user, Some(e.id), Some(false));
      && first.0 == Recorded(1, 0) && second.0 == Recorded(0, 1)
      && second.2 == [VoteRow(user, e.id, false)]
  {
    var first := CastVote([e], [], user, Some(e.id), Some(true));
    assert FindEmail([e], e.id) == Some(0);
    assert FindVote([], user, e.id) == None;
    assert first.2 == [VoteRow(user, e.id, true)];
    assert first.1 == [e.(votesPhishing := 1)];
    assert FindEmail(first.1, e.id) == Some(0);
    assert FindVote(first.2, user, e.id) == Some(0);
  }

  // ---------------------------------------------------------------------------------------------
  // delete_email
  // ---------------------------------------------------------------------------------------------

  datatype DeleteReply = NotFound | Forbidden | Deleted

  function DeleteStatus(r: DeleteReply): int {
    match r
    case NotFound => 404
    case Forbidden => 403
    case Deleted => 200
  }

  /** The reply and the new email table after `user` asks to delete email `id`. */
  function RemoveEmail(emails: seq<EmailRow>, user: int, id: int): (r: (DeleteReply, seq<EmailRow>))
    ensures r.0 == NotFound <==> FindEmail(emails, id).None?
    ensures r.0 == Forbidden <==> FindEmail(emails, id).Some? && emails[FindEmail(emails, id).value].owner != user
    ensures !r.0.Deleted? ==> r.1 == emails
    ensures r.0.Deleted? ==> |r.1| == |emails| - 1
  {
    match FindEmail(emails, id)
    case None => (NotFound, emails)
    case Some(i) =>
      if emails[i].owner != user then (Forbidden, emails)
      else (Deleted, emails[..i] + emails[i + 1..])
  }

  /** `delete_email` on the shared tables. */
  method DeleteEmail(db: Database, user: int, id: int) returns (reply: DeleteReply)
    requires db.Valid()
    modifies db
    ensures (reply, db.emails) == RemoveEmail(old(db.emails), user, id)
    ensures unchanged(db`votes, db`nextId)
    ensures db.Valid()
  {
    var found := FindEmail(db.emails, id);
    if found.None? {
      return NotFound;
    }
    var i := found.value;
    if db.emails[i].owner != user {
      return Forbidden;
    }
    db.emails := db.emails[..i] + db.emails[i + 1..];
    reply := Deleted;
    RemoveEmailValid(old(db.emails), db.votes, db.nextId, user, id);
  }

  /** Where the rows sit once the row at `i` is taken out. */
  lemma RemoveAt(emails: seq<EmailRow>, i: nat)
    requires i < |emails|
    ensures var r := emails[..i] + emails[i + 1..];
      |r| == |emails| - 1 && forall k :: 0 <= k < |r| ==> r[k] == emails[if k < i then k else k + 1]
  {
  }

  /** Only the owner deletes, and afterwards the email is gone while every other row stays. */
  lemma RemoveEmailMeaning(emails: seq<EmailRow>, votes: seq<VoteRow>, nextId: int, user: int, id: int)
    requires ValidTables(emails, votes, nextId)
    ensures var r := RemoveEmail(emails, user, id);
      && (r.0 == Deleted <==> exists k :: 0 <= k < |emails| && emails[k].id == id && emails[k].owner == user)
      && (r.0 == Deleted ==> forall e :: e in r.1 <==> e in emails && e.id != id)
  {
    var r := RemoveEmail(emails, user, id);
    var found := FindEmail(emails, id);
    if found.Some? {
      var i := found.value;
      assert forall k :: 0 <= k < |emails| && emails[k].id == id ==> k == i;
      if r.0 == Deleted {
        RemoveAt(emails, i);
        forall e | e in emails && e.id != id ensures e in r.1 {
          var k :| 0 <= k < |emails| && emails[k] == e;
          assert r.1[if k < i then k else k - 1] == e;
        }
        forall e | e in r.1 ensures e in emails && e.id != id {
          var k :| 0 <= k < |r.1| && r.1[k] == e;
          assert e == emails[if k < i then k else k + 1];
        }
      }
    }
  }

  /** A deletion keeps the tables valid and keeps every remaining counter equal to its votes. */
  lemma RemoveEmailValid(emails: seq<EmailRow>, votes: seq<VoteRow>, nextId: int, user: int, id: int)
    requires ValidTables(emails, votes, nextId)
    ensures var r := RemoveEmail(emails, user, id);
      ValidTables(r.1, votes, nextId) && (Tallied(emails, votes) ==> Tallied(r.1, votes))
  {
    var r := RemoveEmail(emails, user, id);
    if r.0 == Deleted {
      var i := FindEmail(emails, id).value;
      RemoveAt(emails, i);
      forall a, b | 0 <= a < b < |r.1| ensures r.1[a].id != r.1[b].id {
        assert r.1[a] == emails[if a < i then a else a + 1];
        assert r.1[b] == emails[if b < i then b else b + 1];
      }
    }
  }

  // ---------------------------------------------------------------------------------------------
  // get_emails
  // ---------------------------------------------------------------------------------------------

  /** One row of the listing, with the requester-dependent annotations. */
  datatype ListedEmail = ListedEmail(id: int, senderDomain: string, subject: string, content: string,
                                     urls: seq<string>, votesPhishing: int, votesLegitimate: int,
                                     userVote: bool, userVoteType: Option<string>, isMine: bool)

  /** `request.GET.get(name, '').lower() == 'true'`. */
  function Flag(param: Option<string>): (r: bool)
    ensures r <==> param.Some? && |param.value| == 4 && LowerString(param.value) == "true"
  {
    LowerString(if param.Some? then param.value else "") == "true"
  }

  /** The annotations `user_vote`, `user_vote_type` and `is_mine` of one email for `user`. */
  function Listed(e: EmailRow, votes: seq<VoteRow>, user: int): (r: ListedEmail)
    ensures r.id == e.id && r.senderDomain == e.senderDomain && r.subject == e.subject && r.content == e.content
    ensures r.urls == e.urls
    ensures r.votesPhishing == e.votesPhishing && r.votesLegitimate == e.votesLegitimate
    ensures r.isMine <==> e.owner == user
    ensures r.userVote <==> exists k :: 0 <= k < |votes| && votes[k].user == user && votes[k].emailId == e.id
    ensures r.userVoteType.Some? <==> r.userVote
  {
    var held := HeldVote(votes, user, e.id);
    ListedEmail(e.id, e.senderDomain, e.subject, e.content, e.urls, e.votesPhishing, e.votesLegitimate,
                held.Some?, if held == Some(true) then Some("phishing") else if held == Some(false) then Some("legitimate") else None,
                e.owner == user)
  }

  /** With one vote per user and email, the annotation names the direction of the requester's vote. */
  lemma ListedVoteType(e: EmailRow, votes: seq<VoteRow>, nextId: int, emails: seq<EmailRow>, user: int, p: bool)
    requires ValidTables(emails, votes, nextId)
    ensures Listed(e, votes, user).userVoteType == Some(if p then "phishing" else "legitimate")
      <==> VoteRow(user, e.id, p) in votes
  {
    var found := FindVote(votes, user, e.id);
    if VoteRow(user, e.id, p) in votes {
      var k :| 0 <= k < |votes| && votes[k] == VoteRow(user, e.id, p);
      assert found.value == k;
    }
  }

  /** An email nobody has voted on. */
  predicate Unvoted(votes: seq<VoteRow>, emailId: int) {
    forall k :: 0 <= k < |votes| ==> votes[k].emailId != emailId
  }

  /** The emails kept by the `show_mine` and `show_unvoted` filters, in table order. */
  function Selected(emails: seq<EmailRow>, votes: seq<VoteRow>, user: int, mine: bool, unvoted: bool): (r: seq<EmailRow>)
    ensures |r| <= |emails|
    ensures forall e :: e in r <==> e in emails && (mine ==> e.owner == user) && (unvoted ==> Unvoted(votes, e.id))
    decreases |emails|
  {
    if emails == [] then []
    else
      var e := emails[|emails| - 1];
      var rest := Selected(emails[..|emails| - 1], votes, user, mine, unvoted);
      assert forall x :: x in emails <==> x in emails[..|emails| - 1] || x == e;
      if (mine ==> e.owner == user) && (unvoted ==> Unvoted(votes, e.id)) then rest + [e] else rest
  }

  predicate NewestOrdered(s: seq<EmailRow>) {
    forall i, j :: 0 <= i < j < |s| ==> s[i].createdAt >= s[j].createdAt
  }

  /** Puts `x` before the first row that is not newer than it. */
  function InsertNewest(x: EmailRow, s: seq<EmailRow>): seq<EmailRow>
    decreases |s|
  {
    if s == [] || x.createdAt >= s[0].createdAt then [x] + s
    else [s[0]] + InsertNewest(x, s[1..])
  }

  lemma InsertNewestFacts(x: EmailRow, s: seq<EmailRow>)
    requires NewestOrdered(s)
    ensures multiset(InsertNewest(x, s)) == multiset(s) + multiset{x}
    ensures forall y :: y in InsertNewest(x, s) ==> y == x || y in s
    ensures NewestOrdered(InsertNewest(x, s))
  {
    InsertNewestMultiset(x, s);
    InsertNewestOrdered(x, s);
    forall y | y in InsertNewest(x, s) ensures y == x || y in s {
      assert y in multiset(InsertNewest(x, s));
    }
  }

  lemma {:induction false} InsertNewestMultiset(x: EmailRow, s: seq<EmailRow>)
    ensures multiset(InsertNewest(x, s)) == multiset(s) + multiset{x}
    decreases |s|
  {
    if s != [] && x.createdAt < s[0].createdAt {
      InsertNewestMultiset(x, s[1..]);
      assert s == [s[0]] + s[1..];
    }
  }

  /** Inserting keeps the order, and the new head is `x` or the old head. */
  lemma {:induction false} InsertNewestOrdered(x: EmailRow, s: seq<EmailRow>)
    requires NewestOrdered(s)
    ensures var r := InsertNewest(x, s);
      && NewestOrdered(r) && r != []
      && r[0] == (if s == [] || x.createdAt >= s[0].createdAt then x else s[0])
    decreases |s|
  {
    if s != [] && x.createdAt < s[0].createdAt {
      var tail := InsertNewest(x, s[1..]);
      InsertNewestOrdered(x, s[1..]);
      var r := [s[0]] + tail;
      assert tail[0].createdAt <= s[0].createdAt by {
        if |s| > 1 && tail[0] == s[1..][0] {
          assert s[1] == s[1..][0];
        }
      }
      forall i, j | 0 <= i < j < |r| ensures r[i].createdAt >= r[j].createdAt {
        assert r[j] == tail[j - 1];
        if i > 0 {
          assert r[i] == tail[i - 1];
        } else if j > 1 {
          assert tail[0].createdAt >= tail[j - 1].createdAt;
        }
      }
    }
  }

  /** `order_by('-created_at')`: most recent first. The database leaves the order among rows created
      at the same instant open; this is one admissible order, ties in table order. */
  function NewestFirst(s: seq<EmailRow>): (r: seq<EmailRow>)
    ensures NewestOrdered(r) && multiset(r) == multiset(s)
    decreases |s|
  {
    if s == [] then []
    else
      assert s == [s[0]] + s[1..];
      InsertNewestFacts(s[0], NewestFirst(s[1..]));
      InsertNewest(s[0], NewestFirst(s[1..]))
  }

  /** `get_emails` for `user` with the query parameters `show_mine` and `show_unvoted`: one annotated
      row per kept email, in the listing order. What the listing means is `ListingMeaning`. */
  function Listing(emails: seq<EmailRow>, votes: seq<VoteRow>, user: int,
                   showMine: Option<string>, showUnvoted: Option<string>): (r: seq<ListedEmail>)
    ensures var ordered := NewestFirst(Selected(emails, votes, user, Flag(showMine), Flag(showUnvoted)));
      |r| == |ordered| && forall k :: 0 <= k < |r| ==> r[k] == Listed(ordered[k], votes, user)
  {
    var ordered := NewestFirst(Selected(emails, votes, user, Flag(showMine), Flag(showUnvoted)));
    seq(|ordered|, k requires 0 <= k < |ordered| => Listed(ordered[k], votes, user))
  }

  /** The listing holds exactly the emails the filters keep, newest first; with `show_mine` every row
      is the requester's own. */
  lemma ListingMeaning(emails: seq<EmailRow>, votes: seq<VoteRow>, user: int,
                       showMine: Option<string>, showUnvoted: Option<string>)
    ensures var r := Listing(emails, votes, user, showMine, showUnvoted);
      var ordered := NewestFirst(Selected(emails, votes, user, Flag(showMine), Flag(showUnvoted)));
      && (forall e :: e in ordered <==> (e in emails && (Flag(showMine) ==> e.owner == user)
                                        && (Flag(showUnvoted) ==> Unvoted(votes, e.id))))
      && NewestOrdered(ordered)
      && (Flag(showMine) ==> forall k :: 0 <= k < |r| ==> r[k].isMine)
  {
    var selected := Selected(emails, votes, user, Flag(showMine), Flag(showUnvoted));
    var ordered := NewestFirst(selected);
    forall e ensures e in ordered <==> e in selected {
      assert e in ordered <==> e in multiset(ordered);
      assert e in selected <==> e in multiset(selected);
    }
    var r := Listing(emails, votes, user, showMine, showUnvoted);
    forall k | 0 <= k < |r| ensures Flag(showMine) ==> r[k].isMine {
      assert ordered[k] in ordered;
    }
  }
}

/** The two tables the backend views share: submitted emails and the users' votes on them. The
    Django ORM is reduced to these rows; `objects.get`, `filter(...).first()` and `create` become
    the lookups below and the views' updates of the `Database` fields. */
module Store {
  import opened Strings

  datatype EmailRow = EmailRow(id: int, owner: int, senderDomain: string, subject: string,
                               date: string, content: string, urls: seq<string>, createdAt: int,
                               votesPhishing: int, votesLegitimate: int)

  datatype VoteRow = VoteRow(user: int, emailId: int, isPhishing: bool)

  /** Row ids are unique and below the next id to hand out, counters are never negative, votes
      refer to ids already handed out, and a user holds at most one vote per email. */
  predicate ValidTables(emails: seq<EmailRow>, votes: seq<VoteRow>, nextId: int) {
    && (forall i, j :: 0 <= i < j < |emails| ==> emails[i].id != emails[j].id)
    && (forall i :: 0 <= i < |emails| ==>
          emails[i].id < nextId && emails[i].votesPhishing >= 0 && emails[i].votesLegitimate >= 0)
    && (forall i :: 0 <= i < |votes| ==> votes[i].emailId < nextId)
    && (forall i, j :: 0 <= i < j < |votes| ==>
          votes[i].user != votes[j].user || votes[i].emailId != votes[j].emailId)
  }

  /** `Email.objects.get(id=id)`: the row with that id, if any. */
  function FindEmail(emails: seq<EmailRow>, id: int): (r: Option<nat>)
    ensures r.Some? ==> r.value < |emails| && emails[r.value].id == id
    ensures r.None? ==> forall i :: 0 <= i < |emails| ==> emails[i].id != id
    decreases |emails|
  {
    if emails == [] then None
    else if emails[|emails| - 1].id == id then Some(|emails| - 1)
    else FindEmail(emails[..|emails| - 1], id)
  }

  /** `Vote.objects.filter(user=user, email=email).first()`. */
  function FindVote(votes: seq<VoteRow>, user: int, emailId: int): (r: Option<nat>)
    ensures r.Some? ==> r.value < |votes| && votes[r.value].user == user && votes[r.value].emailId == emailId
    ensures r.None? ==> forall i :: 0 <= i < |votes| ==> votes[i].user != user || votes[i].emailId != emailId
    decreases |votes|
  {
    if votes == [] then None
    else if votes[|votes| - 1].user == user && votes[|votes| - 1].emailId == emailId then Some(|votes| - 1)
    else FindVote(votes[..|votes| - 1], user, emailId)
  }

  /** The number of votes in `votes` on `emailId` in the direction `isPhishing`. */
  function Ballots(votes: seq<VoteRow>, emailId: int, isPhishing: bool): nat
    decreases |votes|
  {
    if votes == [] then 0
    else
      var v := votes[|votes| - 1];
      Ballots(votes[..|votes| - 1], emailId, isPhishing) + (if v.emailId == emailId && v.isPhishing == isPhishing then 1 else 0)
  }

  /** Each email's counters are the numbers of its votes in each direction. The views keep this
      for rows they created; rows written to the tables by other means need not satisfy it. */
  predicate Tallied(emails: seq<EmailRow>, votes: seq<VoteRow>) {
    forall i :: 0 <= i < |emails| ==>
      emails[i].votesPhishing == Ballots(votes, emails[i].id, true)
      && emails[i].votesLegitimate == Ballots(votes, emails[i].id, false)
  }

  lemma {:induction false} BallotsAppend(votes: seq<VoteRow>, v: VoteRow, emailId: int, isPhishing: bool)
    ensures Ballots(votes + [v], emailId, isPhishing)
      == Ballots(votes, emailId, isPhishing) + (if v.emailId == emailId && v.isPhishing == isPhishing then 1 else 0)
  {
    assert (votes + [v])[..|votes|] == votes;
  }

  /** Replacing one vote moves it from its old count to its new one. */
  lemma {:induction false} BallotsUpdate(votes: seq<VoteRow>, k: nat, v: VoteRow, emailId: int, isPhishing: bool)
    requires k < |votes|
    ensures var old_v := votes[k];
      Ballots(votes[k := v], emailId, isPhishing) + (if old_v.emailId == emailId && old_v.isPhishing == isPhishing then 1 else 0)
      == Ballots(votes, emailId, isPhishing) + (if v.emailId == emailId && v.isPhishing == isPhishing then 1 else 0)
    decreases |votes|
  {
    var n := |votes|;
    if k == n - 1 {
      assert votes[k := v] == votes[..n - 1] + [v];
      BallotsAppend(votes[..n - 1], v, emailId, isPhishing);
    } else {
      assert votes[k := v][..n - 1] == votes[..n - 1][k := v];
      BallotsUpdate(votes[..n - 1], k, v, emailId, isPhishing);
    }
  }

  /** The vote a user holds on an email is counted in its direction. */
  lemma {:induction false} BallotCounted(votes: seq<VoteRow>, k: nat)
    requires k < |votes|
    ensures Ballots(votes, votes[k].emailId, votes[k].isPhishing) >= 1
    decreases |votes|
  {
    if k < |votes| - 1 {
      BallotCounted(votes[..|votes| - 1], k);
    }
  }

  /** Nobody has voted on an id that was never handed out. */
  lemma {:induction false} NoBallots(votes: seq<VoteRow>, emailId: int, isPhishing: bool)
    requires forall i :: 0 <= i < |votes| ==> votes[i].emailId != emailId
    ensures Ballots(votes, emailId, isPhishing) == 0
    decreases |votes|
  {
    if votes != [] {
      NoBallots(votes[..|votes| - 1], emailId, isPhishing);
    }
  }

  /** The shared tables, with the id the next `create` hands out. */
  class Database {
    var emails: seq<EmailRow>
    var votes: seq<VoteRow>
    var nextId: int

    predicate Valid()
      reads this
    {
      ValidTables(emails, votes, nextId)
    }

    constructor()
      ensures Valid() && emails == [] && votes == [] && nextId == 1
    {
      emails, votes, nextId := [], [], 1;
    }
  }
}

/** The email card of the voting page: the link total it parses back out of the URL summary
    strings the extension produced, and the states of its vote and delete controls. */
module EmailCard {
  import opened Strings
  import Preprocessing

  // ---------------------------------------------------------------------------------------------
  // Parsing `(n link)` / `(n links)` out of a summary entry
  // ---------------------------------------------------------------------------------------------

  /** The position just past the run of ASCII digits that starts at `i`. */
  function DigitEnd(s: string, i: nat): (e: nat)
    requires i <= |s|
    ensures i <= e <= |s|
    ensures forall k :: i <= k < e ==> IsAsciiDigit(s[k])
    ensures e == |s| || !IsAsciiDigit(s[e])
    decreases |s| - i
  {
    if i == |s| || !IsAsciiDigit(s[i]) then i else DigitEnd(s, i + 1)
  }

  /** The pattern `\((\d+) links?\)` matches at `i`. The digit group always takes the whole run of
      digits after the parenthesis: the pattern goes on with a space, which no digit can stand for. */
  predicate LinkMatchAt(s: string, i: nat) {
    i < |s| && s[i] == '(' &&
    var e := DigitEnd(s, i + 1);
    e > i + 1 && (Preprocessing.HasPrefixAt(s, " link)", e) || Preprocessing.HasPrefixAt(s, " links)", e))
  }

  /** The leftmost match at or after `i`, as `String.prototype.match` finds it. */
  function FirstLinkMatch(s: string, i: nat): (r: Option<nat>)
    requires i <= |s|
    ensures r.Some? ==> i <= r.value < |s| && LinkMatchAt(s, r.value)
    ensures r.Some? ==> forall k :: i <= k < r.value ==> !LinkMatchAt(s, k)
    ensures r.None? ==> forall k :: i <= k < |s| ==> !LinkMatchAt(s, k)
    decreases |s| - i
  {
    if i == |s| then None
    else if LinkMatchAt(s, i) then Some(i)
    else FirstLinkMatch(s, i + 1)
  }

  /** What one entry adds to `totalLinks`: `parseInt` of the digit group of the first match, or 0
      when the entry has no match. */
  function LinkCount(entry: string): nat {
    match FirstLinkMatch(entry, 0)
    case None => 0
    case Some(i) =>
      var digits := entry[i + 1..DigitEnd(entry, i + 1)];
      assert AllDigits(digits) by {
        forall m | 0 <= m < |digits| ensures IsAsciiDigit(digits[m]) {
          assert digits[m] == entry[i + 1 + m];
        }
      }
      DigitsValue(digits)
  }

  /** `totalLinks`: the left-to-right sum of the entries' counts. */
  function TotalLinks(urls: seq<string>): nat
    decreases |urls|
  {
    if urls == [] then 0 else TotalLinks(urls[..|urls| - 1]) + LinkCount(urls[|urls| - 1])
  }

  // ---------------------------------------------------------------------------------------------
  // The round trip with the extension's summary format
  // ---------------------------------------------------------------------------------------------

  /** Where the pieces of `host + " (" + digits + " link" + suffix + ")"` sit. */
  lemma LabelLayout(host: string, digits: string, suffix: string)
    ensures var s := host + " (" + digits + " link" + suffix + ")";
      && |s| == |host| + |digits| + |suffix| + 8
      && (forall m :: 0 <= m < |host| ==> s[m] == host[m])
      && s[|host|] == ' ' && s[|host| + 1] == '('
      && (forall m :: 0 <= m < |digits| ==> s[|host| + 2 + m] == digits[m])
      && s[|host| + 2 + |digits|..] == " link" + suffix + ")"
  {
  }

  /** A run of digits from `i` that stops at `e` is the one `DigitEnd` finds. */
  lemma {:induction false} DigitEndAt(s: string, i: nat, e: nat)
    requires i <= e <= |s|
    requires forall k :: i <= k < e ==> IsAsciiDigit(s[k])
    requires e == |s| || !IsAsciiDigit(s[e])
    ensures DigitEnd(s, i) == e
    decreases e - i
  {
    if i < e {
      DigitEndAt(s, i + 1, e);
    }
  }

  /** Neither ending of the pattern can start at `e` when `s[e]` is not a space or `s[e + 1]` is
      not an `l`. */
  lemma NoEndingAt(s: string, e: nat)
    requires e + 1 < |s|
    requires s[e] != ' ' || s[e + 1] != 'l'
    ensures !Preprocessing.HasPrefixAt(s, " link)", e) && !Preprocessing.HasPrefixAt(s, " links)", e)
  {
    if e + 6 <= |s| {
      assert s[e..e + 6][0] == s[e] && s[e..e + 6][1] == s[e + 1];
    }
    if e + 7 <= |s| {
      assert s[e..e + 7][0] == s[e] && s[e..e + 7][1] == s[e + 1];
    }
  }

  /** No match starts inside a hostname without spaces, nor on the space after it. */
  lemma NoMatchInHost(s: string, host: string, m: nat)
    requires |host| + 1 < |s| && ' ' !in host
    requires forall k :: 0 <= k < |host| ==> s[k] == host[k]
    requires s[|host|] == ' ' && s[|host| + 1] == '('
    requires m <= |host|
    ensures !LinkMatchAt(s, m)
  {
    if m < |host| && s[m] == '(' {
      var e := DigitEnd(s, m + 1);
      assert !IsAsciiDigit(s[|host|]);
      assert e <= |host|;
      if e < |host| {
        assert s[e] == host[e] && host[e] in host;
      }
      NoEndingAt(s, e);
    }
  }

  /** The digits and the ending of a formatted label form a match at its parenthesis. */
  lemma MatchAtLabel(host: string, n: nat)
    ensures var s := Preprocessing.LinkLabel(host, n);
      var d := NatToString(n);
      && DigitEnd(s, |host| + 2) == |host| + 2 + |d|
      && LinkMatchAt(s, |host| + 1)
      && s[|host| + 2..|host| + 2 + |d|] == d
  {
    var s := Preprocessing.LinkLabel(host, n);
    var d := NatToString(n);
    var suffix := if n == 1 then "" else "s";
    LabelLayout(host, d, suffix);
    var e := |host| + 2 + |d|;
    assert s[e] == (" link" + suffix + ")")[0];
    DigitEndAt(s, |host| + 2, e);
    if n == 1 {
      assert s[e..e + 6] == " link)";
    } else {
      assert s[e..e + 7] == " links)";
    }
    assert s[|host| + 2..e] == d;
  }

  /** The first match in a formatted label is the one at its parenthesis. */
  lemma LabelFirstMatch(host: string, n: nat)
    requires ' ' !in host
    ensures FirstLinkMatch(Preprocessing.LinkLabel(host, n), 0) == Some(|host| + 1)
  {
    var s := Preprocessing.LinkLabel(host, n);
    LabelLayout(host, NatToString(n), if n == 1 then "" else "s");
    MatchAtLabel(host, n);
    var k := |host| + 1;
    forall m | 0 <= m < k ensures !LinkMatchAt(s, m) {
      NoMatchInHost(s, host, m);
    }
  }

  /** Reading a formatted label gives back its count, for a hostname without spaces (a WHATWG URL
      host never holds one). */
  lemma LabelCount(host: string, n: nat)
    requires ' ' !in host
    ensures LinkCount(Preprocessing.LinkLabel(host, n)) == n
  {
    LabelFirstMatch(host, n);
    MatchAtLabel(host, n);
    ParseFormatted(n);
  }

  // ---------------------------------------------------------------------------------------------
  // The total over a whole summary
  // ---------------------------------------------------------------------------------------------

  /** The sum of the multiplicities in `hosts` of the hostnames in `order`. */
  function CountSum(order: seq<string>, hosts: multiset<string>): nat
    decreases |order|
  {
    if order == [] then 0 else CountSum(order[..|order| - 1], hosts) + hosts[order[|order| - 1]]
  }

  /** The total of the labels is the sum of the counts they were formatted from. */
  lemma {:induction false} LabelsTotal(order: seq<string>, hosts: multiset<string>)
    requires forall h :: h in order ==> ' ' !in h
    ensures TotalLinks(Preprocessing.Labels(order, hosts)) == CountSum(order, hosts)
    decreases |order|
  {
    if order != [] {
      var init, last := order[..|order| - 1], order[|order| - 1];
      var labels := Preprocessing.Labels(order, hosts);
      assert labels[..|labels| - 1] == Preprocessing.Labels(init, hosts);
      assert labels[|labels| - 1] == Preprocessing.LinkLabel(last, hosts[last]);
      assert forall h :: h in init ==> h in order;
      LabelsTotal(init, hosts);
      LabelCount(last, hosts[last]);
    }
  }

  /** Adding one more occurrence of `h` raises the sum by one exactly when `h` is listed. */
  lemma {:induction false} CountSumAdd(order: seq<string>, hosts: multiset<string>, h: string)
    requires forall i, j :: 0 <= i < j < |order| ==> order[i] != order[j]
    ensures CountSum(order, hosts + multiset{h}) == CountSum(order, hosts) + (if h in order then 1 else 0)
    decreases |order|
  {
    if order != [] {
      var init, last := order[..|order| - 1], order[|order| - 1];
      assert h in order <==> h in init || h == last;
      if h in init {
        var i :| 0 <= i < |init| && init[i] == h;
        assert order[i] == h && order[|order| - 1] == last;
      }
      CountSumAdd(init, hosts, h);
    }
  }

  /** Over the hostnames in order of first appearance, the multiplicities add up to the number of
      accepted links. */
  lemma {:induction false} CountSumAll(hs: seq<string>)
    ensures CountSum(Preprocessing.FirstSeen(hs), multiset(hs)) == |hs|
    decreases |hs|
  {
    if hs != [] {
      var init, h := hs[..|hs| - 1], hs[|hs| - 1];
      var order := Preprocessing.FirstSeen(init);
      assert hs == init + [h];
      assert multiset(hs) == multiset(init) + multiset{h};
      CountSumAll(init);
      CountSumAdd(order, multiset(init), h);
      if h !in order {
        assert h !in multiset(init);
        var grown := order + [h];
        assert grown[..|grown| - 1] == order;
      }
    }
  }

  /** The card's link total over the entries the extension produced for the accepted hostnames
      `hs` is the number of accepted links. */
  lemma SummaryTotal(hs: seq<string>)
    requires forall h :: h in hs ==> ' ' !in h
    ensures TotalLinks(Preprocessing.Summary(hs)) == |hs|
  {
    LabelsTotal(Preprocessing.FirstSeen(hs), multiset(hs));
    CountSumAll(hs);
  }

  // ---------------------------------------------------------------------------------------------
  // The controls of the card
  // ---------------------------------------------------------------------------------------------

  /** The fields of an email the card reads. */
  datatype Email = Email(id: int, senderDomain: string, subject: string, content: string,
                         urls: seq<string>, votesPhishing: int, votesLegitimate: int,
                         userVote: bool, userVoteType: Option<string>, isMine: bool)

  /** What a click asks the page to do. */
  datatype Request = CastVote(emailId: int, isPhishing: bool) | DeleteEmail(emailId: int)

  datatype Button = Button(caption: string, disabled: bool, onClick: Request)

  /** The phishing and the legitimate vote buttons. */
  function VoteButtons(e: Email): (r: (Button, Button))
    ensures r.0.onClick == CastVote(e.id, true) && r.1.onClick == CastVote(e.id, false)
    ensures r.0.disabled <==> e.userVoteType == Some("phishing")
    ensures r.1.disabled <==> e.userVoteType == Some("legitimate")
    ensures r.0.caption == "Current: Phishing" <==> r.0.disabled
    ensures r.1.caption == "Current: Legitimate" <==> r.1.disabled
    ensures !(r.0.disabled && r.1.disabled)
  {
    var phishing := e.userVoteType == Some("phishing");
    var legitimate := e.userVoteType == Some("legitimate");
    (Button(if phishing then "Current: Phishing" else "Phishing", phishing, CastVote(e.id, true)),
     Button(if legitimate then "Current: Legitimate" else "Legitimate", legitimate, CastVote(e.id, false)))
  }

  /** `s` ends with `p`. */
  predicate EndsWith(s: string, p: string) {
    |p| <= |s| && s[|s| - |p|..] == p
  }

  /** The "current vote" line: shown only to a user who has voted, with a hint to click
      whenever the recorded type is neither of the two a button can cast. */
  function CurrentVoteLine(e: Email): (r: Option<string>)
    ensures r.Some? <==> e.userVote
    ensures r.Some? ==> "Your current vote: " <= r.value
    ensures r.Some? ==>
      (EndsWith(r.value, " (Click to vote)") <==> !VoteButtons(e).0.disabled && !VoteButtons(e).1.disabled)
  {
    if !e.userVote then None
    else
      var shown := match e.userVoteType case Some(t) => t case None => "";
      var known := e.userVoteType == Some("phishing") || e.userVoteType == Some("legitimate");
      var line := "Your current vote: " + shown;
      if known then
        assert line[|line| - 1] != ')';
        Some(line)
      else
        assert EndsWith(line + " (Click to vote)", " (Click to vote)");
        Some(line + " (Click to vote)")
  }

  /** The delete control: present only on the requester's own emails. */
  function DeleteButton(e: Email): (r: Option<Request>)
    ensures r.Some? <==> e.isMine
    ensures r.Some? ==> r.value == DeleteEmail(e.id)
  {
    if e.isMine then Some(DeleteEmail(e.id)) else None
  }

  /** The heading of the links section, which is shown only when there are entries. */
  function LinksHeading(e: Email): (r: Option<string>)
    ensures r.Some? <==> |e.urls| > 0
    ensures r.Some? ==> r.value == "Links in Email (" + NatToString(TotalLinks(e.urls)) + ")"
  {
    if |e.urls| > 0 then Some("Links in Email (" + NatToString(TotalLinks(e.urls)) + ")") else None
  }

  /** The heading of a card whose entries are the extension's summary of `hs` shows `|hs|`. */
  lemma HeadingCountsLinks(e: Email, hs: seq<string>)
    requires e.urls == Preprocessing.Summary(hs) && hs != []
    requires forall h :: h in hs ==> ' ' !in h
    ensures LinksHeading(e) == Some("Links in Email (" + NatToString(|hs|) + ")")
  {
    Preprocessing.SummaryEntries(hs);
    assert hs[0] in Preprocessing.FirstSeen(hs);
    SummaryTotal(hs);
  }
}

/** The redaction window (extension/redaction.js): the session that receives an e-mail from the
    background script, lets the user choose what to redact, previews the result and sends the redacted
    subject and content back. */
module Redaction {
  import opened Strings
  import opened UriCodec

  // ---------------------------------------------------------------------------------------------
  // Replacement tags

  const EmailTag: string := "[REDACTED EMAIL]"
  const PhoneTag: string := "[REDACTED PHONE]"
  const SsnTag: string := "[REDACTED SSN]"
  const CustomTag: string := "[REDACTED]"
  const UrlTag: string := "[REDACTED URL]"

  /** The three expressions of `PATTERNS` (e-mail address, phone number, social security number), seen
      only through the matches they report. */
  datatype Engines = Engines(email: Matcher, phone: Matcher, ssn: Matcher)

  /** The three checkboxes `redactEmails`, `redactPhones`, `redactSSN`. */
  datatype Toggles = Toggles(emails: bool, phones: bool, ssns: bool)

  // ---------------------------------------------------------------------------------------------
  // Insertion-ordered sets (`Set` iterates in insertion order)

  predicate Distinct(s: seq<string>) {
    forall i, j :: 0 <= i < j < |s| ==> s[i] != s[j]
  }

  /** `set.add(x)`. */
  function Insert(s: seq<string>, x: string): (r: seq<string>)
    ensures forall y :: y in r <==> y in s || y == x
    ensures Distinct(s) ==> Distinct(r)
    ensures x in s ==> r == s
  {
    if x in s then s else s + [x]
  }

  /** `set.delete(x)`. */
  function Remove(s: seq<string>, x: string): (r: seq<string>)
    ensures forall y :: y in r <==> y in s && y != x
    ensures Distinct(s) ==> Distinct(r)
    ensures x !in s ==> r == s
    decreases |s|
  {
    if s == [] then []
    else
      var t := Remove(s[..|s| - 1], x);
      assert forall y :: y in s <==> y in s[..|s| - 1] || y == s[|s| - 1];
      if s[|s| - 1] == x then t
      else
        assert s[|s| - 1] !in t ==> Distinct(s) ==> Distinct(t + [s[|s| - 1]]);
        t + [s[|s| - 1]]
  }

  /** Adding every element of `xs` in turn, as `xs.forEach(x => set.add(x))` and `new Set(xs)` do. */
  function InsertAll(s: seq<string>, xs: seq<string>): (r: seq<string>)
    ensures Distinct(s) ==> Distinct(r)
    decreases |xs|
  {
    if xs == [] then s else Insert(InsertAll(s, xs[..|xs| - 1]), xs[|xs| - 1])
  }

  /** After adding a list, the set holds exactly what it held before and the list's elements. */
  lemma {:induction false} InsertAllMembers(s: seq<string>, xs: seq<string>)
    ensures forall y :: y in InsertAll(s, xs) <==> y in s || y in xs
    decreases |xs|
  {
    if xs != [] {
      InsertAllMembers(s, xs[..|xs| - 1]);
      assert xs == xs[..|xs| - 1] + [xs[|xs| - 1]];
    }
  }

  /** `xs.forEach(x => set.add(x))`. */
  method AddEach(s: seq<string>, xs: seq<string>) returns (r: seq<string>)
    requires Distinct(s)
    ensures r == InsertAll(s, xs) && Distinct(r)
  {
    r := s;
    for i := 0 to |xs|
      invariant r == InsertAll(s, xs[..i])
    {
      assert xs[..i + 1][..i] == xs[..i];
      r := Insert(r, xs[i]);
    }
    assert xs[..|xs|] == xs;
  }

  /** Adding an element twice is the same as adding it once. */
  lemma InsertTwice(s: seq<string>, x: string)
    ensures Insert(Insert(s, x), x) == Insert(s, x)
  {
  }

  /** Deleting right after adding a new element gives back the set as it was. */
  lemma {:induction false} RemoveInserted(s: seq<string>, x: string)
    requires x !in s
    ensures Remove(Insert(s, x), x) == s
  {
    var r := s + [x];
    assert r[..|r| - 1] == s;
  }

  // ---------------------------------------------------------------------------------------------
  // getRedactedText

  /** The built-in passes, e-mail, then phone, then SSN, each only when its box is checked. */
  function BuiltInPass(text: string, toggles: Toggles, engines: Engines): string {
    var a := if toggles.emails then ReplaceMatches(text, engines.email, EmailTag, 0) else text;
    var b := if toggles.phones then ReplaceMatches(a, engines.phone, PhoneTag, 0) else a;
    if toggles.ssns then ReplaceMatches(b, engines.ssn, SsnTag, 0) else b
  }

  /** The custom patterns in insertion order: each non-empty one, regex-escaped, is replaced as a literal
      without regard to case. */
  function CustomPass(text: string, patterns: seq<string>): string
    decreases |patterns|
  {
    if patterns == [] then text
    else
      var before := CustomPass(text, patterns[..|patterns| - 1]);
      var p := patterns[|patterns| - 1];
      if p == [] then before else ReplaceAll(before, p, CustomTag, true)
  }

  /** The ticked URL entries in insertion order, each replaced as a literal with regard to case (an empty
      entry makes the empty expression, which matches at every position). */
  function UrlPass(text: string, urls: seq<string>): string
    decreases |urls|
  {
    if urls == [] then text
    else ReplaceLiteral(UrlPass(text, urls[..|urls| - 1]), urls[|urls| - 1], UrlTag, false)
  }

  /** What `getRedactedText(text)` returns. */
  function Redacted(text: string, toggles: Toggles, engines: Engines, patterns: seq<string>, urls: seq<string>): string {
    UrlPass(CustomPass(BuiltInPass(text, toggles, engines), patterns), urls)
  }

  /** Whatever came before, a non-empty custom pattern that cannot be found in the tags or across their
      edges is absent, in any case, from the redacted text. */
  lemma {:induction false} CustomPassRemoves(text: string, patterns: seq<string>, p: string)
    requires p in patterns && p != [] && OutsideTag(p, CustomTag, true)
    ensures !Contains(CustomPass(text, patterns), p, true)
    decreases |patterns|
  {
    var init := patterns[..|patterns| - 1];
    var q := patterns[|patterns| - 1];
    var before := CustomPass(text, init);
    if q == p {
      PatternGone(before, p, CustomTag, true);
    } else {
      assert p in init by {
        assert patterns == init + [q];
      }
      CustomPassRemoves(text, init, p);
      if q != [] {
        AbsenceKept(before, p, q, CustomTag, true, true);
      }
    }
  }

  /** Later URL passes never bring back a pattern that is absent. */
  lemma {:induction false} UrlPassKeeps(text: string, urls: seq<string>, p: string, ci: bool)
    requires p != [] && OutsideTag(p, UrlTag, ci) && !Contains(text, p, ci)
    ensures !Contains(UrlPass(text, urls), p, ci)
    decreases |urls|
  {
    if urls != [] {
      UrlPassKeeps(text, urls[..|urls| - 1], p, ci);
      AbsenceKept(UrlPass(text, urls[..|urls| - 1]), p, urls[|urls| - 1], UrlTag, ci, false);
    }
  }

  lemma {:induction false} UrlPassRemoves(text: string, urls: seq<string>, u: string)
    requires u in urls && u != [] && OutsideTag(u, UrlTag, false)
    ensures !Contains(UrlPass(text, urls), u, false)
    decreases |urls|
  {
    var init := urls[..|urls| - 1];
    var last := urls[|urls| - 1];
    var before := UrlPass(text, init);
    if last == u {
      PatternGone(before, u, UrlTag, false);
    } else {
      assert u in init by {
        assert urls == init + [last];
      }
      UrlPassRemoves(text, init, u);
      AbsenceKept(before, u, last, UrlTag, false, false);
    }
  }

  /** No custom pattern survives redaction, in any letter case, unless it can be found inside a tag or
      across a tag's brackets (a pattern such as `RED` or `D]`, which the design accepts). */
  lemma CustomPatternsGone(text: string, toggles: Toggles, engines: Engines, patterns: seq<string>, urls: seq<string>, p: string)
    requires p in patterns && p != []
    requires OutsideTag(p, CustomTag, true) && OutsideTag(p, UrlTag, true)
    ensures !Contains(Redacted(text, toggles, engines, patterns, urls), p, true)
  {
    var afterCustom := CustomPass(BuiltInPass(text, toggles, engines), patterns);
    CustomPassRemoves(BuiltInPass(text, toggles, engines), patterns, p);
    UrlPassKeeps(afterCustom, urls, p, true);
  }

  /** No ticked URL entry survives redaction, under the same proviso. */
  lemma UrlsGone(text: string, toggles: Toggles, engines: Engines, patterns: seq<string>, urls: seq<string>, u: string)
    requires u in urls && u != [] && OutsideTag(u, UrlTag, false)
    ensures !Contains(Redacted(text, toggles, engines, patterns, urls), u, false)
  {
    UrlPassRemoves(CustomPass(BuiltInPass(text, toggles, engines), patterns), urls, u);
  }

  // ---------------------------------------------------------------------------------------------
  // Preview

  const OpenSpan: string := "<span class=\"redacted\">"
  const CloseSpan: string := "</span>"
  const Marker: string := "[REDACTED"

  /** `text.replace(/\[REDACTED[^\]]*\]/g, m => '<span class="redacted">' + m + '</span>')`: a match
      runs from `[REDACTED` to the first `]` after it, and the scan resumes just past that `]`. */
  function Highlight(s: string): (r: string)
    decreases |s|
  {
    if s == [] then []
    else if MarkerAt(s) then
      var k := |Marker| + IndexOfBracket(s[|Marker|..]);
      OpenSpan + s[..k + 1] + CloseSpan + Highlight(s[k + 1..])
    else [s[0]] + Highlight(s[1..])
  }

  function IndexOfBracket(s: string): (i: nat)
    requires ']' in s
    ensures i < |s| && s[i] == ']'
    decreases |s|
  {
    if s[0] == ']' then 0 else IndexOfBracket(s[1..]) + 1
  }

  /** `.replace(/\n/g, '<br>')`. */
  function Breaks(s: string): string
    decreases |s|
  {
    if s == [] then [] else (if s[0] == '\n' then "<br>" else [s[0]]) + Breaks(s[1..])
  }

  /** Reading a preview back: the wrappers dropped and `<br>` turned back into a line feed. */
  function Unwrap(h: string): string
    decreases |h|
  {
    if h == [] then []
    else if h[0] != '<' then [h[0]] + Unwrap(h[1..])
    else if |h| >= |OpenSpan| && h[..|OpenSpan|] == OpenSpan then Unwrap(h[|OpenSpan|..])
    else if |h| >= |CloseSpan| && h[..|CloseSpan|] == CloseSpan then Unwrap(h[|CloseSpan|..])
    else if |h| >= 4 && h[..4] == "<br>" then ['\n'] + Unwrap(h[4..])
    else [h[0]] + Unwrap(h[1..])
  }

  lemma UnwrapOpen(rest: string)
    ensures Unwrap(OpenSpan + rest) == Unwrap(rest)
  {
    assert (OpenSpan + rest)[..|OpenSpan|] == OpenSpan;
    assert (OpenSpan + rest)[|OpenSpan|..] == rest;
  }

  lemma UnwrapClose(rest: string)
    ensures Unwrap(CloseSpan + rest) == Unwrap(rest)
  {
    var h := CloseSpan + rest;
    assert h[..|CloseSpan|] == CloseSpan;
    if |h| >= |OpenSpan| {
      assert h[..|OpenSpan|][1] != OpenSpan[1];
    }
    assert h[|CloseSpan|..] == rest;
  }

  lemma UnwrapPlain(c: char, rest: string)
    requires c != '<'
    ensures Unwrap([c] + rest) == [c] + Unwrap(rest)
  {
    assert ([c] + rest)[1..] == rest;
  }

  lemma {:induction false} UnwrapPlainText(a: string, rest: string)
    requires '<' !in a
    ensures Unwrap(a + rest) == a + Unwrap(rest)
    decreases |a|
  {
    if a == [] {
      assert a + rest == rest;
    } else {
      assert a + rest == [a[0]] + (a[1..] + rest);
      UnwrapPlain(a[0], a[1..] + rest);
      UnwrapPlainText(a[1..], rest);
      assert a == [a[0]] + a[1..];
    }
  }

  lemma WrappedUnwraps(m: string, t: string)
    requires '<' !in m
    ensures Unwrap(OpenSpan + m + CloseSpan + t) == m + Unwrap(t)
  {
    assert OpenSpan + m + CloseSpan + t == OpenSpan + (m + (CloseSpan + t));
    UnwrapOpen(m + (CloseSpan + t));
    UnwrapPlainText(m, CloseSpan + t);
    UnwrapClose(t);
  }

  predicate MarkerAt(s: string) {
    |s| >= |Marker| && s[..|Marker|] == Marker && ']' in s[|Marker|..]
  }

  /** Where a match starts, it is wrapped and the scan resumes after its `]`. */
  lemma HighlightMarked(s: string) returns (k: nat)
    requires MarkerAt(s)
    ensures k < |s| && Highlight(s) == OpenSpan + s[..k + 1] + CloseSpan + Highlight(s[k + 1..])
  {
    k := |Marker| + IndexOfBracket(s[|Marker|..]);
  }

  lemma HighlightCopied(s: string)
    requires s != [] && !MarkerAt(s)
    ensures Highlight(s) == [s[0]] + Highlight(s[1..])
  {
  }

  lemma NoLtSlice(s: string, a: nat, b: nat)
    requires a <= b <= |s| && '<' !in s
    ensures '<' !in s[a..b]
  {
    assert forall c :: c in s[a..b] ==> c in s;
  }

  /** The subject preview shows exactly the redacted subject, the wrappers aside, whenever the text has
      no `<` of its own. */
  lemma {:induction false} HighlightUnwraps(s: string)
    requires '<' !in s
    ensures Unwrap(Highlight(s)) == s
    decreases |s|
  {
    if s != [] {
      if MarkerAt(s) {
        var k := HighlightMarked(s);
        NoLtSlice(s, 0, k + 1);
        NoLtSlice(s, k + 1, |s|);
        assert s[k + 1..|s|] == s[k + 1..];
        HighlightUnwraps(s[k + 1..]);
        WrappedUnwraps(s[..k + 1], Highlight(s[k + 1..]));
        assert s[..k + 1] + s[k + 1..] == s;
      } else {
        HighlightCopied(s);
        NoLtSlice(s, 1, |s|);
        assert s[1..|s|] == s[1..];
        HighlightUnwraps(s[1..]);
        UnwrapPlain(s[0], Highlight(s[1..]));
      }
    }
  }

  lemma {:induction false} BreaksAppend(a: string, b: string)
    ensures Breaks(a + b) == Breaks(a) + Breaks(b)
    decreases |a|
  {
    if a != [] {
      assert (a + b)[0] == a[0] && (a + b)[1..] == a[1..] + b;
      BreaksAppend(a[1..], b);
    } else {
      assert a + b == b;
    }
  }

  lemma UnwrapBreak(rest: string)
    ensures Unwrap("<br>" + rest) == ['\n'] + Unwrap(rest)
  {
    var h := "<br>" + rest;
    if |h| >= |OpenSpan| {
      assert h[..|OpenSpan|][1] != OpenSpan[1];
    }
    if |h| >= |CloseSpan| {
      assert h[..|CloseSpan|][1] != CloseSpan[1];
    }
    assert h[..4] == "<br>" && h[4..] == rest;
  }

  lemma UnwrapBreakChar(c: char, rest: string)
    requires c != '<'
    ensures Unwrap((if c == '\n' then "<br>" else [c]) + rest) == [c] + Unwrap(rest)
  {
    if c == '\n' {
      UnwrapBreak(rest);
    } else {
      UnwrapPlain(c, rest);
    }
  }

  lemma {:induction false} BreaksCons(a: string, rest: string)
    requires a != []
    ensures Breaks(a) + rest == (if a[0] == '\n' then "<br>" else [a[0]]) + (Breaks(a[1..]) + rest)
  {
  }

  /** A line feed turned into `<br>` reads back as the line feed. */
  lemma {:induction false} UnwrapBreaks(a: string, rest: string)
    requires '<' !in a
    ensures Unwrap(Breaks(a) + rest) == a + Unwrap(rest)
    decreases |a|
  {
    if a == [] {
      assert Breaks(a) + rest == rest;
    } else {
      BreaksCons(a, rest);
      UnwrapBreakChar(a[0], Breaks(a[1..]) + rest);
      UnwrapBreaks(a[1..], rest);
      assert a == [a[0]] + a[1..];
    }
  }

  lemma {:induction false} BreaksPlain(a: string)
    requires '\n' !in a
    ensures Breaks(a) == a
    decreases |a|
  {
    if a != [] {
      BreaksPlain(a[1..]);
      assert a == [a[0]] + a[1..];
    }
  }

  lemma {:induction false} BreaksPrefix(o: string, x: string)
    requires '\n' !in o
    ensures Breaks(o + x) == o + Breaks(x)
  {
    BreaksAppend(o, x);
    BreaksPlain(o);
  }

  lemma {:induction false} BreaksAround(o: string, m: string, c: string, t: string)
    requires '\n' !in o && '\n' !in c
    ensures Breaks(o + (m + (c + t))) == o + (Breaks(m) + (c + Breaks(t)))
  {
    BreaksPrefix(c, t);
    BreaksAppend(m, c + t);
    BreaksPrefix(o, m + (c + t));
  }

  lemma Regroup(o: string, m: string, c: string, t: string)
    ensures o + m + c + t == o + (m + (c + t))
  {
  }

  /** A wrapped match in the content preview reads back as the match. */
  lemma {:induction false} UnwrapMarkedBreaks(m: string, t: string)
    requires '<' !in m
    ensures Unwrap(Breaks(OpenSpan + m + CloseSpan + t)) == m + Unwrap(Breaks(t))
  {
    Regroup(OpenSpan, m, CloseSpan, t);
    BreaksAround(OpenSpan, m, CloseSpan, t);
    UnwrapOpen(Breaks(m) + (CloseSpan + Breaks(t)));
    UnwrapBreaks(m, CloseSpan + Breaks(t));
    UnwrapClose(Breaks(t));
  }

  lemma {:induction false} UnwrapPlainBreaks(c: char, t: string)
    requires c != '<'
    ensures Unwrap(Breaks([c] + t)) == [c] + Unwrap(Breaks(t))
  {
    BreaksAppend([c], t);
    UnwrapBreaks([c], Breaks(t));
  }

  /** The content preview, line breaks shown as `<br>`, reads back as exactly the redacted content,
      whenever the text has no `<` of its own. */
  lemma {:induction false} ContentPreviewUnwraps(s: string)
    requires '<' !in s
    ensures Unwrap(Breaks(Highlight(s))) == s
    decreases |s|
  {
    if s != [] {
      if MarkerAt(s) {
        var k := HighlightMarked(s);
        NoLtSlice(s, 0, k + 1);
        NoLtSlice(s, k + 1, |s|);
        assert s[k + 1..|s|] == s[k + 1..];
        ContentPreviewUnwraps(s[k + 1..]);
        UnwrapMarkedBreaks(s[..k + 1], Highlight(s[k + 1..]));
        assert s[..k + 1] + s[k + 1..] == s;
      } else {
        HighlightCopied(s);
        NoLtSlice(s, 1, |s|);
        assert s[1..|s|] == s[1..];
        ContentPreviewUnwraps(s[1..]);
        UnwrapPlainBreaks(s[0], Highlight(s[1..]));
      }
    }
  }

  // ---------------------------------------------------------------------------------------------
  // Hand-off and messages

  /** What the load handler keeps of one handed-off field: `URLSearchParams.get` followed by
      `safeDecodeURIComponent`, as written. */
  function ReceivedField(query: string, name: string): Option<string> {
    match QueryGet(query, name)
    case None => None
    case Some(v) => Some(SafeDecode(v))
  }

  /** The field as the sender meant it: `URLSearchParams.get` alone already undoes the one encoding. */
  function IntendedField(query: string, name: string): Option<string> {
    QueryGet(query, name)
  }

  /** The second decoding alters nothing in a text without `%`. */
  lemma ReceivedPlain(x: string)
    requires '%' !in x
    ensures SafeDecode(x) == x
  {
    if x != [] {
      forall p: string | |p| == 3 && p[0] == '%' ensures !Contains(x, p, false) {
        forall i | 0 <= i <= |x| - |p| ensures !OccursAt(x, p, i, false) {
          assert x[i] != p[0];
        }
      }
      ReplaceAllAbsent(x, "%27", "'", false);
      ReplaceAllAbsent(x, "%28", "(", false);
      ReplaceAllAbsent(x, "%29", ")", false);
      DecodePlain(x);
    }
  }

  /** Every handed-off value without `%` reaches the session as the background script encoded it. */
  lemma HandoffPlain(subject: string, content: string, urlsJson: string, action: string)
    requires action == "submit" || action == "predict"
    requires '%' !in subject && '%' !in content && '%' !in urlsJson
    ensures var q := HandoffQuery(subject, content, urlsJson, action);
      && ReceivedField(q, "subject") == Some(subject)
      && ReceivedField(q, "content") == Some(content)
      && ReceivedField(q, "urls") == Some(urlsJson)
  {
    HandoffFields(subject, content, urlsJson, action);
    ReceivedPlain(subject);
    ReceivedPlain(content);
    ReceivedPlain(urlsJson);
  }

  /** The intended reading recovers every handed-off value exactly. */
  lemma IntendedRoundTrip(subject: string, content: string, urlsJson: string, action: string)
    requires action == "submit" || action == "predict"
    ensures var q := HandoffQuery(subject, content, urlsJson, action);
      && IntendedField(q, "subject") == Some(subject)
      && IntendedField(q, "content") == Some(content)
      && IntendedField(q, "urls") == Some(urlsJson)
      && IntendedField(q, "action") == Some(action)
  {
    HandoffFields(subject, content, urlsJson, action);
  }

  /** As written, a subject that contains an escape is decoded a second time: `%41` arrives as `A`. */
  lemma DoubleDecodeExample(content: string, urlsJson: string)
    ensures ReceivedField(HandoffQuery("%41", content, urlsJson, "submit"), "subject") == Some("A")
  {
    HandoffFields("%41", content, urlsJson, "submit");
    SecondDecode();
  }

  lemma SecondDecode()
    ensures SafeDecode("%41") == "A"
  {
    var t := "%41";
    assert !SameChar(t[1], "%27"[1], false) && !SameChar(t[1], "%28"[1], false) && !SameChar(t[1], "%29"[1], false);
    assert ReplaceAll(t, "%27", "'", false) == t;
    assert ReplaceAll(t, "%28", "(", false) == t;
    assert ReplaceAll(t, "%29", ")", false) == t;
    assert EscapedByte(t) == Some(0x41);
    assert Utf8Decode([0x41]) == Some('A');
  }

  /** The three messages the window sends back to the background script. */
  datatype Message =
    | AuthStatus(isAuthenticated: bool)
    | SubmitRedactedEmail(subject: string, content: string)
    | PredictRedactedEmail(subject: string, content: string)

  /** How loading ended: the status line the window shows. */
  datatype LoadStatus = Loaded | ProcessFailed | DecodeFailed | Missing

  // ---------------------------------------------------------------------------------------------
  // The session

  class Session {
    var originalSubject: string
    var originalContent: string
    var customPatterns: seq<string>
    var currentAction: string
    var extractedUrls: seq<string>
    var redactedUrls: seq<string>
    /** The states of the three checkboxes. */
    var toggles: Toggles
    /** The built-in expressions. */
    const engines: Engines

    ghost predicate Valid()
      reads this
    {
      Distinct(customPatterns) && Distinct(extractedUrls) && Distinct(redactedUrls)
    }

    /** The module's initial state; `saved` is what `loadSavedPatterns` finds in storage, `toggles` the
        checkboxes as the page first shows them. */
    constructor(engines: Engines, toggles: Toggles, saved: seq<string>)
      ensures Valid()
      ensures originalSubject == [] && originalContent == [] && currentAction == "submit"
      ensures customPatterns == InsertAll([], saved) && extractedUrls == [] && redactedUrls == []
      ensures this.toggles == toggles && this.engines == engines
    {
      this.engines := engines;
      this.toggles := toggles;
      originalSubject, originalContent := [], [];
      currentAction := "submit";
      extractedUrls, redactedUrls := [], [];
      customPatterns := InsertAll([], saved);
    }

    /** `getRedactedText(text)`. */
    method GetRedactedText(text: string) returns (result: string)
      ensures result == Redacted(text, toggles, engines, customPatterns, redactedUrls)
      ensures !toggles.emails && !toggles.phones && !toggles.ssns && customPatterns == [] && redactedUrls == []
        ==> result == text
    {
      result := text;
      if toggles.emails {
        result := ReplaceMatches(result, engines.email, EmailTag, 0);
      }
      if toggles.phones {
        result := ReplaceMatches(result, engines.phone, PhoneTag, 0);
      }
      if toggles.ssns {
        result := ReplaceMatches(result, engines.ssn, SsnTag, 0);
      }
      ghost var builtIn := result;
      for i := 0 to |customPatterns|
        invariant result == CustomPass(builtIn, customPatterns[..i])
      {
        assert customPatterns[..i + 1][..i] == customPatterns[..i];
        var pattern := customPatterns[i];
        if pattern != [] {
          result := ReplaceAll(result, pattern, CustomTag, true);
        }
      }
      assert customPatterns[..|customPatterns|] == customPatterns;
      ghost var custom := result;
      for i := 0 to |redactedUrls|
        invariant result == UrlPass(custom, redactedUrls[..i])
      {
        assert redactedUrls[..i + 1][..i] == redactedUrls[..i];
        result := ReplaceLiteral(result, redactedUrls[i], UrlTag, false);
      }
      assert redactedUrls[..|redactedUrls|] == redactedUrls;
    }

    /** The `addCustom` click handler: the input split on commas, each piece trimmed, empty pieces
        dropped, the rest added to the set. Returns how many pieces there were. */
    method AddCustom(input: string) returns (added: nat)
      requires Valid()
      modifies this
      ensures Valid()
      ensures added == |NewPatterns(input)|
      ensures customPatterns == InsertAll(old(customPatterns), NewPatterns(input))
      ensures unchanged(`originalSubject, `originalContent)
      ensures unchanged(`currentAction, `toggles)
      ensures unchanged(`extractedUrls, `redactedUrls)
    {
      var pieces := NewPatterns(input);
      var updated := AddEach(customPatterns, pieces);
      customPatterns := updated;
      added := |pieces|;
    }

    /** `deletePattern(pattern)`: removes exactly that pattern. */
    method DeletePattern(pattern: string)
      requires Valid()
      modifies this
      ensures Valid()
      ensures customPatterns == Remove(old(customPatterns), pattern)
      ensures unchanged(`originalSubject, `originalContent)
      ensures unchanged(`currentAction, `toggles)
      ensures unchanged(`extractedUrls, `redactedUrls)
    {
      customPatterns := Remove(customPatterns, pattern);
    }

    /** A change on one of the URL checkboxes. */
    method ToggleUrl(url: string, checked: bool)
      requires Valid()
      modifies this
      ensures Valid()
      ensures redactedUrls == if checked then Insert(old(redactedUrls), url) else Remove(old(redactedUrls), url)
      ensures unchanged(`originalSubject, `originalContent)
      ensures unchanged(`currentAction, `toggles)
      ensures unchanged(`extractedUrls, `customPatterns)
    {
      if checked {
        redactedUrls := Insert(redactedUrls, url);
      } else {
        redactedUrls := Remove(redactedUrls, url);
      }
    }

    /** A change on one of the three built-in checkboxes. */
    method SetToggles(t: Toggles)
      modifies this
      ensures toggles == t
      ensures unchanged(`originalSubject, `originalContent)
      ensures unchanged(`currentAction, `customPatterns)
      ensures unchanged(`extractedUrls, `redactedUrls)
    {
      toggles := t;
    }

    /** The load handler on `window.location.search` (without its `?`). `parseJson` is `JSON.parse` for an
        array of strings, `None` where it throws. */
    method Load(query: string, parseJson: string -> Option<seq<string>>) returns (status: LoadStatus)
      requires Valid()
      modifies this
      ensures Valid()
      ensures currentAction == ActionOf(query)
      ensures var h := ReadHandoff(query, parseJson);
        && status == h.status
        && (if status == Missing then unchanged(`originalSubject, `originalContent)
            else originalSubject == h.subject && originalContent == h.content)
        && (if h.urls.Some? then extractedUrls == h.urls.value else unchanged(`extractedUrls))
      ensures unchanged(`customPatterns, `redactedUrls, `toggles)
    {
      var h := ReadHandoff(query, parseJson);
      currentAction := ActionOf(query);
      if h.status != Missing {
        originalSubject := h.subject;
        originalContent := h.content;
      }
      if h.urls.Some? {
        extractedUrls := h.urls.value;
      }
      status := h.status;
    }

    /** The `submitButton` click handler: nothing is sent while either original is empty; otherwise one
        message typed by the action, carrying only the redacted subject and content. */
    method Submit() returns (sent: Option<Message>)
      ensures originalSubject == [] || originalContent == [] <==> sent.None?
      ensures sent.Some? ==> sent.value == Outgoing(currentAction,
        Redacted(originalSubject, toggles, engines, customPatterns, redactedUrls),
        Redacted(originalContent, toggles, engines, customPatterns, redactedUrls))
    {
      if originalSubject == [] || originalContent == [] {
        return None;
      }
      var subject := GetRedactedText(originalSubject);
      var content := GetRedactedText(originalContent);
      sent := Some(if currentAction == "predict" then PredictRedactedEmail(subject, content)
                   else SubmitRedactedEmail(subject, content));
    }

    /** `updatePreview`: the subject and content as they are shown, or `None` while either original is
        empty. */
    method Preview() returns (shown: Option<(string, string)>)
      ensures originalSubject == [] || originalContent == [] <==> shown.None?
      ensures shown.Some? ==> shown.value == (
        Highlight(Redacted(originalSubject, toggles, engines, customPatterns, redactedUrls)),
        Breaks(Highlight(Redacted(originalContent, toggles, engines, customPatterns, redactedUrls))))
    {
      if originalSubject == [] || originalContent == [] {
        return None;
      }
      var subject := GetRedactedText(originalSubject);
      var content := GetRedactedText(originalContent);
      shown := Some((Highlight(subject), Breaks(Highlight(content))));
    }
  }

  /** What the load handler takes from the query: the status it ends in, the decoded subject and
      content (meaningful unless `Missing`), and the URL list it installs (`None`: the list is kept). */
  datatype Handoff = Handoff(status: LoadStatus, subject: string, content: string, urls: Option<seq<string>>)

  function ReadHandoff(query: string, parseJson: string -> Option<seq<string>>): (h: Handoff)
    ensures h.urls.Some? ==> Distinct(h.urls.value)
  {
    var s := QueryGet(query, "subject");
    var c := QueryGet(query, "content");
    if s.Some? && s.value != [] && c.Some? && c.value != [] then
      var subject, content := SafeDecode(s.value), SafeDecode(c.value);
      var processed := if subject != [] && content != [] then Loaded else ProcessFailed;
      match UrlsOf(query, parseJson)
      case None => Handoff(DecodeFailed, subject, content, None)
      case Some(None) => Handoff(processed, subject, content, None)
      case Some(Some(urls)) => Handoff(processed, subject, content, Some(InsertAll([], urls)))
    else Handoff(Missing, [], [], None)
  }

  /** The load handler proceeds only when both the subject and the content parameters are present and
      non-empty; it stores their decoded values, stops with an error when the URL list does not parse
      (keeping the previous list), takes the de-duplicated list otherwise, and reports success only
      when both decoded texts are non-empty. */
  lemma ReadHandoffMeaning(query: string, parseJson: string -> Option<seq<string>>)
    ensures var h := ReadHandoff(query, parseJson);
      var s := QueryGet(query, "subject"); var c := QueryGet(query, "content");
      if s.Some? && s.value != [] && c.Some? && c.value != [] then
        && h.subject == SafeDecode(s.value) && h.content == SafeDecode(c.value)
        && match UrlsOf(query, parseJson)
           case None => h.status == DecodeFailed && h.urls.None?
           case Some(urls) =>
             && (h.urls.Some? <==> urls.Some?)
             && (urls.Some? ==> forall u :: u in h.urls.value <==> u in urls.value)
             && (h.status == Loaded <==> h.subject != [] && h.content != [])
             && (h.status == Loaded || h.status == ProcessFailed)
      else h.status == Missing && h.urls.None?
  {
    match UrlsOf(query, parseJson)
    case Some(Some(urls)) => InsertAllMembers([], urls);
    case _ =>
  }

  /** `urlParams.get('action') || 'submit'`. */
  function ActionOf(query: string): string {
    var a := QueryGet(query, "action");
    if a.Some? && a.value != [] then a.value else "submit"
  }

  /** The URL list of the hand-off: `Some(None)` when there is none, `None` when parsing it throws. */
  function UrlsOf(query: string, parseJson: string -> Option<seq<string>>): Option<Option<seq<string>>> {
    var u := QueryGet(query, "urls");
    if u.Some? && u.value != [] then
      match parseJson(SafeDecode(u.value))
      case None => None
      case Some(urls) => Some(Some(urls))
    else Some(None)
  }

  /** `customInput.value.split(',').map(p => p.trim()).filter(p => p.length > 0)`. */
  function NewPatterns(input: string): (r: seq<string>)
    ensures forall k :: 0 <= k < |r| ==> r[k] != [] && ',' !in r[k]
  {
    TrimmedPieces(Split(input, ','))
  }

  function TrimmedPieces(pieces: seq<string>): (r: seq<string>)
    requires forall k :: 0 <= k < |pieces| ==> ',' !in pieces[k]
    ensures forall k :: 0 <= k < |r| ==> r[k] != [] && ',' !in r[k]
    decreases |pieces|
  {
    if pieces == [] then []
    else
      var rest := TrimmedPieces(pieces[..|pieces| - 1]);
      var t := Trim(pieces[|pieces| - 1]);
      if t == [] then rest else rest + [t]
  }

  lemma {:induction false} TrimmedPiecesAppend(p: seq<string>, q: seq<string>)
    requires forall k :: 0 <= k < |p| ==> ',' !in p[k]
    requires forall k :: 0 <= k < |q| ==> ',' !in q[k]
    ensures TrimmedPieces(p + q) == TrimmedPieces(p) + TrimmedPieces(q)
    decreases |q|
  {
    if q == [] {
      assert p + q == p;
    } else {
      var n := |q| - 1;
      assert (p + q)[..|p + q| - 1] == p + q[..n];
      assert (p + q)[|p + q| - 1] == q[n];
      TrimmedPiecesAppend(p, q[..n]);
    }
  }

  /** A field without a comma gives its trimmed self, or nothing when it is blank. */
  lemma NewPatternsField(x: string)
    requires ',' !in x
    ensures NewPatterns(x) == (if Trim(x) == [] then [] else [Trim(x)])
  {
    SplitNoSep(x, ',');
    var pieces := [x];
    assert pieces[..|pieces| - 1] == [] && pieces[|pieces| - 1] == x;
    assert TrimmedPieces(pieces[..|pieces| - 1]) == [];
  }

  /** The fields on either side of a comma are read independently, in order. */
  lemma NewPatternsComma(a: string, b: string)
    ensures NewPatterns(a + "," + b) == NewPatterns(a) + NewPatterns(b)
  {
    SplitAppend(a, b, ',');
    TrimmedPiecesAppend(Split(a, ','), Split(b, ','));
  }

  /** The message the submit button sends for `action`. */
  function Outgoing(action: string, subject: string, content: string): (m: Message)
    ensures m.PredictRedactedEmail? <==> action == "predict"
    ensures !m.AuthStatus?
  {
    if action == "predict" then PredictRedactedEmail(subject, content) else SubmitRedactedEmail(subject, content)
  }
}

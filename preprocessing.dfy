/** The extension's text normaliser and URL summariser (extension/preprocessing.js): HTML-entity
    decoding, tag stripping, whitespace clean-up of subjects and bodies, and the table of link
    hostnames with their counts that accompanies every submitted e-mail. */
module Preprocessing {
  import opened Strings

  // ---------------------------------------------------------------------------------------------
  // Shapes of cleaned text

  /** No `<` is followed, anywhere later, by a `>`: nothing the expression `/<[^>]*>/` could match. */
  predicate NoTag(s: string) {
    forall i, j :: 0 <= i < j < |s| && s[i] == '<' ==> s[j] != '>'
  }

  /** No two neighbouring characters are both whitespace. */
  predicate NoAdjacentSpace(s: string) {
    forall i :: 0 <= i < |s| - 1 ==> !(IsJsSpace(s[i]) && IsJsSpace(s[i + 1]))
  }

  /** No two neighbouring spaces. */
  predicate NoDoubleBlank(s: string) {
    forall i :: 0 <= i < |s| - 1 ==> !(s[i] == ' ' && s[i + 1] == ' ')
  }

  /** No run of three or more line feeds. */
  predicate NoTripleNewline(s: string) {
    forall i :: 0 <= i < |s| - 2 ==> !(s[i] == '\n' && s[i + 1] == '\n' && s[i + 2] == '\n')
  }

  /** Neither end is whitespace. */
  predicate IsTrimmed(s: string) {
    s == [] || (!IsJsSpace(s[0]) && !IsJsSpace(s[|s| - 1]))
  }

  lemma NoTagCons(c: char, t: string)
    requires NoTag(t) && (c == '<' ==> '>' !in t)
    ensures NoTag([c] + t)
  {
    var s := [c] + t;
    forall i, j | 0 <= i < j < |s| && s[i] == '<' ensures s[j] != '>' {
      if i == 0 {
        assert s[j] == t[j - 1];
      } else {
        assert s[i] == t[i - 1] && s[j] == t[j - 1];
      }
    }
  }

  lemma SliceNoTag(s: string, a: nat, b: nat)
    requires a <= b <= |s| && NoTag(s)
    ensures NoTag(s[a..b])
  {
    var t := s[a..b];
    forall i, j | 0 <= i < j < |t| && t[i] == '<' ensures t[j] != '>' {
      assert t[i] == s[a + i] && t[j] == s[a + j];
    }
  }

  lemma SliceNoAdjacentSpace(s: string, a: nat, b: nat)
    requires a <= b <= |s| && NoAdjacentSpace(s)
    ensures NoAdjacentSpace(s[a..b])
  {
    var t := s[a..b];
    forall i | 0 <= i < |t| - 1 ensures !(IsJsSpace(t[i]) && IsJsSpace(t[i + 1])) {
      assert t[i] == s[a + i] && t[i + 1] == s[a + i + 1];
    }
  }

  lemma SliceNoDoubleBlank(s: string, a: nat, b: nat)
    requires a <= b <= |s| && NoDoubleBlank(s)
    ensures NoDoubleBlank(s[a..b])
  {
    var t := s[a..b];
    forall i | 0 <= i < |t| - 1 ensures !(t[i] == ' ' && t[i + 1] == ' ') {
      assert t[i] == s[a + i] && t[i + 1] == s[a + i + 1];
    }
  }

  lemma SliceNoTriple(s: string, a: nat, b: nat)
    requires a <= b <= |s| && NoTripleNewline(s)
    ensures NoTripleNewline(s[a..b])
  {
    var t := s[a..b];
    forall i | 0 <= i < |t| - 2 ensures !(t[i] == '\n' && t[i + 1] == '\n' && t[i + 2] == '\n') {
      assert t[i] == s[a + i] && t[i + 1] == s[a + i + 1] && t[i + 2] == s[a + i + 2];
    }
  }

  lemma TrimIsSlice(s: string) returns (k: nat)
    ensures k + |Trim(s)| <= |s| && Trim(s) == s[k..k + |Trim(s)|]
  {
    var t := TrimStart(s);
    k := |s| - |t|;
    assert TrimEnd(t) == t[..|TrimEnd(t)|];
  }

  /** `trim()` only cuts the ends, so it keeps each of the shapes. */
  lemma TrimKeepsNoTag(s: string)
    requires NoTag(s)
    ensures NoTag(Trim(s))
  {
    var k := TrimIsSlice(s);
    SliceNoTag(s, k, k + |Trim(s)|);
  }

  lemma TrimKeepsNoAdjacentSpace(s: string)
    requires NoAdjacentSpace(s)
    ensures NoAdjacentSpace(Trim(s))
  {
    var k := TrimIsSlice(s);
    SliceNoAdjacentSpace(s, k, k + |Trim(s)|);
  }

  lemma TrimKeepsNoDoubleBlank(s: string)
    requires NoDoubleBlank(s)
    ensures NoDoubleBlank(Trim(s))
  {
    var k := TrimIsSlice(s);
    SliceNoDoubleBlank(s, k, k + |Trim(s)|);
  }

  lemma TrimKeepsNoTriple(s: string)
    requires NoTripleNewline(s)
    ensures NoTripleNewline(Trim(s))
  {
    var k := TrimIsSlice(s);
    SliceNoTriple(s, k, k + |Trim(s)|);
  }

  // ---------------------------------------------------------------------------------------------
  // Entities and tags

  /** The eight entity replacements, `&amp;` first, as both the subject and the body path perform them. */
  function DecodeEntities(s: string): string {
    var s1 := ReplaceAll(s, "&amp;", "&", false);
    var s2 := ReplaceAll(s1, "&lt;", "<", false);
    var s3 := ReplaceAll(s2, "&gt;", ">", false);
    var s4 := ReplaceAll(s3, "&quot;", "\"", false);
    var s5 := ReplaceAll(s4, "&#039;", "'", false);
    var s6 := ReplaceAll(s5, "&#x27;", "'", false);
    var s7 := ReplaceAll(s6, "&#x2F;", "/", false);
    ReplaceAll(s7, "&nbsp;", " ", false)
  }

  function IndexOf(s: string, c: char): (i: nat)
    requires c in s
    ensures i < |s| && s[i] == c && c !in s[..i]
    decreases |s|
  {
    if s[0] == c then 0
    else
      assert c in s[1..];
      var k := IndexOf(s[1..], c);
      assert s[..k + 1] == [s[0]] + s[1..][..k];
      k + 1
  }

  /** `s.replace(/<[^>]*>/g, '')`: from each `<` that has a `>` somewhere after it, everything up to and
      including the first such `>` is removed; a `<` with no later `>` stays. */
  function StripTags(s: string): (r: string)
    ensures NoTag(r)
    ensures forall c :: c in r ==> c in s
    decreases |s|
  {
    if s == [] then []
    else if s[0] == '<' && '>' in s[1..] then
      var rest := s[IndexOf(s[1..], '>') + 2..];
      assert forall c :: c in rest ==> c in s;
      StripTags(rest)
    else
      var t := StripTags(s[1..]);
      assert forall c :: c in s[1..] ==> c in s;
      NoTagCons(s[0], t);
      [s[0]] + t
  }

  /** Removes every character of `bad` (`s.replace(/[...]/g, '')`). */
  function RemoveChars(s: string, bad: set<char>): (r: string)
    ensures forall c :: c in r ==> c in s && c !in bad
    decreases |s|
  {
    if s == [] then []
    else
      var t := RemoveChars(s[1..], bad);
      assert forall c :: c in s[1..] ==> c in s;
      if s[0] in bad then t else [s[0]] + t
  }

  lemma {:induction false} RemoveKeepsNoTag(s: string, bad: set<char>)
    requires NoTag(s)
    ensures NoTag(RemoveChars(s, bad))
    decreases |s|
  {
    if s != [] {
      SliceNoTag(s, 1, |s|);
      RemoveKeepsNoTag(s[1..], bad);
      if s[0] == '<' {
        forall c | c in s[1..] ensures c != '>' {
          var j :| 0 <= j < |s[1..]| && s[1..][j] == c;
          assert s[j + 1] == c;
        }
      }
      if s[0] !in bad {
        NoTagCons(s[0], RemoveChars(s[1..], bad));
      }
    }
  }

  // ---------------------------------------------------------------------------------------------
  // Whitespace runs

  lemma AdjacentCons(c: char, t: string)
    requires NoAdjacentSpace(t)
    requires IsJsSpace(c) && t != [] ==> !IsJsSpace(t[0])
    ensures NoAdjacentSpace([c] + t)
  {
    var s := [c] + t;
    forall i | 0 <= i < |s| - 1 ensures !(IsJsSpace(s[i]) && IsJsSpace(s[i + 1])) {
      if i > 0 {
        assert s[i] == t[i - 1] && s[i + 1] == t[i];
      }
    }
  }

  /** `s.replace(/\s+/g, ' ')`. */
  function CollapseSpace(s: string): (r: string)
    ensures NoAdjacentSpace(r)
    ensures forall c :: c in r ==> c == ' ' || c in s
    ensures r == [] <==> s == []
    ensures r != [] ==> (IsJsSpace(r[0]) <==> IsJsSpace(s[0]))
    decreases |s|
  {
    if s == [] then []
    else if IsJsSpace(s[0]) then
      var rest := TrimStart(s[1..]);
      var t := CollapseSpace(rest);
      assert forall c :: c in rest ==> c in s;
      AdjacentCons(' ', t);
      [' '] + t
    else
      var t := CollapseSpace(s[1..]);
      assert forall c :: c in s[1..] ==> c in s;
      AdjacentCons(s[0], t);
      [s[0]] + t
  }

  lemma {:induction false} CollapseSpaceKeepsNoTag(s: string)
    requires NoTag(s)
    ensures NoTag(CollapseSpace(s))
    decreases |s|
  {
    if s != [] {
      if IsJsSpace(s[0]) {
        var rest := TrimStart(s[1..]);
        SliceNoTag(s, |s| - |rest|, |s|);
        CollapseSpaceKeepsNoTag(rest);
        NoTagCons(' ', CollapseSpace(rest));
      } else {
        SliceNoTag(s, 1, |s|);
        CollapseSpaceKeepsNoTag(s[1..]);
        if s[0] == '<' {
          forall c | c in s[1..] ensures c != '>' {
            var j :| 0 <= j < |s[1..]| && s[1..][j] == c;
            assert s[j + 1] == c;
          }
        }
        NoTagCons(s[0], CollapseSpace(s[1..]));
      }
    }
  }

  predicate IsBlank(c: char) { c == ' ' || c == '\t' }

  function DropBlanks(s: string): (r: string)
    ensures |r| <= |s| && r == s[|s| - |r|..]
    ensures r == [] || !IsBlank(r[0])
    decreases |s|
  {
    if s != [] && IsBlank(s[0]) then DropBlanks(s[1..]) else s
  }

  /** `s.replace(/[ \t]+/g, ' ')`. */
  function CollapseBlanks(s: string): (r: string)
    ensures '\t' !in r
    ensures r == [] <==> s == []
    ensures r != [] && !IsBlank(s[0]) ==> r[0] == s[0]
    ensures r != [] && IsBlank(s[0]) ==> r[0] == ' '
    ensures |r| >= 2 && r[0] == '\n' && r[1] == '\n' ==> |s| >= 2 && s[0] == '\n' && s[1] == '\n'
    decreases |s|
  {
    if s == [] then []
    else if IsBlank(s[0]) then [' '] + CollapseBlanks(DropBlanks(s[1..]))
    else [s[0]] + CollapseBlanks(s[1..])
  }

  lemma BlankCons(c: char, t: string)
    requires NoDoubleBlank(t)
    requires c == ' ' && t != [] ==> t[0] != ' '
    ensures NoDoubleBlank([c] + t)
  {
    var s := [c] + t;
    forall i | 0 <= i < |s| - 1 ensures !(s[i] == ' ' && s[i + 1] == ' ') {
      if i > 0 {
        assert s[i] == t[i - 1] && s[i + 1] == t[i];
      }
    }
  }

  /** After `[ \t]+` became one space, no two spaces are adjacent. */
  lemma {:induction false} BlanksNoDouble(s: string)
    ensures NoDoubleBlank(CollapseBlanks(s))
    decreases |s|
  {
    if s != [] {
      if IsBlank(s[0]) {
        BlanksNoDouble(DropBlanks(s[1..]));
        BlankCons(' ', CollapseBlanks(DropBlanks(s[1..])));
      } else {
        BlanksNoDouble(s[1..]);
        BlankCons(s[0], CollapseBlanks(s[1..]));
      }
    }
  }

  lemma TripleCons(c: char, t: string)
    requires NoTripleNewline(t)
    requires c == '\n' && |t| >= 2 ==> !(t[0] == '\n' && t[1] == '\n')
    ensures NoTripleNewline([c] + t)
  {
    var s := [c] + t;
    forall i | 0 <= i < |s| - 2 ensures !(s[i] == '\n' && s[i + 1] == '\n' && s[i + 2] == '\n') {
      if i > 0 {
        assert s[i] == t[i - 1] && s[i + 1] == t[i] && s[i + 2] == t[i + 1];
      }
    }
  }

  lemma {:induction false} BlanksKeepNoTriple(s: string)
    requires NoTripleNewline(s)
    ensures NoTripleNewline(CollapseBlanks(s))
    decreases |s|
  {
    if s != [] {
      if IsBlank(s[0]) {
        DropNoTriple(s);
        BlanksKeepNoTriple(DropBlanks(s[1..]));
        BlankRunStep(s);
      } else {
        TailNoTriple(s);
        BlanksKeepNoTriple(s[1..]);
        BlanksStep(s);
      }
    }
  }

  lemma DropNoTriple(s: string)
    requires s != [] && NoTripleNewline(s)
    ensures NoTripleNewline(DropBlanks(s[1..]))
  {
    var rest := DropBlanks(s[1..]);
    SliceNoTriple(s, |s| - |rest|, |s|);
    assert s[|s| - |rest|..|s|] == rest;
  }

  lemma TailNoTriple(s: string)
    requires s != [] && NoTripleNewline(s)
    ensures NoTripleNewline(s[1..])
  {
    SliceNoTriple(s, 1, |s|);
    assert s[1..|s|] == s[1..];
  }

  lemma BlankRunStep(s: string)
    requires s != [] && IsBlank(s[0])
    requires NoTripleNewline(CollapseBlanks(DropBlanks(s[1..])))
    ensures NoTripleNewline(CollapseBlanks(s))
  {
    TripleCons(' ', CollapseBlanks(DropBlanks(s[1..])));
  }

  lemma BlanksStep(s: string)
    requires s != [] && !IsBlank(s[0]) && NoTripleNewline(s)
    requires NoTripleNewline(CollapseBlanks(s[1..]))
    ensures NoTripleNewline(CollapseBlanks(s))
  {
    var t := CollapseBlanks(s[1..]);
    if |s| >= 3 {
      assert !(s[0] == '\n' && s[1] == '\n' && s[2] == '\n');
      assert s[1..][0] == s[1] && s[1..][1] == s[2];
    }
    TripleCons(s[0], t);
  }

  function DropNewlines(s: string): (r: string)
    ensures |r| <= |s| && r == s[|s| - |r|..]
    ensures r == [] || r[0] != '\n'
    decreases |s|
  {
    if s != [] && s[0] == '\n' then DropNewlines(s[1..]) else s
  }

  /** `s.replace(/\n{3,}/g, '\n\n')`. */
  function CollapseNewlines(s: string): (r: string)
    ensures NoTripleNewline(r)
    ensures forall c :: c in r ==> c in s
    ensures r == [] <==> s == []
    ensures r != [] ==> (r[0] == '\n' <==> s[0] == '\n')
    ensures |r| >= 2 && r[0] == '\n' && r[1] == '\n' ==> |s| >= 2 && s[0] == '\n' && s[1] == '\n'
    decreases |s|
  {
    if s == [] then []
    else if |s| >= 3 && s[0] == '\n' && s[1] == '\n' && s[2] == '\n' then
      var rest := DropNewlines(s);
      var t := CollapseNewlines(rest);
      assert forall c :: c in rest ==> c in s;
      TripleCons('\n', t);
      TripleCons('\n', ['\n'] + t);
      assert "\n\n" + t == ['\n'] + (['\n'] + t);
      "\n\n" + t
    else
      var t := CollapseNewlines(s[1..]);
      assert forall c :: c in s[1..] ==> c in s;
      TripleCons(s[0], t);
      [s[0]] + t
  }

  // ---------------------------------------------------------------------------------------------
  // htmlToText

  /** Each line trimmed, empty lines dropped. */
  function TrimmedLines(lines: seq<string>): (r: seq<string>)
    ensures forall k :: 0 <= k < |r| ==> r[k] != [] && IsTrimmedLine(r[k])
    decreases |lines|
  {
    if lines == [] then []
    else
      var t := Trim(lines[0]);
      var rest := TrimmedLines(lines[1..]);
      if t == [] then rest
      else
        assert IsTrimmedLine(t);
        [t] + rest
  }

  predicate IsTrimmedLine(s: string) {
    s != [] && !IsJsSpace(s[0]) && !IsJsSpace(s[|s| - 1])
  }

  /** `text.split('\n').map(line => line.trim()).filter(line => line).join('\n')`. */
  function JoinTrimmedLines(text: string): string {
    Join(TrimmedLines(Split(text, '\n')), '\n')
  }

  /** The string clean-up that ends `htmlToText`, applied to the text content of the parsed tree. */
  function CleanText(text: string): string {
    Trim(CollapseBlanks(CollapseNewlines(StripTags(JoinTrimmedLines(text)))))
  }

  /** The cleaned text has no whitespace at either end, no tab, no two neighbouring spaces and no run
      of three line feeds. */
  lemma CleanTextShape(text: string)
    ensures IsTrimmed(CleanText(text)) && '\t' !in CleanText(text)
    ensures NoDoubleBlank(CleanText(text)) && NoTripleNewline(CleanText(text))
  {
    BlanksTrimmedShape(CollapseNewlines(StripTags(JoinTrimmedLines(text))));
  }

  lemma BlanksTrimmedShape(breaks: string)
    requires NoTripleNewline(breaks)
    ensures IsTrimmed(Trim(CollapseBlanks(breaks))) && '\t' !in Trim(CollapseBlanks(breaks))
    ensures NoDoubleBlank(Trim(CollapseBlanks(breaks))) && NoTripleNewline(Trim(CollapseBlanks(breaks)))
  {
    var blanks := CollapseBlanks(breaks);
    assert NoDoubleBlank(Trim(blanks)) by {
      BlanksNoDouble(breaks);
      TrimKeepsNoDoubleBlank(blanks);
    }
    assert NoTripleNewline(Trim(blanks)) by {
      BlanksKeepNoTriple(breaks);
      TrimKeepsNoTriple(blanks);
    }
  }

  /** `htmlToText(html)`. `domText` is the text content of the tree the browser builds from `html` after
      the element rewriting; `None` stands for an exception in that part, which falls back to tag
      stripping of the input. */
  function HtmlToText(html: string, domText: Option<string>): (r: string)
    ensures html == [] ==> r == []
    ensures domText.Some? && html != [] ==> r == CleanText(domText.value)
    ensures domText.None? && html != [] ==> r == StripTags(html)
  {
    if html == [] then []
    else match domText
      case Some(t) => CleanText(t)
      case None => StripTags(html)
  }

  // ---------------------------------------------------------------------------------------------
  // Subject and body

  /** `preprocessSubject`. */
  function PreprocessSubject(subject: string): (r: string)
    ensures subject == [] ==> r == []
    ensures IsTrimmed(r) && NoAdjacentSpace(r)
    ensures '\U{FEFF}' !in r && '\U{FFFD}' !in r && '\0' !in r
    ensures NoTag(r)
  {
    if subject == [] then []
    else
      var decoded := DecodeEntities(subject);
      var stripped := StripTags(decoded);
      var noMarks := RemoveChars(stripped, {'\U{FEFF}', '\U{FFFD}'});
      var noNul := RemoveChars(noMarks, {'\0'});
      var spaced := CollapseSpace(noNul);
      RemoveKeepsNoTag(stripped, {'\U{FEFF}', '\U{FFFD}'});
      RemoveKeepsNoTag(noMarks, {'\0'});
      CollapseSpaceKeepsNoTag(noNul);
      TrimKeepsNoTag(spaced);
      TrimKeepsNoAdjacentSpace(spaced);
      assert forall c :: c in Trim(spaced) ==> c in spaced;
      Trim(spaced)
  }

  /** `preprocessEmailBody`; `domText` is as for `HtmlToText`, for the entity-decoded content. */
  function PreprocessEmailBody(content: string, domText: Option<string>): (r: string)
    ensures content == [] ==> r == []
    ensures '\r' !in r && '\U{FEFF}' !in r && '\U{FFFD}' !in r && '\0' !in r
  {
    if content == [] then []
    else
      var plain := HtmlToText(DecodeEntities(content), domText);
      var noMarks := RemoveChars(plain, {'\U{FEFF}', '\U{FFFD}'});
      var noNul := RemoveChars(noMarks, {'\0'});
      var crlf := ReplaceAll(noNul, "\r\n", "\n", false);
      var r := ReplaceAll(crlf, "\r", "\n", false);
      ReplaceAllChars(noNul, "\r\n", "\n", false);
      ReplaceAllChars(crlf, "\r", "\n", false);
      ReplaceCharGone(crlf, '\r', "\n");
      r
  }

  lemma AmpersandFree(s: string, p: string, tag: string)
    requires p != [] && p[0] == '&' && '&' !in s
    ensures ReplaceAll(s, p, tag, false) == s
  {
    ReplaceAllFree(s, [], p, tag);
    assert s + [] == s;
  }

  /** An entity at the front of text free of `&`: it alone is replaced. */
  lemma EntityThenPlain(p: string, v: string, tag: string)
    requires p != [] && p[0] == '&' && '&' !in v
    ensures ReplaceAll(p + v, p, tag, false) == tag + v
  {
    ReplaceAllHead(p, v, tag);
    AmpersandFree(v, p, tag);
  }

  lemma AmpShape(x: string, y: string)
    ensures "&amp;lt;" + x + "&amp;gt;" + y == "&amp;" + (("lt;" + x) + ("&amp;" + ("gt;" + y)))
    ensures "&" + (("lt;" + x) + ("&" + ("gt;" + y))) == "&lt;" + x + "&gt;" + y
  {
  }

  lemma AmpPass(x: string, y: string)
    requires '&' !in x && '&' !in y
    ensures ReplaceAll("&amp;lt;" + x + "&amp;gt;" + y, "&amp;", "&", false) == "&lt;" + x + "&gt;" + y
  {
    var p, u, v := "&amp;", "lt;" + x, "gt;" + y;
    EntityThenPlain(p, v, "&");
    ReplaceAllFree(u, p + v, p, "&");
    ReplaceAllHead(p, u + (p + v), "&");
    AmpShape(x, y);
  }

  lemma LtShape(x: string, y: string)
    ensures "&lt;" + x + "&gt;" + y == "&lt;" + (x + ("&gt;" + y))
    ensures "<" + (x + ("&gt;" + y)) == "<" + x + "&gt;" + y
  {
  }

  /** The `&gt;` that follows is not an `&lt;`. */
  lemma LtMiss(y: string)
    requires '&' !in y
    ensures ReplaceAll("&gt;" + y, "&lt;", "<", false) == "&gt;" + y
  {
    var p, t := "&lt;", "&gt;" + y;
    assert t[1] != p[1];
    AmpersandFree(t[1..], p, "<");
  }

  lemma LtPass(x: string, y: string)
    requires '&' !in x && '&' !in y
    ensures ReplaceAll("&lt;" + x + "&gt;" + y, "&lt;", "<", false) == "<" + x + "&gt;" + y
  {
    var p, t := "&lt;", "&gt;" + y;
    LtShape(x, y);
    LtMiss(y);
    ReplaceAllFree(x, t, p, "<");
    ReplaceAllHead(p, x + t, "<");
  }

  lemma GtShape(x: string, y: string)
    ensures "<" + x + "&gt;" + y == ("<" + x) + ("&gt;" + y)
    ensures ("<" + x) + (">" + y) == "<" + x + ">" + y
  {
  }

  lemma GtPass(x: string, y: string)
    requires '&' !in x && '&' !in y
    ensures ReplaceAll("<" + x + "&gt;" + y, "&gt;", ">", false) == "<" + x + ">" + y
  {
    var p := "&gt;";
    GtShape(x, y);
    EntityThenPlain(p, y, ">");
    ReplaceAllFree("<" + x, p + y, p, ">");
  }

  /** `&amp;` is decoded first, so a doubly escaped tag becomes a real one. */
  lemma DoubleEscapeDecoded(x: string, y: string)
    requires '&' !in x && '&' !in y
    ensures DecodeEntities("&amp;lt;" + x + "&amp;gt;" + y) == "<" + x + ">" + y
  {
    AmpPass(x, y);
    LtPass(x, y);
    GtPass(x, y);
    var s := "<" + x + ">" + y;
    assert '&' !in s;
    AmpersandFree(s, "&quot;", "\"");
    AmpersandFree(s, "&#039;", "'");
    AmpersandFree(s, "&#x27;", "'");
    AmpersandFree(s, "&#x2F;", "/");
    AmpersandFree(s, "&nbsp;", " ");
  }

  lemma TagSkipped(x: string, y: string)
    requires '>' !in x
    ensures StripTags("<" + x + ">" + y) == StripTags(y)
  {
    var s := "<" + x + ">" + y;
    assert s[1..] == x + ">" + y;
    assert s[1..][|x|] == '>';
    var k := IndexOf(s[1..], '>');
    assert s[k + 2..] == y;
  }

  /** Entity decoding happens before tag stripping, so a doubly escaped tag (`&amp;lt;b&amp;gt;`) is
      removed as a tag and contributes nothing to the subject. */
  lemma EscapedMarkupStripped(x: string, y: string)
    requires '&' !in x && '&' !in y && '>' !in x
    ensures PreprocessSubject("&amp;lt;" + x + "&amp;gt;" + y) == PreprocessSubject(y)
  {
    DoubleEscapeDecoded(x, y);
    TagSkipped(x, y);
    AmpersandFree(y, "&amp;", "&");
    if y != [] {
      DecodeFree(y);
    }
  }

  lemma DecodeFree(s: string)
    requires '&' !in s
    ensures DecodeEntities(s) == s
  {
    AmpersandFree(s, "&amp;", "&");
    AmpersandFree(s, "&lt;", "<");
    AmpersandFree(s, "&gt;", ">");
    AmpersandFree(s, "&quot;", "\"");
    AmpersandFree(s, "&#039;", "'");
    AmpersandFree(s, "&#x27;", "'");
    AmpersandFree(s, "&#x2F;", "/");
    AmpersandFree(s, "&nbsp;", " ");
  }

  // ---------------------------------------------------------------------------------------------
  // extractURLs

  /** `extractDomain`: the trimmed hostname of a URL, or `None` when the URL does not parse or its
      hostname is empty. `hostOf` is the WHATWG URL parser's hostname, `None` where it throws. */
  function ExtractDomain(url: string, hostOf: string -> Option<string>): (r: Option<string>)
    ensures r.Some? ==> IsTrimmedLine(r.value)
    ensures hostOf(url).None? ==> r.None?
  {
    match hostOf(url)
    case None => None
    case Some(h) => var d := Trim(h); if d == [] then None else Some(d)
  }

  /** A character `[^\s<>"]` admits. */
  predicate IsUrlChar(c: char) {
    !IsJsSpace(c) && c != '<' && c != '>' && c != '"'
  }

  predicate HasPrefixAt(s: string, p: string, i: nat) {
    i + |p| <= |s| && s[i..i + |p|] == p
  }

  /** The length of the run of URL characters starting at `i`. */
  function UrlRun(s: string, i: nat): (n: nat)
    requires i <= |s|
    ensures i + n <= |s|
    ensures forall k :: i <= k < i + n ==> IsUrlChar(s[k])
    ensures i + n < |s| ==> !IsUrlChar(s[i + n])
    decreases |s| - i
  {
    if i < |s| && IsUrlChar(s[i]) then 1 + UrlRun(s, i + 1) else 0
  }

  /** The length of the match of `/https?:\/\/[^\s<>"]+/` at position `i`, 0 when there is none. */
  function UrlMatchAt(s: string, i: nat): (n: nat)
    requires i <= |s|
    ensures i + n <= |s|
    ensures n > 0 ==> HasPrefixAt(s, "http://", i) || HasPrefixAt(s, "https://", i)
    ensures n > 0 ==> forall k :: i <= k < i + n ==> IsUrlChar(s[k])
  {
    var scheme := if HasPrefixAt(s, "https://", i) then 8 else if HasPrefixAt(s, "http://", i) then 7 else 0;
    if scheme == 0 then 0
    else
      SchemeChars();
      PrefixUrlChars(s, if scheme == 8 then "https://" else "http://", i);
      var run := UrlRun(s, i + scheme);
      if run == 0 then 0 else scheme + run
  }

  lemma SchemeChars()
    ensures forall c :: c in "https://" ==> IsUrlChar(c)
  {
  }

  lemma PrefixUrlChars(s: string, p: string, i: nat)
    requires HasPrefixAt(s, p, i) && forall c :: c in p ==> IsUrlChar(c)
    ensures forall k :: i <= k < i + |p| ==> IsUrlChar(s[k])
  {
    forall k | i <= k < i + |p| ensures IsUrlChar(s[k]) {
      assert s[k] == p[k - i];
    }
  }

  /** `textContent.match(/https?:\/\/[^\s<>"]+/g)` from position `i` on (an empty list for `null`). */
  function UrlMatches(s: string, i: nat): (ms: seq<string>)
    requires i <= |s|
    ensures forall k :: 0 <= k < |ms| ==> |ms[k]| >= 8 && forall c :: c in ms[k] ==> IsUrlChar(c)
    decreases |s| - i
  {
    if i == |s| then []
    else
      var n := UrlMatchAt(s, i);
      if n > 0 then
        var m := s[i..i + n];
        assert forall c :: c in m ==> IsUrlChar(c);
        [m] + UrlMatches(s, i + n)
      else UrlMatches(s, i + 1)
  }

  /** The hostname an anchor's `href` contributes, if any: empty and `javascript:` links are skipped. */
  function HrefHost(href: string, hostOf: string -> Option<string>): Option<string> {
    if href == [] || HasPrefixAt(href, "javascript:", 0) then None else ExtractDomain(href, hostOf)
  }

  function Listed(d: Option<string>): seq<string> {
    if d.Some? then [d.value] else []
  }

  function HrefHosts(hrefs: seq<string>, hostOf: string -> Option<string>): seq<string>
    decreases |hrefs|
  {
    if hrefs == [] then []
    else
      var last := HrefHost(hrefs[|hrefs| - 1], hostOf);
      HrefHosts(hrefs[..|hrefs| - 1], hostOf) + Listed(last)
  }

  function MatchHosts(ms: seq<string>, hostOf: string -> Option<string>): seq<string>
    decreases |ms|
  {
    if ms == [] then []
    else
      var last := ExtractDomain(ms[|ms| - 1], hostOf);
      MatchHosts(ms[..|ms| - 1], hostOf) + Listed(last)
  }

  /** `temp.textContent || temp.innerText || content` (the text of a detached element is its text content). */
  function TextOf(domText: string, content: string): string {
    if domText != [] then domText else content
  }

  /** Every hostname counted, in the order `extractURLs` counts them: anchors first, then text matches. */
  function AcceptedHosts(hrefs: seq<string>, text: string, hostOf: string -> Option<string>): seq<string> {
    HrefHosts(hrefs, hostOf) + MatchHosts(UrlMatches(text, 0), hostOf)
  }

  /** The distinct hostnames in order of first appearance: the key order of the `domainCounts` object. */
  function FirstSeen(hs: seq<string>): (r: seq<string>)
    ensures forall h :: h in r <==> h in hs
    ensures forall i, j :: 0 <= i < j < |r| ==> r[i] != r[j]
    decreases |hs|
  {
    if hs == [] then []
    else
      var r := FirstSeen(hs[..|hs| - 1]);
      assert forall h :: h in hs <==> h in hs[..|hs| - 1] || h == hs[|hs| - 1];
      if hs[|hs| - 1] in r then r else r + [hs[|hs| - 1]]
  }

  /** One entry of the summary: `${domain} (${count} link${count === 1 ? '' : 's'})`. */
  function LinkLabel(host: string, count: nat): string {
    host + " (" + NatToString(count) + " link" + (if count == 1 then "" else "s") + ")"
  }

  /** The labels of the hostnames in `order`, each with its number of occurrences in `hosts`. */
  function Labels(order: seq<string>, hosts: multiset<string>): (r: seq<string>)
    ensures |r| == |order|
    decreases |order|
  {
    if order == [] then []
    else Labels(order[..|order| - 1], hosts) + [LinkLabel(order[|order| - 1], hosts[order[|order| - 1]])]
  }

  /** What `extractURLs` returns for the accepted hostnames `hs`. */
  function Summary(hs: seq<string>): seq<string> {
    Labels(FirstSeen(hs), multiset(hs))
  }

  lemma {:induction false} LabelsAt(order: seq<string>, hosts: multiset<string>, k: nat)
    requires k < |order|
    ensures Labels(order, hosts)[k] == LinkLabel(order[k], hosts[order[k]])
    decreases |order|
  {
    if k < |order| - 1 {
      LabelsAt(order[..|order| - 1], hosts, k);
    }
  }

  /** One entry per distinct accepted hostname, in order of first appearance, carrying the number of
      times that hostname was accepted; `link` exactly when that number is 1. */
  lemma SummaryEntries(hs: seq<string>)
    ensures |Summary(hs)| == |FirstSeen(hs)|
    ensures forall k :: 0 <= k < |FirstSeen(hs)| ==>
      var h := FirstSeen(hs)[k];
      multiset(hs)[h] >= 1 && Summary(hs)[k] == LinkLabel(h, multiset(hs)[h])
  {
    forall k | 0 <= k < |FirstSeen(hs)|
      ensures multiset(hs)[FirstSeen(hs)[k]] >= 1
      ensures Summary(hs)[k] == LinkLabel(FirstSeen(hs)[k], multiset(hs)[FirstSeen(hs)[k]])
    {
      LabelsAt(FirstSeen(hs), multiset(hs), k);
      assert FirstSeen(hs)[k] in hs;
    }
  }

  /** The `domainCounts` object after counting the hostnames `hs` one by one. */
  function CountsOf(hs: seq<string>): map<string, nat>
    decreases |hs|
  {
    if hs == [] then map[]
    else
      var m := CountsOf(hs[..|hs| - 1]);
      var h := hs[|hs| - 1];
      m[h := (if h in m then m[h] else 0) + 1]
  }

  /** The object has a key exactly for each hostname counted, and under it the number of times that
      hostname was counted. */
  lemma {:induction false} CountsOfMeaning(hs: seq<string>)
    ensures forall h :: h in CountsOf(hs) <==> h in hs
    ensures forall h :: h in CountsOf(hs) ==> CountsOf(hs)[h] == multiset(hs)[h]
    decreases |hs|
  {
    if hs != [] {
      var init := hs[..|hs| - 1];
      CountsOfMeaning(init);
      assert hs == init + [hs[|hs| - 1]];
    }
  }

  lemma {:induction false} CountsKey(hs: seq<string>, h: string)
    ensures h in CountsOf(hs) <==> h in hs
    decreases |hs|
  {
    if hs != [] {
      CountsKey(hs[..|hs| - 1], h);
      assert hs == hs[..|hs| - 1] + [hs[|hs| - 1]];
    }
  }

  /** `order` and `counts` are the `domainCounts` object after counting the hostnames `seen`: its keys in
      insertion order, and the count under each key. */
  ghost predicate Tallied(order: seq<string>, counts: map<string, nat>, seen: seq<string>) {
    order == FirstSeen(seen) && counts == CountsOf(seen)
  }

  /** `extractURLs(content)`. `hrefs` are the `href`s of the anchors of the parsed content (the resolved
      URL strings the browser reports), `domText` the text content of that tree, and `hostOf` the URL
      parser. */
  method ExtractURLs(content: string, hrefs: seq<string>, domText: string, hostOf: string -> Option<string>)
    returns (entries: seq<string>)
    ensures content == [] ==> entries == []
    ensures content != [] ==> entries == Summary(AcceptedHosts(hrefs, TextOf(domText, content), hostOf))
  {
    if content == [] {
      return [];
    }
    var order, counts, seen := CountAnchors(hrefs, hostOf);
    var matches := UrlMatches(TextOf(domText, content), 0);
    order, counts, seen := CountMatches(matches, hostOf, order, counts, seen);
    entries := FormatCounts(order, counts, seen);
  }

  /** The loop over the anchors: empty and `javascript:` links are skipped, the rest counted by host. */
  method CountAnchors(hrefs: seq<string>, hostOf: string -> Option<string>)
    returns (order: seq<string>, counts: map<string, nat>, ghost seen: seq<string>)
    ensures seen == HrefHosts(hrefs, hostOf) && Tallied(order, counts, seen)
  {
    order, counts, seen := [], map[], [];
    for i := 0 to |hrefs|
      invariant seen == HrefHosts(hrefs[..i], hostOf) && Tallied(order, counts, seen)
    {
      assert hrefs[..i + 1][..i] == hrefs[..i];
      var href := hrefs[i];
      var domain := if href != [] && !HasPrefixAt(href, "javascript:", 0) then ExtractDomain(href, hostOf) else None;
      order, counts, seen := CountDomain(domain, order, counts, seen);
    }
    assert hrefs[..|hrefs|] == hrefs;
  }

  /** The loop over the URLs found in the text, counting on from the anchors' tally. */
  method CountMatches(matches: seq<string>, hostOf: string -> Option<string>,
                      order0: seq<string>, counts0: map<string, nat>, ghost seen0: seq<string>)
    returns (order: seq<string>, counts: map<string, nat>, ghost seen: seq<string>)
    requires Tallied(order0, counts0, seen0)
    ensures seen == seen0 + MatchHosts(matches, hostOf) && Tallied(order, counts, seen)
  {
    order, counts, seen := order0, counts0, seen0;
    ghost var added: seq<string> := [];
    for j := 0 to |matches|
      invariant added == MatchHosts(matches[..j], hostOf)
      invariant seen == seen0 + added && Tallied(order, counts, seen)
    {
      assert matches[..j + 1][..j] == matches[..j];
      var domain := ExtractDomain(matches[j], hostOf);
      order, counts, seen := CountDomain(domain, order, counts, seen);
      assert (seen0 + added) + Listed(domain) == seen0 + (added + Listed(domain));
      added := added + Listed(domain);
    }
    assert matches[..|matches|] == matches;
  }

  /** `if (domain) { ... }` around one count. */
  method CountDomain(domain: Option<string>, order: seq<string>, counts: map<string, nat>, ghost seen: seq<string>)
    returns (order': seq<string>, counts': map<string, nat>, ghost seen': seq<string>)
    requires Tallied(order, counts, seen)
    ensures seen' == seen + Listed(domain) && Tallied(order', counts', seen')
  {
    if domain.Some? {
      order', counts' := Count(domain.value, order, counts, seen);
      seen' := seen + [domain.value];
    } else {
      order', counts', seen' := order, counts, seen;
      assert seen + [] == seen;
    }
  }

  /** `Object.entries(domainCounts).map(...)`: one label per key, in key order. */
  method FormatCounts(order: seq<string>, counts: map<string, nat>, ghost seen: seq<string>)
    returns (entries: seq<string>)
    requires Tallied(order, counts, seen)
    ensures entries == Summary(seen)
  {
    CountsOfMeaning(seen);
    entries := [];
    for k := 0 to |order|
      invariant entries == Labels(order[..k], multiset(seen))
    {
      assert order[..k + 1][..k] == order[..k];
      assert order[k] in seen;
      entries := entries + [LinkLabel(order[k], counts[order[k]])];
    }
    assert order[..|order|] == order;
  }

  /** `domainCounts[domain] = (domainCounts[domain] || 0) + 1`, with the object's key order kept in `order`. */
  method Count(h: string, order: seq<string>, counts: map<string, nat>, ghost seen: seq<string>)
    returns (order': seq<string>, counts': map<string, nat>)
    requires Tallied(order, counts, seen)
    ensures Tallied(order', counts', seen + [h])
  {
    var s' := seen + [h];
    assert s'[..|s'| - 1] == seen;
    CountsKey(seen, h);
    if h in counts {
      counts' := counts[h := counts[h] + 1];
      order' := order;
    } else {
      counts' := counts[h := 1];
      order' := order + [h];
    }
  }
}

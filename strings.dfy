/** Character classes and string operations shared by the extension, server and web-app models:
    whitespace and trimming as ECMAScript and Python define them, literal replace-all as the
    `String.prototype.replace` of an escaped global regular expression performs it, an abstract
    regular-expression replace-all, comma splitting and decimal numerals. */
module Strings {

  datatype Option<T> = None | Some(value: T)

  /** ECMAScript WhiteSpace or LineTerminator: what `\s` matches and what `trim()` removes. */
  predicate IsJsSpace(c: char) {
    c == '\t' || c == '\n' || c == '\U{B}' || c == '\U{C}' || c == '\r' || c == ' '
    || c == '\U{A0}' || c == '\U{1680}' || ('\U{2000}' <= c <= '\U{200A}')
    || c == '\U{2028}' || c == '\U{2029}' || c == '\U{202F}' || c == '\U{205F}'
    || c == '\U{3000}' || c == '\U{FEFF}'
  }

  /** Python's `str.isspace()`: the characters `str.strip()` removes. */
  predicate IsPySpace(c: char) {
    ('\t' <= c <= '\r') || ('\U{1C}' <= c <= '\U{1F}') || c == ' ' || c == '\U{85}'
    || c == '\U{A0}' || c == '\U{1680}' || ('\U{2000}' <= c <= '\U{200A}')
    || c == '\U{2028}' || c == '\U{2029}' || c == '\U{202F}' || c == '\U{205F}' || c == '\U{3000}'
  }

  predicate IsAsciiDigit(c: char) { '0' <= c <= '9' }
  predicate IsAsciiUpper(c: char) { 'A' <= c <= 'Z' }
  predicate IsAsciiLower(c: char) { 'a' <= c <= 'z' }

  /** ASCII lower-casing of one character; every other character is left as it is. */
  function ToLower(c: char): (r: char)
    ensures !IsAsciiUpper(r)
    ensures IsAsciiUpper(c) ==> IsAsciiLower(r)
    ensures !IsAsciiUpper(c) ==> r == c
  {
    if IsAsciiUpper(c) then (c as int + 32) as char else c
  }

  function LowerString(s: string): (r: string)
    ensures |r| == |s|
    ensures forall i :: 0 <= i < |s| ==> r[i] == ToLower(s[i])
  {
    if s == [] then [] else [ToLower(s[0])] + LowerString(s[1..])
  }

  /** Removes leading characters satisfying `IsJsSpace`. */
  function TrimStart(s: string): (r: string)
    ensures |r| <= |s| && r == s[|s| - |r|..]
    ensures forall i :: 0 <= i < |s| - |r| ==> IsJsSpace(s[i])
    ensures r == [] || !IsJsSpace(r[0])
  {
    if s != [] && IsJsSpace(s[0]) then TrimStart(s[1..]) else s
  }

  /** Removes trailing characters satisfying `IsJsSpace`. */
  function TrimEnd(s: string): (r: string)
    ensures |r| <= |s| && r == s[..|r|]
    ensures forall i :: |r| <= i < |s| ==> IsJsSpace(s[i])
    ensures r == [] || !IsJsSpace(r[|r| - 1])
  {
    if s != [] && IsJsSpace(s[|s| - 1]) then TrimEnd(s[..|s| - 1]) else s
  }

  /** ECMAScript `String.prototype.trim`. */
  function Trim(s: string): (r: string)
    ensures r == [] || (!IsJsSpace(r[0]) && !IsJsSpace(r[|r| - 1]))
    ensures forall c :: c in r ==> c in s
  {
    TrimEnd(TrimStart(s))
  }

  /** Python's `str.strip()` with no argument. */
  function PyStrip(s: string): (r: string)
    ensures r == [] || (!IsPySpace(r[0]) && !IsPySpace(r[|r| - 1]))
    decreases |s|
  {
    if s != [] && IsPySpace(s[0]) then PyStrip(s[1..])
    else if s != [] && IsPySpace(s[|s| - 1]) then PyStrip(s[..|s| - 1])
    else s
  }

  // ---------------------------------------------------------------------------------------------
  // Occurrences and literal replace-all

  /** Equality of two characters, or equality after ASCII case folding (a regular expression's `i` flag). */
  predicate SameChar(a: char, b: char, ci: bool) {
    if ci then ToLower(a) == ToLower(b) else a == b
  }

  predicate OccursAt(s: string, p: string, i: int, ci: bool) {
    0 <= i && i + |p| <= |s| && forall j :: 0 <= j < |p| ==> SameChar(s[i + j], p[j], ci)
  }

  predicate Contains(s: string, p: string, ci: bool) {
    exists i :: 0 <= i <= |s| - |p| && OccursAt(s, p, i, ci)
  }

  /** `s.replace(new RegExp(escaped(p), ci ? 'gi' : 'g'), tag)` for a non-empty `p`: the occurrences
      of `p` found scanning left to right, each search resuming after the previous match, are replaced
      by `tag`. */
  function ReplaceAll(s: string, p: string, tag: string, ci: bool): string
    requires p != []
    decreases |s|
  {
    if s == [] then []
    else if OccursAt(s, p, 0, ci) then tag + ReplaceAll(s[|p|..], p, tag, ci)
    else [s[0]] + ReplaceAll(s[1..], p, tag, ci)
  }

  /** A match at the front is replaced and the scan resumes after it. */
  lemma ReplaceAllHead(p: string, rest: string, tag: string)
    requires p != []
    ensures ReplaceAll(p + rest, p, tag, false) == tag + ReplaceAll(rest, p, tag, false)
  {
    assert OccursAt(p + rest, p, 0, false);
    assert (p + rest)[|p|..] == rest;
  }

  /** A prefix without the pattern's first character is copied unchanged. */
  lemma {:induction false} ReplaceAllFree(a: string, rest: string, p: string, tag: string)
    requires p != [] && p[0] !in a
    ensures ReplaceAll(a + rest, p, tag, false) == a + ReplaceAll(rest, p, tag, false)
    decreases |a|
  {
    if a == [] {
      assert a + rest == rest;
    } else {
      assert (a + rest)[0] == a[0];
      assert (a + rest)[1..] == a[1..] + rest;
      ReplaceAllFree(a[1..], rest, p, tag);
      assert a == [a[0]] + a[1..];
    }
  }

  /** An empty global regular expression matches before every character and at the end. */
  function Interleave(s: string, tag: string): string
    decreases |s|
  {
    if s == [] then tag else tag + [s[0]] + Interleave(s[1..], tag)
  }

  /** `s.replace(new RegExp(escaped(p), flags), tag)` for any literal `p`. */
  function ReplaceLiteral(s: string, p: string, tag: string, ci: bool): string {
    if p == [] then Interleave(s, tag) else ReplaceAll(s, p, tag, ci)
  }

  lemma {:induction false} ReplaceAllAbsent(s: string, p: string, tag: string, ci: bool)
    requires p != [] && !Contains(s, p, ci)
    ensures ReplaceAll(s, p, tag, ci) == s
    decreases |s|
  {
    if s != [] {
      assert !OccursAt(s, p, 0, ci);
      forall i | OccursAt(s[1..], p, i, ci) ensures false {
        assert OccursAt(s, p, i + 1, ci);
      }
      ReplaceAllAbsent(s[1..], p, tag, ci);
    }
  }

  /** Replace-all only brings in characters of the tag. */
  lemma {:induction false} ReplaceAllChars(s: string, p: string, tag: string, ci: bool)
    requires p != []
    ensures forall c :: c in ReplaceAll(s, p, tag, ci) ==> c in s || c in tag
    decreases |s|
  {
    if s != [] {
      if OccursAt(s, p, 0, ci) {
        ReplaceAllChars(s[|p|..], p, tag, ci);
        assert forall c :: c in s[|p|..] ==> c in s;
      } else {
        ReplaceAllChars(s[1..], p, tag, ci);
        assert forall c :: c in s[1..] ==> c in s;
      }
    }
  }

  /** Replacing every occurrence of one character by text without it leaves none. */
  lemma {:induction false} ReplaceCharGone(s: string, c: char, tag: string)
    requires c !in tag
    ensures c !in ReplaceAll(s, [c], tag, false)
    decreases |s|
  {
    if s != [] {
      ReplaceCharGone(s[1..], c, tag);
      if !OccursAt(s, [c], 0, false) {
        assert s[0 + 0] != c;
      }
    }
  }

  /** A bracketed replacement tag such as `[REDACTED]`, and a pattern that can never be found in it or
      across its edges: it has no bracket and does not occur in the text between the brackets. */
  predicate OutsideTag(p: string, tag: string, ci: bool) {
    && |tag| >= 2 && tag[0] == '[' && tag[|tag| - 1] == ']'
    && (forall j :: 0 <= j < |p| ==> p[j] != '[' && p[j] != ']')
    && !Contains(tag[1..|tag| - 1], p, ci)
  }

  lemma BracketSame(c: char, b: char, ci: bool)
    requires b == '[' || b == ']'
    requires SameChar(c, b, ci)
    ensures c == b
  {
  }

  /** An occurrence of such a pattern cannot start inside the tag. */
  lemma {:induction false} TagBlocks(tag: string, rest: string, p: string, i: int, ci: bool)
    requires p != [] && OutsideTag(p, tag, ci) && 0 <= i < |tag|
    ensures !OccursAt(tag + rest, p, i, ci)
  {
    var t := tag + rest;
    if OccursAt(t, p, i, ci) {
      if i == 0 {
        assert SameChar(t[0], p[0], ci);
        BracketSame(p[0], '[', ci);
      } else if i + |p| >= |tag| {
        var j := |tag| - 1 - i;
        assert SameChar(t[i + j], p[j], ci);
        BracketSame(p[j], ']', ci);
      } else {
        var inner := tag[1..|tag| - 1];
        assert OccursAt(inner, p, i - 1, ci) by {
          forall j | 0 <= j < |p| ensures SameChar(inner[i - 1 + j], p[j], ci) {
            assert t[i + j] == inner[i - 1 + j];
          }
        }
      }
    }
  }

  lemma OccursShift(a: string, b: string, p: string, i: int, ci: bool)
    requires i >= |a| && OccursAt(a + b, p, i, ci)
    ensures OccursAt(b, p, i - |a|, ci)
  {
    forall j | 0 <= j < |p| ensures SameChar(b[i - |a| + j], p[j], ci) {
      assert (a + b)[i + j] == b[i - |a| + j];
    }
  }

  lemma PrefixStep(s: string, r': string, k: nat)
    requires 0 < k <= |s| && k - 1 <= |r'| && r'[..k - 1] == s[1..][..k - 1]
    requires k == |s| ==> r' == s[1..]
    ensures ([s[0]] + r')[..k] == s[..k]
    ensures k == |s| ==> [s[0]] + r' == s
  {
    assert s[..k] == [s[0]] + s[1..][..k - 1];
    assert ([s[0]] + r')[..k] == [s[0]] + r'[..k - 1];
  }

  /** The replaced text begins with the first `k` characters of the input, or a tag opens within them. */
  lemma {:induction false} PrefixOrOpen(s: string, q: string, tag: string, ci: bool, k: nat) returns (j: int)
    requires q != [] && tag != [] && tag[0] == '[' && k <= |s|
    ensures var r := ReplaceAll(s, q, tag, ci);
      || (j == -1 && k <= |r| && r[..k] == s[..k] && (k == |s| ==> r == s))
      || (0 <= j < k && j < |r| && r[j] == '[')
    decreases |s|
  {
    if s == [] {
      j := -1;
    } else if OccursAt(s, q, 0, ci) {
      j := if k == 0 then -1 else 0;
    } else if k == 0 {
      j := -1;
    } else {
      var j' := PrefixOrOpen(s[1..], q, tag, ci, k - 1);
      var r' := ReplaceAll(s[1..], q, tag, ci);
      assert ReplaceAll(s, q, tag, ci) == [s[0]] + r';
      if j' == -1 {
        j := -1;
        PrefixStep(s, r', k);
      } else {
        j := j' + 1;
      }
    }
  }

  lemma OccursDrop(s: string, d: nat, p: string, i: nat, ci: bool)
    requires d <= |s|
    ensures OccursAt(s[d..], p, i, ci) <==> OccursAt(s, p, i + d, ci)
  {
    if OccursAt(s[d..], p, i, ci) {
      forall j | 0 <= j < |p| ensures SameChar(s[i + d + j], p[j], ci) {
        assert s[d..][i + j] == s[i + d + j];
      }
    }
    if OccursAt(s, p, i + d, ci) {
      forall j | 0 <= j < |p| ensures SameChar(s[d..][i + j], p[j], ci) {
        assert s[d..][i + j] == s[i + d + j];
      }
    }
  }

  /** Every occurrence of `p` being one of `q` carries over to a suffix. */
  lemma SuffixCovered(s: string, d: nat, p: string, q: string, ciP: bool, ciQ: bool)
    requires d <= |s|
    requires forall i :: OccursAt(s, p, i, ciP) ==> OccursAt(s, q, i, ciQ)
    ensures forall i :: OccursAt(s[d..], p, i, ciP) ==> OccursAt(s[d..], q, i, ciQ)
  {
    forall i | OccursAt(s[d..], p, i, ciP) ensures OccursAt(s[d..], q, i, ciQ) {
      OccursDrop(s, d, p, i, ciP);
      OccursDrop(s, d, q, i, ciQ);
    }
  }

  /** A tag in front of text free of the pattern keeps it free. */
  lemma TagHead(tag: string, rest: string, p: string, ci: bool)
    requires p != [] && OutsideTag(p, tag, ci) && !Contains(rest, p, ci)
    ensures !Contains(tag + rest, p, ci)
  {
    forall i | OccursAt(tag + rest, p, i, ci) ensures false {
      if i < |tag| {
        TagBlocks(tag, rest, p, i, ci);
      } else {
        OccursShift(tag, rest, p, i, ci);
      }
    }
  }

  /** A copied first character cannot start an occurrence of `p` in the output: the output either
      repeats the input far enough to show the occurrence there, or has a tag opening in the way. */
  lemma CharHead(s: string, p: string, q: string, tag: string, ciP: bool, ciQ: bool)
    requires p != [] && q != [] && OutsideTag(p, tag, ciP) && s != [] && !OccursAt(s, q, 0, ciQ)
    requires forall i :: OccursAt(s, p, i, ciP) ==> OccursAt(s, q, i, ciQ)
    requires !Contains(ReplaceAll(s[1..], q, tag, ciQ), p, ciP)
    ensures !Contains(ReplaceAll(s, q, tag, ciQ), p, ciP)
  {
    var r' := ReplaceAll(s[1..], q, tag, ciQ);
    var r := ReplaceAll(s, q, tag, ciQ);
    assert r == [s[0]] + r';
    forall i | OccursAt(r, p, i, ciP) ensures false {
      if i >= 1 {
        OccursShift([s[0]], r', p, i, ciP);
      } else {
        FirstNotOccurrence(s, p, q, tag, ciP, ciQ);
      }
    }
  }

  lemma FirstNotOccurrence(s: string, p: string, q: string, tag: string, ciP: bool, ciQ: bool)
    requires p != [] && q != [] && OutsideTag(p, tag, ciP) && s != [] && !OccursAt(s, q, 0, ciQ)
    requires !OccursAt(s, p, 0, ciP)
    ensures !OccursAt([s[0]] + ReplaceAll(s[1..], q, tag, ciQ), p, 0, ciP)
  {
    var s' := s[1..];
    var r' := ReplaceAll(s', q, tag, ciQ);
    var r := [s[0]] + r';
    if OccursAt(r, p, 0, ciP) {
      var k := if |p| - 1 <= |s'| then |p| - 1 else |s'|;
      var j := PrefixOrOpen(s', q, tag, ciQ, k);
      if j >= 0 {
        assert r[j + 1] == '[';
        assert SameChar(r[0 + (j + 1)], p[j + 1], ciP);
        BracketSame(p[j + 1], '[', ciP);
      } else if k == |p| - 1 {
        SameStart(s, r, p, ciP);
      }
    }
  }

  lemma SameStart(s: string, r: string, p: string, ci: bool)
    requires p != [] && |p| <= |s| && |p| <= |r| && r[0] == s[0] && OccursAt(r, p, 0, ci)
    requires r[1..][..|p| - 1] == s[1..][..|p| - 1]
    ensures OccursAt(s, p, 0, ci)
  {
    forall m | 0 <= m < |p| ensures SameChar(s[m], p[m], ci) {
      if m > 0 {
        assert r[1..][..|p| - 1][m - 1] == s[1..][..|p| - 1][m - 1];
      }
      assert r[0 + m] == s[m];
    }
  }

  /** The heart of the redaction guarantee. Replacing the occurrences of `q` leaves no occurrence of
      `p` when every occurrence of `p` in the input is also an occurrence of `q` and `p` cannot be
      found in or across the tag. */
  lemma {:induction false} NoSurvivor(s: string, p: string, q: string, tag: string, ciP: bool, ciQ: bool)
    requires p != [] && q != [] && OutsideTag(p, tag, ciP)
    requires forall i :: OccursAt(s, p, i, ciP) ==> OccursAt(s, q, i, ciQ)
    ensures !Contains(ReplaceAll(s, q, tag, ciQ), p, ciP)
    decreases |s|
  {
    if s == [] {
      assert ReplaceAll(s, q, tag, ciQ) == [];
    } else if OccursAt(s, q, 0, ciQ) {
      SuffixCovered(s, |q|, p, q, ciP, ciQ);
      NoSurvivor(s[|q|..], p, q, tag, ciP, ciQ);
      TagHead(tag, ReplaceAll(s[|q|..], q, tag, ciQ), p, ciP);
    } else {
      SuffixCovered(s, 1, p, q, ciP, ciQ);
      NoSurvivor(s[1..], p, q, tag, ciP, ciQ);
      CharHead(s, p, q, tag, ciP, ciQ);
    }
  }

  /** After replacing a pattern that cannot be found in or across the tag, it no longer occurs. */
  lemma PatternGone(s: string, p: string, tag: string, ci: bool)
    requires p != [] && OutsideTag(p, tag, ci)
    ensures !Contains(ReplaceAll(s, p, tag, ci), p, ci)
  {
    NoSurvivor(s, p, p, tag, ci, ci);
  }

  /** A later replacement never brings back such a pattern. */
  lemma AbsenceKept(s: string, p: string, q: string, tag: string, ciP: bool, ciQ: bool)
    requires p != [] && OutsideTag(p, tag, ciP) && !Contains(s, p, ciP)
    ensures !Contains(ReplaceLiteral(s, q, tag, ciQ), p, ciP)
  {
    if q == [] {
      InterleaveKeepsAbsence(s, p, tag, ciP);
    } else {
      NoSurvivor(s, p, q, tag, ciP, ciQ);
    }
  }

  lemma {:induction false} InterleaveKeepsAbsence(s: string, p: string, tag: string, ci: bool)
    requires p != [] && OutsideTag(p, tag, ci) && !Contains(s, p, ci)
    ensures !Contains(Interleave(s, tag), p, ci)
    decreases |s|
  {
    var r := Interleave(s, tag);
    if s == [] {
      forall i | OccursAt(r, p, i, ci) ensures false {
        assert r == tag + [];
        TagBlocks(tag, [], p, i, ci);
      }
    } else {
      var s' := s[1..];
      forall i | OccursAt(s', p, i, ci) ensures false {
        assert OccursAt(s, p, i + 1, ci) by {
          forall j | 0 <= j < |p| ensures SameChar(s[i + 1 + j], p[j], ci) {
            assert s'[i + j] == s[i + 1 + j];
          }
        }
      }
      InterleaveKeepsAbsence(s', p, tag, ci);
      var r' := Interleave(s', tag);
      assert r == tag + ([s[0]] + r');
      assert r' == tag + (if s' == [] then [] else [s'[0]] + Interleave(s'[1..], tag));
      forall i | OccursAt(r, p, i, ci) ensures false {
        if i < |tag| {
          TagBlocks(tag, [s[0]] + r', p, i, ci);
        } else if i == |tag| {
          if |p| == 1 {
            assert OccursAt(s, p, 0, ci) by {
              assert r[i + 0] == s[0];
            }
          } else {
            assert r[i + 1] == '[';
            assert SameChar(r[i + 1], p[1], ci);
            BracketSame(p[1], '[', ci);
          }
        } else {
          OccursShift(tag + [s[0]], r', p, i, ci);
        }
      }
    }
  }

  // ---------------------------------------------------------------------------------------------
  // Replace-all driven by an abstract regular expression

  /** A regular expression seen only through its matches: the length of the match the engine reports
      when it tries position `i` of `s` (0 when it reports none there). The whole string is passed so that
      anchors such as word boundaries may look at the neighbouring characters. */
  type Matcher = (string, nat) -> nat

  /** `s.replace(regex, tag)` (ECMAScript, global flag) and `re.sub(regex, tag, s)` (Python) for a
      regular expression that never matches the empty string, resuming the scan at position `i`. */
  function ReplaceMatches(s: string, m: Matcher, tag: string, i: nat): string
    decreases |s| - i
  {
    if i >= |s| then []
    else if 0 < m(s, i) <= |s| - i then tag + ReplaceMatches(s, m, tag, i + m(s, i))
    else [s[i]] + ReplaceMatches(s, m, tag, i + 1)
  }

  /** The matcher reports no match in any text free of the characters in `needed`; for instance every
      match of an e-mail pattern holds an `@`. */
  ghost predicate NeedsOneOf(m: Matcher, needed: char -> bool) {
    forall s: string, i: nat {:trigger m(s, i)} ::
      (forall j :: 0 <= j < |s| ==> !needed(s[j])) ==> m(s, i) == 0
  }

  lemma {:induction false} ReplaceMatchesNone(s: string, m: Matcher, tag: string, i: nat, needed: char -> bool)
    requires NeedsOneOf(m, needed) && i <= |s|
    requires forall j :: 0 <= j < |s| ==> !needed(s[j])
    ensures ReplaceMatches(s, m, tag, i) == s[i..]
    decreases |s| - i
  {
    if i < |s| {
      assert m(s, i) == 0;
      ReplaceMatchesNone(s, m, tag, i + 1, needed);
    }
  }

  // ---------------------------------------------------------------------------------------------
  // Splitting on a separator

  /** ECMAScript `s.split(sep)` for a one-character separator. */
  function Split(s: string, sep: char): (r: seq<string>)
    ensures |r| >= 1
    ensures forall k :: 0 <= k < |r| ==> sep !in r[k]
    decreases |s|
  {
    if s == [] then [[]]
    else
      var rest := Split(s[1..], sep);
      if s[0] == sep then [[]] + rest else [[s[0]] + rest[0]] + rest[1..]
  }

  /** ECMAScript `parts.join(sep)`. */
  function Join(parts: seq<string>, sep: char): string
    decreases |parts|
  {
    if parts == [] then [] else if |parts| == 1 then parts[0] else parts[0] + [sep] + Join(parts[1..], sep)
  }

  lemma {:induction false} JoinSplit(s: string, sep: char)
    ensures Join(Split(s, sep), sep) == s
    decreases |s|
  {
    if s != [] {
      JoinSplit(s[1..], sep);
      var rest := Split(s[1..], sep);
      if s[0] != sep {
        if |rest| == 1 {
          assert Join(Split(s, sep), sep) == [s[0]] + rest[0];
        } else {
          assert Join(Split(s, sep), sep) == [s[0]] + rest[0] + [sep] + Join(rest[1..], sep);
        }
      }
    }
  }

  /** Splitting a text that starts with a separator-free field. */
  lemma {:induction false} SplitFirst(a: string, b: string, sep: char)
    requires sep !in a
    ensures Split(a + [sep] + b, sep) == [a] + Split(b, sep)
    decreases |a|
  {
    if a == [] {
      assert a + [sep] + b == [sep] + b;
      assert ([sep] + b)[1..] == b;
    } else {
      SplitFirst(a[1..], b, sep);
      assert (a + [sep] + b)[1..] == a[1..] + [sep] + b;
      assert [a[0]] + a[1..] == a;
    }
  }

  /** Splitting at one separator splits the two sides independently. */
  lemma {:induction false} SplitAppend(a: string, b: string, sep: char)
    ensures Split(a + [sep] + b, sep) == Split(a, sep) + Split(b, sep)
    decreases |a|
  {
    if a == [] {
      SplitAtSep(b, sep);
    } else {
      SplitAppend(a[1..], b, sep);
      SplitAppendStep(a, b, sep);
    }
  }

  lemma {:induction false} SplitAtSep(b: string, sep: char)
    ensures Split([] + [sep] + b, sep) == Split([], sep) + Split(b, sep)
  {
    assert [] + [sep] + b == [sep] + b && ([sep] + b)[1..] == b;
  }

  lemma {:induction false} SplitAppendStep(a: string, b: string, sep: char)
    requires a != [] && Split(a[1..] + [sep] + b, sep) == Split(a[1..], sep) + Split(b, sep)
    ensures Split(a + [sep] + b, sep) == Split(a, sep) + Split(b, sep)
  {
    var left, right := Split(a[1..], sep), Split(b, sep);
    var both := left + right;
    assert Split(a + [sep] + b, sep) == if a[0] == sep then [[]] + both else [[a[0]] + both[0]] + both[1..] by {
      Unconsed(a, [sep], b);
      SplitCons(a[0], a[1..] + [sep] + b, sep);
    }
    assert Split(a, sep) == if a[0] == sep then [[]] + left else [[a[0]] + left[0]] + left[1..] by {
      Unconsed(a, [], []);
      SplitCons(a[0], a[1..], sep);
    }
    FieldsAppend(a[0], a[0] == sep, left, right);
  }

  /** The fields of `c` followed by a text, where `left` are the fields of that text: a new empty
      field when `c` is the separator, otherwise `c` joins the first field. */
  lemma {:induction false} FieldsAppend(c: char, atSep: bool, left: seq<string>, right: seq<string>)
    requires |left| >= 1
    ensures var both := left + right;
      (if atSep then [[]] + both else [[c] + both[0]] + both[1..])
      == (if atSep then [[]] + left else [[c] + left[0]] + left[1..]) + right
  {
    var both := left + right;
    if atSep {
      assert [[]] + both == [[]] + left + right;
    } else {
      assert both[0] == left[0] && both[1..] == left[1..] + right;
      assert [[c] + left[0]] + both[1..] == [[c] + left[0]] + left[1..] + right;
    }
  }

  lemma Unconsed(a: string, x: string, y: string)
    requires a != []
    ensures a == [a[0]] + a[1..] && a + x + y == [a[0]] + (a[1..] + x + y)
  {
  }

  lemma {:induction false} SplitCons(c: char, t: string, sep: char)
    ensures var rest := Split(t, sep);
      Split([c] + t, sep) == if c == sep then [[]] + rest else [[c] + rest[0]] + rest[1..]
  {
    assert ([c] + t)[0] == c && ([c] + t)[1..] == t;
  }

  lemma {:induction false} SplitNoSep(a: string, sep: char)
    requires sep !in a
    ensures Split(a, sep) == [a]
    decreases |a|
  {
    if a != [] {
      SplitNoSep(a[1..], sep);
      assert [a[0]] + a[1..] == a;
    }
  }

  // ---------------------------------------------------------------------------------------------
  // Decimal numerals

  function DigitChar(d: nat): (c: char)
    requires d < 10
    ensures IsAsciiDigit(c)
  {
    ('0' as int + d) as char
  }

  /** The decimal numeral of `n`, as a template literal `${n}` prints a non-negative integer. */
  function NatToString(n: nat): (r: string)
    ensures |r| >= 1 && forall i :: 0 <= i < |r| ==> IsAsciiDigit(r[i])
    decreases n
  {
    if n < 10 then [DigitChar(n)] else NatToString(n / 10) + [DigitChar(n % 10)]
  }

  predicate AllDigits(s: string) {
    forall i :: 0 <= i < |s| ==> IsAsciiDigit(s[i])
  }

  /** The value of a string of decimal digits, as `parseInt` reads it. */
  function DigitsValue(s: string): nat
    requires AllDigits(s)
    decreases |s|
  {
    if s == [] then 0 else DigitsValue(s[..|s| - 1]) * 10 + (s[|s| - 1] as int - '0' as int)
  }

  lemma {:induction false} ParseFormatted(n: nat)
    ensures DigitsValue(NatToString(n)) == n
    decreases n
  {
    if n >= 10 {
      ParseFormatted(n / 10);
      var s := NatToString(n);
      assert s[..|s| - 1] == NatToString(n / 10);
    }
  }
}

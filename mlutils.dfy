/** The text helpers of the backend's classifier: the normalisation `process_text`, the server-side
    PII redaction `redact_pii`, and how `predict_phishing` composes the classifier's input. The
    vectoriser and the trained model are one oracle, `classify`. */
module MlUtils {
  import opened Strings

  // ---------------------------------------------------------------------------------------------
  // process_text
  // ---------------------------------------------------------------------------------------------

  /** A character `process_text` keeps once lower-cased: alphanumeric (ASCII) or whitespace. */
  predicate Kept(c: char) {
    IsAsciiLower(c) || IsAsciiDigit(c) || IsPySpace(c)
  }

  /** `text.lower()`, then only the alphanumeric and whitespace characters, in order. */
  function ProcessText(text: string): (r: string)
    ensures |r| <= |text|
    ensures forall i :: 0 <= i < |r| ==> Kept(r[i])
    decreases |text|
  {
    if text == [] then []
    else
      var c := ToLower(text[0]);
      (if Kept(c) then [c] else []) + ProcessText(text[1..])
  }

  /** Text made only of kept characters passes through unchanged. */
  lemma {:induction false} KeptUnchanged(s: string)
    requires forall i :: 0 <= i < |s| ==> Kept(s[i])
    ensures ProcessText(s) == s
    decreases |s|
  {
    if s != [] {
      assert Kept(s[0]) && ToLower(s[0]) == s[0];
      KeptUnchanged(s[1..]);
      assert s == [s[0]] + s[1..];
    }
  }

  /** Normalising twice is normalising once. */
  lemma ProcessTextIdempotent(text: string)
    ensures ProcessText(ProcessText(text)) == ProcessText(text)
  {
    KeptUnchanged(ProcessText(text));
  }

  /** Normalisation works character by character, so it distributes over concatenation. */
  lemma {:induction false} ProcessTextAppend(a: string, b: string)
    ensures ProcessText(a + b) == ProcessText(a) + ProcessText(b)
    decreases |a|
  {
    if a != [] {
      assert (a + b)[0] == a[0] && (a + b)[1..] == a[1..] + b;
      ProcessTextAppend(a[1..], b);
    } else {
      assert a + b == b;
    }
  }

  // ---------------------------------------------------------------------------------------------
  // redact_pii
  // ---------------------------------------------------------------------------------------------

  /** The four patterns, abstracted as matchers (see `Strings.Matcher`). */
  datatype PiiPatterns = PiiPatterns(email: Matcher, phone: Matcher, card: Matcher, ssn: Matcher)

  const EmailTag := "[REDACTED_EMAIL]"
  const PhoneTag := "[REDACTED_PHONE]"
  const CardTag := "[REDACTED_CC]"
  const SsnTag := "[REDACTED_SSN]"

  /** The code point ranges of Unicode general category Nd (version 15.0), which `\d` matches in a
      Python 3 `str` pattern. */
  const DecimalRanges: seq<(int, int)> := [
    (0x30, 0x39), (0x660, 0x669), (0x6F0, 0x6F9), (0x7C0, 0x7C9), (0x966, 0x96F), (0x9E6, 0x9EF),
    (0xA66, 0xA6F), (0xAE6, 0xAEF), (0xB66, 0xB6F), (0xBE6, 0xBEF), (0xC66, 0xC6F), (0xCE6, 0xCEF),
    (0xD66, 0xD6F), (0xDE6, 0xDEF), (0xE50, 0xE59), (0xED0, 0xED9), (0xF20, 0xF29), (0x1040, 0x1049),
    (0x1090, 0x1099), (0x17E0, 0x17E9), (0x1810, 0x1819), (0x1946, 0x194F), (0x19D0, 0x19D9),
    (0x1A80, 0x1A89), (0x1A90, 0x1A99), (0x1B50, 0x1B59), (0x1BB0, 0x1BB9), (0x1C40, 0x1C49),
    (0x1C50, 0x1C59), (0xA620, 0xA629), (0xA8D0, 0xA8D9), (0xA900, 0xA909), (0xA9D0, 0xA9D9),
    (0xA9F0, 0xA9F9), (0xAA50, 0xAA59), (0xABF0, 0xABF9), (0xFF10, 0xFF19), (0x104A0, 0x104A9),
    (0x10D30, 0x10D39), (0x11066, 0x1106F), (0x110F0, 0x110F9), (0x11136, 0x1113F), (0x111D0, 0x111D9),
    (0x112F0, 0x112F9), (0x11450, 0x11459), (0x114D0, 0x114D9), (0x11650, 0x11659), (0x116C0, 0x116C9),
    (0x11730, 0x11739), (0x118E0, 0x118E9), (0x11950, 0x11959), (0x11C50, 0x11C59), (0x11D50, 0x11D59),
    (0x11DA0, 0x11DA9), (0x11F50, 0x11F59), (0x16A60, 0x16A69), (0x16AC0, 0x16AC9), (0x16B50, 0x16B59),
    (0x1D7CE, 0x1D7FF), (0x1E140, 0x1E149), (0x1E2F0, 0x1E2F9), (0x1E4F0, 0x1E4F9), (0x1E950, 0x1E959),
    (0x1FBF0, 0x1FBF9)]

  function InRanges(n: int, rs: seq<(int, int)>): bool
    decreases |rs|
  {
    rs != [] && (rs[0].0 <= n <= rs[0].1 || InRanges(n, rs[1..]))
  }

  /** A character `\d` matches: any Unicode decimal digit, not only `0`-`9`. */
  predicate IsDecimal(c: char) {
    InRanges(c as int, DecimalRanges)
  }

  predicate IsAt(c: char) { c == '@' }

  /** Every match of the e-mail pattern holds an `@`; every match of the other three, a decimal digit. */
  ghost predicate Plausible(p: PiiPatterns) {
    NeedsOneOf(p.email, IsAt) && NeedsOneOf(p.phone, IsDecimal)
    && NeedsOneOf(p.card, IsDecimal) && NeedsOneOf(p.ssn, IsDecimal)
  }

  /** Four `re.sub` passes, in this order: e-mail addresses, phone numbers, card numbers, SSNs. */
  function RedactPii(text: string, p: PiiPatterns): string {
    var emails := ReplaceMatches(text, p.email, EmailTag, 0);
    var phones := ReplaceMatches(emails, p.phone, PhoneTag, 0);
    var cards := ReplaceMatches(phones, p.card, CardTag, 0);
    ReplaceMatches(cards, p.ssn, SsnTag, 0)
  }

  /** Text with no `@` and no decimal digit comes back unchanged. */
  lemma RedactPiiClean(text: string, p: PiiPatterns)
    requires Plausible(p)
    requires forall j :: 0 <= j < |text| ==> text[j] != '@' && !IsDecimal(text[j])
    ensures RedactPii(text, p) == text
  {
    ReplaceMatchesNone(text, p.email, EmailTag, 0, IsAt);
    ReplaceMatchesNone(text, p.phone, PhoneTag, 0, IsDecimal);
    ReplaceMatchesNone(text, p.card, CardTag, 0, IsDecimal);
    ReplaceMatchesNone(text, p.ssn, SsnTag, 0, IsDecimal);
  }

  /** Every pass replaces a match by a non-empty tag, so a non-empty text never comes back empty. */
  lemma RedactPiiNonEmpty(text: string, p: PiiPatterns)
    requires text != []
    ensures RedactPii(text, p) != []
  {
    var emails := ReplaceMatches(text, p.email, EmailTag, 0);
    var phones := ReplaceMatches(emails, p.phone, PhoneTag, 0);
    var cards := ReplaceMatches(phones, p.card, CardTag, 0);
    assert emails != [];
    assert phones != [];
    assert cards != [];
  }

  // ---------------------------------------------------------------------------------------------
  // predict_phishing
  // ---------------------------------------------------------------------------------------------

  /** The classifier's input: the three fields joined by single spaces, then normalised. */
  function ClassifierInput(sender: string, subject: string, content: string): string {
    ProcessText(sender + " " + subject + " " + content)
  }

  /** Each field is normalised on its own, and the two separating spaces survive. */
  lemma ClassifierInputPieces(sender: string, subject: string, content: string)
    ensures ClassifierInput(sender, subject, content)
      == ProcessText(sender) + " " + ProcessText(subject) + " " + ProcessText(content)
  {
    ProcessTextAppend(sender + " " + subject + " ", content);
    ProcessTextAppend(sender + " " + subject, " ");
    ProcessTextAppend(sender + " ", subject);
    ProcessTextAppend(sender, " ");
    assert ProcessText(" ") == " " by {
      assert ProcessText(" "[1..]) == [];
    }
  }

  /** `predict_phishing`: the class the model gives the normalised text is 1. */
  function PredictPhishing(sender: string, subject: string, content: string, classify: string -> int): (r: bool)
    ensures r <==> classify(ProcessText(sender) + " " + ProcessText(subject) + " " + ProcessText(content)) == 1
  {
    ClassifierInputPieces(sender, subject, content);
    classify(ClassifierInput(sender, subject, content)) == 1
  }
}

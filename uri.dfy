/** Percent-encoding as the extension uses it to hand an e-mail from the background script to the
    redaction window: ECMAScript `encodeURIComponent` / `decodeURIComponent` over UTF-8, the
    extension's "safe" wrappers around them, and the query string the redaction window reads back
    through `URLSearchParams`. */
module UriCodec {
  import opened Strings

  type Byte = b: int | 0 <= b < 256

  // ---------------------------------------------------------------------------------------------
  // UTF-8

  /** The UTF-8 encoding of one Unicode scalar value. */
  function Utf8(c: char): (bs: seq<Byte>)
    ensures 1 <= |bs| <= 4
    ensures SeqLen(bs[0]) == |bs|
    ensures forall i :: 1 <= i < |bs| ==> IsCont(bs[i])
    ensures |bs| == 1 <==> c as int < 0x80
  {
    var cp := c as int;
    if cp < 0x80 then [cp]
    else if cp < 0x800 then [0xC0 + cp / 0x40, 0x80 + cp % 0x40]
    else if cp < 0x10000 then [0xE0 + cp / 0x40 / 0x40, 0x80 + cp / 0x40 % 0x40, 0x80 + cp % 0x40]
    else [0xF0 + cp / 0x40 / 0x40 / 0x40, 0x80 + cp / 0x40 / 0x40 % 0x40, 0x80 + cp / 0x40 % 0x40, 0x80 + cp % 0x40]
  }

  /** The length of the sequence a lead byte announces; 0 for a byte that cannot lead one. */
  function SeqLen(b: Byte): nat {
    if b < 0x80 then 1
    else if b < 0xC0 then 0
    else if b < 0xE0 then 2
    else if b < 0xF0 then 3
    else if b < 0xF8 then 4
    else 0
  }

  predicate IsCont(b: Byte) { 0x80 <= b < 0xC0 }

  /** Reads one code point from an octet sequence whose lead byte announces its length, rejecting
      bad continuation bytes, overlong forms, surrogates and values beyond U+10FFFF. */
  function Utf8Decode(bs: seq<Byte>): (r: Option<char>)
    requires 1 <= |bs| <= 4 && SeqLen(bs[0]) == |bs|
    ensures r.Some? ==> Utf8(r.value) == bs
  {
    if |bs| == 1 then Some(bs[0] as char)
    else if exists i :: 1 <= i < |bs| && !IsCont(bs[i]) then None
    else if |bs| == 2 then
      assert bs == [bs[0], bs[1]];
      Decode2(bs[0], bs[1])
    else if |bs| == 3 then
      assert bs == [bs[0], bs[1], bs[2]];
      Decode3(bs[0], bs[1], bs[2])
    else
      assert bs == [bs[0], bs[1], bs[2], bs[3]];
      Decode4(bs[0], bs[1], bs[2], bs[3])
  }

  lemma DivMod64(q: int, r: int)
    requires 0 <= r < 0x40
    ensures (q * 0x40 + r) / 0x40 == q && (q * 0x40 + r) % 0x40 == r
  {
  }

  function Decode2(b0: Byte, b1: Byte): (r: Option<char>)
    requires SeqLen(b0) == 2 && IsCont(b1)
    ensures r.Some? ==> Utf8(r.value) == [b0, b1]
  {
    var cp := (b0 - 0xC0) * 0x40 + (b1 - 0x80);
    DivMod64(b0 - 0xC0, b1 - 0x80);
    if cp < 0x80 then None else Some(cp as char)
  }

  function Decode3(b0: Byte, b1: Byte, b2: Byte): (r: Option<char>)
    requires SeqLen(b0) == 3 && IsCont(b1) && IsCont(b2)
    ensures r.Some? ==> Utf8(r.value) == [b0, b1, b2]
  {
    var hi := (b0 - 0xE0) * 0x40 + (b1 - 0x80);
    var cp := hi * 0x40 + (b2 - 0x80);
    DivMod64(hi, b2 - 0x80);
    DivMod64(b0 - 0xE0, b1 - 0x80);
    if cp < 0x800 || (0xD800 <= cp <= 0xDFFF) then None else Some(cp as char)
  }

  function Decode4(b0: Byte, b1: Byte, b2: Byte, b3: Byte): (r: Option<char>)
    requires SeqLen(b0) == 4 && IsCont(b1) && IsCont(b2) && IsCont(b3)
    ensures r.Some? ==> Utf8(r.value) == [b0, b1, b2, b3]
  {
    var hi := (b0 - 0xF0) * 0x40 + (b1 - 0x80);
    var mid := hi * 0x40 + (b2 - 0x80);
    var cp := mid * 0x40 + (b3 - 0x80);
    DivMod64(mid, b3 - 0x80);
    DivMod64(hi, b2 - 0x80);
    DivMod64(b0 - 0xF0, b1 - 0x80);
    if cp < 0x10000 || cp > 0x10FFFF then None else Some(cp as char)
  }

  lemma Utf8RoundTrip(c: char)
    ensures Utf8Decode(Utf8(c)) == Some(c)
  {
  }

  // ---------------------------------------------------------------------------------------------
  // Hexadecimal digits

  /** Upper-case hexadecimal digit, as both `encodeURIComponent` and `escape` write them. */
  function HexDigit(d: nat): (c: char)
    requires d < 16
    ensures IsHex(c) && HexVal(c) == d && c != '%'
  {
    if d < 10 then ('0' as int + d) as char else ('A' as int + d - 10) as char
  }

  predicate IsHex(c: char) {
    ('0' <= c <= '9') || ('A' <= c <= 'F') || ('a' <= c <= 'f')
  }

  function HexVal(c: char): (d: nat)
    requires IsHex(c)
    ensures d < 16
  {
    if '0' <= c <= '9' then c as int - '0' as int
    else if 'A' <= c <= 'F' then c as int - 'A' as int + 10
    else c as int - 'a' as int + 10
  }

  /** `%XY` for a byte. */
  function Percent(b: Byte): (r: string)
    ensures |r| == 3 && r[0] == '%' && IsHex(r[1]) && IsHex(r[2]) && r[1] != '%' && r[2] != '%'
    ensures HexVal(r[1]) * 16 + HexVal(r[2]) == b
  {
    ['%', HexDigit(b / 16), HexDigit(b % 16)]
  }

  // ---------------------------------------------------------------------------------------------
  // Encoding, seen as a sequence of tokens

  /** One unit of encoded text: a character kept as it is, or one escaped byte. */
  datatype Tok = Lit(c: char) | Esc(b: Byte)

  function EscAll(bs: seq<Byte>): (ts: seq<Tok>)
    ensures |ts| == |bs|
  {
    if bs == [] then [] else [Esc(bs[0])] + EscAll(bs[1..])
  }

  function CharTokens(c: char, keep: char -> bool): seq<Tok> {
    if keep(c) then [Lit(c)] else EscAll(Utf8(c))
  }

  /** The tokens of `s` when the characters satisfying `keep` are left unescaped. */
  function Tokens(s: string, keep: char -> bool): seq<Tok>
    decreases |s|
  {
    if s == [] then [] else CharTokens(s[0], keep) + Tokens(s[1..], keep)
  }

  function RenderTok(t: Tok): string {
    match t
    case Lit(c) => [c]
    case Esc(b) => Percent(b)
  }

  function Render(ts: seq<Tok>): string
    decreases |ts|
  {
    if ts == [] then [] else RenderTok(ts[0]) + Render(ts[1..])
  }

  /** The characters `encodeURIComponent` leaves unescaped: letters, digits and `-_.!~*'()`. */
  predicate IsUnreserved(c: char) {
    ('A' <= c <= 'Z') || ('a' <= c <= 'z') || ('0' <= c <= '9')
    || c == '-' || c == '_' || c == '.' || c == '!' || c == '~' || c == '*' || c == '\'' || c == '(' || c == ')'
  }

  /** The characters the extension's safe encoder leaves unescaped. */
  predicate IsSafeKept(c: char) {
    IsUnreserved(c) && c != '\'' && c != '(' && c != ')'
  }

  predicate IsMark(c: char) { c == '\'' || c == '(' || c == ')' }

  /** ECMAScript `encodeURIComponent` (never throws: a `char` is never a lone surrogate). */
  function EncodeURIComponent(s: string): string {
    Render(Tokens(s, IsUnreserved))
  }

  /** `t.replace(/['()]/g, escape)`. */
  function EscapeMarks(t: string): string
    decreases |t|
  {
    if t == [] then []
    else (if IsMark(t[0]) then Percent(t[0] as int) else [t[0]]) + EscapeMarks(t[1..])
  }

  /** `safeEncodeURIComponent` of preprocessing.js. */
  function SafeEncode(s: string): string {
    if s == [] then [] else EscapeMarks(EncodeURIComponent(s))
  }

  // ---------------------------------------------------------------------------------------------
  // Decoding

  function Cons(c: char, o: Option<string>): Option<string> {
    match o
    case None => None
    case Some(s) => Some([c] + s)
  }

  /** The byte written as `%XY` at the start of `t`. */
  function EscapedByte(t: string): Option<Byte> {
    if |t| >= 3 && t[0] == '%' && IsHex(t[1]) && IsHex(t[2]) then Some(HexVal(t[1]) * 16 + HexVal(t[2]))
    else None
  }

  /** The bytes of `n` consecutive escapes at the start of `t`. */
  function EscapedBytes(t: string, n: nat): (r: Option<seq<Byte>>)
    ensures r.Some? ==> |r.value| == n && 3 * n <= |t|
    decreases n
  {
    if n == 0 then Some([])
    else match EscapedByte(t)
      case None => None
      case Some(b) =>
        match EscapedBytes(t[3..], n - 1)
        case None => None
        case Some(rest) => Some([b] + rest)
  }

  /** ECMAScript `decodeURIComponent`; `None` stands for the `URIError` it throws on a malformed
      escape or an invalid UTF-8 sequence. */
  function DecodeURIComponent(t: string): Option<string>
    decreases |t|
  {
    if t == [] then Some([])
    else if t[0] != '%' then Cons(t[0], DecodeURIComponent(t[1..]))
    else match EscapedByte(t)
      case None => None
      case Some(b) =>
        var n := SeqLen(b);
        if n == 0 then None
        else match EscapedBytes(t, n)
          case None => None
          case Some(bs) =>
            match Utf8Decode(bs)
            case None => None
            case Some(c) => Cons(c, DecodeURIComponent(t[3 * n..]))
  }

  /** `safeDecodeURIComponent` of preprocessing.js: the three escapes the safe encoder adds are undone
      first, and a text that does not decode is returned unchanged. */
  function SafeDecode(t: string): string {
    if t == [] then []
    else
      var u := ReplaceAll(ReplaceAll(ReplaceAll(t, "%27", "'", false), "%28", "(", false), "%29", ")", false);
      match DecodeURIComponent(u)
      case Some(v) => v
      case None => t
  }

  // ---------------------------------------------------------------------------------------------
  // Round trips

  lemma {:induction false} RenderAppend(a: seq<Tok>, b: seq<Tok>)
    ensures Render(a + b) == Render(a) + Render(b)
    decreases |a|
  {
    if a != [] {
      RenderAppend(a[1..], b);
      assert (a + b)[0] == a[0];
      assert (a + b)[1..] == a[1..] + b;
    } else {
      assert a + b == b;
    }
  }

  lemma EscapeStep(b: Byte, t: string)
    ensures EscapedByte(Percent(b) + t) == Some(b) && (Percent(b) + t)[3..] == t
  {
    var u := Percent(b) + t;
    assert u[..3] == Percent(b);
  }

  lemma EscAllCons(bs: seq<Byte>)
    requires bs != []
    ensures Render(EscAll(bs)) == Percent(bs[0]) + Render(EscAll(bs[1..]))
  {
    assert EscAll(bs)[1..] == EscAll(bs[1..]);
  }

  /** Escaped bytes read one escape at a time. */
  lemma EscapedBytesStep(t: string, b: Byte, n: nat, tail: seq<Byte>)
    requires EscapedByte(t) == Some(b) && |t| >= 3 && EscapedBytes(t[3..], n) == Some(tail)
    ensures EscapedBytes(t, n + 1) == Some([b] + tail)
  {
  }

  /** The text of a non-empty run of escapes, split after its first escape. */
  lemma EscapedText(bs: seq<Byte>, rest: string)
    requires bs != []
    ensures Render(EscAll(bs)) + rest == Percent(bs[0]) + (Render(EscAll(bs[1..])) + rest)
  {
    EscAllCons(bs);
  }

  lemma {:induction false} DecodeEscapes(bs: seq<Byte>, rest: string)
    ensures var t := Render(EscAll(bs)) + rest;
      EscapedBytes(t, |bs|) == Some(bs) && t[3 * |bs|..] == rest
    decreases |bs|
  {
    if bs != [] {
      var tail := bs[1..];
      var t' := Render(EscAll(tail)) + rest;
      var t := Render(EscAll(bs)) + rest;
      EscapedText(bs, rest);
      EscapeStep(bs[0], t');
      DecodeEscapes(tail, rest);
      EscapedBytesStep(t, bs[0], |tail|, tail);
      assert [bs[0]] + tail == bs;
      assert t[3 * |bs|..] == t'[3 * |tail|..];
    }
  }

  /** One step of `decodeURIComponent` at an escaped UTF-8 sequence. */
  lemma DecodeAtEscape(t: string, bs: seq<Byte>, c: char)
    requires 1 <= |bs| <= 4 && SeqLen(bs[0]) == |bs| && Utf8Decode(bs) == Some(c)
    requires EscapedBytes(t, |bs|) == Some(bs)
    ensures DecodeURIComponent(t) == Cons(c, DecodeURIComponent(t[3 * |bs|..]))
  {
    assert EscapedByte(t) == Some(bs[0]);
  }

  /** The escapes of a valid UTF-8 sequence decode to the character it encodes. */
  lemma DecodeEscapedBytes(bs: seq<Byte>, c: char, rest: string)
    requires 1 <= |bs| <= 4 && SeqLen(bs[0]) == |bs| && Utf8Decode(bs) == Some(c)
    ensures DecodeURIComponent(Render(EscAll(bs)) + rest) == Cons(c, DecodeURIComponent(rest))
  {
    DecodeEscapes(bs, rest);
    DecodeAtEscape(Render(EscAll(bs)) + rest, bs, c);
  }

  /** The escapes of one character's UTF-8 octets decode back to that character. */
  lemma DecodeEscapedChar(c: char, rest: string)
    ensures DecodeURIComponent(Render(EscAll(Utf8(c))) + rest) == Cons(c, DecodeURIComponent(rest))
  {
    Utf8RoundTrip(c);
    DecodeEscapedBytes(Utf8(c), c, rest);
  }

  /** A character other than `%` decodes to itself. */
  lemma DecodeKept(c: char, rest: string)
    requires c != '%'
    ensures DecodeURIComponent([c] + rest) == Cons(c, DecodeURIComponent(rest))
  {
    assert ([c] + rest)[1..] == rest;
  }

  /** The encoding of one character, followed by any text, decodes to that character first. */
  lemma DecodeCharTokens(c: char, keep: char -> bool, rest: string)
    requires !keep('%')
    ensures DecodeURIComponent(Render(CharTokens(c, keep)) + rest) == Cons(c, DecodeURIComponent(rest))
  {
    if keep(c) {
      assert Render(CharTokens(c, keep)) == [c];
      DecodeKept(c, rest);
    } else {
      DecodeEscapedChar(c, rest);
    }
  }

  /** Decoding inverts encoding whenever `%` itself is escaped. */
  lemma {:induction false} DecodeRender(x: string, keep: char -> bool)
    requires !keep('%')
    ensures DecodeURIComponent(Render(Tokens(x, keep))) == Some(x)
    decreases |x|
  {
    if x != [] {
      DecodeRender(x[1..], keep);
      var rest := Render(Tokens(x[1..], keep));
      RenderAppend(CharTokens(x[0], keep), Tokens(x[1..], keep));
      DecodeCharTokens(x[0], keep, rest);
      assert [x[0]] + x[1..] == x;
    }
  }

  lemma EncodeDecode(x: string)
    ensures DecodeURIComponent(EncodeURIComponent(x)) == Some(x)
  {
    DecodeRender(x, IsUnreserved);
  }

  lemma {:induction false} EscapeMarksAppend(a: string, b: string)
    ensures EscapeMarks(a + b) == EscapeMarks(a) + EscapeMarks(b)
    decreases |a|
  {
    if a != [] {
      EscapeMarksAppend(a[1..], b);
      assert (a + b)[0] == a[0];
      assert (a + b)[1..] == a[1..] + b;
    } else {
      assert a + b == b;
    }
  }

  lemma {:induction false} EscapeMarksEscapes(bs: seq<Byte>)
    ensures EscapeMarks(Render(EscAll(bs))) == Render(EscAll(bs))
    decreases |bs|
  {
    if bs != [] {
      EscapeMarksEscapes(bs[1..]);
      var p := Percent(bs[0]);
      EscapeMarksAppend(p, Render(EscAll(bs[1..])));
      assert EscapeMarks(p) == p by {
        assert p[1..][1..][1..] == [];
        assert EscapeMarks(p[1..][1..]) == [p[2]];
        assert EscapeMarks(p[1..]) == [p[1], p[2]];
      }
    }
  }

  /** The safe encoder escapes exactly what `encodeURIComponent` escapes, plus `'`, `(` and `)`. */
  lemma {:induction false} SafeEncodeTokens(x: string)
    ensures SafeEncode(x) == Render(Tokens(x, IsSafeKept))
    decreases |x|
  {
    if x != [] {
      SafeEncodeTokens(x[1..]);
      RenderAppend(CharTokens(x[0], IsUnreserved), Tokens(x[1..], IsUnreserved));
      RenderAppend(CharTokens(x[0], IsSafeKept), Tokens(x[1..], IsSafeKept));
      EscapeMarksAppend(Render(CharTokens(x[0], IsUnreserved)), Render(Tokens(x[1..], IsUnreserved)));
      if x[1..] == [] {
        assert Render(Tokens(x[1..], IsUnreserved)) == [];
        assert Render(Tokens(x[1..], IsSafeKept)) == [];
      }
      var c := x[0];
      if IsMark(c) {
        assert Utf8(c) == [c as int];
        assert Render(CharTokens(c, IsSafeKept)) == Percent(c as int);
      } else if IsUnreserved(c) {
      } else {
        EscapeMarksEscapes(Utf8(c));
      }
    }
  }

  /** `Esc(b)` becomes `Lit(c)`: what replacing the text `%XY` of the byte by `c` does to the tokens. */
  function Subst(ts: seq<Tok>, b: Byte, c: char): (r: seq<Tok>)
    ensures |r| == |ts|
    decreases |ts|
  {
    if ts == [] then []
    else [if ts[0] == Esc(b) then Lit(c) else ts[0]] + Subst(ts[1..], b, c)
  }

  lemma {:induction false} SubstAppend(a: seq<Tok>, b: seq<Tok>, x: Byte, c: char)
    ensures Subst(a + b, x, c) == Subst(a, x, c) + Subst(b, x, c)
    decreases |a|
  {
    if a != [] {
      SubstAppend(a[1..], b, x, c);
      assert (a + b)[0] == a[0];
      assert (a + b)[1..] == a[1..] + b;
    } else {
      assert a + b == b;
    }
  }

  lemma {:induction false} SubstEscapesOther(bs: seq<Byte>, x: Byte, c: char)
    requires forall i :: 0 <= i < |bs| ==> bs[i] != x
    ensures Subst(EscAll(bs), x, c) == EscAll(bs)
    decreases |bs|
  {
    if bs != [] {
      SubstEscapesOther(bs[1..], x, c);
      assert EscAll(bs)[0] == Esc(bs[0]) && EscAll(bs)[1..] == EscAll(bs[1..]);
    }
  }

  /** Turning the escapes of an ASCII character back into the character is the same as keeping it. */
  lemma {:induction false} SubstTokens(s: string, k1: char -> bool, k2: char -> bool, c: char)
    requires c as int < 0x80 && !k1(c)
    requires forall d :: k2(d) == (k1(d) || d == c)
    ensures Subst(Tokens(s, k1), c as int, c) == Tokens(s, k2)
    decreases |s|
  {
    if s != [] {
      SubstTokens(s[1..], k1, k2, c);
      SubstAppend(CharTokens(s[0], k1), Tokens(s[1..], k1), c as int, c);
      var d := s[0];
      if !k1(d) && d != c {
        var bs := Utf8(d);
        forall i | 0 <= i < |bs| ensures bs[i] != c as int {
          if d as int >= 0x80 {
            assert bs[i] >= 0x80;
          }
        }
        SubstEscapesOther(bs, c as int, c);
      }
    }
  }

  predicate NoPercentLit(ts: seq<Tok>) {
    Lit('%') !in ts
  }

  lemma {:induction false} EscAllNoLit(bs: seq<Byte>)
    ensures NoPercentLit(EscAll(bs))
    decreases |bs|
  {
    if bs != [] {
      EscAllNoLit(bs[1..]);
    }
  }

  lemma {:induction false} TokensNoPercent(s: string, keep: char -> bool)
    requires !keep('%')
    ensures NoPercentLit(Tokens(s, keep))
    decreases |s|
  {
    if s != [] {
      TokensNoPercent(s[1..], keep);
      EscAllNoLit(Utf8(s[0]));
    }
  }

  lemma ReplaceSkip(c: char, rest: string, p: string, tag: string)
    requires p != [] && c != p[0]
    ensures ReplaceAll([c] + rest, p, tag, false) == [c] + ReplaceAll(rest, p, tag, false)
  {
    assert !OccursAt([c] + rest, p, 0, false) by {
      assert ([c] + rest)[0 + 0] == c;
    }
    assert ([c] + rest)[1..] == rest;
  }

  /** The escape that is looked for is replaced. */
  lemma ReplaceEscHit(b: Byte, c: char, rest: string)
    ensures ReplaceAll(Percent(b) + rest, Percent(b), [c], false) == [c] + ReplaceAll(rest, Percent(b), [c], false)
  {
    var p := Percent(b);
    var t := p + rest;
    assert OccursAt(t, p, 0, false);
    assert t[3..] == rest;
  }

  /** Any other escape is passed over. */
  lemma ReplaceEscMiss(x: Byte, b: Byte, c: char, rest: string)
    requires x != b
    ensures ReplaceAll(Percent(x) + rest, Percent(b), [c], false) == Percent(x) + ReplaceAll(rest, Percent(b), [c], false)
  {
    var p, q := Percent(b), Percent(x);
    var t := q + rest;
    assert q[1] != p[1] || q[2] != p[2];
    assert !OccursAt(t, p, 0, false) by {
      assert t[1] == q[1] && t[2] == q[2];
    }
    assert t[1..] == [q[1]] + ([q[2]] + rest);
    ReplaceSkip(q[2], rest, p, [c]);
    ReplaceSkip(q[1], [q[2]] + rest, p, [c]);
    assert q == [q[0]] + [q[1]] + [q[2]];
  }

  /** One escape, replaced or passed over. */
  lemma ReplaceEsc(x: Byte, b: Byte, c: char, rest: string)
    ensures ReplaceAll(Percent(x) + rest, Percent(b), [c], false)
         == (if x == b then [c] else Percent(x)) + ReplaceAll(rest, Percent(b), [c], false)
  {
    if x == b {
      ReplaceEscHit(b, c, rest);
    } else {
      ReplaceEscMiss(x, b, c, rest);
    }
  }

  /** Replacing the text `%XY` of a byte by a character acts token by token on encoded text. */
  lemma {:induction false} ReplaceRendered(ts: seq<Tok>, b: Byte, c: char)
    requires NoPercentLit(ts)
    ensures ReplaceAll(Render(ts), Percent(b), [c], false) == Render(Subst(ts, b, c))
    decreases |ts|
  {
    if ts != [] {
      ReplaceRendered(ts[1..], b, c);
      var rest := Render(ts[1..]);
      var sub := Subst(ts, b, c);
      assert sub[1..] == Subst(ts[1..], b, c);
      assert Render(sub) == RenderTok(sub[0]) + Render(sub[1..]);
      assert Render(ts) == RenderTok(ts[0]) + rest;
      match ts[0]
      case Lit(d) =>
        ReplaceSkip(d, rest, Percent(b), [c]);
      case Esc(x) =>
        ReplaceEsc(x, b, c, rest);
    }
  }

  lemma {:induction false} SubstNoPercent(ts: seq<Tok>, b: Byte, c: char)
    requires NoPercentLit(ts) && c != '%'
    ensures NoPercentLit(Subst(ts, b, c))
    decreases |ts|
  {
    if ts != [] {
      SubstNoPercent(ts[1..], b, c);
    }
  }

  predicate KeepQuote(d: char) { IsSafeKept(d) || d == '\'' }
  predicate KeepQuoteParen(d: char) { KeepQuote(d) || d == '(' }

  lemma PercentMarks()
    ensures Percent(0x27) == "%27" && Percent(0x28) == "%28" && Percent(0x29) == "%29"
  {
  }

  /** Replacing the escapes of one ASCII character by the character keeps that character too. */
  lemma UnescapeOne(x: string, k1: char -> bool, k2: char -> bool, c: char)
    requires c as int < 0x80 && !k1(c) && c != '%' && !k1('%')
    requires forall d :: k2(d) == (k1(d) || d == c)
    ensures ReplaceAll(Render(Tokens(x, k1)), Percent(c as int), [c], false) == Render(Tokens(x, k2))
  {
    TokensNoPercent(x, k1);
    ReplaceRendered(Tokens(x, k1), c as int, c);
    SubstTokens(x, k1, k2, c);
  }

  /** Undoing the three extra escapes of the safe encoder gives the output of `encodeURIComponent`. */
  lemma UnescapeMarks(x: string)
    ensures ReplaceAll(ReplaceAll(ReplaceAll(SafeEncode(x), "%27", "'", false), "%28", "(", false), "%29", ")", false)
         == EncodeURIComponent(x)
  {
    PercentMarks();
    SafeEncodeTokens(x);
    UnescapeOne(x, IsSafeKept, KeepQuote, '\'');
    UnescapeOne(x, KeepQuote, KeepQuoteParen, '(');
    UnescapeOne(x, KeepQuoteParen, IsUnreserved, ')');
  }

  /** The safe decoder inverts the safe encoder. */
  lemma SafeRoundTrip(x: string)
    ensures SafeDecode(SafeEncode(x)) == x
  {
    if x != [] {
      var t := SafeEncode(x);
      assert t != [] by {
        SafeEncodeTokens(x);
        var ts := Tokens(x, IsSafeKept);
        assert |CharTokens(x[0], IsSafeKept)| >= 1;
        assert ts != [];
        assert |RenderTok(ts[0])| >= 1;
      }
      UnescapeMarks(x);
      EncodeDecode(x);
    }
  }

  /** Every character of encoded text is kept, a `%`, or a hexadecimal digit. */
  lemma {:induction false} RenderChars(s: string, keep: char -> bool)
    ensures forall c :: c in Render(Tokens(s, keep)) ==> keep(c) || c == '%' || IsHex(c)
    decreases |s|
  {
    if s != [] {
      RenderChars(s[1..], keep);
      RenderAppend(CharTokens(s[0], keep), Tokens(s[1..], keep));
      if !keep(s[0]) {
        EscRenderChars(Utf8(s[0]));
      }
    }
  }

  lemma {:induction false} EscRenderChars(bs: seq<Byte>)
    ensures forall c :: c in Render(EscAll(bs)) ==> c == '%' || IsHex(c)
    decreases |bs|
  {
    if bs != [] {
      EscRenderChars(bs[1..]);
      var p := Percent(bs[0]);
      assert Render(EscAll(bs)) == p + Render(EscAll(bs[1..]));
      assert p == [p[0], p[1], p[2]];
    }
  }

  /** A character the safe encoder may output. */
  predicate SafeOutputChar(c: char) {
    IsSafeKept(c) || c == '%' || IsHex(c)
  }

  lemma SafeEncodeAlphabet(x: string)
    ensures forall c :: c in SafeEncode(x) ==> SafeOutputChar(c)
  {
    SafeEncodeTokens(x);
    RenderChars(x, IsSafeKept);
  }

  /** The safe encoder's output holds none of the characters that delimit or alter a query value. */
  lemma SafeEncodeChars(x: string)
    ensures forall c :: c in SafeEncode(x) ==> SafeOutputChar(c)
    ensures '&' !in SafeEncode(x) && '+' !in SafeEncode(x) && '=' !in SafeEncode(x) && '#' !in SafeEncode(x)
    ensures '\'' !in SafeEncode(x) && '(' !in SafeEncode(x) && ')' !in SafeEncode(x)
  {
    SafeEncodeAlphabet(x);
    assert !SafeOutputChar('&') && !SafeOutputChar('+') && !SafeOutputChar('=') && !SafeOutputChar('#');
    assert !SafeOutputChar('\'') && !SafeOutputChar('(') && !SafeOutputChar(')');
  }

  // ---------------------------------------------------------------------------------------------
  // The query string of the redaction window

  /** `application/x-www-form-urlencoded` decoding of one name or value: `+` is a space, then escapes
      are decoded. `None` stands for malformed escapes, which the browser repairs and this model does not. */
  function FormDecode(v: string): Option<string> {
    DecodeURIComponent(PlusToSpace(v))
  }

  function PlusToSpace(v: string): (r: string)
    ensures |r| == |v|
    ensures '+' !in v ==> r == v
    decreases |v|
  {
    if v == [] then [] else [if v[0] == '+' then ' ' else v[0]] + PlusToSpace(v[1..])
  }

  /** The name/value fields of a query string, before decoding: split on `&`, empty fields skipped,
      each field split at its first `=`. */
  function QueryFields(q: string): seq<(string, string)> {
    Fields(Split(q, '&'))
  }

  function Fields(parts: seq<string>): seq<(string, string)>
    decreases |parts|
  {
    if parts == [] then []
    else if parts[0] == [] then Fields(parts[1..])
    else [NameValue(parts[0])] + Fields(parts[1..])
  }

  function NameValue(f: string): (string, string)
    decreases |f|
  {
    if f == [] then ([], [])
    else if f[0] == '=' then ([], f[1..])
    else var nv := NameValue(f[1..]); ([f[0]] + nv.0, nv.1)
  }

  /** `new URLSearchParams(q).get(name)`: the decoded value of the first field with that name. */
  function QueryGet(q: string, name: string): Option<string> {
    FirstValue(QueryFields(q), name)
  }

  function FirstValue(fields: seq<(string, string)>, name: string): Option<string>
    decreases |fields|
  {
    if fields == [] then None
    else if FormDecode(fields[0].0) == Some(name) then FormDecode(fields[0].1)
    else FirstValue(fields[1..], name)
  }

  /** A query string of four `name=value` fields. */
  function FourFields(n1: string, v1: string, n2: string, v2: string, n3: string, v3: string,
                      n4: string, v4: string): string {
    n1 + "=" + v1 + "&" + n2 + "=" + v2 + "&" + n3 + "=" + v3 + "&" + n4 + "=" + v4
  }

  /** The query the background script appends to `redaction.html`. */
  function HandoffQuery(subject: string, content: string, urlsJson: string, action: string): string {
    FourFields("subject", SafeEncode(subject), "content", SafeEncode(content),
               "urls", SafeEncode(urlsJson), "action", action)
  }

  lemma {:induction false} DecodePlain(s: string)
    requires '%' !in s
    ensures DecodeURIComponent(s) == Some(s)
    decreases |s|
  {
    if s != [] {
      DecodePlain(s[1..]);
      assert [s[0]] + s[1..] == s;
    }
  }

  lemma NameValuePlain(name: string, v: string)
    requires '=' !in name
    ensures NameValue(name + "=" + v) == (name, v)
    decreases |name|
  {
    if name != [] {
      NameValuePlain(name[1..], v);
      assert (name + "=" + v)[1..] == name[1..] + "=" + v;
      assert [name[0]] + name[1..] == name;
    } else {
      assert name + "=" + v == ['='] + v;
    }
  }

  lemma SplitFour(f1: string, f2: string, f3: string, f4: string)
    requires '&' !in f1 && '&' !in f2 && '&' !in f3 && '&' !in f4
    ensures Split(f1 + "&" + f2 + "&" + f3 + "&" + f4, '&') == [f1, f2, f3, f4]
  {
    assert f1 + "&" + f2 + "&" + f3 + "&" + f4 == f1 + "&" + (f2 + "&" + (f3 + "&" + f4));
    SplitNoSep(f4, '&');
    SplitFirst(f3, f4, '&');
    SplitFirst(f2, f3 + "&" + f4, '&');
    SplitFirst(f1, f2 + "&" + (f3 + "&" + f4), '&');
  }

  lemma FieldsFour(n1: string, v1: string, n2: string, v2: string, n3: string, v3: string, n4: string, v4: string)
    requires '=' !in n1 && '=' !in n2 && '=' !in n3 && '=' !in n4
    ensures Fields([n1 + "=" + v1, n2 + "=" + v2, n3 + "=" + v3, n4 + "=" + v4])
         == [(n1, v1), (n2, v2), (n3, v3), (n4, v4)]
  {
    var parts := [n1 + "=" + v1, n2 + "=" + v2, n3 + "=" + v3, n4 + "=" + v4];
    NameValuePlain(n1, v1);
    NameValuePlain(n2, v2);
    NameValuePlain(n3, v3);
    NameValuePlain(n4, v4);
    assert parts[1..] == [n2 + "=" + v2, n3 + "=" + v3, n4 + "=" + v4];
    assert parts[1..][1..] == [n3 + "=" + v3, n4 + "=" + v4];
    assert parts[1..][1..][1..] == [n4 + "=" + v4];
    assert parts[1..][1..][1..][1..] == [];
    assert Fields(parts[1..][1..][1..]) == [(n4, v4)];
    assert Fields(parts[1..][1..]) == [(n3, v3), (n4, v4)];
    assert Fields(parts[1..]) == [(n2, v2), (n3, v3), (n4, v4)];
  }

  predicate AllLower(s: string) {
    forall i :: 0 <= i < |s| ==> IsAsciiLower(s[i])
  }

  /** A lower-case word decodes to itself. */
  lemma WordDecodes(w: string)
    requires AllLower(w)
    ensures FormDecode(w) == Some(w)
  {
    assert '+' !in w && '%' !in w;
    DecodePlain(w);
  }

  lemma WordsDecode(w1: string, w2: string, w3: string, w4: string)
    requires AllLower(w1) && AllLower(w2) && AllLower(w3) && AllLower(w4)
    ensures FormDecode(w1) == Some(w1) && FormDecode(w2) == Some(w2)
    ensures FormDecode(w3) == Some(w3) && FormDecode(w4) == Some(w4)
  {
    WordDecodes(w1);
    WordDecodes(w2);
    WordDecodes(w3);
    WordDecodes(w4);
  }

  /** Looking a name up among four fields with distinct plain names. */
  lemma FirstValueFour(n1: string, v1: string, n2: string, v2: string, n3: string, v3: string,
                       n4: string, v4: string)
    requires FormDecode(n1) == Some(n1) && FormDecode(n2) == Some(n2)
    requires FormDecode(n3) == Some(n3) && FormDecode(n4) == Some(n4)
    requires n1 != n2 && n1 != n3 && n1 != n4 && n2 != n3 && n2 != n4 && n3 != n4
    ensures var fs := [(n1, v1), (n2, v2), (n3, v3), (n4, v4)];
      && FirstValue(fs, n1) == FormDecode(v1) && FirstValue(fs, n2) == FormDecode(v2)
      && FirstValue(fs, n3) == FormDecode(v3) && FirstValue(fs, n4) == FormDecode(v4)
  {
    var fs := [(n1, v1), (n2, v2), (n3, v3), (n4, v4)];
    var f2, f3, f4 := fs[1..], fs[2..], fs[3..];
    assert f2 == [(n2, v2), (n3, v3), (n4, v4)] && f2[1..] == f3;
    assert f3 == [(n3, v3), (n4, v4)] && f3[1..] == f4;
    assert f4 == [(n4, v4)];
    assert FirstValue(f4, n4) == FormDecode(v4);
    assert FirstValue(f3, n3) == FormDecode(v3);
    assert FirstValue(f3, n4) == FormDecode(v4);
    assert FirstValue(f2, n2) == FormDecode(v2);
    assert FirstValue(f2, n3) == FormDecode(v3);
    assert FirstValue(f2, n4) == FormDecode(v4);
  }

  /** Reading back a query of four `name=value` fields with distinct lower-case names. */
  lemma QueryOfFour(n1: string, v1: string, n2: string, v2: string, n3: string, v3: string,
                    n4: string, v4: string)
    requires AllLower(n1) && AllLower(n2) && AllLower(n3) && AllLower(n4)
    requires n1 != n2 && n1 != n3 && n1 != n4 && n2 != n3 && n2 != n4 && n3 != n4
    requires '&' !in v1 && '&' !in v2 && '&' !in v3 && '&' !in v4
    ensures var q := FourFields(n1, v1, n2, v2, n3, v3, n4, v4);
      && QueryGet(q, n1) == FormDecode(v1) && QueryGet(q, n2) == FormDecode(v2)
      && QueryGet(q, n3) == FormDecode(v3) && QueryGet(q, n4) == FormDecode(v4)
  {
    var f1, f2, f3, f4 := n1 + "=" + v1, n2 + "=" + v2, n3 + "=" + v3, n4 + "=" + v4;
    assert '&' !in n1 && '&' !in n2 && '&' !in n3 && '&' !in n4;
    assert '=' !in n1 && '=' !in n2 && '=' !in n3 && '=' !in n4;
    assert n1 + "=" + v1 + "&" + n2 + "=" + v2 + "&" + n3 + "=" + v3 + "&" + n4 + "=" + v4
        == f1 + "&" + f2 + "&" + f3 + "&" + f4;
    SplitFour(f1, f2, f3, f4);
    FieldsFour(n1, v1, n2, v2, n3, v3, n4, v4);
    WordsDecode(n1, n2, n3, n4);
    FirstValueFour(n1, v1, n2, v2, n3, v3, n4, v4);
  }

  /** What the redaction window reads back from the handoff query: exactly the values the background
      script encoded, once `URLSearchParams` has decoded them. */
  lemma HandoffFields(subject: string, content: string, urlsJson: string, action: string)
    requires action == "submit" || action == "predict"
    ensures var q := HandoffQuery(subject, content, urlsJson, action);
      && QueryGet(q, "subject") == Some(subject)
      && QueryGet(q, "content") == Some(content)
      && QueryGet(q, "urls") == Some(urlsJson)
      && QueryGet(q, "action") == Some(action)
  {
    SafeEncodeChars(subject);
    SafeEncodeChars(content);
    SafeEncodeChars(urlsJson);
    assert AllLower(action) && '&' !in action;
    assert AllLower("subject") && AllLower("content") && AllLower("urls") && AllLower("action");
    QueryOfFour("subject", SafeEncode(subject), "content", SafeEncode(content), "urls", SafeEncode(urlsJson),
                "action", action);
    EncodedDecodesOnce(subject);
    EncodedDecodesOnce(content);
    EncodedDecodesOnce(urlsJson);
    WordDecodes(action);
  }

  /** A single decoding of safely encoded text gives the text back. */
  lemma EncodedDecodesOnce(x: string)
    ensures FormDecode(SafeEncode(x)) == Some(x)
  {
    SafeEncodeChars(x);
    SafeEncodeTokens(x);
    DecodeRender(x, IsSafeKept);
  }
}

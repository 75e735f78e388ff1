/** Percent-encoding of form fields. `EncodeUriComponent` is ECMAScript's
    encodeURIComponent (section 19.2.6.5 of ECMA-262): every character outside
    the unreserved set becomes the `%XX` escapes (upper-case hex) of its UTF-8
    bytes. `PhpUrlEncode` then rewrites `%20` to `+` and `%7E` to `~`, giving
    the space-as-plus convention of section 2.2 of RFC 1738 that PHP's
    `urlencode` uses. */
module PercentEncoding {
  import opened Results
  import opened Text

  type Byte = b: int | 0 <= b < 256

  /** The characters encodeURIComponent leaves alone: ASCII letters, digits
      and - _ . ! ~ * ' ( ) */
  predicate Unreserved(c: char) {
    ('A' <= c <= 'Z') || ('a' <= c <= 'z') || ('0' <= c <= '9')
    || c == '-' || c == '_' || c == '.' || c == '!' || c == '~' || c == '*' || c == '\'' || c == '(' || c == ')'
  }

  function HexDigit(n: int): (c: char)
    requires 0 <= n < 16
    ensures Unreserved(c) && c != '+' && c != '%'
  {
    if n < 10 then ('0' as int + n) as char else ('A' as int + (n - 10)) as char
  }

  /** Inverse of `HexDigit` on the upper-case digits it produces. */
  function HexValue(c: char): (v: Option<int>)
    ensures v.Some? ==> 0 <= v.value < 16 && HexDigit(v.value) == c
  {
    if '0' <= c <= '9' then Some(c as int - '0' as int)
    else if 'A' <= c <= 'F' then Some(c as int - 'A' as int + 10)
    else None
  }

  lemma HexValueOfDigit(n: int)
    requires 0 <= n < 16
    ensures HexValue(HexDigit(n)) == Some(n)
  {
  }

  /** `%XX` for one byte. */
  function Escape(b: Byte): (r: string)
    ensures |r| == 3 && r[0] == '%'
  {
    ['%', HexDigit(b / 16), HexDigit(b % 16)]
  }

  lemma EscapeInjective(b: Byte, p: Byte)
    requires Escape(b) == Escape(p)
    ensures b == p
  {
    HexValueOfDigit(b / 16);
    HexValueOfDigit(p / 16);
    HexValueOfDigit(b % 16);
    HexValueOfDigit(p % 16);
  }

  function EscapeAll(bs: seq<Byte>): (r: string)
    ensures |r| == 3 * |bs|
  {
    if |bs| == 0 then "" else Escape(bs[0]) + EscapeAll(bs[1..])
  }

  /** UTF-8 encoding of one Unicode scalar value (section 3 of RFC 3629). */
  function Utf8(c: char): (bs: seq<Byte>)
    ensures 1 <= |bs| <= 4
    ensures c as int < 0x80 <==> |bs| == 1
    ensures c as int < 0x80 ==> bs[0] == c as int
    ensures c as int >= 0x80 ==> forall i :: 0 <= i < |bs| ==> bs[i] >= 0x80
  {
    var n := c as int;
    if n < 0x80 then [n]
    else if n < 0x800 then [0xC0 + n / 0x40, 0x80 + n % 0x40]
    else if n < 0x1_0000 then [0xE0 + n / 0x1000, 0x80 + n / 0x40 % 0x40, 0x80 + n % 0x40]
    else [0xF0 + n / 0x4_0000, 0x80 + n / 0x1000 % 0x40, 0x80 + n / 0x40 % 0x40, 0x80 + n % 0x40]
  }

  /** What encodeURIComponent turns one character into. */
  function EncodeChar(c: char): string {
    if Unreserved(c) then [c] else EscapeAll(Utf8(c))
  }

  /** ECMAScript encodeURIComponent. */
  function EncodeUriComponent(s: string): string
  {
    if |s| == 0 then "" else EncodeChar(s[0]) + EncodeUriComponent(s[1..])
  }

  /** Reference per-character form encoding: space is `+`, everything else as
      encodeURIComponent writes it. */
  function FormChar(c: char): (r: string)
    ensures |r| > 0
    ensures forall i :: 0 <= i < |r| ==> Unreserved(r[i]) || r[i] == '+' || r[i] == '%'
  {
    if c == ' ' then "+"
    else if Unreserved(c) then [c]
    else
      var r := EscapeAll(Utf8(c));
      EscapedChars(Utf8(c));
      r
  }

  lemma {:induction false} EscapedChars(bs: seq<Byte>)
    ensures forall i :: 0 <= i < |EscapeAll(bs)| ==> Unreserved(EscapeAll(bs)[i]) || EscapeAll(bs)[i] == '%'
    decreases |bs|
  {
    if |bs| > 0 {
      EscapedChars(bs[1..]);
      var e := EscapeAll(bs);
      assert e == Escape(bs[0]) + EscapeAll(bs[1..]);
      forall i | 0 <= i < |e|
        ensures Unreserved(e[i]) || e[i] == '%'
      {
        if i >= 3 {
          assert e[i] == EscapeAll(bs[1..])[i - 3];
        }
      }
    }
  }

  /** Reference encoding of a whole string, character by character. */
  function FormEncode(s: string): (r: string)
    ensures forall i :: 0 <= i < |r| ==> Unreserved(r[i]) || r[i] == '+' || r[i] == '%'
    ensures |s| > 0 ==> |r| > 0
  {
    if |s| == 0 then ""
    else
      var a := FormChar(s[0]);
      var b := FormEncode(s[1..]);
      assert forall i :: |a| <= i < |a + b| ==> (a + b)[i] == b[i - |a|];
      a + b
  }

  /** `phpUrlEncode` (src/support/SignatureHelper.ts): encodeURIComponent,
      then `%20` -> `+`, then `%7E` -> `~`. The result is the per-character
      form encoding; in particular it contains no `&`, `=`, raw CR or LF. */
  function PhpUrlEncode(s: string): (r: string)
    ensures r == FormEncode(s)
    ensures forall i :: 0 <= i < |r| ==> r[i] != '&' && r[i] != '=' && r[i] != '\r' && r[i] != '\n'
  {
    var encoded := EncodeUriComponent(s);
    var spaced := ReplaceAll(encoded, "%20", "+", false);
    SpaceReplacement(s);
    TildeReplacementIsNoOp(s);
    FormEncodeHasNoSeparators(s);
    ReplaceAll(spaced, "%7E", "~", false)
  }

  lemma FormEncodeHasNoSeparators(s: string)
    ensures var r := FormEncode(s);
            forall i :: 0 <= i < |r| ==> r[i] != '&' && r[i] != '=' && r[i] != '\r' && r[i] != '\n'
  {
    var r := FormEncode(s);
    forall i | 0 <= i < |r|
      ensures r[i] != '&' && r[i] != '=' && r[i] != '\r' && r[i] != '\n'
    {
      assert Unreserved(r[i]) || r[i] == '+' || r[i] == '%';
    }
  }

  lemma ReplaceAtMatch(s: string, pat: string, rep: string, ignoreCase: bool)
    requires |pat| > 0 && MatchesAt(s, pat, ignoreCase)
    ensures ReplaceAll(s, pat, rep, ignoreCase) == rep + ReplaceAll(s[|pat|..], pat, rep, ignoreCase)
  {
  }

  /** The escape of a byte other than `p` passes through a replacement of `%p`. */
  lemma ReplaceSkipsEscape(b: Byte, w: string, p: Byte, rep: string)
    requires b != p
    ensures ReplaceAll(Escape(b) + w, Escape(p), rep, false) == Escape(b) + ReplaceAll(w, Escape(p), rep, false)
  {
    var pat := Escape(p);
    var e := Escape(b);
    var u1 := [e[1], e[2]] + w;
    var u2 := [e[2]] + w;
    EscapeDoesNotMatch(b, p, w);
    ReplaceSkipsHead(e + w, u1, pat, rep);
    ReplaceSkipsChar(u1, pat, rep, false);
    assert u1[1..] == u2;
    ReplaceSkipsChar(u2, pat, rep, false);
    assert u2[1..] == w;
    assert e == [e[0]] + [e[1]] + [e[2]];
  }

  /** A string that does not start with the pattern keeps its first character. */
  lemma ReplaceSkipsHead(s: string, tail: string, pat: string, rep: string)
    requires |pat| > 0 && |s| > 0 && !MatchesAt(s, pat, false) && s[1..] == tail
    ensures ReplaceAll(s, pat, rep, false) == [s[0]] + ReplaceAll(tail, pat, rep, false)
  {
  }

  lemma EscapeDoesNotMatch(b: Byte, p: Byte, w: string)
    requires b != p
    ensures !MatchesAt(Escape(b) + w, Escape(p), false)
    ensures (Escape(b) + w)[1..] == [Escape(b)[1], Escape(b)[2]] + w
  {
    var u0 := Escape(b) + w;
    if MatchesAt(u0, Escape(p), false) {
      assert u0[..3] == Escape(p);
      assert u0[..3] == Escape(b);
      EscapeInjective(b, p);
    }
  }

  /** Escapes of bytes other than `p` pass through a replacement of `%p`. */
  lemma {:induction false} ReplaceOverEscapes(bs: seq<Byte>, t: string, p: Byte, rep: string)
    requires forall i :: 0 <= i < |bs| ==> bs[i] != p
    ensures ReplaceAll(EscapeAll(bs) + t, Escape(p), rep, false) == EscapeAll(bs) + ReplaceAll(t, Escape(p), rep, false)
    decreases |bs|
  {
    if |bs| == 0 {
      assert EscapeAll(bs) + t == t;
    } else {
      var w := EscapeAll(bs[1..]) + t;
      var pat := Escape(p);
      assert EscapeAll(bs) == Escape(bs[0]) + EscapeAll(bs[1..]);
      ConcatAssociative(Escape(bs[0]), EscapeAll(bs[1..]), t);
      ReplaceSkipsEscape(bs[0], w, p, rep);
      ReplaceOverEscapes(bs[1..], t, p, rep);
      var rt := ReplaceAll(t, pat, rep, false);
      assert ReplaceAll(w, pat, rep, false) == EscapeAll(bs[1..]) + rt;
      ConcatAssociative(Escape(bs[0]), EscapeAll(bs[1..]), rt);
    }
  }

  lemma ConcatAssociative(a: string, b: string, c: string)
    ensures a + (b + c) == (a + b) + c
  {
  }

  /** A character whose form encoding contains the escape of byte `p`. */
  predicate EscapesByte(c: char, p: Byte) {
    c != ' ' && !Unreserved(c) && p in Utf8(c)
  }

  /** Replacing `%p` in a form encoding that holds no escape of `p` changes nothing. */
  lemma {:induction false} ReplaceOverForm(s: string, p: Byte, rep: string)
    requires forall i :: 0 <= i < |s| ==> !EscapesByte(s[i], p)
    ensures ReplaceAll(FormEncode(s), Escape(p), rep, false) == FormEncode(s)
    decreases |s|
  {
    if |s| > 0 {
      var c := s[0];
      var t := FormEncode(s[1..]);
      ReplaceOverForm(s[1..], p, rep);
      assert FormEncode(s) == FormChar(c) + t;
      if c == ' ' || Unreserved(c) {
        ReplaceSkipsChar(FormChar(c) + t, Escape(p), rep, false);
        assert (FormChar(c) + t)[1..] == t;
      } else {
        ReplaceOverEscapes(Utf8(c), t, p, rep);
      }
    }
  }

  /** `encodeURIComponent(s).replace(/%20/g, '+')` is the form encoding. */
  lemma {:induction false} SpaceReplacement(s: string)
    ensures ReplaceAll(EncodeUriComponent(s), "%20", "+", false) == FormEncode(s)
    decreases |s|
  {
    var pat := Escape(0x20);
    assert pat == "%20";
    if |s| > 0 {
      var c := s[0];
      var t := EncodeUriComponent(s[1..]);
      SpaceReplacement(s[1..]);
      assert EncodeUriComponent(s) == EncodeChar(c) + t;
      if c == ' ' {
        assert EncodeChar(c) == pat;
        ReplaceAtMatch(EncodeChar(c) + t, pat, "+", false);
        assert (EncodeChar(c) + t)[3..] == t;
      } else if Unreserved(c) {
        ReplaceSkipsChar(EncodeChar(c) + t, pat, "+", false);
        assert (EncodeChar(c) + t)[1..] == t;
      } else {
        ReplaceOverEscapes(Utf8(c), t, 0x20, "+");
      }
    }
  }

  /** `.replace(/%7E/g, '~')` never fires: `~` is unreserved, so no `%7E` is ever produced. */
  lemma TildeReplacementIsNoOp(s: string)
    ensures ReplaceAll(FormEncode(s), "%7E", "~", false) == FormEncode(s)
  {
    assert Escape(0x7E) == "%7E";
    ReplaceOverForm(s, 0x7E, "~");
  }

  /** The byte written by the escape at the start of `s`, if any. */
  function DecodeByte(s: string): Option<Byte>
  {
    if |s| >= 3 && s[0] == '%' then
      match (HexValue(s[1]), HexValue(s[2]))
      case (Some(h), Some(l)) => Some(16 * h + l)
      case _ => None
    else None
  }

  lemma DecodeEscape(b: Byte, t: string)
    ensures DecodeByte(Escape(b) + t) == Some(b)
  {
    HexValueOfDigit(b / 16);
    HexValueOfDigit(b % 16);
  }

  /** `n` consecutive escapes at the start of `s`. */
  function DecodeBytes(s: string, n: nat): (r: Option<seq<Byte>>)
    ensures r.Some? ==> |r.value| == n && 3 * n <= |s|
    decreases n
  {
    if n == 0 then Some([])
    else match DecodeByte(s)
      case None => None
      case Some(b) =>
        match DecodeBytes(s[3..], n - 1)
        case None => None
        case Some(rest) => Some([b] + rest)
  }

  lemma {:induction false} DecodeEscapes(bs: seq<Byte>, t: string)
    ensures DecodeBytes(EscapeAll(bs) + t, |bs|) == Some(bs)
    decreases |bs|
  {
    if |bs| > 0 {
      var s := EscapeAll(bs) + t;
      assert s == Escape(bs[0]) + (EscapeAll(bs[1..]) + t);
      DecodeEscape(bs[0], EscapeAll(bs[1..]) + t);
      assert s[3..] == EscapeAll(bs[1..]) + t;
      DecodeEscapes(bs[1..], t);
      assert bs == [bs[0]] + bs[1..];
    }
  }

  /** Number of UTF-8 bytes announced by a leading byte (0: not a leading byte). */
  function Utf8Width(b: Byte): nat {
    if b < 0x80 then 1
    else if 0xC0 <= b < 0xE0 then 2
    else if 0xE0 <= b < 0xF0 then 3
    else if 0xF0 <= b < 0xF8 then 4
    else 0
  }

  /** Code point spelled by a UTF-8 byte sequence of the announced width. */
  function Utf8Value(bs: seq<Byte>): int
    requires 1 <= |bs| <= 4
  {
    var b: seq<int> := bs;
    if |b| == 1 then b[0]
    else if |b| == 2 then (b[0] - 0xC0) * 0x40 + (b[1] - 0x80)
    else if |b| == 3 then (b[0] - 0xE0) * 0x1000 + (b[1] - 0x80) * 0x40 + (b[2] - 0x80)
    else (b[0] - 0xF0) * 0x4_0000 + (b[1] - 0x80) * 0x1000 + (b[2] - 0x80) * 0x40 + (b[3] - 0x80)
  }

  lemma Utf8Decodes(c: char)
    ensures Utf8Width(Utf8(c)[0]) == |Utf8(c)|
    ensures Utf8Value(Utf8(c)) == c as int
  {
    var n := c as int;
    if n >= 0x800 {
      var q := n / 0x40;
      assert n == 0x40 * q + n % 0x40;
      assert n / 0x1000 == q / 0x40;
      assert q == 0x40 * (q / 0x40) + q % 0x40;
      if n >= 0x1_0000 {
        var q2 := n / 0x1000;
        assert q2 == 0x40 * (q2 / 0x40) + q2 % 0x40;
        assert n / 0x4_0000 == q2 / 0x40;
      }
    }
  }

  predicate IsScalarValue(n: int) {
    (0 <= n < 0xD800) || (0xE000 <= n < 0x11_0000)
  }

  /** Reads the first encoded character of `s`: the character and how many
      characters of `s` it took. */
  function DecodeFirst(s: string): (r: Option<(char, nat)>)
    requires |s| > 0
    ensures r.Some? ==> 0 < r.value.1 <= |s|
  {
    if s[0] == '+' then Some((' ', 1))
    else if Unreserved(s[0]) then Some((s[0], 1))
    else match DecodeByte(s)
      case None => None
      case Some(b) =>
        var w := Utf8Width(b);
        if w == 0 then None
        else match DecodeBytes(s, w)
          case None => None
          case Some(bs) =>
            var n := Utf8Value(bs);
            if IsScalarValue(n) then Some((n as char, 3 * w)) else None
  }

  /** Reference decoder: the inverse of the form encoding. */
  function FormDecode(s: string): Option<string>
    decreases |s|
  {
    if |s| == 0 then Some("")
    else match DecodeFirst(s)
      case None => None
      case Some((c, k)) =>
        match FormDecode(s[k..])
        case None => None
        case Some(t) => Some([c] + t)
  }

  lemma DecodeFirstChar(c: char, t: string)
    ensures DecodeFirst(FormChar(c) + t) == Some((c, |FormChar(c)|))
  {
    if c != ' ' && !Unreserved(c) {
      Utf8Decodes(c);
      DecodeEscapedChar(Utf8(c), t, c);
    }
  }

  /** The escapes of a character's UTF-8 bytes decode to that character. */
  lemma DecodeEscapedChar(bs: seq<Byte>, t: string, c: char)
    requires 1 <= |bs| <= 4 && Utf8Width(bs[0]) == |bs| && Utf8Value(bs) == c as int
    ensures DecodeFirst(EscapeAll(bs) + t) == Some((c, 3 * |bs|))
  {
    var s := EscapeAll(bs) + t;
    assert s == Escape(bs[0]) + (EscapeAll(bs[1..]) + t);
    DecodeEscape(bs[0], EscapeAll(bs[1..]) + t);
    DecodeEscapes(bs, t);
  }

  /** Decoding the form encoding gives the original string back. */
  lemma {:induction false} FormRoundTrip(s: string)
    ensures FormDecode(FormEncode(s)) == Some(s)
    decreases |s|
  {
    if |s| > 0 {
      var e := FormEncode(s);
      var a := FormChar(s[0]);
      assert e == a + FormEncode(s[1..]);
      DecodeFirstChar(s[0], FormEncode(s[1..]));
      assert e[|a|..] == FormEncode(s[1..]);
      FormRoundTrip(s[1..]);
      assert s == [s[0]] + s[1..];
    }
  }

  /** `phpUrlEncode` is injective: different names or values never encode alike. */
  lemma PhpUrlEncodeInjective(a: string, b: string)
    requires PhpUrlEncode(a) == PhpUrlEncode(b)
    ensures a == b
  {
    FormRoundTrip(a);
    FormRoundTrip(b);
  }
}

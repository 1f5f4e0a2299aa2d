/** JSON string literals of usual/json.c: scanning, unescaping and escaping.

 Strings are handled without their opening quote.  Two results: what the renderer writes for
 a valid text is read back as that text, and whatever the parser accepts decodes to a valid,
 NUL-free text that is not longer than its source, so that the room check of utf8_put_char
 can never fail there.
 */
module JsonStrings {
  import opened Prelude
  import opened Utf8

  const QUOTE: Byte := 34
  const SLASH: Byte := 47
  const BACKSLASH: Byte := 92

  function Plus(o: Option<nat>, n: nat): Option<nat> { if o.None? then None else Some(o.value + n) }

  function Prepend(b: Bytes, o: Option<Bytes>): Option<Bytes> { if o.None? then None else Some(b + o.value) }

  // ----- reading

  /** How many bytes scan_string passes over at once; 0 where it stops. */
  function ScanSkip(src: Bytes): (n: nat)
    ensures n <= |src|
  {
    if src == [] || src[0] == QUOTE || src[0] == 0 then 0
    else if src[0] == BACKSLASH then
      if |src| > 1 && (src[1] == BACKSLASH || src[1] == QUOTE) then 2 else 1
    else if src[0] >= 0x80 then ValidateSeq(src)
    else 1
  }

  /** scan_string: offset of the closing quote, None if there is none or the text is not valid UTF-8. */
  function Scan(src: Bytes): (r: Option<nat>)
    ensures r.Some? ==> r.value < |src| && src[r.value] == QUOTE
    decreases |src|
  {
    if src != [] && src[0] == QUOTE then Some(0)
    else if ScanSkip(src) == 0 then None
    else Plus(Scan(src[ScanSkip(src)..]), ScanSkip(src))
  }

  function HexValue(c: Byte): int {
    if 48 <= c <= 57 then c as int - 48
    else if 97 <= c <= 102 then c as int - 97 + 10
    else if 65 <= c <= 70 then c as int - 65 + 10
    else -1
  }

  /** parse_hex: value of four hex digits, or -1. */
  function ParseHex(s: Bytes): (v: int)
    ensures -1 <= v < 0x10000
  {
    if |s| < 4 || HexValue(s[0]) < 0 || HexValue(s[1]) < 0 || HexValue(s[2]) < 0 || HexValue(s[3]) < 0 then -1
    else HexValue(s[0]) * 4096 + HexValue(s[1]) * 256 + HexValue(s[2]) * 16 + HexValue(s[3])
  }

  /** parse_uescape behind `\u`: the code point and the number of bytes read.  Surrogates must
      come in pairs. */
  function UEscape(s: Bytes): (r: Option<(nat, nat)>)
    ensures r.Some? ==> Scalar(r.value.0) && 4 <= r.value.1 <= |s| && |Encode(r.value.0)| < r.value.1
  {
    var c := ParseHex(s);
    if c <= 0 then None
    else if c < 0xD800 || c > 0xDFFF then Some((c, 4))
    else if c >= 0xDC00 || |s| < 10 || s[4] != BACKSLASH || s[5] != 117 then None
    else
      var c2 := ParseHex(s[6..]);
      if c2 < 0xDC00 || c2 > 0xDFFF then None
      else Some((0x10000 + c % 0x400 * 0x400 + c2 % 0x400, 10))
  }

  /** Escapes of one character. */
  function SimpleEscape(c: Byte): (r: Option<Byte>)
    ensures r.Some? ==> 0 < r.value < 0x80
  {
    if c == QUOTE || c == BACKSLASH || c == SLASH then Some(c)
    else if c == 98 then Some(8)
    else if c == 102 then Some(12)
    else if c == 110 then Some(10)
    else if c == 114 then Some(13)
    else if c == 116 then Some(9)
    else None
  }

  /** process_escapes on the bytes up to the closing quote.  A lone backslash at the end would
      read that quote. */
  function Unescape(s: Bytes): (r: Option<Bytes>)
    decreases |s|
  {
    if s == [] then Some([])
    else if s[0] != BACKSLASH then Prepend(s[..1], Unescape(s[1..]))
    else if |s| == 1 then Some([QUOTE])
    else if s[1] == 117 then
      match UEscape(s[2..])
      case None => None
      case Some((c, n)) => Prepend(Encode(c), Unescape(s[2 + n..]))
    else
      match SimpleEscape(s[1])
      case None => None
      case Some(b) => Prepend([b], Unescape(s[2..]))
  }

  // ----- writing

  function HexDigit(d: nat): Byte
    requires d < 16
  {
    if d < 10 then 48 + d else 87 + d
  }

  /** `\u` and four hex digits. */
  function UnicodeEscape(c: nat): Bytes
    requires c < 0x10000
  {
    [BACKSLASH, 117, HexDigit(c / 4096), HexDigit(c / 256 % 16), HexDigit(c / 16 % 16), HexDigit(c % 16)]
  }

  /** escape_char. */
  function EscapeChar(c: nat): Bytes
    requires c < 0x10000
  {
    if c == 34 || c == 92 then [BACKSLASH, c]
    else if c == 8 then [BACKSLASH, 98]
    else if c == 12 then [BACKSLASH, 102]
    else if c == 10 then [BACKSLASH, 110]
    else if c == 13 then [BACKSLASH, 114]
    else if c == 9 then [BACKSLASH, 116]
    else UnicodeEscape(c)
  }

  /** U+2028 or U+2029 at the start of s. */
  predicate Separator(s: Bytes) {
    |s| >= 3 && s[0] == 0xE2 && s[1] == 0x80 && (s[2] == 0xA8 || s[2] == 0xA9)
  }

  predicate Special(b: Byte) { b == QUOTE || b == BACKSLASH || b < 0x20 }

  /** The body of render_string between the quotes. */
  function Escape(s: Bytes): Bytes {
    if s == [] then []
    else if Special(s[0]) then EscapeChar(s[0]) + Escape(s[1..])
    else if Separator(s) then EscapeChar(0x2028 + (s[2] as int - 0xA8)) + Escape(s[3..])
    else s[..1] + Escape(s[1..])
  }

  // ----- everything accepted is valid text

  lemma {:induction false} ScanPlain(src: Bytes, n: nat)
    requires n <= |src| && forall i :: 0 <= i < n ==> 0 < src[i] < 0x80 && src[i] != QUOTE && src[i] != BACKSLASH
    ensures Scan(src) == Plus(Scan(src[n..]), n)
    decreases n
  {
    if n > 0 {
      assert ScanSkip(src) == 1;
      ScanPlain(src[1..], n - 1);
      assert src[1..][n - 1..] == src[n..];
      PlusAdds(Scan(src[n..]), n - 1, 1);
    } else {
      assert src[0..] == src;
    }
  }

  lemma HexIsPlain(s: Bytes)
    requires ParseHex(s) >= 0
    ensures |s| >= 4 && forall i :: 0 <= i < 4 ==> 0 < s[i] < 0x80 && s[i] != QUOTE && s[i] != BACKSLASH
  {}

  /** The scanner runs over `\u` and four hex digits. */
  lemma {:induction false} ScanHexEscape(src: Bytes)
    requires |src| >= 6 && src[0] == BACKSLASH && src[1] == 117 && ParseHex(src[2..]) >= 0
    ensures Scan(src) == Plus(Scan(src[6..]), 6)
  {
    HexIsPlain(src[2..]);
    var t := src[1..];
    assert Scan(src) == Plus(Scan(t), 1);
    forall i | 0 <= i < 5 ensures 0 < t[i] < 0x80 && t[i] != QUOTE && t[i] != BACKSLASH {
      if i > 0 {
        assert t[i] == src[2..][i - 1];
      }
    }
    ScanPlain(t, 5);
    assert t[5..] == src[6..];
  }

  /** The scanner runs over a whole `\u` escape to the place where unescaping goes on. */
  lemma {:induction false} ScanUEscape(src: Bytes)
    requires |src| >= 2 && src[0] == BACKSLASH && src[1] == 117 && UEscape(src[2..]).Some?
    ensures Scan(src) == Plus(Scan(src[2 + UEscape(src[2..]).value.1..]), 2 + UEscape(src[2..]).value.1)
  {
    ScanHexEscape(src);
    if UEscape(src[2..]).value.1 == 10 {
      ScanSecond(src);
      PlusAdds(Scan(src[12..]), 6, 6);
    }
  }

  lemma ScanSecond(src: Bytes)
    requires |src| >= 2 && UEscape(src[2..]).Some? && UEscape(src[2..]).value.1 == 10
    ensures |src| >= 12 && Scan(src[6..]) == Plus(Scan(src[12..]), 6)
  {
    var t, u := src[2..], src[6..];
    assert u[2..] == t[6..] && u[0] == t[4] && u[1] == t[5];
    ScanHexEscape(u);
    assert u[6..] == src[12..];
  }

  lemma {:induction false} UnescapeCopies(s: Bytes, n: nat)
    requires n <= |s| && forall i :: 0 <= i < n ==> s[i] != BACKSLASH
    ensures Unescape(s) == Prepend(s[..n], Unescape(s[n..]))
    decreases n
  {
    if n > 0 {
      UnescapeCopies(s[1..], n - 1);
      assert s[1..][n - 1..] == s[n..];
      assert s[..1] + s[1..][..n - 1] == s[..n];
      PrependTwice(s[..1], s[1..][..n - 1], Unescape(s[n..]));
    } else {
      assert s[0..] == s;
      if Unescape(s).Some? {
        assert s[..0] + Unescape(s).value == Unescape(s).value;
      }
    }
  }

  lemma {:induction false} AcceptedIsText(src: Bytes, end: nat)
    requires Scan(src) == Some(end) && Unescape(src[..end]).Some?
    ensures Text(Unescape(src[..end]).value) && |Unescape(src[..end]).value| <= end
    decreases |src|, 1
  {
    var s := src[..end];
    if src[0] == QUOTE {
    } else if src[0] == BACKSLASH {
      AcceptedEscape(src, end);
    } else {
      var n := if src[0] >= 0x80 then ValidateSeq(src) else 1;
      SliceShift(src, end, n);
      UnescapeCopies(s, n);
      AcceptedIsText(src[n..], end - n);
      CopiedCode(src, n, end);
      CopiedText(s[..n], Code(src), Unescape(s[n..]).value);
    }
  }

  lemma CopiedText(piece: Bytes, c: nat, rest: Bytes)
    requires piece == Encode(c) && Scalar(c) && Text(rest)
    ensures Text(piece + rest)
  {
    TextCons(c, rest);
  }

  lemma {:induction false} CopiedCode(src: Bytes, n: nat, end: nat)
    requires src != [] && 0 < src[0] && n == (if src[0] >= 0x80 then ValidateSeq(src) else 1) && 0 < n <= end <= |src|
    ensures src[..end][..n] == Encode(Code(src)) && Scalar(Code(src))
  {
    ValidIsEncoding(src);
    assert src[..n] == src[..end][..n];
  }

  lemma {:induction false} AcceptedEscape(src: Bytes, end: nat)
    requires src != [] && src[0] == BACKSLASH && Scan(src) == Some(end) && Unescape(src[..end]).Some?
    ensures Text(Unescape(src[..end]).value) && |Unescape(src[..end]).value| <= end
    decreases |src|, 0, 2
  {
    EscapedTwo(src, end);
    var s := src[..end];
    if src[1] == 117 {
      AcceptedUEscape(src, end);
    } else {
      var b := SimpleEscape(src[1]).value;
      ScanSimple(src);
      AcceptedRest(src, end, 2, [b]);
      assert Encode(b) == [b];
      TextCons(b, Unescape(s[2..]).value);
    }
  }

  lemma {:induction false} AcceptedUEscape(src: Bytes, end: nat)
    requires |src| >= 2 && src[0] == BACKSLASH && src[1] == 117 && 2 <= end < |src|
    requires Scan(src) == Some(end) && Unescape(src[..end]).Some?
    ensures Text(Unescape(src[..end]).value) && |Unescape(src[..end]).value| <= end
    decreases |src|, 0, 1
  {
    var s := src[..end];
    var (c, n) := UEscape(s[2..]).value;
    UEscapePrefix(src[2..], s[2..]);
    ScanUEscape(src);
    AcceptedRest(src, end, 2 + n, Encode(c));
    TextCons(c, Unescape(s[2 + n..]).value);
  }

  /** An escape is never cut off by the closing quote. */
  lemma {:induction false} EscapedTwo(src: Bytes, end: nat)
    requires src != [] && src[0] == BACKSLASH && Scan(src) == Some(end)
    ensures 2 <= end < |src| && src[..end][1] == src[1]
  {}

  lemma {:induction false} ScanSimple(src: Bytes)
    requires |src| >= 2 && src[0] == BACKSLASH && SimpleEscape(src[1]).Some?
    ensures Scan(src) == Plus(Scan(src[2..]), 2)
  {}

  /** Go on n bytes later, where n bytes became `piece`. */
  lemma {:induction false} AcceptedRest(src: Bytes, end: nat, n: nat, piece: Bytes)
    requires 0 < n <= end <= |src| && Scan(src) == Some(end) == Plus(Scan(src[n..]), n)
    requires Unescape(src[..end]) == Prepend(piece, Unescape(src[..end][n..])) && Unescape(src[..end]).Some?
    ensures Text(Unescape(src[..end][n..]).value) && |Unescape(src[..end][n..]).value| <= end - n
    decreases |src|, 0, 0
  {
    SliceShift(src, end, n);
    AcceptedIsText(src[n..], end - n);
  }

  lemma SliceShift(src: Bytes, end: nat, n: nat)
    requires n <= end <= |src|
    ensures src[n..][..end - n] == src[..end][n..]
  {}

  /** More text behind an escape does not change it. */
  lemma UEscapePrefix(s: Bytes, p: Bytes)
    requires p <= s && UEscape(p).Some?
    ensures UEscape(s) == UEscape(p)
  {}

  // ----- what is written is read back

  lemma HexRoundTrip(c: nat, rest: Bytes)
    requires c < 0x10000
    ensures ParseHex(UnicodeEscape(c)[2..] + rest) == c
  {
    var s := UnicodeEscape(c)[2..] + rest;
    assert s[0] == HexDigit(c / 4096) && s[1] == HexDigit(c / 256 % 16) && s[2] == HexDigit(c / 16 % 16)
      && s[3] == HexDigit(c % 16);
    Nibbles(c);
  }

  lemma Nibbles(c: nat)
    ensures c / 4096 * 4096 + c / 256 % 16 * 256 + c / 16 % 16 * 16 + c % 16 == c
  {
    var x := c / 16;
    var y := x / 16;
    assert c == 16 * x + c % 16 && x == 16 * y + x % 16 && y == 16 * (y / 16) + y % 16;
    assert c / 256 == y && c / 4096 == y / 16;
  }

  /** A piece of output that stands for the encoding of c: before r the scanner runs over it, and
      before t unescaping turns it into that encoding. */
  ghost predicate Stands(piece: Bytes, c: nat, r: Bytes, t: Bytes) {
    && Scan(piece + r) == Plus(Scan(r), |piece|)
    && Unescape(piece + t) == Prepend(Encode(c), Unescape(t))
  }

  lemma {:induction false} ShortEscapeStands(c: nat, r: Bytes, t: Bytes)
    requires 0 < c < 0x80 && |EscapeChar(c)| == 2
    ensures Stands(EscapeChar(c), c, r, t)
  {
    var b := EscapeChar(c)[1];
    assert EscapeChar(c) == [BACKSLASH, b] && SimpleEscape(b) == Some(c) && b != 117;
    var s := [BACKSLASH, b] + r;
    assert s[2..] == r;
    ScanSimple(s);
    UnescapeSimple(b, c, t);
    assert Encode(c) == [c];
  }

  lemma UnescapeSimple(b: Byte, c: Byte, t: Bytes)
    requires b != 117 && SimpleEscape(b) == Some(c)
    ensures Unescape([BACKSLASH, b] + t) == Prepend([c], Unescape(t))
  {
    var u := [BACKSLASH, b] + t;
    assert u[2..] == t;
  }

  lemma {:induction false} LongEscapeStands(c: nat, r: Bytes, t: Bytes)
    requires 0 < c < 0x10000 && Scalar(c)
    ensures Stands(UnicodeEscape(c), c, r, t)
  {
    var piece := UnicodeEscape(c);
    UnicodeEscapeReads(c, r);
    ScanUEscape(piece + r);
    assert (piece + r)[6..] == r;
    UnicodeEscapeReads(c, t);
    assert (piece + t)[6..] == t;
  }

  lemma {:induction false} UnicodeEscapeReads(c: nat, rest: Bytes)
    requires 0 < c < 0x10000 && Scalar(c)
    ensures var s := UnicodeEscape(c) + rest;
      |s| >= 6 && s[0] == BACKSLASH && s[1] == 117 && UEscape(s[2..]) == Some((c, 4))
  {
    var s := UnicodeEscape(c) + rest;
    assert s[2..] == UnicodeEscape(c)[2..] + rest;
    HexRoundTrip(c, rest);
  }

  lemma {:induction false} EscapeStands(c: nat, r: Bytes, t: Bytes)
    requires 0 < c < 0x10000 && Scalar(c)
    ensures Stands(EscapeChar(c), c, r, t)
  {
    if |EscapeChar(c)| == 2 {
      ShortEscapeStands(c, r, t);
    } else {
      LongEscapeStands(c, r, t);
    }
  }

  lemma NoAsciiInside(u: Bytes)
    requires u != [] && u[0] >= 0x80
    ensures forall i :: 0 <= i < ValidateSeq(u) ==> u[i] >= 0x80
    ensures forall i :: 1 <= i < ValidateSeq(u) ==> Tail(u[i])
  {}

  /** What is written for one character. */
  function EscapeCode(c: nat): Bytes {
    if c == 34 || c == 92 || c < 0x20 || c == 0x2028 || c == 0x2029 then EscapeChar(c) else Encode(c)
  }

  /** A character that is copied stands for itself. */
  lemma {:induction false} CopyStands(c: nat, r: Bytes, t: Bytes)
    requires Scalar(c) && c != 34 && c != 92
    ensures Stands(Encode(c), c, r, t)
  {
    var u := Encode(c);
    EncodingIsValid(c, r);
    assert (u + r)[|u|..] == r && (u + r)[0] == u[0];
    EncodingIsValid(c, t);
    if u[0] >= 0x80 {
      NoAsciiInside(u + t);
    }
    assert (u + t)[|u|..] == t && (u + t)[..|u|] == u;
    UnescapeCopies(u + t, |u|);
  }

  lemma {:induction false} CodeStands(c: nat, r: Bytes, t: Bytes)
    requires Scalar(c)
    ensures Stands(EscapeCode(c), c, r, t)
  {
    if c == 34 || c == 92 || c < 0x20 || c == 0x2028 || c == 0x2029 {
      EscapeStands(c, r, t);
    } else {
      CopyStands(c, r, t);
    }
  }

  /** Bytes that belong to a longer sequence are copied. */
  lemma {:induction false} EscapeTails(tails: Bytes, rest: Bytes)
    requires forall i :: 0 <= i < |tails| ==> Tail(tails[i])
    ensures Escape(tails + rest) == tails + Escape(rest)
    decreases |tails|
  {
    if tails == [] {
      assert tails + rest == rest;
    } else {
      EscapeTails(tails[1..], rest);
      EscapePlainByte(tails, rest);
      Assoc(tails[..1], tails[1..], Escape(rest));
      assert tails == tails[..1] + tails[1..];
    }
  }

  /** The renderer writes a text piece by piece, one piece for each character. */
  lemma {:induction false} EscapeByCode(c: nat, rest: Bytes)
    requires Scalar(c)
    ensures Escape(Encode(c) + rest) == EscapeCode(c) + Escape(rest)
  {
    var u := Encode(c);
    var s := u + rest;
    if c < 0x80 {
      assert s[1..] == rest && s[..1] == u;
    } else if c == 0x2028 || c == 0x2029 {
      assert s[0] == 0xE2 && s[1] == 0x80 && s[2] == 0xA8 + (c - 0x2028);
      assert s[3..] == rest;
    } else {
      EscapeLong(c, rest);
    }
  }

  lemma {:induction false} EscapeLong(c: nat, rest: Bytes)
    requires Scalar(c) && c >= 0x80 && c != 0x2028 && c != 0x2029
    ensures Escape(Encode(c) + rest) == Encode(c) + Escape(rest)
  {
    var u := Encode(c);
    var s := u + rest;
    EncodingIsValid(c, rest);
    NoAsciiInside(s);
    NotSeparator(c, rest);
    EscapePlainByte(u, rest);
    assert forall i :: 0 <= i < |u| - 1 ==> u[1..][i] == s[i + 1];
    EscapeTails(u[1..], rest);
    Assoc(u[..1], u[1..], Escape(rest));
    assert u == u[..1] + u[1..];
  }

  lemma EscapePlainByte(u: Bytes, rest: Bytes)
    requires u != [] && !Special(u[0]) && !Separator(u + rest)
    ensures Escape(u + rest) == u[..1] + Escape(u[1..] + rest)
  {
    var s := u + rest;
    assert s[1..] == u[1..] + rest && s[..1] == u[..1];
  }

  lemma NotSeparator(c: nat, rest: Bytes)
    requires Scalar(c) && c >= 0x80 && c != 0x2028 && c != 0x2029
    ensures !Separator(Encode(c) + rest)
  {}

  function EscapeAll(cs: seq<nat>): Bytes { if cs == [] then [] else EscapeCode(cs[0]) + EscapeAll(cs[1..]) }

  lemma {:induction false} EscapeIsEscapeAll(cs: seq<nat>)
    requires forall i :: 0 <= i < |cs| ==> Scalar(cs[i])
    ensures Escape(EncodeAll(cs)) == EscapeAll(cs)
  {
    if cs != [] {
      EscapeIsEscapeAll(cs[1..]);
      EscapeByCode(cs[0], EncodeAll(cs[1..]));
    }
  }

  lemma {:induction false} ScanEscapeAll(cs: seq<nat>, rest: Bytes)
    requires forall i :: 0 <= i < |cs| ==> Scalar(cs[i])
    ensures Scan(EscapeAll(cs) + ([QUOTE] + rest)) == Some(|EscapeAll(cs)|)
  {
    var tail := [QUOTE] + rest;
    if cs == [] {
      ScanQuote(tail);
    } else {
      ScanEscapeAll(cs[1..], rest);
      ScanMore(cs[0], EscapeAll(cs[1..]), tail);
    }
  }

  lemma ScanQuote(tail: Bytes)
    requires tail != [] && tail[0] == QUOTE
    ensures Scan([] + tail) == Some(0)
  {}

  lemma ScanMore(c: nat, a: Bytes, tail: Bytes)
    requires Scalar(c) && Scan(a + tail) == Some(|a|)
    ensures Scan(EscapeCode(c) + a + tail) == Some(|EscapeCode(c) + a|)
  {
    ScanCode(c, EscapeCode(c), a + tail);
    ScanPieceMore(EscapeCode(c), a, tail);
  }

  lemma ScanPieceMore(piece: Bytes, a: Bytes, tail: Bytes)
    requires Scan(piece + (a + tail)) == Plus(Scan(a + tail), |piece|) && Scan(a + tail) == Some(|a|)
    ensures Scan(piece + a + tail) == Some(|piece + a|)
  {
    Assoc(piece, a, tail);
  }

  lemma ScanCode(c: nat, piece: Bytes, r: Bytes)
    requires Scalar(c) && piece == EscapeCode(c)
    ensures Scan(piece + r) == Plus(Scan(r), |piece|)
  {
    CodeStands(c, r, []);
  }

  lemma {:induction false} UnescapeEscapeAll(cs: seq<nat>)
    requires forall i :: 0 <= i < |cs| ==> Scalar(cs[i])
    ensures Unescape(EscapeAll(cs)) == Some(EncodeAll(cs))
  {
    if cs != [] {
      UnescapeEscapeAll(cs[1..]);
      CodeStands(cs[0], [], EscapeAll(cs[1..]));
    }
  }

  /** Scanning a rendered string stops at the quote that ends it, and unescaping gives the text back. */
  lemma {:induction false} StringRoundTrip(s: Bytes, rest: Bytes)
    requires Text(s)
    ensures Scan(Escape(s) + ([QUOTE] + rest)) == Some(|Escape(s)|)
    ensures Unescape(Escape(s)) == Some(s)
  {
    var cs := TextIsEncoded(s);
    EscapeIsEscapeAll(cs);
    ScanEscapeAll(cs, rest);
    UnescapeEscapeAll(cs);
  }

  // ----- the loops

  lemma PlusAdds(o: Option<nat>, a: nat, b: nat)
    ensures Plus(Plus(o, a), b) == Plus(o, b + a)
  {}

  lemma ScanAdvances(s: Bytes, n: nat, end: nat)
    requires s != [] && s[0] != QUOTE && n == ScanSkip(s) > 0
    ensures Plus(Scan(s), end) == Plus(Scan(s[n..]), end + n)
  {
    PlusAdds(Scan(s[n..]), n, end);
  }

  lemma NothingEscaped(s: Bytes)
    requires BACKSLASH !in s
    ensures Unescape(s) == Some(s)
  {
    UnescapeCopies(s, |s|);
    assert s[..|s|] == s && s[|s|..] == [];
    assert s + [] == s;
  }

  lemma PrefixGrows(src: Bytes, end: nat, n: nat)
    requires end + n <= |src|
    ensures src[..end + n] == src[..end] + src[end..][..n] && src[end..][n..] == src[end + n..]
  {}

  /** The scan of src has come to s, which is end bytes on. */
  ghost predicate ScannedTo(src: Bytes, s: Bytes, end: nat, hasEsc: bool) {
    end <= |src| && s == src[end..] && Scan(src) == Plus(Scan(s), end) && (!hasEsc ==> BACKSLASH !in src[..end])
  }

  lemma {:induction false} ScanGoesOn(src: Bytes, s: Bytes, end: nat, hasEsc: bool, n: nat)
    requires ScannedTo(src, s, end, hasEsc) && s != [] && s[0] != QUOTE && n == ScanSkip(s) > 0
    requires s[0] != BACKSLASH ==> BACKSLASH !in s[..n]
    ensures ScannedTo(src, s[n..], end + n, hasEsc || s[0] == BACKSLASH)
  {
    ScanAdvances(s, n, end);
    PrefixGrows(src, end, n);
  }

  lemma {:induction false} ScanStops(src: Bytes, s: Bytes, end: nat, hasEsc: bool)
    requires ScannedTo(src, s, end, hasEsc) && (s == [] || s[0] == QUOTE || ScanSkip(s) == 0)
    ensures s != [] && s[0] == QUOTE ==> Scan(src) == Some(end) && end < |src|
    ensures s == [] || s[0] != QUOTE ==> Scan(src).None?
    ensures end <= |src| && (!hasEsc ==> Unescape(src[..end]) == Some(src[..end]))
  {
    if !hasEsc { NothingEscaped(src[..end]); }
  }

  /** scan_string.  The source pointer is modelled by what is left from it on. */
  method ScanString(src: Bytes) returns (ok: bool, end: nat, hasEsc: bool)
    ensures ok <==> Scan(src).Some?
    ensures ok ==> Scan(src) == Some(end) && end < |src|
    ensures ok && !hasEsc ==> Unescape(src[..end]) == Some(src[..end])
  {
    var s := src;
    end, hasEsc := 0, false;
    while s != []
      invariant ScannedTo(src, s, end, hasEsc) == true
      decreases |s|
    {
      if s[0] == QUOTE {
        ScanStops(src, s, end, hasEsc);
        return true, end, hasEsc;
      }
      var n := SkipOne(s);
      if n == 0 {
        ScanStops(src, s, end, hasEsc);
        return false, 0, false;
      }
      ScanGoesOn(src, s, end, hasEsc, n);
      s, end, hasEsc := s[n..], end + n, hasEsc || s[0] == BACKSLASH;
    }
    ScanStops(src, s, end, hasEsc);
    return false, 0, false;
  }

  /** One round of the scanning loop: bytes to pass over, 0 to give up. */
  method SkipOne(s: Bytes) returns (n: nat)
    requires s != [] && s[0] != QUOTE
    ensures n == ScanSkip(s)
    ensures s[0] != BACKSLASH ==> BACKSLASH !in s[..n]
  {
    if s[0] == BACKSLASH {
      return if |s| > 1 && (s[1] == BACKSLASH || s[1] == QUOTE) then 2 else 1;
    } else if s[0] >= 0x80 {
      NoAsciiInside(s);
      return ValidateSeq(s);
    } else if s[0] == 0 {
      return 0;
    }
    return 1;
  }

  /** memchr: offset of the first backslash, or the length. */
  function FindEscape(s: Bytes): (n: nat)
    ensures n <= |s| && BACKSLASH !in s[..n] && (n < |s| ==> s[n] == BACKSLASH)
  {
    if s == [] || s[0] == BACKSLASH then 0
    else
      var n := FindEscape(s[1..]);
      assert s[..n + 1] == s[..1] + s[1..][..n];
      n + 1
  }

  lemma PrependNothing(o: Option<Bytes>)
    ensures Prepend([], o) == o
  {
    if o.Some? {
      assert [] + o.value == o.value;
    }
  }

  lemma PrependTwice(a: Bytes, b: Bytes, o: Option<Bytes>)
    ensures Prepend(a, Prepend(b, o)) == Prepend(a + b, o)
  {
    if o.Some? {
      assert a + (b + o.value) == (a + b) + o.value;
    }
  }

  /** What one escape sequence is turned into, and how many bytes it takes. */
  function ReadEscape(s: Bytes): (r: Option<(Bytes, nat)>)
    requires s != [] && s[0] == BACKSLASH
    ensures r.Some? ==> 0 < r.value.1 <= |s| && |r.value.0| <= r.value.1
  {
    if |s| == 1 then Some(([QUOTE], 1))
    else if s[1] == 117 then
      match UEscape(s[2..])
      case None => None
      case Some((c, n)) => Some((Encode(c), 2 + n))
    else
      match SimpleEscape(s[1])
      case None => None
      case Some(b) => Some(([b], 2))
  }

  lemma {:induction false} UnescapeOne(s: Bytes)
    requires s != [] && s[0] == BACKSLASH
    ensures Unescape(s) == if ReadEscape(s).None? then None
      else Prepend(ReadEscape(s).value.0, Unescape(s[ReadEscape(s).value.1..]))
  {
    assert |s| == 1 ==> s[1..] == [] && [QUOTE] + [] == [QUOTE];
  }

  /** process_escapes.  The target has as many bytes as the source; that is always enough. */
  method ProcessEscapes(src: Bytes) returns (r: Option<Bytes>)
    ensures r == Unescape(src)
    ensures r.Some? ==> |r.value| <= |src|
  {
    var s, dst: Bytes := src, [];
    ghost var result := Unescape(src);
    PrependNothing(result);
    while s != []
      invariant |dst| + |s| <= |src|
      invariant result == Prepend(dst, Unescape(s))
      decreases |s|
    {
      var esc := FindEscape(s);
      UnescapeCopies(s, esc);
      PrependTwice(dst, s[..esc], Unescape(s[esc..]));
      dst, s := dst + s[..esc], s[esc..];
      if s == [] {
        break;
      }
      UnescapeOne(s);
      var piece: Bytes, n := [], 0;
      if |s| > 1 && s[1] == 117 {
        var u := UEscape(s[2..]);
        if u.None? {
          return None;
        }
        var put := PutChar(u.value.0, |src| - |dst|);
        if put.None? {
          return None;
        }
        piece, n := put.value, 2 + u.value.1;
      } else {
        var e := SimpleEscape(if |s| > 1 then s[1] else QUOTE);
        if e.None? {
          return None;
        }
        piece, n := [e.value], if |s| > 1 then 2 else 1;
      }
      assert ReadEscape(s) == Some((piece, n));
      PrependTwice(dst, piece, Unescape(s[n..]));
      dst, s := dst + piece, s[n..];
    }
    assert dst + [] == dst;
    return Some(dst);
  }

  // ----- rendering

  function At(s: Bytes, i: nat): Byte { if i < |s| then s[i] else 0 }

  /** Rendered so far: `out` covers val up to `last`, bytes from there to i are still to be copied.
      Behind a separator `last` runs ahead of i over its two tail bytes. */
  ghost predicate RenderedTo(val: Bytes, out: Bytes, last: nat, i: nat) {
    && i <= |val| && last <= |val|
    && if last <= i then out + val[last..i] + Escape(val[i..]) == [QUOTE] + Escape(val)
       else out + Escape(val[last..]) == [QUOTE] + Escape(val) && forall x :: i <= x < last ==> Tail(val[x])
  }

  predicate MustEscape(val: Bytes, i: nat)
    requires i < |val|
  {
    Special(val[i]) || (val[i] == 0xE2 && At(val, i + 1) == 0x80 && (At(val, i + 2) == 0xA8 || At(val, i + 2) == 0xA9))
  }

  lemma {:induction false} RenderStep(val: Bytes, out: Bytes, last: nat, i: nat)
    requires i < |val| && RenderedTo(val, out, last, i) && !MustEscape(val, i)
    ensures RenderedTo(val, out, last, i + 1)
  {}

  /** Flush what is still to be copied, then write an escape that covers val[i..last']. */
  lemma {:induction false} RenderEscape(val: Bytes, out: Bytes, last: nat, i: nat, last': nat, c: nat)
    requires last <= i < |val| && RenderedTo(val, out, last, i) && MustEscape(val, i) && c < 0x10000
    requires if val[i] == 0xE2 then last' == i + 3 && c == 0x2028 + (val[i + 2] as int - 0xA8)
      else last' == i + 1 && c == val[i]
    ensures RenderedTo(val, out + val[last..i] + EscapeChar(c), last', i + 1)
  {
    var out' := out + val[last..i] + EscapeChar(c);
    EscapeAhead(val, i, last', c);
    Assoc(out + val[last..i], EscapeChar(c), Escape(val[last'..]));
    assert val[last'..last'] == [] && out' + [] == out';
  }

  lemma {:induction false} EscapeAhead(val: Bytes, i: nat, last': nat, c: nat)
    requires i < |val| && MustEscape(val, i) && c < 0x10000
    requires if val[i] == 0xE2 then last' == i + 3 && c == 0x2028 + (val[i + 2] as int - 0xA8)
      else last' == i + 1 && c == val[i]
    ensures last' <= |val| && Escape(val[i..]) == EscapeChar(c) + Escape(val[last'..])
    ensures forall x :: i < x < last' ==> Tail(val[x])
  {}

  lemma {:induction false} RenderDone(val: Bytes, out: Bytes, last: nat)
    requires RenderedTo(val, out, last, |val|)
    ensures (if last < |val| then out + val[last..] else out) == [QUOTE] + Escape(val)
    ensures val[last..] == val[last..|val|]
  {}

  /** render_string. */
  method RenderString(val: Bytes) returns (out: Bytes)
    ensures out == [QUOTE] + Escape(val) + [QUOTE]
  {
    out := [QUOTE];
    var i, last := 0, 0;
    assert val[0..] == val && val[0..0] == [] && out + [] == out;
    while i < |val|
      invariant RenderedTo(val, out, last, i)
    {
      if MustEscape(val, i) {
        var c: int, next := val[i], i + 1;
        if val[i] == 0xE2 {
          c, next := 0x2028 + (val[i + 2] as int - 0xA8), i + 3;
        }
        RenderEscape(val, out, last, i, next, c);
        if last < i {
          out := out + val[last..i];
        } else {
          assert val[last..i] == [] && out + [] == out;
        }
        out := out + EscapeChar(c);
        last := next;
      } else {
        RenderStep(val, out, last, i);
      }
      i := i + 1;
    }
    RenderDone(val, out, last);
    if last < i {
      out := out + val[last..i];
    }
    out := out + [QUOTE];
  }
}

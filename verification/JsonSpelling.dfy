/** Which JSON string literals usual/json.c accepts, and what they stand for.

 A literal is a sequence of spelled characters: a character as it is, a short escape, or one or
 two `\u` escapes with hexadecimal digits in either case.  The scanner and the unescaper together
 are proved to accept exactly these, and to give exactly the characters that are spelled.
 */
module JsonSpelling {
  import opened Prelude
  import opened Utf8
  import opened JsonStrings

  /** b is the hexadecimal digit d. */
  predicate DigitIs(b: Byte, d: nat) {
    d < 16 && (b as char == "0123456789abcdef"[d] || b as char == "0123456789ABCDEF"[d])
  }

  /** h is the number n in hexadecimal digits, all of them. */
  predicate HexIs(h: Bytes, n: nat) {
    if h == [] then n == 0 else DigitIs(h[|h| - 1], n % 16) && HexIs(h[..|h| - 1], n / 16)
  }

  /** p is `\u` and the number n. */
  predicate UnitIs(p: Bytes, n: nat) {
    |p| == 6 && n < 0x10000 && p[0] as char == '\\' && p[1] as char == 'u' && HexIs(p[2..], n)
  }

  /** The escape letters and what they stand for (section 7 of RFC 8259). */
  predicate ShortIs(e: Byte, c: nat) {
    var ch := e as char;
    || (ch == '"' && c == 0x22) || (ch == '\\' && c == 0x5C) || (ch == '/' && c == 0x2F)
    || (ch == 'b' && c == 0x08) || (ch == 'f' && c == 0x0C) || (ch == 'n' && c == 0x0A)
    || (ch == 'r' && c == 0x0D) || (ch == 't' && c == 0x09)
  }

  /** p spells the character c.  Control characters may stand for themselves. */
  predicate Spells(p: Bytes, c: nat) {
    && Scalar(c)
    && (|| (c != 0x22 && c != 0x5C && p == Encode(c))
        || (|p| == 2 && p[0] as char == '\\' && ShortIs(p[1], c))
        || (c < 0x10000 && UnitIs(p, c))
        || (c >= 0x10000 && |p| == 12
            && UnitIs(p[..6], 0xD800 + (c - 0x10000) / 0x400) && UnitIs(p[6..], 0xDC00 + (c - 0x10000) % 0x400)))
  }

  /** s spells the characters cs, one after the other. */
  ghost predicate SpellsAll(s: Bytes, cs: seq<nat>)
    decreases |cs|
  {
    if cs == [] then s == []
    else exists n: nat :: n <= |s| && Spells(s[..n], cs[0]) && SpellsAll(s[n..], cs[1..])
  }

  // ----- hexadecimal digits

  lemma DigitValue(b: Byte, d: nat)
    requires d < 16
    ensures DigitIs(b, d) <==> HexValue(b) == d
  {}

  lemma HexFour(h: Bytes, n: nat)
    requires |h| == 4 && n < 0x10000
    ensures HexIs(h, n) <==>
      DigitIs(h[0], n / 0x1000) && DigitIs(h[1], n / 0x100 % 16) && DigitIs(h[2], n / 0x10 % 16)
        && DigitIs(h[3], n % 16)
  {
    var a, b, c := h[..3], h[..2], h[..1];
    assert HexIs(h, n) <==> DigitIs(h[3], n % 16) && HexIs(a, n / 16);
    assert a[..2] == b && a[2] == h[2];
    assert HexIs(a, n / 16) <==> DigitIs(h[2], n / 16 % 16) && HexIs(b, n / 16 / 16);
    assert b[..1] == c && b[1] == h[1];
    assert HexIs(b, n / 16 / 16) <==> DigitIs(h[1], n / 16 / 16 % 16) && HexIs(c, n / 16 / 16 / 16);
    assert c[..0] == [] && c[0] == h[0];
    assert HexIs(c, n / 16 / 16 / 16) <==> DigitIs(h[0], n / 16 / 16 / 16 % 16) && n / 16 / 16 / 16 / 16 == 0;
    assert n / 16 / 16 == n / 0x100 && n / 16 / 16 / 16 == n / 0x1000;
  }

  lemma HexExactly(h: Bytes, rest: Bytes, n: nat)
    requires |h| == 4
    ensures n < 0x10000 ==> (HexIs(h, n) <==> ParseHex(h + rest) == n)
  {
    if n < 0x10000 {
      HexFour(h, n);
      DigitValue(h[0], n / 0x1000);
      DigitValue(h[1], n / 0x100 % 16);
      DigitValue(h[2], n / 0x10 % 16);
      DigitValue(h[3], n % 16);
      var s := h + rest;
      assert s[0] == h[0] && s[1] == h[1] && s[2] == h[2] && s[3] == h[3];
      Nibbles(n);
      NibblesUnique(n, HexValue(h[0]), HexValue(h[1]), HexValue(h[2]), HexValue(h[3]));
    }
  }

  lemma NibblesUnique(n: nat, a: int, b: int, c: int, d: int)
    ensures 0 <= a < 16 && 0 <= b < 16 && 0 <= c < 16 && 0 <= d < 16 && a * 4096 + b * 256 + c * 16 + d == n ==>
      n / 0x1000 == a && n / 0x100 % 16 == b && n / 0x10 % 16 == c && n % 16 == d
  {
    if 0 <= a < 16 && 0 <= b < 16 && 0 <= c < 16 && 0 <= d < 16 && a * 4096 + b * 256 + c * 16 + d == n {
      assert n / 16 == a * 256 + b * 16 + c;
      assert n / 256 == a * 16 + b;
    }
  }

  // ----- what is spelled is read

  lemma UnitReads(p: Bytes, n: nat, rest: Bytes)
    requires UnitIs(p, n)
    ensures var s := p + rest;
            && |s| >= 6 && s[0] == BACKSLASH && s[1] == 117 && s[6..] == rest
            && s[2..] == p[2..] + rest && ParseHex(s[2..]) == n
  {
    HexExactly(p[2..], rest, n);
    assert (p + rest)[2..] == p[2..] + rest && (p + rest)[6..] == rest;
  }

  lemma UnitStands(p: Bytes, c: nat, r: Bytes, t: Bytes)
    requires Scalar(c) && c < 0x10000 && UnitIs(p, c)
    ensures Stands(p, c, r, t)
  {
    UnitReads(p, c, r);
    ScanUEscape(p + r);
    UnitReads(p, c, t);
  }

  lemma UPair(u: Bytes, hi: nat, lo: nat)
    requires |u| >= 10 && ParseHex(u) == hi && u[4] == BACKSLASH && u[5] == 117 && ParseHex(u[6..]) == lo
    requires 0xD800 <= hi < 0xDC00 && 0xDC00 <= lo <= 0xDFFF
    ensures UEscape(u).Some? && UEscape(u).value.0 == 0x10000 + hi % 0x400 * 0x400 + lo % 0x400
      && UEscape(u).value.1 == 10
  {}

  /** Two escapes are read as the character they spell together. */
  lemma PairReads(p: Bytes, c: nat, rest: Bytes)
    requires 0x10000 <= c <= 0x10FFFF && |p| == 12
    requires UnitIs(p[..6], 0xD800 + (c - 0x10000) / 0x400) && UnitIs(p[6..], 0xDC00 + (c - 0x10000) % 0x400)
    ensures var s := p + rest;
            |s| >= 12 && s[0] == BACKSLASH && s[1] == 117 && s[12..] == rest && UEscape(s[2..]) == Some((c, 10))
  {
    var hi, lo := HalvesOf(c);
    UnitsPair(p, hi, lo, c, rest);
  }

  lemma HalvesOf(c: nat) returns (hi: nat, lo: nat)
    requires 0x10000 <= c <= 0x10FFFF
    ensures hi == 0xD800 + (c - 0x10000) / 0x400 && lo == 0xDC00 + (c - 0x10000) % 0x400
    ensures 0xD800 <= hi < 0xDC00 && 0xDC00 <= lo <= 0xDFFF && c == 0x10000 + hi % 0x400 * 0x400 + lo % 0x400
  {
    var d := c - 0x10000;
    hi, lo := 0xD800 + d / 0x400, 0xDC00 + d % 0x400;
    Halves(d);
  }

  lemma UnitsPair(p: Bytes, hi: nat, lo: nat, c: nat, rest: Bytes)
    requires |p| == 12 && UnitIs(p[..6], hi) && UnitIs(p[6..], lo) && 0xD800 <= hi < 0xDC00 && 0xDC00 <= lo <= 0xDFFF
    requires c == 0x10000 + hi % 0x400 * 0x400 + lo % 0x400
    ensures var s := p + rest;
            |s| >= 12 && s[0] == BACKSLASH && s[1] == 117 && s[12..] == rest && UEscape(s[2..]) == Some((c, 10))
  {
    UnitsRead(p[..6], p[6..], hi, lo, rest);
    InHalves(p, rest);
    UPair((p + rest)[2..], hi, lo);
  }

  lemma InHalves(p: Bytes, rest: Bytes)
    requires |p| == 12
    ensures p + rest == p[..6] + (p[6..] + rest)
  {}

  lemma UnitsRead(p: Bytes, q: Bytes, hi: nat, lo: nat, rest: Bytes)
    requires UnitIs(p, hi) && UnitIs(q, lo)
    ensures var s := p + (q + rest);
            && |s| >= 12 && s[0] == BACKSLASH && s[1] == 117 && s[12..] == rest
            && ParseHex(s[2..]) == hi && s[2..][4] == BACKSLASH && s[2..][5] == 117 && ParseHex(s[2..][6..]) == lo
  {
    var s, t := p + (q + rest), q + rest;
    UnitReads(p, hi, t);
    UnitReads(q, lo, rest);
    assert s[6..] == t && s[12..] == t[6..] && s[2..][6..] == t[2..] && s[2..][4] == t[0] && s[2..][5] == t[1];
  }

  lemma Halves(d: nat)
    requires d < 0x100000
    ensures (0xD800 + d / 0x400) % 0x400 * 0x400 + (0xDC00 + d % 0x400) % 0x400 == d
    ensures d / 0x400 < 0x400 && d % 0x400 < 0x400
  {
    assert (0xD800 + d / 0x400) % 0x400 == d / 0x400;
    assert (0xDC00 + d % 0x400) % 0x400 == d % 0x400;
  }

  lemma PairStands(p: Bytes, c: nat, r: Bytes, t: Bytes)
    requires 0x10000 <= c <= 0x10FFFF && |p| == 12
    requires UnitIs(p[..6], 0xD800 + (c - 0x10000) / 0x400) && UnitIs(p[6..], 0xDC00 + (c - 0x10000) % 0x400)
    ensures Stands(p, c, r, t)
  {
    PairReads(p, c, r);
    ScanUEscape(p + r);
    PairReads(p, c, t);
  }

  lemma ShortReads(e: Byte, c: nat)
    ensures ShortIs(e, c) <==> SimpleEscape(e) == Some(c)
  {}

  lemma ShortStands(p: Bytes, c: nat, r: Bytes, t: Bytes)
    requires |p| == 2 && p[0] as char == '\\' && ShortIs(p[1], c)
    ensures Stands(p, c, r, t)
  {
    ShortReads(p[1], c);
    assert p == [BACKSLASH, p[1]];
    assert (p + r)[2..] == r;
    ScanSimple(p + r);
    UnescapeSimple(p[1], c, t);
    assert Encode(c) == [c];
  }

  /** A spelled character is scanned as one piece and unescaped to its encoding. */
  lemma SpelledStands(p: Bytes, c: nat, r: Bytes, t: Bytes)
    requires Spells(p, c)
    ensures Stands(p, c, r, t)
  {
    if c != 0x22 && c != 0x5C && p == Encode(c) {
      CopyStands(c, r, t);
    } else if |p| == 2 && p[0] as char == '\\' && ShortIs(p[1], c) {
      ShortStands(p, c, r, t);
    } else if c < 0x10000 {
      UnitStands(p, c, r, t);
    } else {
      PairStands(p, c, r, t);
    }
  }

  lemma {:induction false} SpelledReads(s: Bytes, cs: seq<nat>, rest: Bytes)
    requires SpellsAll(s, cs)
    ensures Scan(s + ([QUOTE] + rest)) == Some(|s|) && Unescape(s) == Some(EncodeAll(cs))
    decreases |cs|
  {
    if cs == [] {
      assert s + ([QUOTE] + rest) == [QUOTE] + rest;
    } else {
      var n: nat :| n <= |s| && Spells(s[..n], cs[0]) && SpellsAll(s[n..], cs[1..]);
      SpelledReads(s[n..], cs[1..], rest);
      SpelledStands(s[..n], cs[0], s[n..] + ([QUOTE] + rest), s[n..]);
      StandsFirst(s, n, cs[0], [QUOTE] + rest);
    }
  }

  lemma StandsFirst(s: Bytes, n: nat, c: nat, tail: Bytes)
    requires n <= |s| && Stands(s[..n], c, s[n..] + tail, s[n..])
    ensures Scan(s + tail) == Plus(Scan(s[n..] + tail), n) && Unescape(s) == Prepend(Encode(c), Unescape(s[n..]))
  {
    assert s[..n] + s[n..] == s;
    Assoc(s[..n], s[n..], tail);
  }

  // ----- what is read is spelled

  lemma CopiedSpells(src: Bytes, n: nat)
    requires src != [] && src[0] != QUOTE && src[0] != BACKSLASH && n == ScanSkip(src) > 0
    ensures Spells(src[..n], Code(src))
    ensures forall i :: 0 <= i < n ==> src[i] != BACKSLASH
  {
    ValidIsEncoding(src);
    if src[0] >= 0x80 {
      NoAsciiInside(src);
    }
  }

  lemma UnitRead(s: Bytes)
    requires |s| >= 2 && s[0] == BACKSLASH && s[1] == 117 && ParseHex(s[2..]) >= 0
    ensures |s| >= 6 && UnitIs(s[..6], ParseHex(s[2..]))
  {
    var p := s[..6];
    assert s[2..] == p[2..] + s[6..];
    HexExactly(p[2..], s[6..], ParseHex(s[2..]));
  }

  lemma EscapedSpells(s: Bytes)
    requires |s| >= 2 && s[0] == BACKSLASH && s[1] == 117 && UEscape(s[2..]).Some?
    ensures var (c, n) := UEscape(s[2..]).value; Spells(s[..2 + n], c)
  {
    var (c, n) := UEscape(s[2..]).value;
    UnitRead(s);
    if n == 10 {
      PairSpells(s);
    }
  }

  lemma PairSpells(s: Bytes)
    requires |s| >= 2 && s[0] == BACKSLASH && s[1] == 117 && UEscape(s[2..]).Some? && UEscape(s[2..]).value.1 == 10
    ensures Spells(s[..12], UEscape(s[2..]).value.0)
  {
    PairParts(s);
    UnitRead(s);
    UnitRead(s[6..]);
    var hi, lo := ParseHex(s[2..]), ParseHex(s[6..][2..]);
    assert UnitIs(s[..12][..6], hi) && UnitIs(s[..12][6..], lo);
    PairIs(s[..12], hi, lo);
  }

  lemma PairParts(s: Bytes)
    requires |s| >= 2 && UEscape(s[2..]).Some? && UEscape(s[2..]).value.1 == 10
    ensures |s| >= 12 && s[6] == BACKSLASH && s[7] == 117 && s[..12][..6] == s[..6] && s[..12][6..] == s[6..][..6]
    ensures var hi, lo := ParseHex(s[2..]), ParseHex(s[6..][2..]);
            && 0xD800 <= hi < 0xDC00 && 0xDC00 <= lo <= 0xDFFF
            && UEscape(s[2..]).value.0 == 0x10000 + hi % 0x400 * 0x400 + lo % 0x400
  {
    assert s[6..][2..] == s[2..][6..] && s[6] == s[2..][4] && s[7] == s[2..][5];
  }

  lemma PairIs(p: Bytes, hi: nat, lo: nat)
    requires |p| == 12 && UnitIs(p[..6], hi) && UnitIs(p[6..], lo) && 0xD800 <= hi < 0xDC00 && 0xDC00 <= lo <= 0xDFFF
    ensures Spells(p, 0x10000 + hi % 0x400 * 0x400 + lo % 0x400)
  {
    HalvesBack(hi, lo);
  }

  lemma HalvesBack(hi: nat, lo: nat)
    requires 0xD800 <= hi < 0xDC00 && 0xDC00 <= lo <= 0xDFFF
    ensures var d := hi % 0x400 * 0x400 + lo % 0x400; 0xD800 + d / 0x400 == hi && 0xDC00 + d % 0x400 == lo
  {}

  lemma {:induction false} ReadSpells(src: Bytes, end: nat) returns (cs: seq<nat>)
    requires Scan(src) == Some(end) && Unescape(src[..end]).Some?
    ensures Reads(src, end, cs)
    decreases |src|
  {
    if src[0] == QUOTE {
      NothingSpelled(src);
      return [];
    }
    var n, c := FirstSpelled(src, end);
    RestAccepted(src, end, n, c);
    var rest := ReadSpells(src[n..], end - n);
    cs := [c] + rest;
    JoinSpelled(src, end, n, c, rest);
  }

  /** The first end bytes spell cs and are unescaped to their text. */
  ghost predicate Reads(src: Bytes, end: nat, cs: seq<nat>) {
    end <= |src| && SpellsAll(src[..end], cs) && Unescape(src[..end]) == Some(EncodeAll(cs))
  }

  lemma NothingSpelled(src: Bytes)
    ensures Reads(src, 0, [])
  {}

  lemma RestAccepted(src: Bytes, end: nat, n: nat, c: nat)
    requires end <= |src| && Begins(src, end, n, c) && Unescape(src[..end]).Some?
    ensures 0 < n <= end <= |src| && Scan(src[n..]) == Some(end - n) && Unescape(src[n..][..end - n]).Some?
  {
    BeginsIsFirst(|src| + 3, src, end, n, c);
  }

  lemma JoinSpelled(src: Bytes, end: nat, n: nat, c: nat, rest: seq<nat>)
    requires Begins(src, end, n, c) && n <= end <= |src|
    requires Reads(src[n..], end - n, rest)
    ensures Reads(src, end, [c] + rest)
  {
    BeginsIsFirst(|src| + 3, src, end, n, c);
    assert ([c] + rest)[1..] == rest;
  }

  lemma FirstSpelled(src: Bytes, end: nat) returns (n: nat, c: nat)
    requires Scan(src) == Some(end) && Unescape(src[..end]).Some? && src[0] != QUOTE
    ensures Begins(src, end, n, c)
  {
    if src[0] != BACKSLASH {
      n, c := FirstCopied(src, end);
    } else {
      EscapedTwo(src, end);
      if src[1] == 117 {
        n, c := FirstUnit(src, end);
      } else {
        n, c := FirstShort(src, end);
      }
    }
    BeginsIsFirst(|src| + 3, src, end, n, c);
  }

  /** FirstIs, under layers that keep the verifier from unfolding it where it is only passed on. */
  ghost predicate Begins(src: Bytes, end: nat, n: nat, c: nat) { BeginsIn(|src| + 3, src, end, n, c) }

  ghost predicate BeginsIn(layers: nat, src: Bytes, end: nat, n: nat, c: nat) {
    if layers > 0 then BeginsIn(layers - 1, src, end, n, c) else FirstIs(src, end, n, c)
  }

  lemma {:induction false} BeginsIsFirst(layers: nat, src: Bytes, end: nat, n: nat, c: nat)
    ensures BeginsIn(layers, src, end, n, c) <==> FirstIs(src, end, n, c)
  {
    if layers > 0 {
      BeginsIsFirst(layers - 1, src, end, n, c);
    }
  }

  /** The first n bytes of a literal spell c, and the rest is a literal again. */
  ghost predicate FirstIs(src: Bytes, end: nat, n: nat, c: nat) {
    && 0 < n <= end <= |src| && Scan(src[n..]) == Some(end - n) && Spells(src[..end][..n], c)
    && src[n..][..end - n] == src[..end][n..]
    && Unescape(src[..end]) == Prepend(Encode(c), Unescape(src[..end][n..]))
  }

  lemma FirstCopied(src: Bytes, end: nat) returns (n: nat, c: nat)
    requires Scan(src) == Some(end) && src[0] != QUOTE && src[0] != BACKSLASH
    ensures FirstIs(src, end, n, c)
  {
    n, c := ScanSkip(src), Code(src);
    CopiedSpells(src, n);
    SliceShift(src, end, n);
    assert src[..end][..n] == src[..n];
    UnescapeCopies(src[..end], n);
    ValidIsEncoding(src);
  }

  lemma FirstUnit(src: Bytes, end: nat) returns (n: nat, c: nat)
    requires Scan(src) == Some(end) && 2 <= end <= |src| && src[0] == BACKSLASH && src[1] == 117
    requires Unescape(src[..end]).Some?
    ensures FirstIs(src, end, n, c)
  {
    var s := src[..end];
    c, n := UEscape(s[2..]).value.0, 2 + UEscape(s[2..]).value.1;
    UnitUnescapes(s);
    PrefixBehind(src, end);
    UEscapePrefix(src[2..], s[2..]);
    ScanUEscape(src);
    EscapedSpells(s);
    SliceShift(src, end, n);
  }

  lemma UnitUnescapes(s: Bytes)
    requires |s| >= 2 && s[0] == BACKSLASH && s[1] == 117 && Unescape(s).Some?
    ensures UEscape(s[2..]).Some?
    ensures var (c, n) := UEscape(s[2..]).value; Unescape(s) == Prepend(Encode(c), Unescape(s[2 + n..]))
  {}

  lemma PrefixBehind(src: Bytes, end: nat)
    requires 2 <= end <= |src|
    ensures src[..end][2..] <= src[2..] && src[..end][0] == src[0] && src[..end][1] == src[1]
  {}

  lemma FirstShort(src: Bytes, end: nat) returns (n: nat, c: nat)
    requires Scan(src) == Some(end) && 2 <= end <= |src| && src[0] == BACKSLASH && src[1] != 117
    requires Unescape(src[..end]).Some?
    ensures FirstIs(src, end, n, c)
  {
    var s := src[..end];
    c, n := SimpleEscape(s[1]).value, 2;
    ScanSimple(src);
    ShortReads(s[1], c);
    UnescapeSimple(s[1], c, s[2..]);
    assert s == [BACKSLASH, s[1]] + s[2..] && Encode(c) == [c];
    SliceShift(src, end, n);
  }

  ghost predicate SpellsText(s: Bytes, out: Bytes) { exists cs :: SpellsAll(s, cs) && out == EncodeAll(cs) }

  /** A string literal is accepted exactly if characters are spelled up to the quote that ends it,
      and its value is the text of these characters. */
  lemma LiteralExactly(src: Bytes, end: nat, out: Bytes)
    ensures Scan(src) == Some(end) && Unescape(src[..end]) == Some(out) <==>
      end < |src| && src[end] as char == '"' && SpellsText(src[..end], out)
  {
    if Scan(src) == Some(end) && Unescape(src[..end]) == Some(out) {
      var cs := ReadSpells(src, end);
    }
    if end < |src| && src[end] as char == '"' && SpellsText(src[..end], out) {
      LiteralReads(src, end, out);
    }
  }

  lemma LiteralReads(src: Bytes, end: nat, out: Bytes)
    requires end < |src| && src[end] == QUOTE && SpellsText(src[..end], out)
    ensures Scan(src) == Some(end) && Unescape(src[..end]) == Some(out)
  {
    var cs :| SpellsAll(src[..end], cs) && out == EncodeAll(cs);
    SpelledReads(src[..end], cs, src[end + 1..]);
    AroundQuote(src, end);
  }

  lemma AroundQuote(src: Bytes, end: nat)
    requires end < |src| && src[end] == QUOTE
    ensures src[..end] + ([QUOTE] + src[end + 1..]) == src
  {}

  // ----- how the renderer spells

  lemma RenderedUnit(c: nat)
    requires c < 0x10000
    ensures UnitIs(UnicodeEscape(c), c)
    ensures forall i :: 2 <= i < 6 ==> !('A' <= UnicodeEscape(c)[i] as char <= 'F')
  {
    var p := UnicodeEscape(c);
    HexRoundTrip(c, []);
    assert p[2..] + [] == p[2..];
    HexExactly(p[2..], [], c);
  }

  /** The renderer uses the short escape if there is one, but copies a slash. */
  lemma RenderedShort(c: nat, e: Byte)
    requires ShortIs(e, c)
    ensures EscapeCode(c) == if e as char == '/' then [e] else [92, e]
  {}

  /** For the other control characters, U+2028 and U+2029 it writes a `\u` escape with lower-case
      digits; everything else is copied. */
  lemma RenderedLong(c: nat)
    requires Scalar(c) && forall e: Byte :: !ShortIs(e, c)
    ensures EscapeCode(c) == if c < 0x20 || c == 0x2028 || c == 0x2029 then UnicodeEscape(c) else Encode(c)
    ensures UnitIs(EscapeCode(c), c) || EscapeCode(c) == Encode(c)
  {
    assert !ShortIs(34, c) && !ShortIs(92, c) && !ShortIs(98, c) && !ShortIs(102, c) && !ShortIs(110, c);
    assert !ShortIs(114, c) && !ShortIs(116, c);
    if c < 0x10000 {
      RenderedUnit(c);
    }
  }
}

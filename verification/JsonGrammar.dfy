/** The grammar of the texts that usual/json.c accepts in strict mode, written down without the
 functions of the parser: white space, punctuation, the three words, string literals and numbers.
 A text is parsed to a value exactly if it is written as the tokens of that value.
 */
module JsonGrammar {
  import opened Prelude
  import opened Utf8
  import opened JsonStrings
  import opened JsonSpelling
  import opened JsonTokens
  import opened JsonText

  /** Blank, tab, newline, carriage return, and also form feed and vertical tab. */
  predicate Blank(b: Byte) {
    var c := b as char;
    c == ' ' || c == '\t' || c == '\n' || c == '\r' || b == 0x0C || b == 0x0B
  }

  function Chars(s: string): Bytes
    requires forall i :: 0 <= i < |s| ==> s[i] < 256 as char
  {
    seq(|s|, i requires 0 <= i < |s| => s[i] as int)
  }

  // ----- numbers

  predicate Digit(b: Byte) { '0' <= b as char <= '9' }

  /** A point or an exponent. */
  predicate FloatMark(b: Byte) { b as char == '.' || b as char == 'e' || b as char == 'E' }

  predicate NumberPart(b: Byte) { Digit(b) || FloatMark(b) || b as char == '+' || b as char == '-' }

  ghost predicate AllParts(p: Bytes) { forall i :: 0 <= i < |p| ==> NumberPart(p[i]) }

  function Zeros(k: nat): (z: Bytes)
    ensures |z| == k
  {
    seq(k, _ => 0x30)
  }

  /** p is an optional minus sign and the decimal digits of n, with any number of leading zeros. */
  ghost predicate IntText(p: Bytes, n: int) {
    exists neg: bool, k: nat, m: nat :: Signed(p, neg, k, m) && n == if neg then 0 - m else m
  }

  ghost predicate Signed(p: Bytes, neg: bool, k: nat, m: nat) {
    p == (if neg then [0x2D] else []) + (Zeros(k) + Digits(m))
  }

  /** Up to 99 characters.  An integer of eight or more must be one that a double holds exactly;
      anything with a point or an exponent is for strtod to judge. */
  ghost predicate NumberText(p: Bytes, v: Json, floatOk: FloatOk) {
    && 0 < |p| < 100 && AllParts(p) && (Digit(p[0]) || p[0] as char == '-')
    && (|| (v.Int? && IntText(p, v.n) && (|p| < 8 || -0x1F_FFFF_FFFF_FFFF <= v.n <= 0x1F_FFFF_FFFF_FFFF))
        || (v == Float(p) && (exists i :: 0 <= i < |p| && FloatMark(p[i])) && floatOk(p)))
  }

  // ----- leading zeros

  lemma {:induction false} ZerosVanish(k: nat, ds: Bytes)
    requires AllDigits(ds)
    ensures AllDigits(Zeros(k) + ds) && Decimal(Zeros(k) + ds) == Decimal(ds)
    decreases k + |ds|
  {
    var s := Zeros(k) + ds;
    assert AllDigits(s);
    if ds != [] {
      ZerosVanish(k, ds[..|ds| - 1]);
      assert s[..|s| - 1] == Zeros(k) + ds[..|ds| - 1] && s[|s| - 1] == ds[|ds| - 1];
    } else if k > 0 {
      ZerosVanish(k - 1, []);
      assert s[..|s| - 1] == Zeros(k - 1) + [] && s[|s| - 1] == 48;
    }
  }

  /** Every digit string is zeros in front of the digits of its value. */
  lemma {:induction false} DigitsForm(ds: Bytes) returns (k: nat)
    requires AllDigits(ds) && ds != []
    ensures Decimal(ds) >= 0 && ds == Zeros(k) + Digits(Decimal(ds))
    decreases |ds|
  {
    var n := |ds| - 1;
    var d := ds[n] as int - 48;
    if n == 0 {
      assert ds[..0] == [] && Decimal(ds) == d;
      k := 0;
      assert ds == [48 + d] == Zeros(0) + Digits(d);
    } else {
      var init := ds[..n];
      k := DigitsForm(init);
      var m := Decimal(init);
      assert ds == init + [48 + d];
      if m == 0 {
        assert Digits(0) == [48];
        k := k + 1;
        assert Zeros(k) == Zeros(k - 1) + [48];
        assert Digits(d) == [48 + d];
      } else {
        assert Digits(10 * m + d) == Digits(m) + [48 + d];
        Assoc(Zeros(k), Digits(m), [48 + d]);
      }
    }
  }

  /** strtoll on what the lexer gives it. */
  lemma IntExactly(p: Bytes, n: int)
    requires p != [] && p[0] as char != '+'
    ensures StrToInt(p) == Some(n) <==> IntText(p, n)
  {
    if StrToInt(p) == Some(n) {
      var neg := p[0] == 45;
      var ds := if neg then p[1..] else p;
      var k := DigitsForm(ds);
      assert p == (if neg then [0x2D] else []) + ds;
      assert Signed(p, neg, k, Decimal(ds));
    }
    if IntText(p, n) {
      var neg: bool, k: nat, m: nat :| Signed(p, neg, k, m) && n == if neg then 0 - m else m;
      SignedReads(p, neg, k, m);
    }
  }

  lemma SignedReads(p: Bytes, neg: bool, k: nat, m: nat)
    requires Signed(p, neg, k, m)
    ensures StrToInt(p) == Some(if neg then 0 - m else m)
  {
    var ds := Zeros(k) + Digits(m);
    ZerosVanish(k, Digits(m));
    DecimalOfDigits(m);
    SignApart(p, neg, ds);
    DigitsRead(p, neg, ds);
  }

  lemma SignApart(p: Bytes, neg: bool, ds: Bytes)
    requires p == (if neg then [0x2D] else []) + ds
    ensures if neg then p != [] && p[0] == 0x2D && p[1..] == ds else p == ds
  {}

  lemma DigitsRead(p: Bytes, neg: bool, ds: Bytes)
    requires AllDigits(ds) && ds != [] && if neg then p != [] && p[0] == 0x2D && p[1..] == ds else p == ds
    ensures StrToInt(p) == Some(if neg then 0 - Decimal(ds) else Decimal(ds))
  {
    assert IsDigit(ds[0]);
  }

  // ----- tokens

  /** p is the text of the token t. */
  ghost predicate TokenText(p: Bytes, t: Token, floatOk: FloatOk) {
    match t
    case TString(s) => |p| >= 2 && p[0] as char == '"' && p[|p| - 1] as char == '"' && SpellsText(p[1..|p| - 1], s)
    case TOther(v) =>
      || (v == Null && p == Chars("null")) || (v == Bool(true) && p == Chars("true"))
      || (v == Bool(false) && p == Chars("false")) || NumberText(p, v, floatOk)
    case TComma => p == Chars(",")
    case TColon => p == Chars(":")
    case TOpenDict => p == Chars("{")
    case TOpenList => p == Chars("[")
    case TCloseDict => p == Chars("}")
    case TCloseList => p == Chars("]")
  }

  predicate IsNumber(t: Token) { t.TOther? && (t.v.Int? || t.v.Float?) }

  /** src starts with the n characters of token t; a number goes on as long as it can. */
  ghost predicate StartsWith(src: Bytes, t: Token, n: nat, floatOk: FloatOk) {
    && 0 < n <= |src| && TokenText(src[..n], t, floatOk)
    && (IsNumber(t) && n < |src| ==> !NumberPart(src[n]))
  }

  /** src is written as the tokens ts, with blanks before, between and behind them. */
  ghost predicate Written(src: Bytes, ts: seq<Token>, floatOk: FloatOk)
    decreases |src|
  {
    if src == [] then ts == []
    else if Blank(src[0]) then Written(src[1..], ts, floatOk)
    else ts != [] && exists n: nat :: StartsWith(src, ts[0], n, floatOk) && Written(src[n..], ts[1..], floatOk)
  }

  // ----- the lexer reads what is written

  lemma MarkStarts(src: Bytes, t: Token, n: nat, floatOk: FloatOk)
    requires src != [] && !t.TString? && !t.TOther?
    ensures StartsWith(src, t, n, floatOk) <==> Lex(src, floatOk) == Tok(t, n)
  {
    if n == 1 {
      assert src[..1] == [src[0]];
    }
  }

  predicate NumberFirst(b: Byte) { Digit(b) || b as char == '-' }

  lemma InsideQuotes(src: Bytes, n: nat)
    requires 2 <= n <= |src|
    ensures src[..n][1..n - 1] == src[1..][..n - 2] && src[..n][n - 1] == src[1..][n - 2] && src[..n][0] == src[0]
  {}

  lemma StringStarts(src: Bytes, s: Bytes, n: nat, floatOk: FloatOk)
    requires src != [] && src[0] == QUOTE
    ensures StartsWith(src, TString(s), n, floatOk) <==> Lex(src, floatOk) == Tok(TString(s), n)
  {
    if 2 <= n <= |src| {
      InsideQuotes(src, n);
      LiteralExactly(src[1..], n - 2, s);
    }
  }

  lemma WordStarts(src: Bytes, v: Json, n: nat, floatOk: FloatOk)
    requires src != [] && (v.Null? || v.Bool?)
    ensures StartsWith(src, TOther(v), n, floatOk) <==> Lex(src, floatOk) == Tok(TOther(v), n)
  {
    var w := if v.Null? then NULL_TEXT else if v.b then TRUE_TEXT else FALSE_TEXT;
    WordTexts();
    if n <= |src| {
      WordIs(src, w, n);
    }
    if StartsWith(src, TOther(v), n, floatOk) {
      assert src[..n][0] == src[0];
    }
  }

  lemma WordTexts()
    ensures Chars("null") == NULL_TEXT && Chars("true") == TRUE_TEXT && Chars("false") == FALSE_TEXT
  {}

  lemma WordIs(src: Bytes, w: Bytes, n: nat)
    requires n <= |src|
    ensures src[..n] == w <==> n == |w| && w <= src
  {}

  lemma {:induction false} LongestNumber(src: Bytes)
    ensures var n := NumberLen(src);
            AllParts(src[..n]) && (n < |src| ==> !NumberPart(src[n])) && (n == 0 <==> src == [] || !NumberPart(src[0]))
  {
    if src != [] && IsNumberChar(src[0]) {
      LongestNumber(src[1..]);
      var n := NumberLen(src);
      forall i | 0 <= i < n ensures NumberPart(src[..n][i]) {
        if i > 0 {
          assert src[..n][i] == src[1..][..n - 1][i - 1];
        }
      }
    }
  }

  lemma OnlyLongest(src: Bytes, n: nat)
    requires n <= |src| && AllParts(src[..n]) && (n < |src| ==> !NumberPart(src[n]))
    ensures n == NumberLen(src)
  {
    LongestNumber(src);
    var len := NumberLen(src);
    assert forall i :: 0 <= i < len ==> src[..len][i] == src[i];
    assert forall i :: 0 <= i < n ==> src[..n][i] == src[i];
  }

  lemma IntHasNoMark(p: Bytes, n: int, i: nat)
    requires IntText(p, n) && i < |p|
    ensures !FloatMark(p[i])
  {
    var neg: bool, k: nat, m: nat :| Signed(p, neg, k, m) && n == if neg then 0 - m else m;
    ZerosVanish(k, Digits(m));
    var ds := Zeros(k) + Digits(m);
    SignApart(p, neg, ds);
    SignedHasNoMark(p, neg, ds, i);
  }

  lemma SignedHasNoMark(p: Bytes, neg: bool, ds: Bytes, i: nat)
    requires AllDigits(ds) && i < |p| && if neg then p[0] == 0x2D && p[1..] == ds else p == ds
    ensures !FloatMark(p[i])
  {
    if neg && i > 0 {
      assert p[i] == p[1..][i - 1];
      assert IsDigit(ds[i - 1]);
    } else if !neg {
      assert IsDigit(ds[i]);
    }
  }

  /** parse_number takes exactly the number texts. */
  lemma NumberExactly(p: Bytes, v: Json, floatOk: FloatOk)
    requires p != [] && NumberFirst(p[0]) && AllParts(p)
    ensures NumberText(p, v, floatOk) <==> ParseNumber(p, floatOk) == Some(v)
  {
    if i :| 0 <= i < |p| && IsFloatChar(p[i]) {
      if v.Int? && IntText(p, v.n) {
        IntHasNoMark(p, v.n, i);
      }
    } else if v.Int? {
      IntExactly(p, v.n);
    }
  }

  lemma NumberStarts(src: Bytes, v: Json, n: nat, floatOk: FloatOk)
    requires src != [] && (v.Int? || v.Float?) && NumberFirst(src[0])
    ensures StartsWith(src, TOther(v), n, floatOk) <==> Lex(src, floatOk) == Tok(TOther(v), n)
  {
    var len := NumberLen(src);
    LongestNumber(src);
    NumberExactly(src[..len], v, floatOk);
    if StartsWith(src, TOther(v), n, floatOk) {
      OnlyLongest(src, n);
    }
  }

  lemma OtherStarts(src: Bytes, v: Json, n: nat, floatOk: FloatOk)
    requires src != [] && !v.Null? && !v.Bool? && (!NumberFirst(src[0]) || !(v.Int? || v.Float?))
    ensures !StartsWith(src, TOther(v), n, floatOk) && Lex(src, floatOk) != Tok(TOther(v), n)
  {
    assert 0 < n <= |src| ==> src[..n][0] == src[0];
  }

  lemma StringNeedsQuote(src: Bytes, s: Bytes, n: nat, floatOk: FloatOk)
    requires src != [] && src[0] != QUOTE
    ensures !StartsWith(src, TString(s), n, floatOk) && Lex(src, floatOk) != Tok(TString(s), n)
  {
    assert 0 < n <= |src| ==> src[..n][0] == src[0];
  }

  /** The lexer finds a token exactly if the text starts with it. */
  lemma LexExactly(src: Bytes, t: Token, n: nat, floatOk: FloatOk)
    requires src != []
    ensures StartsWith(src, t, n, floatOk) <==> Lex(src, floatOk) == Tok(t, n)
  {
    match t
    case TString(s) =>
      if src[0] == QUOTE { StringStarts(src, s, n, floatOk); } else { StringNeedsQuote(src, s, n, floatOk); }
    case TOther(v) =>
      if v.Null? || v.Bool? {
        WordStarts(src, v, n, floatOk);
      } else if NumberFirst(src[0]) && (v.Int? || v.Float?) {
        NumberStarts(src, v, n, floatOk);
      } else {
        OtherStarts(src, v, n, floatOk);
      }
    case _ => MarkStarts(src, t, n, floatOk);
  }

  lemma BlankSkipped(src: Bytes, floatOk: FloatOk)
    requires src != []
    ensures Blank(src[0]) <==> Lex(src, floatOk) == Skip
  {}

  /** The lexer splits a text into tokens exactly if it is written as these tokens. */
  lemma {:induction false} TokensExactly(src: Bytes, ts: seq<Token>, floatOk: FloatOk)
    ensures Tokens(src, floatOk) == Some(ts) <==> Written(src, ts, floatOk)
    decreases |src|
  {
    if src != [] {
      BlankSkipped(src, floatOk);
      if Blank(src[0]) {
        TokensExactly(src[1..], ts, floatOk);
      } else {
        if Written(src, ts, floatOk) {
          var n: nat :| StartsWith(src, ts[0], n, floatOk) && Written(src[n..], ts[1..], floatOk);
          LexExactly(src, ts[0], n, floatOk);
          TokensExactly(src[n..], ts[1..], floatOk);
          assert [ts[0]] + ts[1..] == ts;
        }
        if Tokens(src, floatOk) == Some(ts) {
          var Tok(t, n) := Lex(src, floatOk);
          var rest := Tokens(src[n..], floatOk).value;
          assert ts == [t] + rest && ts[1..] == rest;
          LexExactly(src, t, n, floatOk);
          TokensExactly(src[n..], rest, floatOk);
        }
      }
    }
  }

  /** json_parse accepts a text with value v exactly if the text is written as the tokens of v, and
      the objects of v have distinct keys of allowed length. */
  lemma GrammarExactly(src: Bytes, v: Json, floatOk: FloatOk)
    ensures Parse(src, floatOk) == Some(v) <==> Written(src, TokensOf(v), floatOk) && ValidJson(v)
  {
    ParseExactly(src, v, floatOk);
    TokensExactly(src, TokensOf(v), floatOk);
  }
}

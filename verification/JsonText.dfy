/** JSON text of usual/json.c: reading tokens from bytes, and rendering a value.

 The main result: rendering any value without floating-point numbers (valid strings and keys,
 integers in the exactly representable range, distinct keys) and parsing the text gives the
 same value back.
 */
module JsonText {
  import opened Prelude
  import opened Utf8
  import opened JsonStrings
  import opened JsonTokens

  const NUMBER_BUF: nat := 100
  const JSON_MAXINT: int := 0x1F_FFFF_FFFF_FFFF
  const JSON_MININT: int := -0x1F_FFFF_FFFF_FFFF

  const NULL_TEXT: Bytes := [110, 117, 108, 108]
  const TRUE_TEXT: Bytes := [116, 114, 117, 101]
  const FALSE_TEXT: Bytes := [102, 97, 108, 115, 101]

  /** What libc's strtod accepts. */
  type FloatOk = Bytes -> bool

  // ----- numbers

  predicate IsDigit(b: Byte) { 48 <= b <= 57 }

  predicate IsFloatChar(b: Byte) { b == 46 || b == 101 || b == 69 }

  predicate IsNumberChar(b: Byte) { IsDigit(b) || b == 43 || b == 45 || IsFloatChar(b) }

  /** Length of the number at the start of src. */
  function NumberLen(src: Bytes): (n: nat)
    ensures n <= |src|
  {
    if src == [] || !IsNumberChar(src[0]) then 0 else 1 + NumberLen(src[1..])
  }

  predicate AllDigits(s: Bytes) { forall i :: 0 <= i < |s| ==> IsDigit(s[i]) }

  function Decimal(s: Bytes): int
    requires AllDigits(s)
  {
    if s == [] then 0 else Decimal(s[..|s| - 1]) * 10 + (s[|s| - 1] as int - 48)
  }

  /** strtoll on a whole string: None unless all of it was converted. */
  function StrToInt(s: Bytes): Option<int> {
    var neg := s != [] && s[0] == 45;
    var ds := if s != [] && (s[0] == 45 || s[0] == 43) then s[1..] else s;
    if ds == [] || !AllDigits(ds) then None else Some(if neg then -Decimal(ds) else Decimal(ds))
  }

  /** parse_number: short integers are taken as they are, long ones must be exactly representable. */
  function ParseNumber(text: Bytes, floatOk: FloatOk): Option<Json> {
    if |text| >= NUMBER_BUF then None
    else if exists i :: 0 <= i < |text| && IsFloatChar(text[i]) then
      if floatOk(text) then Some(Float(text)) else None
    else
      match StrToInt(text)
      case None => None
      case Some(v) => if |text| < 8 || JSON_MININT <= v <= JSON_MAXINT then Some(Int(v)) else None
  }

  function Digits(n: nat): (s: Bytes)
    ensures s != [] && AllDigits(s)
  {
    if n < 10 then [48 + n] else Digits(n / 10) + [48 + n % 10]
  }

  /** render_int. */
  function RenderInt(n: int): Bytes { if n < 0 then [45] + Digits(-n) else Digits(n) }

  lemma {:induction false} DecimalOfDigits(n: nat)
    ensures Decimal(Digits(n)) == n
  {
    if n >= 10 {
      DecimalOfDigits(n / 10);
      var s := Digits(n);
      assert s[..|s| - 1] == Digits(n / 10);
    } else {
      assert Decimal([]) == 0 && Digits(n)[..0] == [];
    }
  }

  function Pow10(k: nat): nat { if k == 0 then 1 else 10 * Pow10(k - 1) }

  lemma {:induction false} DigitsShort(n: nat, k: nat)
    requires k > 0 && n < Pow10(k)
    ensures |Digits(n)| <= k
  {
    if n >= 10 {
      assert k > 1 by {
        assert Pow10(0) == 1 && Pow10(1) == 10;
      }
      DigitsShort(n / 10, k - 1);
    }
  }

  lemma MaxIntShort(n: nat)
    requires n <= JSON_MAXINT
    ensures |Digits(n)| <= 16
  {
    assert Pow10(4) == 10000;
    assert Pow10(8) == 100000000;
    assert Pow10(12) == 1000000000000;
    assert Pow10(16) == 10000000000000000;
    DigitsShort(n, 16);
  }

  /** An integer in range is read back, when something else than a number follows. */
  lemma {:induction false} IntRoundTrip(n: int, floatOk: FloatOk)
    requires JSON_MININT <= n <= JSON_MAXINT
    ensures ParseNumber(RenderInt(n), floatOk) == Some(Int(n))
  {
    var m: nat := if n < 0 then -n else n;
    MaxIntShort(m);
    DecimalOfDigits(m);
    var s := RenderInt(n);
    if n < 0 {
      assert s[1..] == Digits(m);
    } else {
      assert s[0] == Digits(m)[0];
    }
    assert forall i :: 0 <= i < |s| ==> !IsFloatChar(s[i]) by {
      forall i | 0 <= i < |s| ensures !IsFloatChar(s[i]) {
        if n < 0 && i > 0 {
          assert s[i] == Digits(m)[i - 1];
        }
      }
    }
  }

  lemma {:induction false} NumberEnds(s: Bytes, rest: Bytes)
    requires (forall i :: 0 <= i < |s| ==> IsNumberChar(s[i])) && (rest == [] || !IsNumberChar(rest[0]))
    ensures NumberLen(s + rest) == |s|
    decreases |s|
  {
    if s == [] {
      assert s + rest == rest;
    } else {
      NumberEnds(s[1..], rest);
      assert (s + rest)[1..] == s[1..] + rest;
    }
  }

  // ----- tokens

  predicate IsSpace(b: Byte) { b == 10 || b == 32 || b == 9 || b == 13 || b == 12 || b == 11 }

  datatype Lexeme = Skip | Tok(t: Token, n: nat) | Bad

  /** parse_string behind the opening quote. */
  function LexString(src: Bytes): (r: Lexeme)
    ensures r.Tok? ==> 2 <= r.n <= |src| + 1 && r.t.TString?
    ensures !r.Skip?
  {
    match Scan(src)
    case None => Bad
    case Some(e) =>
      match Unescape(src[..e])
      case None => Bad
      case Some(out) => Tok(TString(out), e + 2)
  }

  /** parse_char4. */
  function LexWord(src: Bytes, word: Bytes, v: Json): (r: Lexeme)
    ensures r.Tok? ==> r.n == |word| <= |src|
    ensures !r.Skip?
  {
    if word <= src then Tok(TOther(v), |word|) else Bad
  }

  function LexNumber(src: Bytes, floatOk: FloatOk): (r: Lexeme)
    requires NumberLen(src) > 0
    ensures r.Tok? ==> 0 < r.n <= |src|
    ensures !r.Skip?
  {
    match ParseNumber(src[..NumberLen(src)], floatOk)
    case None => Bad
    case Some(v) => Tok(TOther(v), NumberLen(src))
  }

  /** The switch of parse_tokens in strict mode: what stands at the start of src. */
  function Lex(src: Bytes, floatOk: FloatOk): (r: Lexeme)
    requires src != []
    ensures r.Tok? ==> 0 < r.n <= |src|
  {
    var c := src[0];
    if IsSpace(c) then Skip
    else if c == QUOTE then LexString(src[1..])
    else if c == 110 then LexWord(src, NULL_TEXT, Null)
    else if c == 116 then LexWord(src, TRUE_TEXT, Bool(true))
    else if c == 102 then LexWord(src, FALSE_TEXT, Bool(false))
    else if c == 45 || IsDigit(c) then LexNumber(src, floatOk)
    else if c == 91 then Tok(TOpenList, 1)
    else if c == 123 then Tok(TOpenDict, 1)
    else if c == 93 then Tok(TCloseList, 1)
    else if c == 125 then Tok(TCloseDict, 1)
    else if c == 58 then Tok(TColon, 1)
    else if c == 44 then Tok(TComma, 1)
    else Bad
  }

  function Cat(ts: seq<Token>, o: Option<seq<Token>>): Option<seq<Token>> {
    if o.None? then None else Some(ts + o.value)
  }

  /** All tokens of a text, or None. */
  function Tokens(src: Bytes, floatOk: FloatOk): Option<seq<Token>>
    decreases |src|
  {
    if src == [] then Some([])
    else
      match Lex(src, floatOk)
      case Skip => Tokens(src[1..], floatOk)
      case Tok(t, n) => Cat([t], Tokens(src[n..], floatOk))
      case Bad => None
  }

  /** json_parse in strict mode: tokens are read and fed to the machine one after the other. */
  function RunText(st: Ctx, src: Bytes, floatOk: FloatOk): Option<Ctx>
    decreases |src|
  {
    if src == [] then Some(st)
    else
      match Lex(src, floatOk)
      case Skip => RunText(st, src[1..], floatOk)
      case Tok(t, n) => (match Step(st, t)
        case None => None
        case Some(s) => RunText(s, src[n..], floatOk))
      case Bad => None
  }

  function Parse(src: Bytes, floatOk: FloatOk): Option<Json> {
    var r := RunText(START, src, floatOk);
    if r.Some? && r.value.state == Done then r.value.top else None
  }

  // ----- rendering

  function Render(v: Json): Bytes
    decreases v, 0
  {
    match v
    case Null => NULL_TEXT
    case Bool(b) => if b then TRUE_TEXT else FALSE_TEXT
    case Int(n) => RenderInt(n)
    case Float(text) => text
    case Str(s) => RenderStr(s)
    case List(items) => [91] + RenderItems(items) + [93]
    case Dict(members, _) => [123] + RenderMembers(members) + [125]
  }

  function RenderStr(s: Bytes): Bytes { [QUOTE] + Escape(s) + [QUOTE] }

  /** Elements with a comma before each but the first. */
  function RenderItems(items: seq<Json>): Bytes
    decreases items, 1
  {
    if items == [] then [] else ItemsPrefix(items[..|items| - 1]) + Render(items[|items| - 1])
  }

  function ItemsPrefix(items: seq<Json>): Bytes
    decreases items, 0
  {
    if items == [] then [] else ItemsPrefix(items[..|items| - 1]) + Render(items[|items| - 1]) + [44]
  }

  function RenderMember(m: Member): Bytes
    decreases m, 0
  {
    RenderStr(m.key) + [58] + Render(m.value)
  }

  function RenderMembers(members: seq<Member>): Bytes
    decreases members, 1
  {
    if members == [] then [] else MembersPrefix(members[..|members| - 1]) + RenderMember(members[|members| - 1])
  }

  function MembersPrefix(members: seq<Member>): Bytes
    decreases members, 0
  {
    if members == [] then [] else MembersPrefix(members[..|members| - 1]) + RenderMember(members[|members| - 1]) + [44]
  }

  /** Values for which the round trip is promised. */
  ghost predicate Renderable(v: Json)
    decreases v, 0
  {
    match v
    case Null => true
    case Bool(_) => true
    case Int(n) => JSON_MININT <= n <= JSON_MAXINT
    case Float(_) => false
    case Str(s) => Text(s)
    case List(items) => RenderableItems(items)
    case Dict(members, _) => RenderableMembers(members)
  }

  ghost predicate RenderableItems(items: seq<Json>)
    decreases items, 0
  {
    forall i :: 0 <= i < |items| ==> Renderable(items[i])
  }

  ghost predicate RenderableMembers(members: seq<Member>)
    decreases members, 0
  {
    forall i :: 0 <= i < |members| ==> Text(members[i].key) && Renderable(members[i].value)
  }

  // ----- reading what was rendered

  /** Something that ends a number. */
  predicate Delimited(rest: Bytes) { rest == [] || rest[0] == 44 || rest[0] == 93 || rest[0] == 125 }

  /** If the text starts with a piece that lexes as t, the rest follows. */
  lemma {:induction false} TokensAfter(piece: Bytes, rest: Bytes, t: Token, floatOk: FloatOk)
    requires piece != [] && Lex(piece + rest, floatOk) == Tok(t, |piece|)
    ensures Tokens(piece + rest, floatOk) == Cat([t], Tokens(rest, floatOk))
  {}

  lemma {:induction false} LexMark(b: Byte, rest: Bytes, t: Token, floatOk: FloatOk)
    requires (b, t) == (91, TOpenList) || (b, t) == (93, TCloseList) || (b, t) == (123, TOpenDict)
          || (b, t) == (125, TCloseDict) || (b, t) == (58, TColon) || (b, t) == (44, TComma)
    ensures Tokens([b] + rest, floatOk) == Cat([t], Tokens(rest, floatOk))
  {}

  lemma {:induction false} LexRenderedWord(v: Json, rest: Bytes, floatOk: FloatOk)
    requires v.Null? || v.Bool?
    ensures Tokens(Render(v) + rest, floatOk) == Cat([TOther(v)], Tokens(rest, floatOk))
  {}

  lemma {:induction false} LexRenderedInt(n: int, rest: Bytes, floatOk: FloatOk)
    requires JSON_MININT <= n <= JSON_MAXINT && Delimited(rest)
    ensures Tokens(RenderInt(n) + rest, floatOk) == Cat([TOther(Int(n))], Tokens(rest, floatOk))
  {
    var s := RenderInt(n);
    var m: nat := if n < 0 then -n else n;
    assert forall i :: 0 <= i < |s| ==> IsNumberChar(s[i]) by {
      forall i | 0 <= i < |s| ensures IsNumberChar(s[i]) {
        assert IsDigit(Digits(m)[if n < 0 && i > 0 then i - 1 else 0]);
        if n < 0 && i > 0 {
          assert s[i] == Digits(m)[i - 1];
        } else if n >= 0 {
          assert IsDigit(Digits(m)[i]);
        }
      }
    }
    NumberEnds(s, rest);
    IntRoundTrip(n, floatOk);
    assert (s + rest)[..|s|] == s && (s + rest)[0] == s[0];
    assert s[0] == 45 || IsDigit(s[0]);
    assert Lex(s + rest, floatOk) == LexNumber(s + rest, floatOk);
    TokensAfter(s, rest, TOther(Int(n)), floatOk);
  }

  lemma {:induction false} LexRenderedStr(s: Bytes, rest: Bytes, floatOk: FloatOk)
    requires Text(s)
    ensures Tokens(RenderStr(s) + rest, floatOk) == Cat([TString(s)], Tokens(rest, floatOk))
  {
    var src := RenderStr(s) + rest;
    var body := Escape(s) + ([QUOTE] + rest);
    assert src == [QUOTE] + body && src[1..] == body;
    StringRoundTrip(s, rest);
    assert body[..|Escape(s)|] == Escape(s);
    assert LexString(body) == Tok(TString(s), |Escape(s)| + 2);
    TokensAfter(RenderStr(s), rest, TString(s), floatOk);
  }

  lemma CatTwice(a: seq<Token>, b: seq<Token>, o: Option<seq<Token>>)
    ensures Cat(a, Cat(b, o)) == Cat(a + b, o)
  {
    if o.Some? {
      assert a + (b + o.value) == (a + b) + o.value;
    }
  }

  lemma CatNothing(o: Option<seq<Token>>)
    ensures Cat([], o) == o
  {
    if o.Some? {
      assert [] + o.value == o.value;
    }
  }

  lemma Regroup(a: Bytes, b: Bytes, c: Bytes, d: Bytes)
    ensures (a + b + c) + d == a + (b + (c + d)) && (a + b) + d == a + (b + d)
  {}

  lemma {:induction false} LexItemsPrefix(items: seq<Json>, rest: Bytes, floatOk: FloatOk)
    requires RenderableItems(items)
    ensures Tokens(ItemsPrefix(items) + rest, floatOk) == Cat(ListPrefix(items), Tokens(rest, floatOk))
    decreases items, 0
  {
    var o := Tokens(rest, floatOk);
    if items == [] {
      assert ItemsPrefix(items) + rest == rest;
      CatNothing(o);
    } else {
      var n := |items| - 1;
      var init, last := items[..n], items[n];
      var tail := Render(last) + ([44] + rest);
      Regroup(ItemsPrefix(init), Render(last), [44], rest);
      LexItemsPrefix(init, tail, floatOk);
      LexRendered(last, [44] + rest, floatOk);
      LexMark(44, rest, TComma, floatOk);
      CatTwice(TokensOf(last), [TComma], o);
      CatTwice(ListPrefix(init), TokensOf(last) + [TComma], o);
      Associates(ListPrefix(init), TokensOf(last), [TComma]);
    }
  }

  lemma {:induction false} LexItems(items: seq<Json>, rest: Bytes, floatOk: FloatOk)
    requires RenderableItems(items) && Delimited(rest)
    ensures Tokens(RenderItems(items) + rest, floatOk) == Cat(ListTokens(items), Tokens(rest, floatOk))
    decreases items, 1
  {
    var o := Tokens(rest, floatOk);
    if items == [] {
      assert RenderItems(items) + rest == rest;
      CatNothing(o);
    } else {
      var n := |items| - 1;
      var init, last := items[..n], items[n];
      Regroup(ItemsPrefix(init), Render(last), [], rest);
      LexItemsPrefix(init, Render(last) + rest, floatOk);
      LexRendered(last, rest, floatOk);
      CatTwice(ListPrefix(init), TokensOf(last), o);
    }
  }

  lemma {:induction false} LexMember(m: Member, rest: Bytes, floatOk: FloatOk)
    requires Text(m.key) && Renderable(m.value) && Delimited(rest)
    ensures Tokens(RenderMember(m) + rest, floatOk) == Cat(MemberTokens(m), Tokens(rest, floatOk))
    decreases m, 1
  {
    var o := Tokens(rest, floatOk);
    var tail := Render(m.value) + rest;
    Regroup(RenderStr(m.key), [58], Render(m.value), rest);
    LexRenderedStr(m.key, [58] + tail, floatOk);
    LexMark(58, tail, TColon, floatOk);
    LexRendered(m.value, rest, floatOk);
    CatTwice([TColon], TokensOf(m.value), o);
    CatTwice([TString(m.key)], [TColon] + TokensOf(m.value), o);
    Associates([TString(m.key)], [TColon], TokensOf(m.value));
    assert [TString(m.key)] + [TColon] == [TString(m.key), TColon];
  }

  lemma {:induction false} LexMembersPrefix(members: seq<Member>, rest: Bytes, floatOk: FloatOk)
    requires RenderableMembers(members)
    ensures Tokens(MembersPrefix(members) + rest, floatOk) == Cat(DictPrefix(members), Tokens(rest, floatOk))
    decreases members, 0
  {
    var o := Tokens(rest, floatOk);
    if members == [] {
      assert MembersPrefix(members) + rest == rest;
      CatNothing(o);
    } else {
      var n := |members| - 1;
      var init, last := members[..n], members[n];
      var tail := RenderMember(last) + ([44] + rest);
      Regroup(MembersPrefix(init), RenderMember(last), [44], rest);
      LexMembersPrefix(init, tail, floatOk);
      LexMember(last, [44] + rest, floatOk);
      LexMark(44, rest, TComma, floatOk);
      CatTwice(MemberTokens(last), [TComma], o);
      CatTwice(DictPrefix(init), MemberTokens(last) + [TComma], o);
      Associates(DictPrefix(init), MemberTokens(last), [TComma]);
    }
  }

  lemma {:induction false} LexMembers(members: seq<Member>, rest: Bytes, floatOk: FloatOk)
    requires RenderableMembers(members) && Delimited(rest)
    ensures Tokens(RenderMembers(members) + rest, floatOk) == Cat(DictTokens(members), Tokens(rest, floatOk))
    decreases members, 1
  {
    var o := Tokens(rest, floatOk);
    if members == [] {
      assert RenderMembers(members) + rest == rest;
      CatNothing(o);
    } else {
      var n := |members| - 1;
      var init, last := members[..n], members[n];
      Regroup(MembersPrefix(init), RenderMember(last), [], rest);
      LexMembersPrefix(init, RenderMember(last) + rest, floatOk);
      LexMember(last, rest, floatOk);
      CatTwice(DictPrefix(init), MemberTokens(last), o);
    }
  }

  /** The text of a value reads as the tokens of that value. */
  lemma {:induction false} LexRendered(v: Json, rest: Bytes, floatOk: FloatOk)
    requires Renderable(v) && Delimited(rest)
    ensures Tokens(Render(v) + rest, floatOk) == Cat(TokensOf(v), Tokens(rest, floatOk))
    decreases v, 0
  {
    match v
    case Null => LexRenderedWord(v, rest, floatOk);
    case Bool(_) => LexRenderedWord(v, rest, floatOk);
    case Int(n) => LexRenderedInt(n, rest, floatOk);
    case Str(s) => LexRenderedStr(s, rest, floatOk);
    case List(items) =>
      Regroup([91], RenderItems(items), [93], rest);
      LexMark(91, RenderItems(items) + ([93] + rest), TOpenList, floatOk);
      LexItems(items, [93] + rest, floatOk);
      LexMark(93, rest, TCloseList, floatOk);
      CatThree([TOpenList], ListTokens(items), [TCloseList], Tokens(rest, floatOk));
    case Dict(members, _) =>
      Regroup([123], RenderMembers(members), [125], rest);
      LexMark(123, RenderMembers(members) + ([125] + rest), TOpenDict, floatOk);
      LexMembers(members, [125] + rest, floatOk);
      LexMark(125, rest, TCloseDict, floatOk);
      CatThree([TOpenDict], DictTokens(members), [TCloseDict], Tokens(rest, floatOk));
  }

  lemma CatThree(a: seq<Token>, b: seq<Token>, c: seq<Token>, o: Option<seq<Token>>)
    ensures Cat(a, Cat(b, Cat(c, o))) == Cat(a + b + c, o)
  {
    CatTwice(b, c, o);
    CatTwice(a, b + c, o);
    Associates(a, b, c);
  }

  // ----- feeding the machine token by token

  lemma {:induction false} RunTextIsRun(st: Ctx, src: Bytes, floatOk: FloatOk)
    ensures Tokens(src, floatOk).Some? ==> RunText(st, src, floatOk) == Run(st, Tokens(src, floatOk).value)
    ensures Tokens(src, floatOk).None? ==> RunText(st, src, floatOk).None?
    decreases |src|
  {
    if src != [] {
      match Lex(src, floatOk)
      case Skip => RunTextIsRun(st, src[1..], floatOk);
      case Bad =>
      case Tok(t, n) =>
        var o := Tokens(src[n..], floatOk);
        if o.Some? {
          assert ([t] + o.value)[1..] == o.value;
        }
        if Step(st, t).Some? {
          RunTextIsRun(Step(st, t).value, src[n..], floatOk);
        }
    }
  }

  /** Main result: parsing undoes rendering. */
  lemma {:induction false} RenderParseRoundTrip(v: Json, floatOk: FloatOk)
    requires Renderable(v) && ValidJson(v)
    ensures Parse(Render(v), floatOk) == Some(v)
  {
    LexRendered(v, [], floatOk);
    assert Render(v) + [] == Render(v) && TokensOf(v) + [] == TokensOf(v);
    RunTextIsRun(START, Render(v), floatOk);
    RunValue(START, v, []);
  }

  /** Two renderable values never have the same text. */
  lemma {:induction false} RenderInjective(v: Json, w: Json)
    requires Renderable(v) && ValidJson(v) && Renderable(w) && ValidJson(w) && Render(v) == Render(w)
    ensures v == w
  {
    RenderParseRoundTrip(v, _ => false);
    RenderParseRoundTrip(w, _ => false);
  }

  // ----- what an accepted text can contain

  predicate Exact(v: Json) { v.Int? ==> JSON_MININT <= v.n <= JSON_MAXINT }

  /** T_OTHER tokens carry scalars, with integers in the exact range; strings are valid text. */
  ghost predicate GoodToken(t: Token) { (t.TOther? ==> Other(t.v) && Exact(t.v)) && (t.TString? ==> Text(t.s)) }

  lemma {:induction false} DecimalBound(s: Bytes)
    requires AllDigits(s)
    ensures 0 <= Decimal(s) < Pow10(|s|)
    decreases |s|
  {
    if s != [] {
      DecimalBound(s[..|s| - 1]);
    }
  }

  lemma {:induction false} Pow10Grows(j: nat, k: nat)
    requires j <= k
    ensures Pow10(j) <= Pow10(k)
    decreases k
  {
    if j < k {
      Pow10Grows(j, k - 1);
    }
  }

  /** Short integers are in the exact range too, so the range test may be left out for them. */
  lemma NumberExact(text: Bytes, floatOk: FloatOk)
    requires ParseNumber(text, floatOk).Some?
    ensures Exact(ParseNumber(text, floatOk).value)
  {
    var ds := if text != [] && (text[0] == 45 || text[0] == 43) then text[1..] else text;
    if |text| < 8 && AllDigits(ds) {
      DecimalBound(ds);
      Pow10Grows(|ds|, 8);
      assert Pow10(4) == 10000;
      assert Pow10(8) == 100000000;
    }
  }

  ghost predicate GoodTokens(ts: seq<Token>) { forall i :: 0 <= i < |ts| ==> GoodToken(ts[i]) }

  lemma GoodCat(a: seq<Token>, b: seq<Token>)
    ensures GoodTokens(a + b) <==> GoodTokens(a) && GoodTokens(b)
  {
    if GoodTokens(a + b) {
      forall i | 0 <= i < |a| ensures GoodToken(a[i]) {
        assert (a + b)[i] == a[i];
      }
      forall i | 0 <= i < |b| ensures GoodToken(b[i]) {
        assert (a + b)[|a| + i] == b[i];
      }
    }
  }

  lemma {:induction false} LexGood(src: Bytes, floatOk: FloatOk)
    requires src != [] && Lex(src, floatOk).Tok?
    ensures GoodToken(Lex(src, floatOk).t)
  {
    if src[0] == QUOTE {
      AcceptedIsText(src[1..], Scan(src[1..]).value);
    } else if src[0] == 45 || IsDigit(src[0]) {
      NumberExact(src[..NumberLen(src)], floatOk);
    }
  }

  lemma {:induction false} TokensGood(src: Bytes, floatOk: FloatOk)
    requires Tokens(src, floatOk).Some?
    ensures GoodTokens(Tokens(src, floatOk).value)
    decreases |src|
  {
    if src != [] {
      match Lex(src, floatOk)
      case Skip => TokensGood(src[1..], floatOk);
      case Tok(t, n) =>
        TokensGood(src[n..], floatOk);
        LexGood(src, floatOk);
        GoodCat([t], Tokens(src[n..], floatOk).value);
    }
  }

  /** All strings and keys in the tree are valid text, all integers in the exact range. */
  ghost predicate TextTree(v: Json)
    decreases v, 0
  {
    match v
    case Int(_) => Exact(v)
    case Str(s) => Text(s)
    case List(items) => forall i :: 0 <= i < |items| ==> TextTree(items[i])
    case Dict(members, _) => forall i :: 0 <= i < |members| ==> Text(members[i].key) && TextTree(members[i].value)
    case _ => true
  }

  lemma {:induction false} GoodTokensTree(v: Json)
    requires GoodTokens(TokensOf(v))
    ensures TextTree(v)
    decreases v, 0
  {
    match v
    case Int(_) =>
      assert TokensOf(v)[0] == TOther(v);
    case Str(s) =>
      assert TokensOf(v)[0] == TString(s);
    case List(items) =>
      GoodCat([TOpenList] + ListTokens(items), [TCloseList]);
      GoodCat([TOpenList], ListTokens(items));
      GoodItems(items, false);
    case Dict(members, _) =>
      GoodCat([TOpenDict] + DictTokens(members), [TCloseDict]);
      GoodCat([TOpenDict], DictTokens(members));
      GoodMembers(members, false);
    case _ =>
  }

  lemma {:induction false} GoodItems(items: seq<Json>, more: bool)
    requires GoodTokens(if more then ListPrefix(items) else ListTokens(items))
    ensures forall i :: 0 <= i < |items| ==> TextTree(items[i])
    decreases items, 0
  {
    if items != [] {
      var n := |items| - 1;
      var init, last := items[..n], items[n];
      if more {
        GoodCat(ListPrefix(init) + TokensOf(last), [TComma]);
      }
      GoodCat(ListPrefix(init), TokensOf(last));
      GoodItems(init, true);
      GoodTokensTree(last);
      assert forall i :: 0 <= i < n ==> items[i] == init[i];
    }
  }

  lemma {:induction false} GoodMembers(members: seq<Member>, more: bool)
    requires GoodTokens(if more then DictPrefix(members) else DictTokens(members))
    ensures forall i :: 0 <= i < |members| ==> Text(members[i].key) && TextTree(members[i].value)
    decreases members, 0
  {
    if members != [] {
      var n := |members| - 1;
      var init, last := members[..n], members[n];
      if more {
        GoodCat(DictPrefix(init) + MemberTokens(last), [TComma]);
      }
      GoodCat(DictPrefix(init), MemberTokens(last));
      GoodCat([TString(last.key), TColon], TokensOf(last.value));
      assert [TString(last.key), TColon][0] == TString(last.key);
      GoodMembers(init, true);
      GoodTokensTree(last.value);
      assert forall i :: 0 <= i < n ==> members[i] == init[i];
    }
  }

  /** A text is accepted with value v exactly if it reads as the tokens of v and the objects of v
      have distinct keys of allowed length; all strings of v are then valid NUL-free text. */
  lemma {:induction false} ParseExactly(src: Bytes, v: Json, floatOk: FloatOk)
    ensures Parse(src, floatOk) == Some(v) <==> Tokens(src, floatOk) == Some(TokensOf(v)) && ValidJson(v)
    ensures Parse(src, floatOk) == Some(v) ==> TextTree(v)
  {
    RunTextIsRun(START, src, floatOk);
    if Tokens(src, floatOk).Some? {
      var ts := Tokens(src, floatOk).value;
      TokensGood(src, floatOk);
      assert ScalarTokens(ts) by {
        forall i | 0 <= i < |ts| && ts[i].TOther? ensures Other(ts[i].v) {
          assert GoodToken(ts[i]);
        }
      }
      AcceptsExactly(ts, v);
      if ts == TokensOf(v) {
        GoodTokensTree(v);
      }
    }
  }

  ghost predicate FloatFree(v: Json)
    decreases v, 0
  {
    match v
    case Float(_) => false
    case List(items) => forall i :: 0 <= i < |items| ==> FloatFree(items[i])
    case Dict(members, _) => forall i :: 0 <= i < |members| ==> FloatFree(members[i].value)
    case _ => true
  }

  lemma {:induction false} TreeRenderable(v: Json)
    requires TextTree(v) && FloatFree(v)
    ensures Renderable(v)
  {
    match v
    case List(items) =>
      forall i | 0 <= i < |items| ensures Renderable(items[i]) {
        TreeRenderable(items[i]);
      }
    case Dict(members, _) =>
      forall i | 0 <= i < |members| ensures Text(members[i].key) && Renderable(members[i].value) {
        TreeRenderable(members[i].value);
      }
    case _ =>
  }

  /** The round trip is promised for whatever the parser accepts, but for floating-point numbers. */
  lemma AcceptedRenderable(src: Bytes, v: Json, floatOk: FloatOk)
    requires Parse(src, floatOk) == Some(v) && FloatFree(v)
    ensures Renderable(v) && ValidJson(v) && Parse(Render(v), floatOk) == Some(v)
  {
    ParseExactly(src, v, floatOk);
    TreeRenderable(v);
    RenderParseRoundTrip(v, floatOk);
  }
}

/** Which texts inet_pton6 of usual/socket_pton.c reads as IPv6 addresses (section 2.2 of RFC 4291).

 A text is cut at its colons into fields.  A field is a group of up to four hexadecimal digits in
 either case, the mark that an empty field leaves where `::` stands, or, at the end, a dotted quad.
 */
module InetMeaning {
  import opened Prelude
  import opened InetText

  // ----- fields

  /** The text between the colons. */
  function Fields(s: string): (r: seq<string>)
    ensures r != []
  {
    if s == "" then [""]
    else
      var r := Fields(s[1..]);
      if s[0] == ':' then [""] + r else [[s[0]] + r[0]] + r[1..]
  }

  /** c is the hexadecimal digit d. */
  predicate DigitIs(c: char, d: nat) { d < 16 && (c == "0123456789abcdef"[d] || c == "0123456789ABCDEF"[d]) }

  predicate IsHex(c: char) { '0' <= c <= '9' || 'a' <= c <= 'f' || 'A' <= c <= 'F' }

  /** f is the number n in hexadecimal digits, leading zeros included. */
  predicate HexIs(f: string, n: nat) {
    if f == "" then n == 0 else DigitIs(f[|f| - 1], n % 16) && HexIs(f[..|f| - 1], n / 16)
  }

  predicate AllHex(f: string) { forall i :: 0 <= i < |f| ==> IsHex(f[i]) }

  /** One to four digits. */
  predicate IsGroup(f: string) { 1 <= |f| <= 4 && AllHex(f) }

  /** Digits at the start of the field; there may be at most four of them. */
  function HexPrefix(f: string): nat { if f == "" || !IsHex(f[0]) then 0 else 1 + HexPrefix(f[1..]) }

  /** Four decimal numbers; the first one is also counted as a group. */
  predicate IsQuad(f: string) { Parse4(f).Some? && HexPrefix(f) <= 4 }

  lemma HexDigit(c: char, d: nat)
    ensures DigitIs(c, d) <==> XDigit(c) == Some(d)
    ensures IsHex(c) <==> XDigit(c).Some?
  {}

  /** The value of a group. */
  lemma {:induction false} GroupValue(f: string, n: nat)
    requires AllHex(f)
    ensures (forall c :: c in f ==> XDigit(c).Some?) && (HexIs(f, n) <==> Value(f, 0) == n)
    decreases |f|
  {
    forall c | c in f ensures XDigit(c).Some? { HexDigit(c, 0); }
    if f != "" {
      var init, c := f[..|f| - 1], f[|f| - 1];
      assert f == init + [c];
      GroupValue(init, n / 16);
      ValueSnoc(init, c, 0);
      HexDigit(c, n % 16);
    }
  }

  // ----- addresses from fields

  /** The bytes that were read, spread around the `::` if there was one. */
  function Spread(out: seq<Byte>, colon: Option<nat>): Option<seq<Byte>> {
    match colon
    case None => if |out| == 16 then Some(out) else None
    case Some(c) => if |out| >= 16 || c > |out| then None else Some(out[..c] + Zeros(16 - |out|) + out[c..])
  }

  function GroupBytes(f: string): seq<Byte>
    requires forall c :: c in f ==> XDigit(c).Some?
  {
    PairOf(Value(f, 0))
  }

  /** The address that the fields give, behind the bytes out. */
  function FromFields(fs: seq<string>, out: seq<Byte>, colon: Option<nat>): Option<seq<Byte>>
    requires fs != []
    decreases |fs|
  {
    var f := fs[0];
    if |fs| == 1 then
      if f == "" then Spread(out, colon)
      else if IsGroup(f) then GroupLast(f, out, colon)
      else if IsQuad(f) && |out| + 4 <= 16 then Spread(out + Parse4(f).value, colon)
      else None
    else if f == "" then if colon.Some? then None else FromFields(fs[1..], out, Some(|out|))
    else if !IsGroup(f) || fs[1..] == [""] || |out| + 2 > 16 then None
    else
      GroupDigits(f);
      FromFields(fs[1..], out + GroupBytes(f), colon)
  }

  lemma GroupDigits(f: string)
    requires AllHex(f)
    ensures forall c :: c in f ==> XDigit(c).Some?
  {
    forall c | c in f ensures XDigit(c).Some? { HexDigit(c, 0); }
  }

  function GroupLast(f: string, out: seq<Byte>, colon: Option<nat>): Option<seq<Byte>>
    requires IsGroup(f)
  {
    GroupDigits(f);
    if |out| + 2 > 16 then None else Spread(out + GroupBytes(f), colon)
  }

  // ----- what dotted quads are made of

  lemma {:induction false} QuadChars(s: string, tmp: seq<Byte>, cur: Byte, saw: bool)
    requires |tmp| <= 3 && Read4(s, tmp, cur, saw).Some?
    ensures forall i :: 0 <= i < |s| ==> s[i] == '.' || '0' <= s[i] <= '9'
    decreases |s|
  {
    if s != "" {
      var n := cur * 10 + (s[0] as int - '0' as int);
      if '0' <= s[0] <= '9' {
        QuadChars(s[1..], tmp, n, true);
      } else {
        QuadChars(s[1..], tmp + [cur], 0, false);
      }
      forall i | 0 <= i < |s| ensures s[i] == '.' || '0' <= s[i] <= '9' {
        assert i > 0 ==> s[i] == s[1..][i - 1];
      }
    }
  }

  lemma NotQuad(f: string, i: nat)
    requires i < |f| && f[i] != '.' && !('0' <= f[i] <= '9')
    ensures Parse4(f).None?
  {
    if Parse4(f).Some? {
      QuadChars(f, [], 0, false);
    }
  }

  lemma {:induction false} LongPrefix(pre: string, rest: string)
    requires AllHex(pre)
    ensures HexPrefix(pre + rest) == |pre| + HexPrefix(rest)
    decreases |pre|
  {
    if pre == "" {
      assert pre + rest == rest;
    } else {
      LongPrefix(pre[1..], rest);
      assert (pre + rest)[1..] == pre[1..] + rest;
    }
  }

  // ----- the reader goes field by field

  /** pre is what was read of the current field, s is still to come. */
  ghost predicate Midway(st: Reading, pre: string, s: string) {
    && AllHex(pre) && |pre| <= 4 && st.count == |pre| && st.tok == pre + s
    && (forall c :: c in pre ==> XDigit(c).Some?) && st.val == Value(pre, 0)
  }

  ghost function Current(pre: string, s: string): seq<string> { [pre + Fields(s)[0]] + Fields(s)[1..] }

  lemma AtStart(s: string)
    ensures Current("", s) == Fields(s)
  {
    assert "" + Fields(s)[0] == Fields(s)[0];
  }

  lemma GroupFits(pre: string)
    requires AllHex(pre) && |pre| <= 4 && forall c :: c in pre ==> XDigit(c).Some?
    ensures Value(pre, 0) < 65536
  {
    ReadDigits(pre, "", Reading([], None, 0, 0, ""));
    PowFour(|pre|);
  }

  lemma FinishIs(st: Reading, pre: string)
    requires Midway(st, pre, "")
    ensures Finish(st) == FromFields([pre], st.out, st.colon)
  {}

  lemma DigitRead(st: Reading, pre: string, c: char, rest: string) returns (more: string)
    requires Midway(st, pre, [c] + rest) && IsHex(c) && |pre| < 4
    ensures more == pre + [c] && XDigit(c).Some? && st.val * 16 + XDigit(c).value <= 0xFFFF
    ensures Midway(st.(val := st.val * 16 + XDigit(c).value, count := st.count + 1), more, rest)
    ensures Current(pre, [c] + rest) == Current(more, rest)
  {
    more := pre + [c];
    HexDigit(c, 0);
    ValueSnoc(pre, c, 0);
    GroupFits(more);
    assert pre + ([c] + rest) == more + rest;
    assert ([c] + rest)[1..] == rest;
    assert pre + ([c] + Fields(rest)[0]) == more + Fields(rest)[0];
  }

  lemma TooLong(st: Reading, pre: string, c: char, rest: string)
    requires Midway(st, pre, [c] + rest) && IsHex(c) && |pre| == 4
    ensures FromFields(Current(pre, [c] + rest), st.out, st.colon) == None
  {
    var f := Current(pre, [c] + rest)[0];
    assert ([c] + rest)[1..] == rest;
    assert f == pre + ([c] + Fields(rest)[0]);
    LongPrefix(pre, [c] + Fields(rest)[0]);
    assert HexPrefix([c] + Fields(rest)[0]) >= 1;
  }

  lemma OtherChar(st: Reading, pre: string, c: char, rest: string)
    requires Midway(st, pre, [c] + rest) && !IsHex(c) && c != ':' && c != '.'
    ensures FromFields(Current(pre, [c] + rest), st.out, st.colon) == None
  {
    var f := Current(pre, [c] + rest)[0];
    assert ([c] + rest)[1..] == rest;
    assert f[|pre|] == c;
    NotQuad(f, |pre|);
  }

  lemma {:induction false} OneField(s: string)
    ensures |Fields(s)| == 1 <==> ':' !in s
    ensures |Fields(s)| == 1 ==> Fields(s)[0] == s
  {
    if s != "" {
      OneField(s[1..]);
      assert s == [s[0]] + s[1..];
    }
  }

  lemma DotRead(st: Reading, pre: string, rest: string)
    requires Midway(st, pre, "." + rest)
    ensures FromFields(Current(pre, "." + rest), st.out, st.colon)
         == if |st.out| + 4 <= 16 && Parse4(st.tok).Some?
            then Finish(st.(out := st.out + Parse4(st.tok).value[..4], count := 0)) else None
  {
    var s := "." + rest;
    var fs := Current(pre, s);
    assert s[1..] == rest && fs[0][|pre|] == '.';
    OneField(s);
    if ':' in s {
      var i :| 0 <= i < |s| && s[i] == ':';
      assert st.tok[|pre| + i] == ':';
      NotQuad(st.tok, |pre| + i);
    } else {
      assert fs == [pre + s];
      LongPrefix(pre, s);
      if Parse4(st.tok).Some? {
        assert Parse4(st.tok).value[..4] == Parse4(st.tok).value;
      }
    }
  }

  lemma {:induction false} ReadFields(s: string, st: Reading, pre: string)
    requires Midway(st, pre, s)
    ensures Read6(s, st) == FromFields(Current(pre, s), st.out, st.colon)
    decreases |s|
  {
    if s == "" {
      FinishIs(st, pre);
      assert pre + "" == pre && Current(pre, s) == [pre] + [];
    } else {
      var c, rest := s[0], s[1..];
      assert s == [c] + rest;
      HexDigit(c, 0);
      if IsHex(c) && |pre| < 4 {
        var more := DigitRead(st, pre, c, rest);
        ReadFields(rest, st.(val := st.val * 16 + XDigit(c).value, count := st.count + 1), more);
      } else if IsHex(c) {
        TooLong(st, pre, c, rest);
      } else if c == ':' {
        ColonRead(s, st, pre);
      } else if c == '.' {
        DotRead(st, pre, rest);
      } else {
        OtherChar(st, pre, c, rest);
      }
    }
  }

  lemma {:induction false} ColonRead(s: string, st: Reading, pre: string)
    requires Midway(st, pre, s) && s != "" && s[0] == ':'
    ensures Read6(s, st) == FromFields(Current(pre, s), st.out, st.colon)
    decreases |s|, 0
  {
    var rest := s[1..];
    var fs := Current(pre, s);
    assert fs[0] == pre && fs[1..] == Fields(rest);
    AtStart(rest);
    assert Fields(rest) == [""] <==> rest == "";
    if pre == "" && st.colon.None? {
      ReadFields(rest, st.(colon := Some(|st.out|), tok := rest), "");
    } else if pre != "" && rest != "" && |st.out| + 2 <= 16 {
      ReadFields(rest, Reading(st.out + PairOf(st.val), st.colon, 0, 0, rest), "");
    }
  }

  /** inet_pton6 gives what the fields of its text give, one colon dropped from a leading `::`. */
  lemma Parse6Exactly(s: string)
    ensures Parse6(s) ==
      if s != "" && s[0] == ':' && !(|s| > 1 && s[1] == ':') then None
      else FromFields(if s != "" && s[0] == ':' then Fields(s[1..]) else Fields(s), [], None)
  {
    var t := if s != "" && s[0] == ':' then s[1..] else s;
    assert "" + t == t;
    ReadFields(t, Reading([], None, 0, 0, t), "");
    AtStart(t);
  }
}

/** Text forms of IPv4 and IPv6 addresses, as usual/socket_ntop.c writes and usual/socket_pton.c
 reads them (section 2.2 of RFC 4291).

 Numbers are written by repeated division; the readers are machines over the characters.
 */
module InetText {
  import opened Prelude

  type Word = n: int | 0 <= n < 65536

  // ----- digits

  function Digit(d: nat): char
    requires d < 16
  {
    "0123456789abcdef"[d]
  }

  /** Position in the digit strings that strchr searches, lower case first. */
  function XDigit(c: char): (r: Option<nat>)
    ensures r.Some? ==> r.value < 16
  {
    if '0' <= c <= '9' then Some(c as nat - '0' as nat)
    else if 'a' <= c <= 'f' then Some(c as nat - 'a' as nat + 10)
    else if 'A' <= c <= 'F' then Some(c as nat - 'A' as nat + 10)
    else None
  }

  lemma DigitValue(d: nat)
    requires d < 16
    ensures XDigit(Digit(d)) == Some(d)
    ensures d < 10 ==> '0' <= Digit(d) <= '9' && Digit(d) as nat - '0' as nat == d
  {}

  /** n in base b, without leading zeros. */
  function Text(n: nat, b: nat): (s: string)
    requires (b == 10 || b == 16)
    ensures s != ""
    decreases n
  {
    if n < b then [Digit(n)] else Text(n / b, b) + [Digit(n % b)]
  }

  function Pow(b: nat, k: nat): nat { if k == 0 then 1 else b * Pow(b, k - 1) }

  lemma {:induction false} TextLength(n: nat, b: nat, k: nat)
    requires (b == 10 || b == 16) && k > 0 && n < Pow(b, k)
    ensures |Text(n, b)| <= k
    decreases k
  {
    assert Pow(b, 1) == b * Pow(b, 0) == b;
    if n >= b {
      Quotient(n, b, Pow(b, k - 1));
      TextLength(n / b, b, k - 1);
    }
  }

  lemma Quotient(n: nat, b: nat, m: nat)
    requires b > 0 && n < b * m
    ensures n / b < m
  {}

  // ----- IPv4

  function Dotted(b: seq<Byte>): string
    requires |b| == 4
  {
    Text(b[0], 10) + ("." + (Text(b[1], 10) + ("." + (Text(b[2], 10) + ("." + Text(b[3], 10))))))
  }

  /** inet_pton4: done octets, the current one, and whether it has a digit. */
  function Read4(s: string, tmp: seq<Byte>, cur: Byte, saw: bool): (r: Option<seq<Byte>>)
    requires |tmp| <= 3
    ensures r.Some? ==> |r.value| == 4
    decreases |s|
  {
    if s == "" then
      if |tmp| + (if saw then 1 else 0) < 4 then None else Some(tmp + [cur])
    else
      var ch, rest := s[0], s[1..];
      if '0' <= ch <= '9' then
        var n := cur * 10 + (ch as nat - '0' as nat);
        if n > 255 then None
        else if !saw && |tmp| + 1 > 4 then None
        else Read4(rest, tmp, n, true)
      else if ch == '.' && saw then
        if |tmp| + 1 == 4 then None else Read4(rest, tmp + [cur], 0, false)
      else None
  }

  function Parse4(s: string): Option<seq<Byte>> { Read4(s, [], 0, false) }

  lemma Read4Digit(d: nat, rest: string, tmp: seq<Byte>, cur: Byte, saw: bool)
    requires d < 10 && cur * 10 + d <= 255 && |tmp| <= 3
    ensures Read4([Digit(d)] + rest, tmp, cur, saw) == Read4(rest, tmp, cur * 10 + d, true)
  {}

  lemma {:induction false} Read4Number(n: Byte, rest: string, tmp: seq<Byte>)
    requires |tmp| <= 3
    ensures Read4(Text(n, 10) + rest, tmp, 0, false) == Read4(rest, tmp, n, true)
    decreases n
  {
    var d := n % 10;
    if n < 10 {
      Read4Digit(n, rest, tmp, 0, false);
    } else {
      Read4Number(n / 10, [Digit(d)] + rest, tmp);
      Assoc(Text(n / 10, 10), [Digit(d)], rest);
      Read4Digit(d, rest, tmp, n / 10, true);
    }
  }

  lemma Read4Dot(rest: string, tmp: seq<Byte>, cur: Byte)
    requires |tmp| < 3
    ensures Read4("." + rest, tmp, cur, true) == Read4(rest, tmp + [cur], 0, false)
  {}

  /** Every IPv4 address is read back from its text. */
  lemma RoundTrip4(b: seq<Byte>)
    requires |b| == 4
    ensures Parse4(Dotted(b)) == Some(b)
  {
    var t3 := Text(b[3], 10);
    var t2 := Text(b[2], 10) + ("." + t3);
    var t1 := Text(b[1], 10) + ("." + t2);
    Read4Part(b[0], t1, [], b[..1]);
    Read4Part(b[1], t2, b[..1], b[..2]);
    Read4Part(b[2], t3, b[..2], b[..3]);
    Read4Number(b[3], "", b[..3]);
    assert t3 + "" == t3;
    assert b[..3] + [b[3]] == b;
  }

  lemma Read4Part(n: Byte, rest: string, tmp: seq<Byte>, tmp': seq<Byte>)
    requires |tmp| < 3 && tmp' == tmp + [n]
    ensures Read4(Text(n, 10) + ("." + rest), tmp, 0, false) == Read4(rest, tmp', 0, false)
  {
    Read4Number(n, "." + rest, tmp);
    Read4Dot(rest, tmp, n);
  }

  // ----- the texts that inet_pton4 accepts

  predicate AllDecimal(f: string) { forall i :: 0 <= i < |f| ==> '0' <= f[i] <= '9' }

  /** The decimal number f, behind digits of value val. */
  function Decimal(f: string, val: nat): (r: nat)
    requires AllDecimal(f)
    ensures r >= val
  {
    if f == "" then val else Decimal(f[1..], val * 10 + (f[0] as nat - '0' as nat))
  }

  /** The text between the dots. */
  function Parts(s: string): (r: seq<string>)
    ensures r != []
  {
    if s == "" then [""]
    else
      var r := Parts(s[1..]);
      if s[0] == '.' then [""] + r else [[s[0]] + r[0]] + r[1..]
  }

  /** A number from 0 to 255 in decimal; leading zeros are allowed. */
  predicate Octet(f: string) { f != "" && AllDecimal(f) && Decimal(f, 0) <= 255 }

  function OctetValue(f: string): Byte { if Octet(f) then Decimal(f, 0) else 0 }

  /** f completes an octet of which some digits were read. */
  predicate Completes(f: string, cur: nat, saw: bool) { (saw || f != "") && AllDecimal(f) && Decimal(f, cur) <= 255 }

  ghost function Values(fs: seq<string>): (r: seq<Byte>)
    ensures |r| == |fs|
  {
    seq(|fs|, i requires 0 <= i < |fs| => OctetValue(fs[i]))
  }

  ghost predicate Octets(fs: seq<string>) { forall i :: 0 <= i < |fs| ==> Octet(fs[i]) }

  /** What the parts ps of the rest of the text give, behind octets tmp and the one being read. */
  ghost function Result(ps: seq<string>, tmp: seq<Byte>, cur: Byte, saw: bool): Option<seq<Byte>>
    requires ps != []
  {
    if |tmp| + |ps| == 4 && Completes(ps[0], cur, saw) && Octets(ps[1..])
    then Some(tmp + [Decimal(ps[0], cur)] + Values(ps[1..])) else None
  }

  lemma {:induction false} Read4Exactly(s: string, tmp: seq<Byte>, cur: Byte, saw: bool)
    requires |tmp| <= 3 && (!saw ==> cur == 0)
    ensures Read4(s, tmp, cur, saw) == Result(Parts(s), tmp, cur, saw)
    decreases |s|
  {
    if s == "" {
      assert tmp + [cur] + Values([]) == tmp + [cur];
    } else {
      var ch, rest, ps := s[0], s[1..], Parts(s[1..]);
      if '0' <= ch <= '9' {
        var n := cur * 10 + (ch as nat - '0' as nat);
        DigitResult(ch, ps, tmp, cur, saw);
        if n <= 255 {
          Read4Exactly(rest, tmp, n, true);
        }
      } else if ch == '.' {
        DotResult(ps, tmp, cur, saw);
        if saw && |tmp| < 3 {
          Read4Exactly(rest, tmp + [cur], 0, false);
        }
      } else {
        assert Parts(s)[0][0] == ch;
      }
    }
  }

  lemma DigitResult(ch: char, ps: seq<string>, tmp: seq<Byte>, cur: Byte, saw: bool)
    requires '0' <= ch <= '9' && ps != []
    ensures var n := cur * 10 + (ch as nat - '0' as nat);
            Result([[ch] + ps[0]] + ps[1..], tmp, cur, saw) == if n <= 255 then Result(ps, tmp, n, true) else None
  {
    DigitCompletes(ch, ps[0], cur, saw);
    assert ([[ch] + ps[0]] + ps[1..])[1..] == ps[1..];
  }

  lemma DotResult(ps: seq<string>, tmp: seq<Byte>, cur: Byte, saw: bool)
    requires ps != [] && |tmp| <= 3
    ensures Result([""] + ps, tmp, cur, saw) == if saw && |tmp| < 3 then Result(ps, tmp + [cur], 0, false) else None
  {
    assert ([""] + ps)[1..] == ps;
    DotCompletes(ps);
    if Octets(ps) {
      Assoc(tmp + [cur], [Decimal(ps[0], 0)], Values(ps[1..]));
    }
  }

  lemma DigitCompletes(ch: char, f: string, cur: Byte, saw: bool)
    requires '0' <= ch <= '9'
    ensures var n := cur * 10 + (ch as nat - '0' as nat);
            (Completes([ch] + f, cur, saw) <==> n <= 255 && Completes(f, n, true))
            && (Completes(f, n, true) ==> Decimal([ch] + f, cur) == Decimal(f, n))
  {
    assert ([ch] + f)[1..] == f;
    if AllDecimal([ch] + f) {
      assert forall i :: 0 <= i < |f| ==> f[i] == ([ch] + f)[i + 1];
    }
  }

  lemma DotCompletes(ps: seq<string>)
    requires ps != []
    ensures Octets(ps) <==> Completes(ps[0], 0, false) && Octets(ps[1..])
    ensures Octets(ps) ==> Values(ps) == [Decimal(ps[0], 0)] + Values(ps[1..])
  {
    if Completes(ps[0], 0, false) && Octets(ps[1..]) {
      forall i | 0 <= i < |ps| ensures Octet(ps[i]) {
        assert i > 0 ==> ps[i] == ps[1..][i - 1];
      }
    }
  }

  /** inet_pton4 accepts exactly four numbers up to 255 with dots between them, and gives those numbers. */
  lemma Parse4Exactly(s: string)
    ensures Parse4(s) == if |Parts(s)| == 4 && Octets(Parts(s)) then Some(Values(Parts(s))) else None
  {
    Read4Exactly(s, [], 0, false);
    DotCompletes(Parts(s));
    if Octets(Parts(s)) {
      assert [] + [Decimal(Parts(s)[0], 0)] + Values(Parts(s)[1..]) == Values(Parts(s));
    }
  }

  // ----- IPv6 reader

  /** The loop state of inet_pton6: bytes stored, where :: stood, the group being read and its
   number of digits, and the text after the last colon. */
  datatype Reading = Reading(out: seq<Byte>, colon: Option<nat>, val: nat, count: nat, tok: string)

  function Pair(w: Word): (b: seq<Byte>)
    ensures |b| == 2
  {
    [w / 256, w % 256]
  }

  function PairOf(val: nat): seq<Byte> { [val / 256 % 256, val % 256] }

  function Zeros(n: nat): (z: seq<Byte>)
    ensures |z| == n
  {
    seq(n, i => 0)
  }

  /** What follows the loop of inet_pton6; the bytes after :: move to the end. */
  function Finish(st: Reading): Option<seq<Byte>> {
    if st.count > 0 && |st.out| + 2 > 16 then None
    else
      var out := if st.count > 0 then st.out + PairOf(st.val) else st.out;
      match st.colon
      case None => if |out| == 16 then Some(out) else None
      case Some(c) => if |out| >= 16 || c > |out| then None else Some(out[..c] + Zeros(16 - |out|) + out[c..])
  }

  function Read6(s: string, st: Reading): Option<seq<Byte>>
    decreases |s|
  {
    if s == "" then Finish(st)
    else
      var ch, rest := s[0], s[1..];
      var d := XDigit(ch);
      if d.Some? then
        var val := st.val * 16 + d.value;
        if st.count >= 4 || val > 0xFFFF then None else Read6(rest, st.(val := val, count := st.count + 1))
      else if ch == ':' then
        if st.count == 0 then
          if st.colon.Some? then None else Read6(rest, st.(colon := Some(|st.out|), tok := rest))
        else if rest == "" then None
        else if |st.out| + 2 > 16 then None
        else Read6(rest, Reading(st.out + PairOf(st.val), st.colon, 0, 0, rest))
      else if ch == '.' && |st.out| + 4 <= 16 && Parse4(st.tok).Some? then
        Finish(st.(out := st.out + Parse4(st.tok).value[..4], count := 0))
      else None
  }

  /** inet_pton6. */
  function Parse6(s: string): Option<seq<Byte>> {
    if s != "" && s[0] == ':' && (s == ":" || s[1] != ':') then None
    else
      var t := if s != "" && s[0] == ':' then s[1..] else s;
      Read6(t, Reading([], None, 0, 0, t))
  }

  // ----- IPv6 writer

  function Hex(w: Word): string { Text(w, 16) }

  function Tail(ws: seq<Word>): string { if ws == [] then "" else ":" + (Hex(ws[0]) + Tail(ws[1..])) }

  function Join(ws: seq<Word>): string { if ws == [] then "" else Hex(ws[0]) + Tail(ws[1..]) }

  /** The text from the second colon of :: on. */
  function AfterRun(post: seq<Word>): (s: string)
    ensures s != "" && s[0] == ':'
  {
    if post == [] then ":" else Tail(post)
  }

  /** A run of zero words to be written as ::, if any. */
  datatype Run = NoRun | Run(base: nat, len: nat)

  /** Whether the last four bytes are written as an IPv4 address. */
  predicate Embeds4(ws: seq<Word>, r: Run)
    requires |ws| == 8
  {
    r.Run? && r.base == 0 && (r.len == 6 || (r.len == 5 && ws[5] == 0xFFFF))
  }

  function BytesOf(ws: seq<Word>): (b: seq<Byte>)
    ensures |b| == 2 * |ws|
  {
    if ws == [] then [] else Pair(ws[0]) + BytesOf(ws[1..])
  }

  /** inet_ntop6, for the run it found. */
  function Render6(ws: seq<Word>, r: Run): string
    requires |ws| == 8 && (r.Run? ==> r.base + r.len <= 8)
  {
    if r.NoRun? then Join(ws)
    else if Embeds4(ws, r) then ":" + (Tail(ws[r.len..6]) + (":" + Dotted(BytesOf(ws[6..]))))
    else
      var post := ws[r.base + r.len..];
      Join(ws[..r.base]) + (":" + AfterRun(post))
  }

  // ----- reading back

  /** Reading digits of a group. */
  function Value(ds: string, val: nat): nat
    requires forall c :: c in ds ==> XDigit(c).Some?
  {
    if ds == "" then val else Value(ds[1..], val * 16 + XDigit(ds[0]).value)
  }

  lemma {:induction false} ReadDigits(ds: string, rest: string, st: Reading)
    requires forall c :: c in ds ==> XDigit(c).Some?
    requires st.count + |ds| <= 4 && st.val < Pow(16, st.count)
    ensures Value(ds, st.val) < Pow(16, st.count + |ds|)
    ensures Read6(ds + rest, st) == Read6(rest, st.(val := Value(ds, st.val), count := st.count + |ds|))
    decreases |ds|
  {
    if ds == "" {
      assert ds + rest == rest;
    } else {
      var d, val := XDigit(ds[0]).value, st.val * 16 + XDigit(ds[0]).value;
      assert (ds + rest)[0] == ds[0] && (ds + rest)[1..] == ds[1..] + rest;
      assert val < Pow(16, st.count + 1);
      PowFour(st.count + 1);
      ReadDigits(ds[1..], rest, st.(val := val, count := st.count + 1));
    }
  }

  lemma PowFour(k: nat)
    requires k <= 4
    ensures Pow(16, k) <= 65536
  {
    assert Pow(16, 1) == 16 && Pow(16, 2) == 256 && Pow(16, 3) == 4096 && Pow(16, 4) == 65536;
  }

  lemma {:induction false} ValueSnoc(ds: string, c: char, val: nat)
    requires (forall x :: x in ds ==> XDigit(x).Some?) && XDigit(c).Some?
    ensures Value(ds + [c], val) == Value(ds, val) * 16 + XDigit(c).value
    decreases |ds|
  {
    if ds == "" {
      assert ds + [c] == [c];
    } else {
      assert (ds + [c])[1..] == ds[1..] + [c];
      ValueSnoc(ds[1..], c, val * 16 + XDigit(ds[0]).value);
    }
  }

  lemma {:induction false} TextDigits(n: nat, b: nat)
    requires (b == 10 || b == 16)
    ensures forall c :: c in Text(n, b) ==> XDigit(c).Some?
    decreases n
  {
    DigitValue(n % b);
    if n >= b { TextDigits(n / b, b); }
  }

  lemma {:induction false} HexValue(n: nat)
    ensures (forall c :: c in Text(n, 16) ==> XDigit(c).Some?) && Value(Text(n, 16), 0) == n
    decreases n
  {
    TextDigits(n, 16);
    DigitValue(n % 16);
    if n >= 16 {
      HexValue(n / 16);
      ValueSnoc(Text(n / 16, 16), Digit(n % 16), 0);
    }
  }
}
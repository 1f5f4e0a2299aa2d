/** inet_pton reads back what inet_ntop writes, for every IPv6 address and every choice of a run
 of zero words to be shortened.
 */
module InetRoundTrip {
  import opened Prelude
  import opened InetText

  lemma ReadHex(w: Word, rest: string, st: Reading)
    requires st.val == 0 && st.count == 0
    ensures 0 < |Hex(w)| <= 4
    ensures Read6(Hex(w) + rest, st) == Read6(rest, st.(val := w, count := |Hex(w)|))
  {
    HexValue(w);
    assert Pow(16, 1) == 16 && Pow(16, 2) == 256 && Pow(16, 3) == 4096 && Pow(16, 4) == 65536;
    TextLength(w, 16, 4);
    ReadDigits(Hex(w), rest, st);
  }

  /** A colon after a group stores the group. */
  lemma ReadColon(rest: string, st: Reading)
    requires st.count > 0 && rest != "" && |st.out| + 2 <= 16
    ensures Read6(":" + rest, st) == Read6(rest, Reading(st.out + PairOf(st.val), st.colon, 0, 0, rest))
  {}

  /** A colon that follows no group marks the place of the zeros. */
  lemma ReadDouble(rest: string, st: Reading)
    requires st.count == 0 && st.colon.None?
    ensures Read6(":" + rest, st) == Read6(rest, st.(colon := Some(|st.out|), tok := rest))
  {}

  ghost function AfterTail(st: Reading, ws: seq<Word>, rest: string): Reading
    decreases ws
  {
    if ws == [] then st
    else
      AfterTail(
        Reading(st.out + PairOf(st.val), st.colon, ws[0], |Hex(ws[0])|, Hex(ws[0]) + (Tail(ws[1..]) + rest)), ws[1..],
          rest)
  }

  lemma {:induction false} ReadTail(ws: seq<Word>, rest: string, st: Reading)
    requires st.count > 0 && |st.out| + 2 * |ws| <= 16
    ensures Read6(Tail(ws) + rest, st) == Read6(rest, AfterTail(st, ws, rest))
    decreases ws
  {
    if ws == [] {
      assert Tail(ws) + rest == rest;
    } else {
      var more := Tail(ws[1..]) + rest;
      var next := Hex(ws[0]) + more;
      assert Tail(ws) + rest == ":" + next;
      ReadColon(next, st);
      ReadHex(ws[0], more, Reading(st.out + PairOf(st.val), st.colon, 0, 0, next));
      ReadTail(ws[1..], rest, Reading(st.out + PairOf(st.val), st.colon, ws[0], |Hex(ws[0])|, next));
    }
  }

  lemma PairIs(w: Word)
    ensures PairOf(w) == Pair(w)
  {}

  /** What a tail of groups leaves behind. */
  lemma {:induction false} TailResult(ws: seq<Word>, rest: string, st: Reading)
    requires st.count > 0
    ensures var t := AfterTail(st, ws, rest);
            t.count > 0 && t.colon == st.colon && |t.out| == |st.out| + 2 * |ws|
            && t.out + PairOf(t.val) == st.out + PairOf(st.val) + BytesOf(ws)
    decreases ws
  {
    if ws == [] {
      assert st.out + PairOf(st.val) + [] == st.out + PairOf(st.val);
    } else {
      var next := Hex(ws[0]) + (Tail(ws[1..]) + rest);
      PairIs(ws[0]);
      TailResult(ws[1..], rest, Reading(st.out + PairOf(st.val), st.colon, ws[0], |Hex(ws[0])|, next));
      Assoc(st.out + PairOf(st.val), Pair(ws[0]), BytesOf(ws[1..]));
    }
  }

  /** Groups joined by colons, after no pending group. */
  lemma ReadJoin(ws: seq<Word>, rest: string, st: Reading) returns (t: Reading)
    requires ws != [] && st.val == 0 && st.count == 0 && |st.out| + 2 * |ws| <= 16
    ensures Read6(Join(ws) + rest, st) == Read6(rest, t)
    ensures t.count > 0 && t.colon == st.colon && |t.out| == |st.out| + 2 * |ws| - 2
      && t.out + PairOf(t.val) == st.out + BytesOf(ws)
  {
    var more := Tail(ws[1..]) + rest;
    Assoc(Hex(ws[0]), Tail(ws[1..]), rest);
    ReadHex(ws[0], more, st);
    var u := st.(val := ws[0], count := |Hex(ws[0])|);
    ReadTail(ws[1..], rest, u);
    TailResult(ws[1..], rest, u);
    t := AfterTail(u, ws[1..], rest);
    PairIs(ws[0]);
    Assoc(st.out, Pair(ws[0]), BytesOf(ws[1..]));
  }

  /** The bytes after :: move to the end. */
  lemma FinishExpand(st: Reading, pre: seq<Byte>, post: seq<Byte>)
    requires st.colon == Some(|pre|) && |pre| + |post| < 16
    requires pre + post == if st.count > 0 then st.out + PairOf(st.val) else st.out
    ensures Finish(st) == Some(Filled(pre, post))
  {}

  /** Zeros in the middle. */
  function Filled(pre: seq<Byte>, post: seq<Byte>): seq<Byte>
    requires |pre| + |post| <= 16
  {
    pre + Zeros(16 - (|pre| + |post|)) + post
  }

  lemma TailIsJoin(ws: seq<Word>)
    requires ws != []
    ensures Tail(ws) == ":" + Join(ws)
  {}

  lemma AfterDoubleEmpty(st: Reading)
    requires st.count == 0 && st.colon.None? && |st.out| < 16
    ensures Read6(":", st) == Some(Filled(st.out, []))
  {
    assert ":" == ":" + "";
    ReadDouble("", st);
    assert st.out + [] == st.out;
    FinishExpand(st.(colon := Some(|st.out|), tok := ""), st.out, []);
  }

  /** The second colon of :: and all that follows it. */
  lemma AfterDouble(post: seq<Word>, st: Reading)
    requires st.val == 0 && st.count == 0 && st.colon.None? && |st.out| + 2 * |post| < 16
    ensures Read6(AfterRun(post), st) == Some(Filled(st.out, BytesOf(post)))
  {
    if post == [] {
      AfterDoubleEmpty(st);
    } else {
      TailIsJoin(post);
      ReadDouble(Join(post), st);
      assert Join(post) + "" == Join(post);
      var t := ReadJoin(post, "", st.(colon := Some(|st.out|), tok := Join(post)));
      FinishExpand(t, st.out, BytesOf(post));
    }
  }

  // ----- words and bytes

  lemma {:induction false} BytesConcat(a: seq<Word>, b: seq<Word>)
    ensures BytesOf(a + b) == BytesOf(a) + BytesOf(b)
    decreases a
  {
    if a == [] {
      assert a + b == b;
    } else {
      BytesConcat(a[1..], b);
      assert (a + b)[1..] == a[1..] + b;
      Assoc(Pair(a[0]), BytesOf(a[1..]), BytesOf(b));
    }
  }

  lemma {:induction false} BytesZero(ws: seq<Word>)
    requires forall i :: 0 <= i < |ws| ==> ws[i] == 0
    ensures BytesOf(ws) == Zeros(2 * |ws|)
    decreases ws
  {
    if ws != [] {
      BytesZero(ws[1..]);
      assert Zeros(2 * |ws|) == [0, 0] + Zeros(2 * (|ws| - 1));
    }
  }

  /** Words in base..base+len are zero. */
  ghost predicate ZeroRun(ws: seq<Word>, r: Run) {
    r.Run? ==> r.len > 0 && r.base + r.len <= |ws| && forall i :: r.base <= i < r.base + r.len ==> ws[i] == 0
  }

  lemma RunBytes(ws: seq<Word>, r: Run)
    requires |ws| == 8 && r.Run? && ZeroRun(ws, r)
    ensures BytesOf(ws) == Filled(BytesOf(ws[..r.base]), BytesOf(ws[r.base + r.len..]))
  {
    var a, m, b := ws[..r.base], ws[r.base..r.base + r.len], ws[r.base + r.len..];
    assert ws == (a + m) + b;
    ZerosBetween(a, m, b);
  }

  lemma ZerosBetween(a: seq<Word>, m: seq<Word>, b: seq<Word>)
    requires |a| + |m| + |b| == 8 && forall i :: 0 <= i < |m| ==> m[i] == 0
    ensures BytesOf((a + m) + b) == Filled(BytesOf(a), BytesOf(b))
  {
    BytesConcat(a + m, b);
    BytesConcat(a, m);
    BytesZero(m);
  }

  // ----- the three forms

  lemma HexNoColon(w: Word, rest: string)
    ensures (Hex(w) + rest)[0] != ':'
  {
    TextDigits(w, 16);
    assert Hex(w)[0] in Hex(w);
  }

  lemma PlainForm(ws: seq<Word>)
    requires |ws| == 8
    ensures Parse6(Join(ws)) == Some(BytesOf(ws))
  {
    HexNoColon(ws[0], Tail(ws[1..]));
    assert Join(ws) + "" == Join(ws);
    var t := ReadJoin(ws, "", Reading([], None, 0, 0, Join(ws)));
    assert [] + BytesOf(ws) == BytesOf(ws);
  }

  lemma LeadingDouble(rest: string)
    requires rest != "" && rest[0] == ':'
    ensures Parse6(":" + rest) == Read6(rest, Reading([], None, 0, 0, rest))
  {}

  lemma ShortLeading(post: seq<Word>)
    requires |post| < 8
    ensures Parse6(":" + AfterRun(post)) == Some(Filled([], BytesOf(post)))
  {
    LeadingDouble(AfterRun(post));
    AfterDouble(post, Reading([], None, 0, 0, AfterRun(post)));
  }

  lemma ShortInner(pre: seq<Word>, post: seq<Word>)
    requires pre != [] && |pre| + |post| < 8
    ensures Parse6(Join(pre) + (":" + AfterRun(post))) == Some(Filled(BytesOf(pre), BytesOf(post)))
  {
    var end := AfterRun(post);
    var text := Join(pre) + (":" + end);
    Assoc(Hex(pre[0]), Tail(pre[1..]), ":" + end);
    HexNoColon(pre[0], Tail(pre[1..]) + (":" + end));
    var t := ReadJoin(pre, ":" + end, Reading([], None, 0, 0, text));
    assert [] + BytesOf(pre) == BytesOf(pre);
    ReadColon(end, t);
    AfterDouble(post, Reading(BytesOf(pre), None, 0, 0, end));
  }

  lemma ShortForm(ws: seq<Word>, r: Run)
    requires |ws| == 8 && r.Run? && ZeroRun(ws, r) && !Embeds4(ws, r)
    ensures Parse6(Render6(ws, r)) == Some(BytesOf(ws))
  {
    var pre, post := ws[..r.base], ws[r.base + r.len..];
    RunBytes(ws, r);
    ShortParts(pre, post);
  }

  lemma ShortParts(pre: seq<Word>, post: seq<Word>)
    requires |pre| + |post| < 8
    ensures Parse6(Join(pre) + (":" + AfterRun(post))) == Some(Filled(BytesOf(pre), BytesOf(post)))
  {
    if pre == [] {
      assert Join(pre) + (":" + AfterRun(post)) == ":" + AfterRun(post);
      ShortLeading(post);
    } else {
      ShortInner(pre, post);
    }
  }

  /** Digits of the first octet, then the dot: the octets are read again from the last colon. */
  lemma ReadDotted(b: seq<Byte>, st: Reading)
    requires |b| == 4 && st.val == 0 && st.count == 0 && st.tok == Dotted(b) && |st.out| + 4 <= 16
    ensures exists v :: Read6(Dotted(b), st) == Finish(st.(out := st.out + b, val := v, count := 0))
  {
    var first := Text(b[0], 10);
    var rest := Text(b[1], 10) + ("." + (Text(b[2], 10) + ("." + Text(b[3], 10))));
    TextDigits(b[0], 10);
    assert Pow(10, 1) == 10 && Pow(10, 2) == 100 && Pow(10, 3) == 1000;
    TextLength(b[0], 10, 3);
    ReadDigits(first, "." + rest, st);
    RoundTrip4(b);
    assert ("." + rest)[0] == '.';
    assert b[..4] == b;
    var v := Value(first, 0);
    assert Read6(Dotted(b), st) == Finish(st.(out := st.out + b, val := v, count := 0));
  }

  lemma EmbeddedTail(b: seq<Byte>, st: Reading)
    requires |b| == 4 && st.val == 0 && st.count == 0 && st.tok == Dotted(b) && st.colon == Some(0) && |st.out| + 4 < 16
    ensures Read6(Dotted(b), st) == Some(Filled([], st.out + b))
  {
    ReadDotted(b, st);
    var v :| Read6(Dotted(b), st) == Finish(st.(out := st.out + b, val := v, count := 0));
    assert [] + (st.out + b) == st.out + b;
    FinishExpand(st.(out := st.out + b, val := v, count := 0), [], st.out + b);
  }

  lemma Mapped(b: seq<Byte>, w: Word)
    requires |b| == 4
    ensures Parse6(":" + (Tail([w]) + (":" + Dotted(b)))) == Some(Filled([], Pair(w) + b))
  {
    var dotted := ":" + Dotted(b);
    var text := Hex(w) + dotted;
    assert Tail([w]) + dotted == ":" + text;
    LeadingDouble(":" + text);
    var st := Reading([], None, 0, 0, ":" + text);
    ReadDouble(text, st);
    ReadHex(w, dotted, st.(colon := Some(0), tok := text));
    var u := Reading([], Some(0), w, |Hex(w)|, text);
    ReadColon(Dotted(b), u);
    PairIs(w);
    assert [] + Pair(w) == Pair(w);
    EmbeddedTail(b, Reading(Pair(w), Some(0), 0, 0, Dotted(b)));
  }

  lemma Compatible(b: seq<Byte>)
    requires |b| == 4
    ensures Parse6(":" + (Tail([]) + (":" + Dotted(b)))) == Some(Filled([], b))
  {
    assert Tail([]) + (":" + Dotted(b)) == ":" + Dotted(b);
    LeadingDouble(":" + Dotted(b));
    var st := Reading([], None, 0, 0, ":" + Dotted(b));
    ReadDouble(Dotted(b), st);
    EmbeddedTail(b, Reading([], Some(0), 0, 0, Dotted(b)));
    assert [] + b == b;
  }

  lemma EmbeddedForm(ws: seq<Word>, r: Run)
    requires |ws| == 8 && ZeroRun(ws, r) && Embeds4(ws, r)
    ensures Parse6(Render6(ws, r)) == Some(BytesOf(ws))
  {
    RunBytes(ws, r);
    assert ws[..r.base] == [];
    var b := BytesOf(ws[6..]);
    if r.len == 6 {
      assert ws[6..6] == [];
      Compatible(b);
    } else {
      assert ws[5..6] == [ws[5]] && ws[5..][1..] == ws[6..];
      Mapped(b, ws[5]);
    }
  }

  /** Whatever run of zero words is chosen, the text is read back as the address. */
  lemma RoundTrip6(ws: seq<Word>, r: Run)
    requires |ws| == 8 && ZeroRun(ws, r)
    ensures Parse6(Render6(ws, r)) == Some(BytesOf(ws))
  {
    if r.NoRun? {
      PlainForm(ws);
    } else if Embeds4(ws, r) {
      EmbeddedForm(ws, r);
    } else {
      ShortForm(ws, r);
    }
  }
}
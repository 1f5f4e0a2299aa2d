/** inet_ntop of usual/socket_ntop.c and inet_pton of usual/socket_pton.c, as loops over buffers. */
module Inet {
  import opened Prelude
  import opened InetText
  import opened InetRoundTrip

  // ----- writing

  function WordAt(b: seq<Byte>, i: nat): Word
    requires 2 * i + 1 < |b|
  {
    (b[2 * i] as int) * 256 + b[2 * i + 1] as int
  }

  function WordsOf(b: seq<Byte>): (ws: seq<Word>)
    requires |b| % 2 == 0
    ensures |ws| == |b| / 2
  {
    if b == [] then [] else [WordAt(b, 0)] + WordsOf(b[2..])
  }

  lemma {:induction false} WordsBytes(b: seq<Byte>)
    requires |b| % 2 == 0
    ensures BytesOf(WordsOf(b)) == b
  {
    if b != [] {
      WordsBytes(b[2..]);
      assert Pair(WordAt(b, 0)) == [b[0], b[1]];
      assert b == [b[0], b[1]] + b[2..];
      assert WordsOf(b)[1..] == WordsOf(b[2..]);
    }
  }

  lemma {:induction false} WordsAt(b: seq<Byte>, i: nat)
    requires |b| % 2 == 0 && i < |b| / 2
    ensures WordsOf(b)[i] == WordAt(b, i)
    decreases i
  {
    if i > 0 { WordsAt(b[2..], i - 1); }
  }

  /** The first loop of inet_ntop6: bytes are or-ed into words. */
  method ReadWords(src: seq<Byte>) returns (words: seq<Word>)
    requires |src| == 16
    ensures words == WordsOf(src)
  {
    var w := new int[8](i => 0);
    for i := 0 to 16
      invariant forall k :: 0 <= k < 8 ==>
        w[k] == (if 2 * k < i then (src[2 * k] as int) * 256 else 0)
          + (if 2 * k + 1 < i then src[2 * k + 1] as int else 0)
    {
      w[i / 2] := w[i / 2] + (src[i] as int) * (if i % 2 == 0 then 256 else 1);
    }
    forall k | 0 <= k < 8 ensures w[k] == WordsOf(src)[k] { WordsAt(src, k); }
    words := seq(8, k requires 0 <= k < 8 reads w => w[k]);
  }

  ghost predicate ZerosAt(ws: seq<Word>, b: nat, l: nat) {
    b + l <= |ws| && forall j :: b <= j < b + l ==> ws[j] == 0
  }

  /** r is the leftmost longest run of zeros among the first k words, or there is no zero. */
  ghost predicate Best(ws: seq<Word>, k: nat, r: Run) {
    match r
    case NoRun => forall b: nat, l: nat :: l > 0 && b + l <= k ==> !ZerosAt(ws, b, l)
    case Run(base, len) =>
      len > 0 && base + len <= k && ZerosAt(ws, base, len)
      && forall b: nat, l: nat :: l > 0 && b + l <= k && ZerosAt(ws, b, l) ==> l < len || (l == len && base <= b)
  }

  /** r is the leftmost longest run of two or more zero words, or there is none. */
  ghost predicate LongestRun(ws: seq<Word>, r: Run) {
    ZeroRun(ws, r)
    && (r.Run? ==> r.len >= 2)
    && forall b: nat, l: nat :: l >= 2 && b + l <= |ws| && ZerosAt(ws, b, l) ==>
         r.Run? && (l < r.len || (l == r.len && r.base <= b))
  }

  /** The run of zeros that ends at word i. */
  ghost predicate Current(ws: seq<Word>, i: nat, r: Run)
    requires i <= |ws|
  {
    match r
    case NoRun => i > 0 ==> ws[i - 1] != 0
    case Run(base, len) => base + len == i && len > 0 && ZerosAt(ws, base, len) && (base > 0 ==> ws[base - 1] != 0)
  }

  function Longer(best: Run, cur: Run): Run {
    if cur.Run? && (best.NoRun? || cur.len > best.len) then cur else best
  }

  function Before(i: nat, cur: Run): nat { if cur.Run? then cur.base else i }

  /** Closing the current run keeps the better one. */
  lemma BestCloses(ws: seq<Word>, i: nat, cur: Run, best: Run)
    requires i <= |ws| && Current(ws, i, cur) && Best(ws, Before(i, cur), best)
    ensures Best(ws, i, Longer(best, cur))
  {}

  lemma BestSkips(ws: seq<Word>, i: nat, best: Run)
    requires i < |ws| && Best(ws, i, best) && ws[i] != 0
    ensures Best(ws, i + 1, best)
  {}

  /** The second loop of inet_ntop6: the leftmost longest run of zero words, if it has two words at least. */
  method FindRun(words: seq<Word>) returns (r: Run)
    requires |words| == 8
    ensures ZeroRun(words, r)
    ensures LongestRun(words, r)
  {
    var best, cur := NoRun, NoRun;
    for i := 0 to 8
      invariant Current(words, i, cur) && Best(words, Before(i, cur), best)
    {
      if words[i] == 0 {
        cur := if cur.NoRun? then Run(i, 1) else Run(cur.base, cur.len + 1);
      } else {
        BestCloses(words, i, cur, best);
        BestSkips(words, i, Longer(best, cur));
        if cur.Run? {
          if best.NoRun? || cur.len > best.len {
            best := cur;
          }
          cur := NoRun;
        }
      }
    }
    BestCloses(words, 8, cur, best);
    if cur.Run? {
      if best.NoRun? || cur.len > best.len {
        best := cur;
      }
    }
    r := best;
    if best.Run? && best.len < 2 {
      r := NoRun;
    }
  }

  /** What the format loop has written before word i. */
  ghost function Partial(ws: seq<Word>, r: Run, i: nat): string
    requires i <= |ws| && (r.Run? ==> r.base + r.len <= |ws|)
  {
    if r.NoRun? || i <= r.base then Join(ws[..i])
    else if i <= r.base + r.len then Join(ws[..r.base]) + ":"
    else Join(ws[..r.base]) + (":" + Tail(ws[r.base + r.len..i]))
  }

  lemma {:induction false} TailSnoc(ws: seq<Word>, w: Word)
    ensures Tail(ws + [w]) == Tail(ws) + (":" + Hex(w))
    decreases ws
  {
    if ws == [] {
      assert ws + [w] == [w];
    } else {
      TailSnoc(ws[1..], w);
      assert (ws + [w])[1..] == ws[1..] + [w];
      Assoc(Hex(ws[0]), Tail(ws[1..]), ":" + Hex(w));
      Assoc(":", Hex(ws[0]) + Tail(ws[1..]), ":" + Hex(w));
    }
  }

  lemma JoinSnoc(ws: seq<Word>, w: Word)
    ensures Join(ws + [w]) == Join(ws) + ((if ws == [] then "" else ":") + Hex(w))
  {
    if ws == [] {
      assert ws + [w] == [w];
    } else {
      TailSnoc(ws[1..], w);
      assert (ws + [w])[1..] == ws[1..] + [w];
      Assoc(Hex(ws[0]), Tail(ws[1..]), ":" + Hex(w));
    }
  }

  lemma SliceSnoc<T>(s: seq<T>, lo: nat, i: nat)
    requires lo <= i < |s|
    ensures s[lo..i] + [s[i]] == s[lo..i + 1]
  {}

  /** A word outside the run. */
  lemma PartialWord(ws: seq<Word>, r: Run, i: nat)
    requires |ws| == 8 && i < 8 && (r.Run? ==> r.len > 0 && r.base + r.len <= 8 && (i < r.base || r.base + r.len <= i))
    ensures Partial(ws, r, i + 1) == Partial(ws, r, i) + ((if i == 0 then "" else ":") + Hex(ws[i]))
  {
    if r.NoRun? || i < r.base {
      JoinSnoc(ws[..i], ws[i]);
      SliceSnoc(ws, 0, i);
    } else {
      var lo, pre := r.base + r.len, Join(ws[..r.base]);
      TailSnoc(ws[lo..i], ws[i]);
      SliceSnoc(ws, lo, i);
      var piece := ":" + Hex(ws[i]);
      Assoc(":", Tail(ws[lo..i]), piece);
      Assoc(pre, ":" + Tail(ws[lo..i]), piece);
      if i == lo {
        assert ":" + Tail(ws[lo..i]) == ":";
      }
    }
  }

  /** A word inside the run. */
  lemma PartialRun(ws: seq<Word>, r: Run, i: nat)
    requires |ws| == 8 && r.Run? && r.base + r.len <= 8 && r.base <= i < r.base + r.len
    ensures Partial(ws, r, i + 1) == if i == r.base then Partial(ws, r, i) + ":" else Partial(ws, r, i)
  {}

  lemma PartialEnd(ws: seq<Word>, r: Run)
    requires |ws| == 8 && (r.Run? ==> r.len > 0 && r.base + r.len <= 8 && !Embeds4(ws, r))
    ensures Partial(ws, r, 8) + (if r.Run? && r.base + r.len == 8 then ":" else "") == Render6(ws, r)
  {
    assert ws[..8] == ws;
    if r.Run? {
      assert ws[r.base + r.len..8] == ws[r.base + r.len..];
      if r.base + r.len == 8 { assert (Join(ws[..r.base]) + ":") + ":" == Join(ws[..r.base]) + (":" + ":"); }
    }
  }

  lemma PartialEmbedded(ws: seq<Word>, r: Run)
    requires |ws| == 8 && Embeds4(ws, r)
    ensures Partial(ws, r, 6) + (":" + Dotted(BytesOf(ws[6..]))) == Render6(ws, r)
  {}

  lemma EmbeddedShort(ws: seq<Word>, r: Run)
    requires |ws| == 8 && Embeds4(ws, r)
    ensures |Partial(ws, r, 6)| <= 6
  {
    assert ws[..r.base] == [];
    if r.len == 5 {
      HexShort(ws[5]);
      assert ws[5..6] == [ws[5]];
      assert Tail(ws[5..6]) == ":" + (Hex(ws[5]) + "");
    }
  }

  lemma HexShort(w: Word)
    ensures |Hex(w)| <= 4
  {
    assert Pow(16, 1) == 16 && Pow(16, 2) == 256 && Pow(16, 3) == 4096 && Pow(16, 4) == 65536;
    TextLength(w, 16, 4);
  }

  lemma DottedShort(b: seq<Byte>)
    requires |b| == 4
    ensures |Dotted(b)| <= 15
  {
    assert Pow(10, 1) == 10 && Pow(10, 2) == 100 && Pow(10, 3) == 1000;
    forall i | 0 <= i < 4 ensures |Text(b[i], 10)| <= 3 { TextLength(b[i], 10, 3); }
  }

  /** The format loop of inet_ntop6; its checks for the end of tmp are the asserts. */
  method Format(words: seq<Word>, best: Run) returns (text: string)
    requires |words| == 8 && (best.Run? ==> best.len > 0 && best.base + best.len <= 8)
    ensures text == Render6(words, best) && |text| < 46
  {
    text := "";
    for i := 0 to 8
      invariant text == Partial(words, best, i) && |text| <= 5 * i && (i > 6 ==> !Embeds4(words, best))
    {
      if best.Run? && i >= best.base && i < best.base + best.len {
        PartialRun(words, best, i);
        if i == best.base {
          assert |text| + 1 < 46;
          text := text + ":";
        }
        continue;
      }
      PartialWord(words, best, i);
      if i == 6 && best.Run? && best.base == 0 && (best.len == 6 || (best.len == 5 && words[5] == 0xFFFF)) {
        PartialEmbedded(words, best);
        DottedShort(BytesOf(words[6..]));
        EmbeddedShort(words, best);
        assert |text| + 1 + 15 < 46;
        return text + (":" + Dotted(BytesOf(words[6..])));
      }
      HexShort(words[i]);
      text := text + ((if i == 0 then "" else ":") + Hex(words[i]));
    }
    PartialEnd(words, best);
    text := text + (if best.Run? && best.base + best.len == 8 then ":" else "");
  }

  /** The text and its terminator must fit. */
  function Fitted(text: string, size: nat): Option<string> { if |text| + 1 > size then None else Some(text) }

  /** inet_ntop6; None is ENOSPC. */
  method Ntop6(src: seq<Byte>, size: nat) returns (dst: Option<string>)
    requires |src| == 16
    ensures exists r :: LongestRun(WordsOf(src), r) && dst == Fitted(Render6(WordsOf(src), r), size)
    ensures dst.Some? ==> Parse6(dst.value) == Some(src)
    ensures size >= 46 ==> dst.Some?
  {
    var words := ReadWords(src);
    var best := FindRun(words);
    var text := Format(words, best);
    RoundTrip6(words, best);
    WordsBytes(src);
    dst := Fitted(text, size);
  }

  /** inet_ntop4. */
  method Ntop4(src: seq<Byte>, size: nat) returns (dst: Option<string>)
    requires |src| == 4
    ensures dst == if |Dotted(src)| >= size then None else Some(Dotted(src))
    ensures dst.Some? ==> Parse4(dst.value) == Some(src)
    ensures size >= 16 ==> dst.Some?
  {
    DottedShort(src);
    RoundTrip4(src);
    var tmp := Dotted(src);
    dst := if |tmp| >= size then None else Some(tmp);
  }

  // ----- reading

  /** inet_pton4. */
  method Pton4(s: string) returns (dst: Option<seq<Byte>>)
    ensures dst == Parse4(s)
  {
    var src, saw_digit, octets := s, false, 0;
    var tmp, tp := new Byte[4], 0;
    tmp[tp] := 0;
    while src != ""
      invariant tp < 4 && octets == tp + (if saw_digit then 1 else 0)
      invariant Read4(src, tmp[..tp], tmp[tp], saw_digit) == Parse4(s)
      decreases |src|
    {
      var ch := src[0];
      src := src[1..];
      if '0' <= ch <= '9' {
        var n := (tmp[tp] as int) * 10 + (ch as int - '0' as int);
        if n > 255 {
          return None;
        }
        if !saw_digit {
          octets := octets + 1;
          if octets > 4 {
            return None;
          }
          saw_digit := true;
        }
        tmp[tp] := n;
      } else if ch == '.' && saw_digit {
        if octets == 4 {
          return None;
        }
        assert tmp[..tp + 1] == tmp[..tp] + [tmp[tp]];
        tp := tp + 1;
        tmp[tp] := 0;
        saw_digit := false;
      } else {
        return None;
      }
    }
    if octets < 4 {
      return None;
    }
    assert tmp[..] == tmp[..3] + [tmp[3]];
    return Some(tmp[..]);
  }

  /** The shift loop of inet_pton6: n bytes from colonp move to the end, front to back, and
   zeros take their place, although the two ranges may overlap. */
  method ShiftToEnd(tmp: array<Byte>, colonp: nat, tp: nat)
    requires tmp.Length == 16 && colonp <= tp < 16 && forall j :: tp <= j < 16 ==> tmp[j] == 0
    modifies tmp
    ensures tmp[..] == old(tmp[..colonp]) + Zeros(16 - tp) + old(tmp[colonp..tp])
  {
    var n := tp - colonp;
    ghost var t := tmp[..];
    for i := 1 to n + 1
      invariant forall j :: 0 <= j < colonp + n - (i - 1) ==> tmp[j] == t[j]
      invariant forall j :: colonp + n - (i - 1) <= j < 16 - (i - 1) ==> tmp[j] == 0
      invariant forall j :: 16 - (i - 1) <= j < 16 ==> tmp[j] == t[j - 16 + tp]
    {
      tmp[16 - i] := tmp[colonp + n - i];
      tmp[colonp + n - i] := 0;
    }
  }

  ghost function Colon(colonp: int): Option<nat> { if colonp < 0 then None else Some(colonp) }

  /** The first tp bytes of the buffer are stored, the others are still zero. */
  ghost predicate Buffer(tmp: array<Byte>, tp: nat, colonp: int)
    reads tmp
  {
    tmp.Length == 16 && tp <= 16 && colonp <= tp && forall j :: tp <= j < 16 ==> tmp[j] == 0
  }

  method StorePair(tmp: array<Byte>, tp: nat, val: nat, ghost colonp: int)
    requires Buffer(tmp, tp, colonp) && tp + 2 <= 16
    modifies tmp
    ensures Buffer(tmp, tp + 2, colonp) && tmp[..tp + 2] == old(tmp[..tp]) + PairOf(val)
  {
    tmp[tp] := val / 256 % 256;
    tmp[tp + 1] := val % 256;
  }

  method StoreQuad(tmp: array<Byte>, tp: nat, b: seq<Byte>, ghost colonp: int)
    requires Buffer(tmp, tp, colonp) && tp + 4 <= 16 && |b| >= 4
    modifies tmp
    ensures Buffer(tmp, tp + 4, colonp) && tmp[..tp + 4] == old(tmp[..tp]) + b[..4]
  {
    tmp[tp] := b[0];
    tmp[tp + 1] := b[1];
    tmp[tp + 2] := b[2];
    tmp[tp + 3] := b[3];
  }

  /** The end of inet_pton6. */
  method End6(tmp: array<Byte>, tp0: nat, colonp: int, saw_xdigit: bool, val: nat,
      ghost st: Reading) returns (dst: Option<seq<Byte>>)
    requires Buffer(tmp, tp0, colonp)
    requires st.out == tmp[..tp0] && st.colon == Colon(colonp) && st.val == val && saw_xdigit == (st.count > 0)
    modifies tmp
    ensures dst == Finish(st)
  {
    var tp := tp0;
    if saw_xdigit {
      if tp + 2 > 16 {
        return None;
      }
      StorePair(tmp, tp, val, colonp);
      tp := tp + 2;
    }
    if colonp >= 0 {
      if tp == 16 {
        return None;
      }
      ghost var out := tmp[..tp];
      assert out[..colonp] == tmp[..colonp] && out[colonp..] == tmp[colonp..tp];
      ShiftToEnd(tmp, colonp, tp);
      tp := 16;
    }
    if tp != 16 {
      return None;
    }
    assert colonp < 0 ==> tmp[..] == tmp[..tp];
    return Some(tmp[..]);
  }

  /** inet_pton6. */
  method Pton6(s: string) returns (dst: Option<seq<Byte>>)
    ensures dst == Parse6(s)
  {
    var src := s;
    if s != "" && s[0] == ':' {
      src := s[1..];
      if src == "" || src[0] != ':' {
        return None;
      }
    }
    dst := Loop6(src);
  }

  /** The loop of inet_pton6. */
  method Loop6(s: string) returns (dst: Option<seq<Byte>>)
    ensures dst == Read6(s, Reading([], None, 0, 0, s))
  {
    var tmp := new Byte[16](i => 0);
    var tp: nat, colonp: int, saw_xdigit, count_xdigit: nat, val: nat := 0, -1, false, 0, 0;
    var src, curtok := s, s;
    while src != ""
      invariant Buffer(tmp, tp, colonp) && saw_xdigit == (count_xdigit > 0)
      invariant Read6(src, Reading(tmp[..tp], Colon(colonp), val, count_xdigit, curtok))
        == Read6(s, Reading([], None, 0, 0, s))
      decreases |src|
    {
      var ch := src[0];
      src := src[1..];
      var d := XDigit(ch);
      if d.Some? {
        if count_xdigit >= 4 {
          return None;
        }
        val := val * 16 + d.value;
        if val > 0xFFFF {
          return None;
        }
        saw_xdigit := true;
        count_xdigit := count_xdigit + 1;
        continue;
      }
      if ch == ':' {
        curtok := src;
        if !saw_xdigit {
          if colonp >= 0 {
            return None;
          }
          colonp := tp;
          continue;
        } else if src == "" {
          return None;
        }
        if tp + 2 > 16 {
          return None;
        }
        StorePair(tmp, tp, val, colonp);
        tp := tp + 2;
        saw_xdigit, count_xdigit, val := false, 0, 0;
        continue;
      }
      if ch == '.' && tp + 4 <= 16 {
        var quad := Pton4(curtok);
        if quad.Some? {
          StoreQuad(tmp, tp, quad.value, colonp);
          dst := End6(tmp, tp + 4, colonp, false, val, Reading(tmp[..tp + 4], Colon(colonp), val, 0, curtok));
          return;
        }
      }
      return None;
    }
    dst := End6(tmp, tp, colonp, saw_xdigit, val, Reading(tmp[..tp], Colon(colonp), val, count_xdigit, curtok));
  }
}

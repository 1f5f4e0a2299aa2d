/** Which URL-encoded texts usual/mdict.c decodes, and to what.

 A string is a sequence of spelled bytes: a byte as it is, `+` for a blank, or `%` with two
 hexadecimal digits in either case.  The decoder accepts exactly these, up to the first `&` or `=`.
 */
module UrlMeaning {
  import opened Prelude
  import opened KeyBits
  import opened UrlDict

  function Chr(b: bv8): char { b as int as char }

  /** c is the hexadecimal digit d. */
  predicate DigitIs(c: bv8, d: bv8) {
    d < 16 && (Chr(c) == "0123456789abcdef"[d as int] || Chr(c) == "0123456789ABCDEF"[d as int])
  }

  lemma DigitExactly(c: bv8, d: bv8)
    ensures DigitIs(c, d) <==> GetHex(c) == Some(d)
  {}

  /** Characters with a meaning of their own. */
  predicate Reserved(b: bv8) { Chr(b) == '%' || Chr(b) == '+' || Chr(b) == '&' || Chr(b) == '=' }

  /** p spells the byte b. */
  predicate Spells(p: Bytes, b: bv8) {
    || (p == [b] && !Reserved(b))
    || (|p| == 1 && Chr(p[0]) == '+' && Chr(b) == ' ')
    || (|p| == 3 && Chr(p[0]) == '%' && DigitIs(p[1], b >> 4) && DigitIs(p[2], b & 15))
  }

  /** s spells the bytes x, one after the other. */
  ghost predicate SpellsAll(s: Bytes, x: Bytes)
    decreases |x|
  {
    if x == [] then s == []
    else exists n: nat :: n <= |s| && Spells(s[..n], x[0]) && SpellsAll(s[n..], x[1..])
  }

  lemma Marks(b: bv8)
    ensures Chr(b) == '%' <==> b == PERCENT
    ensures Chr(b) == '+' <==> b == PLUS
    ensures Chr(b) == '&' <==> b == AMP
    ensures Chr(b) == '=' <==> b == EQ
    ensures Chr(b) == ' ' <==> b == SPACE
  {}

  lemma Joined(h: bv8, l: bv8)
    requires h < 16 && l < 16
    ensures ((h << 4) | l) >> 4 == h && ((h << 4) | l) & 15 == l
  {}

  lemma SmallHex(c: bv8)
    ensures GetHex(c).Some? ==> GetHex(c).value < 16
  {}

  // ----- one byte

  lemma EscapeReads(p: Bytes, b: bv8, rest: Bytes)
    requires |p| == 3 && Chr(p[0]) == '%' && DigitIs(p[1], b >> 4) && DigitIs(p[2], b & 15)
    ensures Decode(p + rest) == Before(b, Decode(rest))
  {
    var s := p + rest;
    Marks(p[0]);
    DigitExactly(p[1], b >> 4);
    DigitExactly(p[2], b & 15);
    Nibbles(b);
    assert s[0] == p[0] && s[1] == p[1] && s[2] == p[2] && s[3..] == rest;
  }

  lemma SpelledReads(p: Bytes, b: bv8, rest: Bytes)
    requires Spells(p, b)
    ensures Decode(p + rest) == Before(b, Decode(rest))
  {
    if |p| == 3 {
      EscapeReads(p, b, rest);
    } else {
      Marks(p[0]);
      Marks(b);
      assert (p + rest)[0] == p[0] && (p + rest)[1..] == rest;
    }
  }

  /** The first byte that the decoder reads is spelled. */
  lemma FirstSpelled(s: Bytes) returns (n: nat, b: bv8)
    requires s != [] && s[0] != AMP && s[0] != EQ && Decode(s).Some?
    ensures 0 < n <= |s| && Spells(s[..n], b) && Decode(s) == Before(b, Decode(s[n..]))
  {
    Marks(s[0]);
    if s[0] == PERCENT {
      var h, l := GetHex(s[1]).value, GetHex(s[2]).value;
      SmallHex(s[1]);
      SmallHex(s[2]);
      Joined(h, l);
      n, b := 3, (h << 4) | l;
      DigitExactly(s[1], h);
      DigitExactly(s[2], l);
    } else {
      n, b := 1, if s[0] == PLUS then SPACE else s[0];
      Marks(b);
    }
  }

  // ----- strings

  lemma {:induction false} SpelledDecodes(s: Bytes, x: Bytes, rest: Bytes)
    requires SpellsAll(s, x) && Ends(rest)
    ensures Decode(s + rest) == Some((x, rest))
    decreases |x|
  {
    if x == [] {
      assert s + rest == rest;
    } else {
      var n: nat :| n <= |s| && Spells(s[..n], x[0]) && SpellsAll(s[n..], x[1..]);
      SpelledDecodes(s[n..], x[1..], rest);
      SpelledReads(s[..n], x[0], s[n..] + rest);
      Halved(s, n);
      Assoc(s[..n], s[n..], rest);
      HeadAndTail(x);
    }
  }

  lemma {:induction false} DecodedSpells(s: Bytes) returns (n: nat)
    requires Decode(s).Some?
    ensures n <= |s| && SpellsAll(s[..n], Decode(s).value.0) && Decode(s).value.1 == s[n..] && Ends(s[n..])
    decreases |s|
  {
    if s == [] || s[0] == AMP || s[0] == EQ {
      assert s[..0] == [] && s[0..] == s;
      return 0;
    }
    var m, b := FirstSpelled(s);
    var k := DecodedSpells(s[m..]);
    n := m + k;
    FirstJoins(s, m, k, b, Decode(s[m..]).value.0);
  }

  lemma FirstJoins(s: Bytes, m: nat, k: nat, b: bv8, x: Bytes)
    requires m <= |s| && k <= |s[m..]| && Spells(s[..m], b) && SpellsAll(s[m..][..k], x)
    ensures SpellsAll(s[..m + k], [b] + x) && s[m..][k..] == s[m + k..]
  {
    CutTwice(s, m, k);
    TailOf(b, x);
  }

  /** urldec_str gives the bytes x and stops before rest exactly if the text spells x and rest is
      empty or starts with a separator. */
  lemma DecodeExactly(s: Bytes, x: Bytes, rest: Bytes)
    ensures Decode(s) == Some((x, rest)) <==>
      Ends(rest) && |rest| <= |s| && s[|s| - |rest|..] == rest && SpellsAll(s[..|s| - |rest|], x)
  {
    if Decode(s) == Some((x, rest)) {
      var n := DecodedSpells(s);
      assert |rest| == |s| - n;
    }
    if Ends(rest) && |rest| <= |s| && s[|s| - |rest|..] == rest && SpellsAll(s[..|s| - |rest|], x) {
      SpelledDecodes(s[..|s| - |rest|], x, rest);
      Halved(s, |s| - |rest|);
    }
  }

  // ----- dictionaries

  /** A list of elements as a text: the strings spelled somehow, `=` before a value, `&` between. */
  datatype Field = Field(elem: Elem, key: Bytes, val: Bytes)

  ghost predicate Spelled(f: Field) {
    && SpellsAll(f.key, f.elem.key)
    && (f.elem.val.Some? ==> SpellsAll(f.val, f.elem.val.value))
  }

  function FieldText(f: Field): Bytes {
    if f.elem.val.None? then f.key else f.key + ([EQ] + f.val)
  }

  function FormText(fs: seq<Field>): Bytes {
    if fs == [] then [] else if |fs| == 1 then FieldText(fs[0]) else FieldText(fs[0]) + ([AMP] + FormText(fs[1..]))
  }

  function Elems(fs: seq<Field>): (es: seq<Elem>)
    ensures |es| == |fs|
  {
    seq(|fs|, i requires 0 <= i < |fs| => fs[i].elem)
  }

  lemma FieldDecodes(f: Field, rest: Bytes)
    requires Spelled(f) && (rest != [] ==> rest[0] == AMP) && FieldText(f) + rest != []
    ensures DecodeElem(FieldText(f) + rest) == Some((f.elem, SkipAmp(rest)))
  {
    if f.elem.val.None? {
      SpelledDecodes(f.key, f.elem.key, rest);
    } else {
      var t := f.val + rest;
      Assoc(f.key, [EQ] + f.val, rest);
      Assoc([EQ], f.val, rest);
      SpelledDecodes(f.key, f.elem.key, [EQ] + t);
      assert ([EQ] + t)[1..] == t;
      SpelledDecodes(f.val, f.elem.val.value, rest);
    }
  }

  /** mdict_urldecode puts in the elements of the text one after the other, however they are spelled. */
  lemma {:induction false} FormDecodes(d: Dict, fs: seq<Field>)
    requires forall i :: 0 <= i < |fs| ==> Spelled(fs[i])
    requires fs != [] ==> FieldText(fs[|fs| - 1]) != []
    ensures DecodeInto(d, FormText(fs)) == PutAll(d, Elems(fs))
    decreases |fs|
  {
    if fs != [] {
      FirstField(fs);
      ElemsRest(fs);
      if Put(d, fs[0].elem).Some? {
        FormDecodes(Put(d, fs[0].elem).value, fs[1..]);
      }
    }
  }

  lemma ElemsRest(fs: seq<Field>)
    requires fs != []
    ensures Elems(fs)[0] == fs[0].elem && Elems(fs)[1..] == Elems(fs[1..])
    ensures |fs| > 1 ==> fs[1..][|fs| - 2] == fs[|fs| - 1]
  {}

  lemma FirstField(fs: seq<Field>)
    requires fs != [] && Spelled(fs[0]) && FieldText(fs[|fs| - 1]) != []
    ensures FormText(fs) != [] && DecodeElem(FormText(fs)) == Some((fs[0].elem, FormText(fs[1..])))
  {
    FormCons(fs);
    if |fs| == 1 {
      Alone(fs[0]);
    } else {
      BehindAmp(fs[0], FormText(fs[1..]));
    }
  }

  lemma FormCons(fs: seq<Field>)
    requires fs != []
    ensures |fs| == 1 ==> FormText(fs) == FieldText(fs[0]) && FormText(fs[1..]) == []
    ensures |fs| > 1 ==> FormText(fs) == FieldText(fs[0]) + ([AMP] + FormText(fs[1..]))
  {}

  lemma Alone(f: Field)
    requires Spelled(f) && FieldText(f) != []
    ensures DecodeElem(FieldText(f)) == Some((f.elem, []))
  {
    assert FieldText(f) + [] == FieldText(f);
    FieldDecodes(f, []);
  }

  lemma BehindAmp(f: Field, rest: Bytes)
    requires Spelled(f)
    ensures var s := FieldText(f) + ([AMP] + rest); s != [] && DecodeElem(s) == Some((f.elem, rest))
  {
    FieldDecodes(f, [AMP] + rest);
    TailOf(AMP, rest);
  }

  /** The encoder copies letters, digits, dot and underscore, writes `+` for a blank, and `%` with two
      lower-case digits for the rest. */
  lemma EncodedSpelling(b: bv8)
    ensures Spells(EncodeByte(b), b)
    ensures (EncodeByte(b) == [b] <==>
             || '0' <= Chr(b) <= '9' || 'A' <= Chr(b) <= 'Z' || 'a' <= Chr(b) <= 'z' || Chr(b) == '.' || Chr(b) == '_')
    ensures Chr(b) == ' ' ==> EncodeByte(b) == [PLUS]
    ensures |EncodeByte(b)| == 3 ==> forall i :: 1 <= i < 3 ==> !('A' <= Chr(EncodeByte(b)[i]) <= 'F')
  {
    Nibbles(b);
    DigitExactly(HexChar(b >> 4), b >> 4);
    DigitExactly(HexChar(b & 15), b & 15);
  }
}

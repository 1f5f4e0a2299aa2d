/** The URL-encoded form of the dictionaries of usual/mdict.c.

 A dictionary is the map that its crit-bit tree stands for (module CritBit): elements by key, keys
 that differ only in trailing zero bytes counting as one.
 */
module UrlDict {
  import opened Prelude
  import opened KeyBits

  type Bytes = seq<bv8>

  datatype Elem = Elem(key: Bytes, val: Option<Bytes>)

  type Dict = map<Key, Elem>

  const AMP: bv8 := 38
  const EQ: bv8 := 61
  const PERCENT: bv8 := 37
  const PLUS: bv8 := 43
  const SPACE: bv8 := 32

  // ----- encoding

  function HexChar(d: bv8): bv8 { if d < 10 then d + 48 else d + 87 }

  function IsPlain(b: bv8): bool {
    48 <= b <= 57 || 65 <= b <= 90 || 97 <= b <= 122 || b == 46 || b == 95
  }

  function EncodeByte(b: bv8): (r: Bytes)
    ensures r != []
  {
    if b == SPACE then [PLUS] else if IsPlain(b) then [b] else [PERCENT, HexChar(b >> 4), HexChar(b & 15)]
  }

  /** urlenc_str. */
  function Encode(s: Bytes): Bytes { if s == [] then [] else EncodeByte(s[0]) + Encode(s[1..]) }

  /** urlenc_elem, without the separator. */
  function EncodeElem(e: Elem): Bytes {
    if e.val.None? then Encode(e.key) else Encode(e.key) + ([EQ] + Encode(e.val.value))
  }

  /** mdict_urlencode, over the elements in the order of the walk. */
  function EncodeAll(es: seq<Elem>): Bytes {
    if es == [] then [] else if |es| == 1 then EncodeElem(es[0]) else EncodeElem(es[0]) + ([AMP] + EncodeAll(es[1..]))
  }

  // ----- decoding

  /** gethex. */
  function GetHex(c: bv8): Option<bv8> {
    if 48 <= c <= 57 then Some(c - 48) else if 97 <= c <= 102 then Some(c - 87)
    else if 65 <= c <= 70 then Some(c - 55) else None
  }

  /** The size estimate of urldec_str. */
  function Estimate(s: Bytes): nat {
    if s == [] then 0
    else if s[0] == PERCENT then 1 + Estimate(s[if |s| < 3 then |s| else 3..])
    else if s[0] == AMP || s[0] == EQ then 0
    else 1 + Estimate(s[1..])
  }

  /** What urldec_str decodes, and what it leaves. */
  function Decode(s: Bytes): (r: Option<(Bytes, Bytes)>)
    ensures r.Some? ==> |r.value.1| <= |s| && (r.value.1 != [] ==> r.value.1[0] == AMP || r.value.1[0] == EQ)
    ensures r.Some? && s != [] && s[0] != AMP && s[0] != EQ ==> |r.value.1| < |s|
  {
    if s == [] then Some(([], []))
    else if s[0] == PERCENT then
      if |s| < 3 || GetHex(s[1]).None? || GetHex(s[2]).None? then None
      else Before((GetHex(s[1]).value << 4) | GetHex(s[2]).value, Decode(s[3..]))
    else if s[0] == PLUS then Before(SPACE, Decode(s[1..]))
    else if s[0] == AMP || s[0] == EQ then Some(([], s))
    else Before(s[0], Decode(s[1..]))
  }

  function Before(b: bv8, r: Option<(Bytes, Bytes)>): Option<(Bytes, Bytes)> {
    if r.None? then None else Some(([b] + r.value.0, r.value.1))
  }

  /** The decoder never writes more than was estimated; when it succeeds, exactly that. */
  lemma {:induction false} EstimateExact(s: Bytes)
    ensures Decode(s).Some? ==> |Decode(s).value.0| == Estimate(s)
    decreases |s|
  {
    if s == [] {
    } else if s[0] == PERCENT {
      if |s| >= 3 { EstimateExact(s[3..]); }
    } else if s[0] != AMP && s[0] != EQ {
      EstimateExact(s[1..]);
    }
  }

  /** One round of mdict_urldecode: a key, perhaps a value, perhaps a separator. */
  function DecodeElem(s: Bytes): (r: Option<(Elem, Bytes)>)
    requires s != []
    ensures r.Some? ==> |r.value.1| < |s|
  {
    match Decode(s)
    case None => None
    case Some((k, t)) =>
      if t != [] && t[0] == EQ then
        match Decode(t[1..])
        case None => None
        case Some((v, u)) => Some((Elem(k, Some(v)), SkipAmp(u)))
      else Some((Elem(k, None), SkipAmp(t)))
  }

  function SkipAmp(s: Bytes): (r: Bytes)
    ensures |r| <= |s| && (s != [] && s[0] == AMP ==> |r| < |s|)
  {
    if s != [] && s[0] == AMP then s[1..] else s
  }

  /** Lookup by the exact key, insertion by the key continued with zeros; None if they disagree. */
  function Put(d: Dict, e: Elem): Option<Dict> {
    var c := Canon(e.key);
    if c in d && d[c].key != e.key then None else Some(d[c := e])
  }

  /** mdict_urldecode: the dictionary it leaves and whether it succeeded. */
  function DecodeInto(d: Dict, s: Bytes): (Dict, bool)
    decreases |s|
  {
    if s == [] then (d, true)
    else match DecodeElem(s)
      case None => (d, false)
      case Some((e, rest)) => if Put(d, e).None? then (d, false) else DecodeInto(Put(d, e).value, rest)
  }

  // ----- round trip

  lemma Nibbles(b: bv8)
    ensures b >> 4 < 16 && b & 15 < 16 && ((b >> 4) << 4) | (b & 15) == b
  {}

  lemma DecodeByte(b: bv8, rest: Bytes)
    ensures Decode(EncodeByte(b) + rest) == Before(b, Decode(rest))
  {}

  /** What comes after a string ends it. */
  predicate Ends(rest: Bytes) { rest != [] ==> rest[0] == AMP || rest[0] == EQ }

  lemma {:induction false} DecodeEncoded(x: Bytes, rest: Bytes)
    requires Ends(rest)
    ensures Decode(Encode(x) + rest) == Some((x, rest))
    decreases |x|
  {
    if x == [] {
      assert Encode(x) + rest == rest;
    } else {
      DecodeEncoded(x[1..], rest);
      DecodeByte(x[0], Encode(x[1..]) + rest);
      Assoc(EncodeByte(x[0]), Encode(x[1..]), rest);
      assert x == [x[0]] + x[1..];
    }
  }

  /** An element whose text is empty. */
  predicate Invisible(e: Elem) { e == Elem([], None) }

  lemma VisibleText(e: Elem)
    ensures EncodeElem(e) == [] <==> Invisible(e)
  {}

  lemma DecodeEncodedElem(e: Elem, rest: Bytes)
    requires (rest != [] ==> rest[0] == AMP) && EncodeElem(e) + rest != []
    ensures DecodeElem(EncodeElem(e) + rest) == Some((e, SkipAmp(rest)))
  {
    if e.val.None? {
      DecodeEncoded(e.key, rest);
    } else {
      var t := Encode(e.val.value) + rest;
      Assoc(Encode(e.key), [EQ] + Encode(e.val.value), rest);
      Assoc([EQ], Encode(e.val.value), rest);
      DecodeEncoded(e.key, [EQ] + t);
      assert ([EQ] + t)[1..] == t;
      DecodeEncoded(e.val.value, rest);
    }
  }

  /** Elements put in one after the other. */
  ghost function PutAll(d: Dict, es: seq<Elem>): (Dict, bool)
    decreases |es|
  {
    if es == [] then (d, true)
    else if Put(d, es[0]).None? then (d, false)
    else PutAll(Put(d, es[0]).value, es[1..])
  }

  /** Decoding the text of a list of elements puts them in, unless the last one has no text. */
  lemma {:induction false} DecodeAll(d: Dict, es: seq<Elem>)
    requires es != [] ==> !Invisible(es[|es| - 1])
    ensures DecodeInto(d, EncodeAll(es)) == PutAll(d, es)
    decreases |es|
  {
    if es != [] {
      FirstDecoded(d, es);
      if Put(d, es[0]).Some? {
        assert |es| > 1 ==> es[1..][|es| - 2] == es[|es| - 1];
        DecodeAll(Put(d, es[0]).value, es[1..]);
      }
    }
  }

  lemma FirstDecoded(d: Dict, es: seq<Elem>)
    requires es != [] && !Invisible(es[|es| - 1])
    ensures DecodeInto(d, EncodeAll(es))
      == if Put(d, es[0]).None? then (d, false) else DecodeInto(Put(d, es[0]).value, EncodeAll(es[1..]))
  {
    FirstElem(es, if |es| == 1 then [] else [AMP] + EncodeAll(es[1..]));
  }

  lemma FirstElem(es: seq<Elem>, rest: Bytes)
    requires es != [] && !Invisible(es[|es| - 1])
    requires rest == if |es| == 1 then [] else [AMP] + EncodeAll(es[1..])
    ensures EncodeAll(es) != [] && DecodeElem(EncodeAll(es)) == Some((es[0], EncodeAll(es[1..])))
  {
    VisibleText(es[0]);
    assert EncodeAll(es) == EncodeElem(es[0]) + rest;
    DecodeEncodedElem(es[0], rest);
    assert |es| > 1 ==> rest[1..] == EncodeAll(es[1..]);
  }

  /** es lists the elements of d in ascending order of their keys, as the walk does. */
  ghost predicate Lists(es: seq<Elem>, d: Dict) {
    (forall i, j :: 0 <= i < j < |es| ==> Less(es[i].key, es[j].key))
    && (forall e :: e in es ==> Canon(e.key) in d && d[Canon(e.key)] == e)
    && forall k :: k in d ==> d[k] in es && Canon(d[k].key) == k
  }

  /** part holds the first n elements of es. */
  ghost predicate Holds(part: Dict, es: seq<Elem>, n: nat)
    requires n <= |es|
  {
    (forall k :: k in part ==> part[k] in es[..n] && Canon(part[k].key) == k)
    && forall i :: 0 <= i < n ==> Canon(es[i].key) in part && part[Canon(es[i].key)] == es[i]
  }

  lemma HoldsAll(part: Dict, es: seq<Elem>, d: Dict)
    requires Lists(es, d) && Holds(part, es, |es|)
    ensures part == d
  {}

  lemma FreshKey(es: seq<Elem>, d: Dict, part: Dict, n: nat)
    requires Lists(es, d) && n < |es| && Holds(part, es, n)
    ensures Canon(es[n].key) !in part
  {}

  lemma HoldsMore(es: seq<Elem>, part: Dict, n: nat)
    requires n < |es| && Holds(part, es, n) && Canon(es[n].key) !in part
    ensures Holds(part[Canon(es[n].key) := es[n]], es, n + 1)
  {}

  lemma {:induction false} PutListed(d: Dict, es: seq<Elem>, n: nat, part: Dict)
    requires Lists(es, d) && n <= |es| && Holds(part, es, n)
    ensures PutAll(part, es[n..]) == (d, true)
    decreases |es| - n
  {
    if n == |es| {
      HoldsAll(part, es, d);
    } else {
      FreshKey(es, d, part, n);
      HoldsMore(es, part, n);
      assert es[n..][0] == es[n] && es[n..][1..] == es[n + 1..];
      PutListed(d, es, n + 1, part[Canon(es[n].key) := es[n]]);
    }
  }

  lemma NothingBelowEmpty(k: Key)
    ensures !Less(k, [])
  {}

  /** The one dictionary that is lost: only the empty key, without a value. */
  predicate Lost(d: Dict) { d == map[[] := Elem([], None)] }

  /** Decoding the encoded form into an empty dictionary rebuilds every other dictionary, null and
   empty values told apart. */
  lemma UrlRoundTrip(d: Dict, es: seq<Elem>)
    requires Lists(es, d)
    ensures DecodeInto(map[], EncodeAll(es)) == if Lost(d) then (map[], true) else (d, true)
    ensures DecodeInto(map[], EncodeAll(es)) == (d, true) <==> !Lost(d)
  {
    if es != [] && Invisible(es[|es| - 1]) {
      LastInvisible(d, es);
    } else {
      LastVisible(d, es);
      DecodeAll(map[], es);
      PutListed(d, es, 0, map[]);
      assert es[0..] == es;
    }
  }

  lemma LastInvisible(d: Dict, es: seq<Elem>)
    requires Lists(es, d) && es != [] && Invisible(es[|es| - 1])
    ensures Lost(d) && EncodeAll(es) == []
  {
    NothingBelowEmpty(es[0].key);
    assert |es| == 1;
    var e := es[0];
    assert Canon(e.key) == [];
    forall k | k in d ensures k == [] && d[k] == e { assert d[k] in es; }
    assert d == map[[] := e];
  }

  lemma LastVisible(d: Dict, es: seq<Elem>)
    requires Lists(es, d) && (es == [] || !Invisible(es[|es| - 1]))
    ensures !Lost(d)
  {
    if es != [] {
      var e := es[|es| - 1];
      assert e in es && d[Canon(e.key)] == e;
    } else {
      assert [] !in d;
    }
  }

  // ----- the loops

  /** urldec_str: the decoded bytes stay within the buffer that was sized beforehand. */
  method UrldecStr(src: Bytes) returns (r: Option<(Bytes, Bytes)>)
    ensures r == Decode(src)
  {
    var len := SizeEstimate(src);
    var dst := new bv8[len + 1](i => 0);
    var d := 0;
    var s := src;
    OntoStart(dst[..d], Decode(src));
    while s != [] && s[0] != AMP && s[0] != EQ
      invariant d + Estimate(s) == len
      invariant Onto(dst[..d], Decode(s)) == Decode(src)
      decreases |s|
    {
      ghost var out := dst[..d];
      ghost var rest := Decode(s);
      if s[0] == PERCENT {
        if |s| < 3 {
          return None;
        }
        var h1, h2 := GetHex(s[1]), GetHex(s[2]);
        if h1.None? || h2.None? {
          return None;
        }
        dst[d] := (h1.value << 4) | h2.value;
        s := s[3..];
      } else if s[0] == PLUS {
        dst[d] := SPACE;
        s := s[1..];
      } else {
        dst[d] := s[0];
        s := s[1..];
      }
      assert dst[..d + 1] == out + [dst[d]];
      OntoMore(out, dst[d], Decode(s));
      d := d + 1;
    }
    dst[d] := 0;
    OntoEnd(dst[..d], s);
    return Some((dst[..d], s));
  }

  ghost function Onto(out: Bytes, r: Option<(Bytes, Bytes)>): Option<(Bytes, Bytes)> {
    if r.None? then None else Some((out + r.value.0, r.value.1))
  }

  lemma OntoMore(out: Bytes, b: bv8, r: Option<(Bytes, Bytes)>)
    ensures Onto(out + [b], r) == Onto(out, Before(b, r))
  {
    if r.Some? { Assoc(out, [b], r.value.0); }
  }

  lemma OntoStart(out: Bytes, r: Option<(Bytes, Bytes)>)
    requires out == []
    ensures Onto(out, r) == r
  {
    if r.Some? { assert out + r.value.0 == r.value.0; }
  }

  lemma OntoEnd(out: Bytes, s: Bytes)
    requires Ends(s)
    ensures Onto(out, Decode(s)) == Some((out, s))
  {
    assert out + [] == out;
  }

  /** The first loop of urldec_str. */
  method SizeEstimate(src: Bytes) returns (len: nat)
    ensures len == Estimate(src)
  {
    var s := src;
    len := 0;
    while s != []
      invariant len + Estimate(s) == Estimate(src)
      decreases |s|
    {
      if s[0] == PERCENT {
        s := s[if |s| < 3 then |s| else 3..];
      } else if s[0] == AMP || s[0] == EQ {
        return;
      } else {
        s := s[1..];
      }
      len := len + 1;
    }
  }

  /** urlenc_str. */
  method UrlencStr(dst: Bytes, str: Bytes) returns (r: Bytes)
    ensures r == dst + Encode(str)
  {
    r := dst;
    var s := str;
    while s != []
      invariant r + Encode(s) == dst + Encode(str)
      decreases |s|
    {
      Assoc(r, EncodeByte(s[0]), Encode(s[1..]));
      if s[0] == SPACE {
        r := r + [PLUS];
      } else if IsPlain(s[0]) {
        r := r + [s[0]];
      } else {
        r := r + [PERCENT, HexChar(s[0] >> 4), HexChar(s[0] & 15)];
      }
      s := s[1..];
    }
  }

  /** urlenc_elem, after the separator. */
  method UrlencElem(dst: Bytes, e: Elem) returns (r: Bytes)
    ensures r == dst + EncodeElem(e)
  {
    r := UrlencStr(dst, e.key);
    if e.val.Some? {
      ghost var k, v := Encode(e.key), Encode(e.val.value);
      r := r + [EQ];
      r := UrlencStr(r, e.val.value);
      Assoc(dst + k, [EQ], v);
      Assoc(dst, k, [EQ] + v);
    }
  }

  /** mdict_urlencode over the elements es that the walk visits. */
  method Urlencode(es: seq<Elem>) returns (dst: Bytes)
    ensures dst == EncodeAll(es)
  {
    dst := [];
    for i := 0 to |es|
      invariant dst + Rest(es, i) == EncodeAll(es)
    {
      RestStep(es, i);
      ghost var before := dst;
      if i > 0 {
        dst := dst + [AMP];
      }
      ghost var sep := if i > 0 then [AMP] else [];
      assert dst == before + sep;
      dst := UrlencElem(dst, es[i]);
      Assoc(before, sep, EncodeElem(es[i]));
      Assoc(before, Piece(es, i), Rest(es, i + 1));
    }
  }

  ghost function Piece(es: seq<Elem>, i: nat): Bytes
    requires i < |es|
  {
    (if i > 0 then [AMP] else []) + EncodeElem(es[i])
  }

  /** The text from element i on, with the separator before it. */
  ghost function Rest(es: seq<Elem>, i: nat): Bytes
    requires i <= |es|
  {
    if i == |es| then [] else if i == 0 then EncodeAll(es) else [AMP] + EncodeAll(es[i..])
  }

  lemma RestStep(es: seq<Elem>, i: nat)
    requires i < |es|
    ensures Rest(es, i) == Piece(es, i) + Rest(es, i + 1)
  {
    assert es[i..][1..] == es[i + 1..] && es[0..] == es;
    FirstOf(es[i..]);
    if i + 1 == |es| {
      assert Piece(es, i) + [] == Piece(es, i);
    } else {
      Assoc(if i > 0 then [AMP] else [], EncodeElem(es[i]), [AMP] + EncodeAll(es[i + 1..]));
    }
    assert [] + EncodeAll(es) == EncodeAll(es);
  }

  lemma FirstOf(es: seq<Elem>)
    requires es != []
    ensures EncodeAll(es) == if |es| == 1 then EncodeElem(es[0]) else EncodeElem(es[0]) + ([AMP] + EncodeAll(es[1..]))
  {}

  class MDict {
    var items: Dict

    ghost predicate Valid() reads this { forall k :: k in items ==> Canon(items[k].key) == k }

    constructor ()
      ensures Valid() && items == map[]
    {
      items := map[];
    }

    /** mdict_urldecode. */
    method Urldecode(str: Bytes) returns (ok: bool)
      requires Valid()
      modifies this
      ensures Valid() && (items, ok) == DecodeInto(old(items), str)
    {
      var s := str;
      while s != []
        invariant Valid() && DecodeInto(items, s) == DecodeInto(old(items), str)
        decreases |s|
      {
        var k := UrldecStr(s);
        if k.None? {
          return false;
        }
        var key := k.value.0;
        var val: Option<Bytes> := None;
        s := k.value.1;
        if s != [] && s[0] == EQ {
          var v := UrldecStr(s[1..]);
          if v.None? {
            return false;
          }
          val, s := Some(v.value.0), v.value.1;
        }
        if s != [] && s[0] == AMP {
          s := s[1..];
        }
        var c := Canon(key);
        if c in items && items[c].key != key {
          return false;
        }
        items := items[c := Elem(key, val)];
      }
      return true;
    }
  }

  /** Encoding a dictionary and decoding the text into a new one. */
  method Copied(d: MDict, es: seq<Elem>) returns (e: MDict)
    requires d.Valid() && Lists(es, d.items)
    ensures fresh(e) && (e.items == d.items <==> !Lost(d.items))
  {
    UrlRoundTrip(d.items, es);
    var text := Urlencode(es);
    e := new MDict();
    var ok := e.Urldecode(text);
  }
}
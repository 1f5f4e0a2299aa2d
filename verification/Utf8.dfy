/** UTF-8 coding and validation of usual/utf8.c.

 `ValidateString` is proved to accept exactly the concatenations of encodings of non-zero
 Unicode scalar values (section 4 of RFC 3629), `GetChar` to invert the encoder, and the two
 validators of the source, utf8_validate_seq and utf8_get_char, to agree.
 */
module Utf8 {
  import opened Prelude

  type Bytes = seq<Byte>

  /** A code point that may occur in a string: not NUL, not a surrogate. */
  predicate Scalar(c: int) { 0 < c <= 0x10FFFF && !(0xD800 <= c <= 0xDFFF) }

  /** Tail bytes 10xxxxxx. */
  predicate Tail(b: Byte) { 0x80 <= b < 0xC0 }

  /** utf8_put_char without a limit on room: surrogates and values over 0x10FFFF write nothing. */
  function Encode(c: nat): (r: Bytes)
    ensures |r| <= 4
  {
    if c < 0x80 then [c]
    else if c < 0x800 then [0xC0 + c / 64, 0x80 + c % 64]
    else if c < 0x10000 then
      if 0xD800 <= c <= 0xDFFF then [] else [0xE0 + c / 4096, 0x80 + c / 64 % 64, 0x80 + c % 64]
    else if c <= 0x10FFFF then [0xF0 + c / 262144, 0x80 + c / 4096 % 64, 0x80 + c / 64 % 64, 0x80 + c % 64]
    else []
  }

  /** utf8_put_char: None if the encoding does not fit into `room` bytes.  Room is asked for
      surrogates too, though nothing is written for them. */
  function PutChar(c: nat, room: nat): (r: Option<Bytes>)
    ensures Scalar(c) ==> r == if |Encode(c)| <= room then Some(Encode(c)) else None
    ensures c > 0 && !Scalar(c) ==> r == if c < 0x10000 && room < 3 then None else Some([])
  {
    var need := if c < 0x80 then 1 else if c < 0x800 then 2 else if c < 0x10000 then 3 else if c <= 0x10FFFF then 4
      else 0;
    if need > room then None else Some(Encode(c))
  }

  /** utf8_validate_seq on the start of u: length of a valid sequence, 0 if there is none. */
  function ValidateSeq(u: Bytes): (n: nat)
    ensures n <= 4 && n <= |u|
  {
    if u == [] then 0
    else if u[0] < 0x80 then (if u[0] == 0 then 0 else 1)
    else if u[0] < 0xC2 then 0
    else if u[0] < 0xE0 then (if |u| < 2 || !Tail(u[1]) then 0 else 2)
    else if u[0] < 0xF0 then
      if |u| < 3 || (u[0] == 0xE0 && u[1] < 0xA0) || (u[0] == 0xED && u[1] >= 0xA0) || !Tail(u[1]) || !Tail(u[2]) then 0
        else 3
    else if u[0] < 0xF5 then
      if |u| < 4 || (u[0] == 0xF0 && u[1] < 0x90) || (u[0] == 0xF4 && u[1] > 0x8F)
         || !Tail(u[1]) || !Tail(u[2]) || !Tail(u[3]) then 0 else 4
    else 0
  }

  /** The code point of a sequence that ValidateSeq accepts. */
  function Code(u: Bytes): (c: nat)
    requires ValidateSeq(u) > 0
  {
    var at := (i: nat) requires i < |u| => u[i] as int;
    if u[0] < 0x80 then at(0)
    else if u[0] < 0xE0 then (at(0) - 0xC0) * 64 + (at(1) - 0x80)
    else if u[0] < 0xF0 then Join(at(0) - 0xE0, at(1) - 0x80, at(2) - 0x80)
    else Join((at(0) - 0xF0) * 64 + (at(1) - 0x80), at(2) - 0x80, at(3) - 0x80)
  }

  /** Three groups of bits, the lower two six bits wide. */
  function Join(a: nat, b: nat, c: nat): nat { a * 4096 + b * 64 + c }

  /** Every accepted sequence is the encoding of a scalar value. */
  lemma ValidIsEncoding(u: Bytes)
    requires ValidateSeq(u) > 0
    ensures Scalar(Code(u)) && Encode(Code(u)) == u[..ValidateSeq(u)]
  {
    var n := ValidateSeq(u);
    if n == 3 {
      Valid3(u);
    } else if n == 4 {
      Valid4(u);
    }
  }

  lemma Valid3(u: Bytes)
    requires ValidateSeq(u) == 3
    ensures Scalar(Code(u)) && Encode(Code(u)) == u[..3]
  {
    var a: int, b: int, c: int := u[0] - 0xE0, u[1] - 0x80, u[2] - 0x80;
    BitGroups(a, b, c);
    assert Code(u) == Join(a, b, c);
    assert Encode(Join(a, b, c)) == [0xE0 + a, 0x80 + b, 0x80 + c];
  }

  lemma Valid4(u: Bytes)
    requires ValidateSeq(u) == 4
    ensures Scalar(Code(u)) && Encode(Code(u)) == u[..4]
  {
    var a: int, b: int, c: int, d: int := u[0] - 0xF0, u[1] - 0x80, u[2] - 0x80, u[3] - 0x80;
    BitGroups(a * 64 + b, c, d);
    assert (a * 64 + b) % 64 == b && Join(a * 64 + b, c, d) / 262144 == a;
    assert Code(u) == Join(a * 64 + b, c, d);
    assert Encode(Code(u)) == [0xF0 + a, 0x80 + b, 0x80 + c, 0x80 + d];
  }

  lemma BitGroups(a: nat, b: nat, c: nat)
    requires b < 64 && c < 64
    ensures Join(a, b, c) / 4096 == a && Join(a, b, c) / 64 % 64 == b && Join(a, b, c) % 64 == c
  {
    var n := Join(a, b, c);
    assert n == 64 * (64 * a + b) + c;
    assert n / 64 == 64 * a + b;
  }

  lemma Split(c: nat)
    ensures Join(c / 4096, c / 64 % 64, c % 64) == c
  {
    var q, r := c / 64, c % 64;
    var a, b := q / 64, q % 64;
    assert c == 64 * q + r && q == 64 * a + b;
    BitGroups(a, b, r);
  }

  /** Every encoding of a scalar value is accepted, with its full length, whatever follows. */
  lemma EncodingIsValid(c: nat, rest: Bytes)
    requires Scalar(c)
    ensures ValidateSeq(Encode(c) + rest) == |Encode(c)| > 0 && Code(Encode(c) + rest) == c
  {
    if c < 0x80 {
    } else if c < 0x800 {
      Encoding2(c, rest);
    } else if c < 0x10000 {
      Encoding3(c, rest);
    } else {
      Encoding4(c, rest);
    }
  }

  lemma Encoding2(c: nat, rest: Bytes)
    requires 0x80 <= c < 0x800
    ensures ValidateSeq(Encode(c) + rest) == 2 && Code(Encode(c) + rest) == c
  {}

  lemma Encoding3(c: nat, rest: Bytes)
    requires 0x800 <= c < 0x10000 && Scalar(c)
    ensures ValidateSeq(Encode(c) + rest) == 3 && Code(Encode(c) + rest) == c
  {
    var u := Encode(c) + rest;
    assert u[0] == 0xE0 + c / 4096 && u[1] == 0x80 + c / 64 % 64 && u[2] == 0x80 + c % 64;
    Split(c);
  }

  lemma Encoding4(c: nat, rest: Bytes)
    requires 0x10000 <= c <= 0x10FFFF
    ensures ValidateSeq(Encode(c) + rest) == 4 && Code(Encode(c) + rest) == c
  {
    var u := Encode(c) + rest;
    assert u[0] == 0xF0 + c / 262144 && u[1] == 0x80 + c / 4096 % 64 && u[2] == 0x80 + c / 64 % 64
      && u[3] == 0x80 + c % 64;
    Split(c);
    var q := c / 4096;
    assert q / 64 == c / 262144 && q == q / 64 * 64 + q % 64;
  }

  /** utf8_get_char on a non-empty rest of the source: the code point and the number of bytes
      taken, or the negated first byte and 1 if there is no valid sequence. */
  function GetChar(p: Bytes): (r: (int, nat))
    requires p != []
  {
    var at := (i: nat) requires i < |p| => p[i] as int;
    var bad := (-at(0), 1);
    if p[0] < 0x80 then (at(0), 1)
    else if 0xC0 <= p[0] < 0xE0 then
      if |p| < 2 || !Tail(p[1]) then bad
      else
        var c := (at(0) - 0xC0) * 64 + (at(1) - 0x80);
        if c < 0x80 then bad else (c, 2)
    else if 0xE0 <= p[0] < 0xF0 then
      if |p| < 3 || !Tail(p[1]) || !Tail(p[2]) then bad
      else
        var c := Join(at(0) - 0xE0, at(1) - 0x80, at(2) - 0x80);
        if c < 0x800 || 0xD800 <= c < 0xE000 then bad else (c, 3)
    else if 0xF0 <= p[0] < 0xF8 then
      if |p| < 4 || !Tail(p[1]) || !Tail(p[2]) || !Tail(p[3]) then bad
      else
        var c := Join((at(0) - 0xF0) * 64 + (at(1) - 0x80), at(2) - 0x80, at(3) - 0x80);
        if c < 0x10000 || c > 0x10FFFF then bad else (c, 4)
    else bad
  }

  /** The decoder and the validator accept the same sequences, apart from NUL. */
  lemma GetCharAgrees(p: Bytes)
    requires p != []
    ensures GetChar(p).0 > 0 <==> ValidateSeq(p) > 0
    ensures ValidateSeq(p) > 0 ==> GetChar(p) == (Code(p), ValidateSeq(p))
    ensures ValidateSeq(p) == 0 ==> GetChar(p) == (-(p[0] as int), 1)
  {}

  /** Decoding undoes encoding. */
  lemma GetPutRoundTrip(c: nat, rest: Bytes)
    requires Scalar(c)
    ensures Encode(c) != [] && GetChar(Encode(c) + rest) == (c, |Encode(c)|)
  {
    EncodingIsValid(c, rest);
    GetCharAgrees(Encode(c) + rest);
  }

  // ----- strings

  /** Valid sequences one after the other. */
  predicate Text(s: Bytes)
    decreases |s|
  {
    s == [] || (ValidateSeq(s) > 0 && Text(s[ValidateSeq(s)..]))
  }

  function EncodeAll(cs: seq<nat>): Bytes { if cs == [] then [] else Encode(cs[0]) + EncodeAll(cs[1..]) }

  lemma {:induction false} EncodedIsText(cs: seq<nat>)
    requires forall i :: 0 <= i < |cs| ==> Scalar(cs[i])
    ensures Text(EncodeAll(cs))
  {
    if cs != [] {
      EncodedIsText(cs[1..]);
      EncodingIsValid(cs[0], EncodeAll(cs[1..]));
      assert EncodeAll(cs)[|Encode(cs[0])|..] == EncodeAll(cs[1..]);
    }
  }

  lemma {:induction false} TextIsEncoded(s: Bytes) returns (cs: seq<nat>)
    requires Text(s)
    ensures (forall i :: 0 <= i < |cs| ==> Scalar(cs[i])) && EncodeAll(cs) == s
    decreases |s|
  {
    if s == [] {
      return [];
    }
    var n := ValidateSeq(s);
    var rest := TextIsEncoded(s[n..]);
    ValidIsEncoding(s);
    cs := [Code(s)] + rest;
    EncodedFirst(s, n, Code(s), rest);
  }

  lemma EncodedFirst(s: Bytes, n: nat, c: nat, rest: seq<nat>)
    requires n <= |s| && Encode(c) == s[..n] && EncodeAll(rest) == s[n..]
    ensures EncodeAll([c] + rest) == s
  {
    assert ([c] + rest)[1..] == rest;
  }

  /** A valid sequence in front of a text makes a text. */
  lemma {:induction false} TextCons(c: nat, s: Bytes)
    requires Scalar(c) && Text(s)
    ensures Text(Encode(c) + s)
  {
    EncodingIsValid(c, s);
    assert (Encode(c) + s)[|Encode(c)|..] == s;
  }

  lemma {:induction false} TextHasNoNul(s: Bytes)
    requires Text(s)
    ensures 0 !in s
    decreases |s|
  {
    if s != [] {
      var n := ValidateSeq(s);
      TextHasNoNul(s[n..]);
      assert s == s[..n] + s[n..];
      assert 0 !in s[..n];
    }
  }

  /** utf8_validate_string: accepts exactly the encoded strings of non-zero scalar values. */
  method ValidateString(s: Bytes) returns (ok: bool)
    ensures ok <==> Text(s)
    ensures ok <==> exists cs: seq<nat> :: (forall i :: 0 <= i < |cs| ==> Scalar(cs[i])) && EncodeAll(cs) == s
  {
    var i := 0;
    ok := true;
    while i < |s|
      invariant 0 <= i <= |s| && ok
      invariant Text(s) <==> Text(s[i..])
    {
      if s[i] >= 0x80 {
        var n := ValidateSeq(s[i..]);
        if n == 0 {
          ok := false;
          break;
        }
        assert s[i..][n..] == s[i + n..];
        i := i + n;
      } else if s[i] == 0 {
        ok := false;
        break;
      } else {
        assert s[i..][1..] == s[i + 1..];
        i := i + 1;
      }
    }
    if ok {
      var cs := TextIsEncoded(s);
    }
    if cs: seq<nat> :| (forall i :: 0 <= i < |cs| ==> Scalar(cs[i])) && EncodeAll(cs) == s {
      EncodedIsText(cs);
    }
  }
}

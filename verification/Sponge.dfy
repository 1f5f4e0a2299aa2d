/** The sponge as a machine that handles one byte at a time (section 4 of FIPS 202).

 Every operation of usual/crypto/keccak.c combines the state byte at the current position with
 one input byte into a new state byte and an output byte, moves on by one, and permutes the
 state when the rate is used up.
 */
module Sponge {
  import opened Prelude

  /** New state byte and output byte from state byte and input byte. */
  type Op<!B> = (B, B) -> (B, B)

  datatype State<B> = State(bytes: seq<B>, pos: nat)

  ghost predicate Fits<B(!new)>(s: State<B>, r: nat, f: seq<B> -> seq<B>) {
    s.pos < r <= |s.bytes| && forall b :: |b| == |s.bytes| ==> |f(b)| == |b|
  }

  /** permute_if_needed. */
  function Settle<B(!new)>(s: State<B>, r: nat, f: seq<B> -> seq<B>): State<B> {
    if s.pos == r then State(f(s.bytes), 0) else s
  }

  function Step<B(!new)>(op: Op<B>, s: State<B>, x: B, r: nat, f: seq<B> -> seq<B>): (t: State<B>)
    requires Fits(s, r, f)
    ensures Fits(t, r, f) && |t.bytes| == |s.bytes|
  {
    Settle(State(s.bytes[s.pos := op(s.bytes[s.pos], x).0], s.pos + 1), r, f)
  }

  function Run<B(!new)>(op: Op<B>, s: State<B>, data: seq<B>, r: nat, f: seq<B> -> seq<B>): (t: (State<B>, seq<B>))
    requires Fits(s, r, f)
    ensures Fits(t.0, r, f) && |t.1| == |data| && |t.0.bytes| == |s.bytes|
    decreases data
  {
    if data == [] then (s, [])
    else
      var (t, out) := Run(op, Step(op, s, data[0], r, f), data[1..], r, f);
      (t, [op(s.bytes[s.pos], data[0]).1] + out)
  }

  /** Any split of the data into calls gives the same state and the same output. */
  lemma {:induction false} RunConcat<B(!new)>(op: Op<B>, s: State<B>, a: seq<B>, b: seq<B>, r: nat, f: seq<B> -> seq<B>)
    requires Fits(s, r, f)
    ensures var (t, out) := Run(op, s, a, r, f);
            var (t', out') := Run(op, t, b, r, f);
            Run(op, s, a + b, r, f) == (t', out + out')
    decreases a
  {
    if a == [] {
      assert a + b == b;
      assert [] + Run(op, s, b, r, f).1 == Run(op, s, b, r, f).1;
    } else {
      var x, rest := a[0], a[1..];
      var s' := Step(op, s, x, r, f);
      RunConcat(op, s', rest, b, r, f);
      RunCons(op, s, x, rest, r, f);
      RunCons(op, s, x, rest + b, r, f);
      assert a == [x] + rest;
      Assoc([x], rest, b);
      var (t, out) := Run(op, s', rest, r, f);
      Assoc([op(s.bytes[s.pos], x).1], out, Run(op, t, b, r, f).1);
    }
  }

  /** What a whole block does to the state bytes from pos on. */
  function Changed<B(!new)>(op: Op<B>, bytes: seq<B>, pos: nat, data: seq<B>): (b: seq<B>)
    requires pos + |data| <= |bytes|
    ensures |b| == |bytes|
  {
    seq(|bytes|, i requires 0 <= i < |bytes| =>
      if pos <= i < pos + |data| then op(bytes[i], data[i - pos]).0 else bytes[i])
  }

  function Output<B(!new)>(op: Op<B>, bytes: seq<B>, pos: nat, data: seq<B>): (b: seq<B>)
    requires pos + |data| <= |bytes|
    ensures |b| == |data|
  {
    seq(|data|, i requires 0 <= i < |data| => op(bytes[pos + i], data[i]).1)
  }

  /** A whole block at once: change the state in place, then permute if the rate is used up. */
  function Block<B(!new)>(op: Op<B>, s: State<B>, data: seq<B>, r: nat, f: seq<B> -> seq<B>): (State<B>, seq<B>)
    requires s.pos + |data| <= |s.bytes|
  {
    (Settle(State(Changed(op, s.bytes, s.pos, data), s.pos + |data|), r, f), Output(op, s.bytes, s.pos, data))
  }

  /** Up to the end of the rate, the machine does what Block does. */
  lemma {:induction false} RunBlock<B(!new)>(op: Op<B>, s: State<B>, data: seq<B>, r: nat, f: seq<B> -> seq<B>)
    requires Fits(s, r, f) && data != [] && s.pos + |data| <= r
    ensures Run(op, s, data, r, f) == Block(op, s, data, r, f)
    decreases data
  {
    if |data| == 1 {
      RunOne(op, s, data, r, f);
    } else {
      RunBlock(op, State(s.bytes[s.pos := op(s.bytes[s.pos], data[0]).0], s.pos + 1), data[1..], r, f);
      RunMore(op, s, data, r, f);
    }
  }

  lemma RunOne<B(!new)>(op: Op<B>, s: State<B>, data: seq<B>, r: nat, f: seq<B> -> seq<B>)
    requires Fits(s, r, f) && |data| == 1 && s.pos < r
    ensures Run(op, s, data, r, f) == Block(op, s, data, r, f)
  {
    BlockCons(op, s, data, r, f);
    RunEmpty(op, Step(op, s, data[0], r, f), data[1..], r, f);
  }

  lemma RunMore<B(!new)>(op: Op<B>, s: State<B>, data: seq<B>, r: nat, f: seq<B> -> seq<B>)
    requires Fits(s, r, f) && |data| > 1 && s.pos + |data| <= r
    requires var t := State(s.bytes[s.pos := op(s.bytes[s.pos], data[0]).0], s.pos + 1);
             Fits(t, r, f) && Run(op, t, data[1..], r, f) == Block(op, t, data[1..], r, f)
    ensures Run(op, s, data, r, f) == Block(op, s, data, r, f)
  {
    assert data == [data[0]] + data[1..];
    RunCons(op, s, data[0], data[1..], r, f);
    BlockCons(op, s, data, r, f);
  }

  lemma BlockCons<B(!new)>(op: Op<B>, s: State<B>, data: seq<B>, r: nat, f: seq<B> -> seq<B>)
    requires Fits(s, r, f) && data != [] && s.pos + |data| <= r
    ensures var y, t := op(s.bytes[s.pos], data[0]).1,
      State(s.bytes[s.pos := op(s.bytes[s.pos], data[0]).0], s.pos + 1);
            if |data| == 1 then Block(op, s, data, r, f) == (Settle(t, r, f), [y] + [])
            else
              var (t', out) := Block(op, t, data[1..], r, f);
              Block(op, s, data, r, f) == (t', [y] + out) && Settle(t, r, f) == t
  {
    BlockMore(op, s.bytes, s.pos, data);
  }

  lemma RunEmpty<B(!new)>(op: Op<B>, s: State<B>, data: seq<B>, r: nat, f: seq<B> -> seq<B>)
    requires Fits(s, r, f) && data == []
    ensures Run(op, s, data, r, f) == (s, [])
  {}

  lemma BlockMore<B(!new)>(op: Op<B>, bytes: seq<B>, pos: nat, data: seq<B>)
    requires data != [] && pos + |data| <= |bytes|
    ensures var b := bytes[pos := op(bytes[pos], data[0]).0];
            Changed(op, bytes, pos, data) == Changed(op, b, pos + 1, data[1..])
            && Output(op, bytes, pos, data) == [op(bytes[pos], data[0]).1] + Output(op, b, pos + 1, data[1..])
    ensures |data| == 1 ==> Changed(op, bytes, pos, data) == bytes[pos := op(bytes[pos], data[0]).0]
    ensures |data| == 1 ==> Output(op, bytes, pos, data) == [op(bytes[pos], data[0]).1]
  {}

  lemma RunCons<B(!new)>(op: Op<B>, s: State<B>, x: B, data: seq<B>, r: nat, f: seq<B> -> seq<B>)
    requires Fits(s, r, f)
    ensures var (t, out) := Run(op, Step(op, s, x, r, f), data, r, f);
            Run(op, s, [x] + data, r, f) == (t, [op(s.bytes[s.pos], x).1] + out)
  {}

  /** A call handles the data in chunks that end with the rate at the latest. */
  lemma ChunkStep<B(!new)>(op: Op<B>, s: State<B>, src: seq<B>, n: nat, r: nat, f: seq<B> -> seq<B>)
    requires Fits(s, r, f) && 0 < n <= |src| && s.pos + n <= r
    ensures var (t, out) := Block(op, s, src[..n], r, f);
            Fits(t, r, f) && var (t', out') := Run(op, t, src[n..], r, f); Run(op, s, src, r, f) == (t', out + out')
  {
    var a, b := src[..n], src[n..];
    assert src == a + b;
    RunBlock(op, s, a, r, f);
    RunConcat(op, s, a, b, r, f);
  }

  function Absorb(s: bv8, x: bv8): (bv8, bv8) { (s ^ x, 0) }

  function Squeeze(s: bv8, x: bv8): (bv8, bv8) { (s, s) }

  function SqueezeXor(s: bv8, x: bv8): (bv8, bv8) { (s, s ^ x) }

  function Encrypt(s: bv8, x: bv8): (bv8, bv8) { (s ^ x, s ^ x) }

  function Decrypt(s: bv8, x: bv8): (bv8, bv8) { (s ^ (s ^ x), s ^ x) }

  /** One byte: decrypting undoes encrypting and changes the state alike. */
  lemma DecryptByte(s: State<bv8>, x: bv8, r: nat, f: seq<bv8> -> seq<bv8>)
    requires Fits(s, r, f)
    ensures var k := s.bytes[s.pos];
            Step(Decrypt, s, Encrypt(k, x).1, r, f) == Step(Encrypt, s, x, r, f) && Decrypt(k, Encrypt(k, x).1).1 == x
  {}

  /** From equal states decryption gives back the data and ends in the state of encryption. */
  lemma {:induction false} DecryptInverts(s: State<bv8>, data: seq<bv8>, r: nat, f: seq<bv8> -> seq<bv8>)
    requires Fits(s, r, f)
    ensures var (t, out) := Run(Encrypt, s, data, r, f); Run(Decrypt, s, out, r, f) == (t, data)
    decreases data
  {
    if data != [] {
      var x, rest := data[0], data[1..];
      var t := Step(Encrypt, s, x, r, f);
      var y := Encrypt(s.bytes[s.pos], x).1;
      DecryptByte(s, x, r, f);
      DecryptInverts(t, rest, r, f);
      RunCons(Decrypt, s, y, Run(Encrypt, t, rest, r, f).1, r, f);
      assert data == [x] + rest;
    }
  }
}

/** The sponge functions of usual/crypto/keccak.c, which work on 64-bit lanes where they can and
 on bytes where they must, refine the machine of module Sponge.

 The permutation keccak_f is any function from 25 lanes to 25 lanes.
 */
module Keccak {
  import opened Prelude
  import opened LaneBytes
  import opened Sponge

  type Lanes = seq<bv64>

  function Bytes(lanes: Lanes): (b: seq<bv8>)
    ensures |b| == 8 * |lanes|
  {
    seq(8 * |lanes|, i requires 0 <= i < 8 * |lanes| => ByteOf(lanes[i / 8], i % 8))
  }

  function LanesOf(b: seq<bv8>): (l: Lanes)
    ensures |l| == |b| / 8
  {
    seq(|b| / 8, i requires 0 <= i < |b| / 8 => Word(b[8 * i..8 * i + 8], 8))
  }

  /** The permutation of lanes, as one of bytes. */
  function OnBytes(f: Lanes -> Lanes): seq<bv8> -> seq<bv8> {
    (b: seq<bv8>) => if |b| == 200 then Bytes(f(LanesOf(b))) else b
  }

  lemma BytesAt(lanes: Lanes, i: nat, k: nat)
    requires i < |lanes| && k < 8
    ensures Bytes(lanes)[8 * i + k] == ByteOf(lanes[i], k)
  {}

  lemma LanesRoundTrip(lanes: Lanes)
    ensures LanesOf(Bytes(lanes)) == lanes
  {
    var b := Bytes(lanes);
    forall i | 0 <= i < |lanes| ensures LanesOf(b)[i] == lanes[i] {
      var p := b[8 * i..8 * i + 8];
      forall k: nat | k < 8 ensures ByteOf(Word(p, 8), k) == ByteOf(lanes[i], k) {
        WordByte(p, 8, k);
        BytesAt(lanes, i, k);
      }
      SameBytes(Word(p, 8), lanes[i]);
    }
  }

  function XorByte(a: bv8, b: bv8): bv8 { a ^ b }

  /** Byte k of lane c after an exclusive or of w into lane i. */
  lemma XorLaneAt(lanes: Lanes, i: nat, w: bv64, c: nat, k: nat)
    requires i < |lanes| && c < |lanes| && k < 8
    ensures Bytes(lanes[i := Xor(lanes[i], w)])[8 * c + k]
      == if c == i then XorByte(Bytes(lanes)[8 * c + k], ByteOf(w, k)) else Bytes(lanes)[8 * c + k]
  {
    BytesAt(lanes, c, k);
    BytesAt(lanes[i := Xor(lanes[i], w)], c, k);
    ByteXor(lanes[i], w, k);
  }

  lemma XorByteZero(b: bv8)
    ensures XorByte(b, 0) == b
  {}

  lemma XorPlacedAt(lanes: Lanes, i: nat, m: nat, v: bv8, c: nat, k: nat)
    requires i < |lanes| && m < 8 && c < |lanes| && k < 8
    ensures Bytes(lanes[i := Xor(lanes[i], Placed(v, m))])[8 * c + k]
      == if c == i && k == m then XorByte(Bytes(lanes)[8 * c + k], v) else Bytes(lanes)[8 * c + k]
  {
    XorLaneAt(lanes, i, Placed(v, m), c, k);
    PlacedByte(v, m, k);
    XorByteZero(Bytes(lanes)[8 * c + k]);
  }

  /** xor_byte on lanes changes one byte. */
  lemma XorPlaced(lanes: Lanes, n: nat, v: bv8)
    requires n < 8 * |lanes|
    ensures var i := n / 8;
            Bytes(lanes[i := Xor(lanes[i], Placed(v, n % 8))]) == Bytes(lanes)[n := XorByte(Bytes(lanes)[n], v)]
  {
    var a, b := Bytes(lanes[n / 8 := Xor(lanes[n / 8], Placed(v, n % 8))]),
      Bytes(lanes)[n := XorByte(Bytes(lanes)[n], v)];
    forall j: nat | j < |a| ensures a[j] == b[j] {
      assert j == 8 * (j / 8) + j % 8;
      XorPlacedAt(lanes, n / 8, n % 8, v, j / 8, j % 8);
    }
  }

  lemma XorWordAt(lanes: Lanes, i: nat, p: seq<bv8>, c: nat, k: nat)
    requires i < |lanes| && |p| == 8 && c < |lanes| && k < 8
    ensures Bytes(lanes[i := Xor(lanes[i], Word(p, 8))])[8 * c + k]
      == if c == i then XorByte(Bytes(lanes)[8 * c + k], p[k]) else Bytes(lanes)[8 * c + k]
  {
    XorLaneAt(lanes, i, Word(p, 8), c, k);
    WordByte(p, 8, k);
  }

  lemma InLane(i: nat, j: nat)
    ensures j / 8 == i <==> 8 * i <= j < 8 * i + 8
    ensures j / 8 == i ==> j % 8 == j - 8 * i
    ensures j == 8 * (j / 8) + j % 8
  {}

  lemma AbsorbedAt(b: seq<bv8>, pos: nat, p: seq<bv8>, j: nat)
    requires pos + |p| <= |b| && j < |b|
    ensures Changed(Absorb, b, pos, p)[j] == if pos <= j < pos + |p| then XorByte(b[j], p[j - pos]) else b[j]
  {}

  /** xor_lane of a decoded word changes eight bytes. */
  lemma XorWord(lanes: Lanes, i: nat, p: seq<bv8>)
    requires i < |lanes| && |p| == 8
    ensures Bytes(lanes[i := Xor(lanes[i], Word(p, 8))]) == Changed(Absorb, Bytes(lanes), 8 * i, p)
  {
    var a, b := Bytes(lanes[i := Xor(lanes[i], Word(p, 8))]), Changed(Absorb, Bytes(lanes), 8 * i, p);
    forall j: nat | j < |a| ensures a[j] == b[j] {
      InLane(i, j);
      XorWordAt(lanes, i, p, j / 8, j % 8);
      AbsorbedAt(Bytes(lanes), 8 * i, p, j);
    }
  }

  lemma AbsorbNothing(b: seq<bv8>, pos: nat)
    requires pos <= |b|
    ensures Changed(Absorb, b, pos, []) == b
  {}

  /** Absorbing can be done a piece at a time. */
  lemma AbsorbPieces(b: seq<bv8>, pos: nat, p: seq<bv8>, n: nat)
    requires pos + |p| <= |b| && n <= |p|
    ensures Changed(Absorb, Changed(Absorb, b, pos, p[..n]), pos + n, p[n..]) == Changed(Absorb, b, pos, p)
  {}

  lemma AbsorbOne(b: seq<bv8>, pos: nat, p: seq<bv8>)
    requires pos + |p| <= |b| && p != []
    ensures Changed(Absorb, b[pos := XorByte(b[pos], p[0])], pos + 1, p[1..]) == Changed(Absorb, b, pos, p)
  {}

  /** le64enc. */
  function LaneBytes8(w: bv64): (b: seq<bv8>)
    ensures |b| == 8
  {
    seq(8, k requires 0 <= k < 8 => ByteOf(w, k))
  }

  lemma LaneIsSlice(lanes: Lanes, i: nat)
    requires i < |lanes|
    ensures LaneBytes8(lanes[i]) == Bytes(lanes)[8 * i..8 * i + 8]
  {}

  lemma SlicesJoin<T>(b: seq<T>, i: nat, j: nat, k: nat)
    requires i <= j <= k <= |b|
    ensures b[i..j] + b[j..k] == b[i..k]
  {}

  function XorAll(a: seq<bv8>, b: seq<bv8>): (r: seq<bv8>)
    requires |a| == |b|
    ensures |r| == |a|
  {
    seq(|a|, i requires 0 <= i < |a| => XorByte(a[i], b[i]))
  }

  /** dst[i] ^= src[i]. */
  method XorInto(dst: seq<bv8>, src: seq<bv8>) returns (r: seq<bv8>)
    requires |dst| == |src|
    ensures r == XorAll(dst, src)
  {
    r := dst;
    for i := 0 to |src|
      invariant |r| == |src| && (forall k :: 0 <= k < i ==> r[k] == XorByte(dst[k], src[k]))
        && (forall k :: i <= k < |src| ==> r[k] == dst[k])
    {
      r := r[i := XorByte(r[i], src[i])];
    }
  }

  lemma SqueezeInBlock(b: seq<bv8>, pos: nat, p: seq<bv8>)
    requires pos + |p| <= |b|
    ensures Output(Squeeze, b, pos, p) == b[pos..pos + |p|] && Changed(Squeeze, b, pos, p) == b
  {}

  lemma SqueezeXorInBlock(b: seq<bv8>, pos: nat, p: seq<bv8>)
    requires pos + |p| <= |b|
    ensures Output(SqueezeXor, b, pos, p) == XorAll(b[pos..pos + |p|], p) && Changed(SqueezeXor, b, pos, p) == b
  {}

  lemma EncryptInBlock(b: seq<bv8>, pos: nat, p: seq<bv8>)
    requires pos + |p| <= |b|
    ensures Changed(Encrypt, b, pos, p) == Changed(Absorb, b, pos, p)
    ensures Output(Encrypt, b, pos, p) == Changed(Absorb, b, pos, p)[pos..pos + |p|]
  {}

  lemma DecryptInBlock(b: seq<bv8>, pos: nat, p: seq<bv8>)
    requires pos + |p| <= |b|
    ensures Output(Decrypt, b, pos, p) == XorAll(b[pos..pos + |p|], p)
    ensures Changed(Decrypt, b, pos, p) == Changed(Absorb, b, pos, XorAll(b[pos..pos + |p|], p))
  {
    var x := XorAll(b[pos..pos + |p|], p);
    forall i | 0 <= i < |p| ensures x[i] == Output(Decrypt, b, pos, p)[i] {
      assert b[pos..pos + |p|][i] == b[pos + i];
    }
    forall i | 0 <= i < |b| ensures Changed(Decrypt, b, pos, p)[i] == Changed(Absorb, b, pos, x)[i] {
      if pos <= i < pos + |p| {
        assert x[i - pos] == XorByte(b[i], p[i - pos]);
      }
    }
  }

  /** From an aligned offset, the whole lanes leave less than one lane. */
  lemma WholeLanes(ofs: nat, len: nat)
    requires ofs % 8 == 0 && ofs + len <= 200
    ensures var n := len / 8;
            8 * (ofs / 8) == ofs && 8 * (ofs / 8 + n) == ofs + n * 8 && ofs / 8 + n <= 25
            && (ofs + n * 8) % 8 == 0 && 0 <= len - n * 8 < 8
  {}

  function Prefixed(dst: seq<bv8>, r: (State<bv8>, seq<bv8>)): (State<bv8>, seq<bv8>) { (r.0, dst + r.1) }

  lemma PrefixedEnds(dst: seq<bv8>, r: (State<bv8>, seq<bv8>))
    ensures Prefixed([], r) == r && (r.1 == [] ==> Prefixed(dst, r) == (r.0, dst))
  {
    assert [] + r.1 == r.1 && dst + [] == dst;
  }

  lemma PrefixedMore(dst: seq<bv8>, out: seq<bv8>, r: (State<bv8>, seq<bv8>))
    ensures Prefixed(dst + out, r) == Prefixed(dst, (r.0, out + r.1))
  {
    Assoc(dst, out, r.1);
  }

  function Zeros(n: nat): (z: seq<bv8>)
    ensures |z| == n
  {
    seq(n, i => 0)
  }

  lemma ZerosSplit(n: nat, k: nat)
    requires k <= n
    ensures Zeros(n)[..k] == Zeros(k) && Zeros(n)[k..] == Zeros(n - k)
  {}

  lemma ZeroBytes(lanes: Lanes)
    requires |lanes| == 25 && forall i :: 0 <= i < 25 ==> lanes[i] == 0
    ensures Bytes(lanes) == Zeros(200)
  {
    forall j | 0 <= j < 200 ensures Bytes(lanes)[j] == Zeros(200)[j] {
      Zero();
      IterFixed(Shr8, 0, j % 8);
    }
  }

  /** keccak_init: a capacity must be a positive number of whole bytes that leaves some rate. */
  method KeccakInit(capacity: nat, f: Lanes -> Lanes) returns (ctx: KeccakContext?)
    requires forall l :: |l| == 25 ==> |f(l)| == 25
    ensures ctx == null <==> capacity % 8 != 0 || capacity < 8 || capacity > 1592
    ensures ctx != null ==> fresh(ctx) && ctx.Valid() && ctx.View() == State(Zeros(200), 0)
    ensures ctx != null ==> 8 * ctx.rbytes + capacity == 1600
  {
    if capacity % 8 != 0 || capacity < 8 || capacity > 1600 - 8 {
      return null;
    }
    ctx := new KeccakContext((1600 - capacity) / 8, f);
  }

  /** Data encrypted with one context comes back from another one in the same state. */
  method EncryptDecrypt(a: KeccakContext, b: KeccakContext, data: seq<bv8>) returns (text: seq<bv8>)
    requires a != b && a.state != b.state && a.Valid() && b.Valid()
    requires a.View() == b.View() && a.rbytes == b.rbytes && a.f == b.f
    modifies a, a.state, b, b.state
    ensures text == data && a.View() == b.View()
  {
    a.ValidFits();
    DecryptInverts(a.View(), data, a.rbytes, OnBytes(a.f));
    var cipher := a.EncryptData(data);
    text := b.DecryptData(cipher);
  }

  class KeccakContext {
    const state: array<bv64>
    var pos: nat
    const rbytes: nat
    const f: Lanes -> Lanes

    constructor (rbytes: nat, f: Lanes -> Lanes)
      requires 0 < rbytes < 200 && forall l :: |l| == 25 ==> |f(l)| == 25
      ensures Valid() && fresh(state) && View() == State(Zeros(200), 0) && this.rbytes == rbytes && this.f == f
    {
      state := new bv64[25](i => 0);
      pos := 0;
      this.rbytes, this.f := rbytes, f;
      new;
      ZeroBytes(state[..]);
    }

    ghost predicate Valid() reads this, state {
      state.Length == 25 && pos < rbytes < 200 && forall l :: |l| == 25 ==> |f(l)| == 25
    }

    /** The bytes of the state and the position in them. */
    ghost function View(): State<bv8> reads this, state { State(Bytes(state[..]), pos) }

    method XorByteAt(n: nat, val: bv8)
      requires state.Length == 25 && n < 200
      modifies state
      ensures Bytes(state[..]) == old(Bytes(state[..])[n := XorByte(Bytes(state[..])[n], val)])
    {
      XorPlaced(state[..], n, val);
      ghost var l := state[..];
      state[n / 8] := Xor(state[n / 8], Placed(val, n % 8));
      assert state[..] == l[n / 8 := Xor(l[n / 8], Placed(val, n % 8))];
    }

    /** Bytes of a partial word. */
    method AddSingly(p: seq<bv8>, ofs: nat, len: nat)
      requires state.Length == 25 && len <= |p| && ofs + len <= 200
      modifies state
      ensures Bytes(state[..]) == Changed(Absorb, old(Bytes(state[..])), ofs, p[..len])
    {
      var q: seq<bv8>, o: nat := p[..len], ofs;
      while q != []
        invariant o + |q| <= 200
        invariant Changed(Absorb, Bytes(state[..]), o, q) == Changed(Absorb, old(Bytes(state[..])), ofs, p[..len])
        decreases |q|
      {
        AbsorbOne(Bytes(state[..]), o, q);
        XorByteAt(o, q[0]);
        q, o := q[1..], o + 1;
      }
      AbsorbNothing(Bytes(state[..]), o);
    }

    method AddWord(p: seq<bv8>, ofs: nat)
      requires state.Length == 25 && |p| == 8 && ofs % 8 == 0 && ofs + 8 <= 200
      modifies state
      ensures Bytes(state[..]) == Changed(Absorb, old(Bytes(state[..])), ofs, p)
    {
      XorWord(state[..], ofs / 8, p);
      ghost var l := state[..];
      state[ofs / 8] := Xor(state[ofs / 8], Word(p, 8));
      assert state[..] == l[ofs / 8 := Xor(l[ofs / 8], Word(p, 8))];
    }

    method AddWords(p: seq<bv8>, ofs: nat, len: nat)
      requires state.Length == 25 && len % 8 == 0 && len <= |p| && (ofs % 8 == 0 || len == 0) && ofs + len <= 200
      modifies state
      ensures Bytes(state[..]) == Changed(Absorb, old(Bytes(state[..])), ofs, p[..len])
    {
      var q: seq<bv8>, o: nat := p[..len], ofs;
      while q != []
        invariant o + |q| <= 200 && (o % 8 == 0 || q == []) && |q| % 8 == 0
        invariant Changed(Absorb, Bytes(state[..]), o, q) == Changed(Absorb, old(Bytes(state[..])), ofs, p[..len])
        decreases |q|
      {
        AbsorbPieces(Bytes(state[..]), o, q, 8);
        AddWord(q[..8], o);
        q, o := q[8..], o + 8;
      }
      AbsorbNothing(Bytes(state[..]), o);
    }

    /** The rest of add_bytes from a word boundary on: whole words, then single bytes. */
    method AddAligned(p: seq<bv8>, ofs: nat)
      requires state.Length == 25 && ofs + |p| <= 200 && (ofs % 8 == 0 || p == [])
      modifies state
      ensures Bytes(state[..]) == Changed(Absorb, old(Bytes(state[..])), ofs, p)
    {
      var n := |p| - |p| % 8;
      AbsorbPieces(Bytes(state[..]), ofs, p, n);
      AddWords(p, ofs, n);
      AddSingly(p[n..], ofs + n, |p| - n);
      assert p[n..][..|p| - n] == p[n..];
    }

    /** add_bytes: single bytes up to a word boundary, whole words, single bytes. */
    method AddBytes(p: seq<bv8>, ofs: nat)
      requires state.Length == 25 && ofs + |p| <= 200
      modifies state
      ensures Bytes(state[..]) == Changed(Absorb, old(Bytes(state[..])), ofs, p)
    {
      var m := ofs % 8;
      if m != 0 {
        m := 8 - m;
        if m > |p| {
          m := |p|;
        }
      }
      AbsorbPieces(Bytes(state[..]), ofs, p, m);
      AddSingly(p, ofs, m);
      AddAligned(p[m..], ofs + m);
    }

    method Extract(start: nat, count: nat) returns (dst: seq<bv8>)
      requires state.Length == 25 && start + count <= 25
      ensures dst == Bytes(state[..])[8 * start..8 * (start + count)]
    {
      dst := [];
      for i := 0 to count
        invariant dst == Bytes(state[..])[8 * start..8 * (start + i)]
      {
        LaneIsSlice(state[..], start + i);
        SlicesJoin(Bytes(state[..]), 8 * start, 8 * (start + i), 8 * (start + i) + 8);
        dst := dst + LaneBytes8(state[start + i]);
      }
    }

    /** n bytes of one lane, by way of a buffer. */
    method ExtractPart(ofs: nat, n: nat) returns (dst: seq<bv8>)
      requires state.Length == 25 && ofs < 200 && ofs % 8 + n <= 8
      ensures ofs + n <= 200 && dst == Bytes(state[..])[ofs..ofs + n]
    {
      var lanebuf := Extract(ofs / 8, 1);
      ghost var lane := 8 * (ofs / 8);
      assert lane + ofs % 8 == ofs;
      SliceOf(Bytes(state[..]), lane, lane + 8, ofs % 8, ofs % 8 + n);
      dst := lanebuf[ofs % 8..ofs % 8 + n];
    }

    /** extract_bytes: part of a lane, whole lanes, part of a lane. */
    method ExtractBytes(offset: nat, len: nat) returns (dst: seq<bv8>)
      requires state.Length == 25 && offset < 200 && offset + len <= 200
      ensures dst == Bytes(state[..])[offset..offset + len]
    {
      var ofs: nat, count: nat := offset, len;
      var first: seq<bv8> := [];
      if ofs % 8 != 0 || count < 8 {
        var avail := 8 - ofs % 8;
        var n := if avail > count then count else avail;
        first := ExtractPart(ofs, n);
        ofs, count := ofs + n, count - n;
      }
      var rest := ExtractAligned(ofs, count);
      SlicesJoin(Bytes(state[..]), offset, ofs, offset + len);
      return first + rest;
    }

    method ExtractAligned(ofs: nat, len: nat) returns (dst: seq<bv8>)
      requires state.Length == 25 && (ofs % 8 == 0 || len == 0) && ofs + len <= 200
      ensures dst == Bytes(state[..])[ofs..ofs + len]
    {
      var n := 0;
      dst := [];
      if len > 8 {
        n := len / 8;
        WholeLanes(ofs, len);
        dst := Extract(ofs / 8, n);
      }
      if len - n * 8 > 0 {
        var last := ExtractPart(ofs + n * 8, len - n * 8);
        SlicesJoin(Bytes(state[..]), ofs, ofs + n * 8, ofs + len);
        dst := dst + last;
      }
    }

    method PermuteIfNeeded()
      requires state.Length == 25 && pos <= rbytes < 200 && 0 < rbytes && forall l :: |l| == 25 ==> |f(l)| == 25
      modifies this`pos, state
      ensures Valid() && View() == Settle(old(View()), rbytes, OnBytes(f))
    {
      if pos == rbytes {
        LanesRoundTrip(state[..]);
        var l := f(state[..]);
        forall i | 0 <= i < 25 { state[i] := l[i]; }
        assert state[..] == l;
        pos := 0;
      }
    }

    /** How much of the data goes into the current block. */
    method Chunk(src: seq<bv8>) returns (n: nat)
      requires Valid() && src != []
      ensures 0 < n <= |src| && pos + n <= rbytes
    {
      var avail := rbytes - pos;
      n := if |src| > avail then avail else |src|;
    }

    method AbsorbBlock(p: seq<bv8>)
      requires Valid() && pos + |p| <= rbytes
      modifies this`pos, state
      ensures Valid() && View() == Block(Absorb, old(View()), p, rbytes, OnBytes(f)).0
    {
      AddBytes(p, pos);
      pos := pos + |p|;
      PermuteIfNeeded();
    }

    /** keccak_absorb. */
    method AbsorbData(data: seq<bv8>)
      requires Valid()
      modifies this`pos, state
      ensures Valid() && FitsView() && View() == Run(Absorb, old(View()), data, rbytes, OnBytes(f)).0
    {
      var src := data;
      while src != []
        invariant Valid() && FitsView()
        invariant Run(Absorb, View(), src, rbytes, OnBytes(f)).0 == Run(Absorb, old(View()), data, rbytes, OnBytes(f)).0
        decreases |src|
      {
        var n := Chunk(src);
        ChunkStep(Absorb, View(), src, n, rbytes, OnBytes(f));
        AbsorbBlock(src[..n]);
        src := src[n..];
      }
    }

    lemma ValidFits()
      requires Valid()
      ensures FitsView()
    {
      var g := OnBytes(f);
      forall b | |b| == 200 ensures |g(b)| == |b| { assert g(b) == Bytes(f(LanesOf(b))); }
    }

    ghost predicate FitsView() reads this, state { Fits(View(), rbytes, OnBytes(f)) }

    method SqueezeXorBlock(p: seq<bv8>) returns (out: seq<bv8>)
      requires Valid() && pos + |p| <= rbytes
      modifies this`pos, state
      ensures Valid() && (View(), out) == Block(SqueezeXor, old(View()), p, rbytes, OnBytes(f))
    {
      SqueezeXorInBlock(Bytes(state[..]), pos, p);
      out := ExtractBytes(pos, |p|);
      out := XorInto(out, p);
      pos := pos + |p|;
      PermuteIfNeeded();
    }

    /** keccak_squeeze_xor. */
    method SqueezeXorData(data: seq<bv8>) returns (dst: seq<bv8>)
      requires Valid()
      modifies this`pos, state
      ensures Valid() && FitsView() && (View(), dst) == Run(SqueezeXor, old(View()), data, rbytes, OnBytes(f))
    {
      var src := data;
      dst := [];
      ValidFits();
      PrefixedEnds([], Run(SqueezeXor, View(), data, rbytes, OnBytes(f)));
      while src != []
        invariant Valid() && FitsView()
        invariant Prefixed(dst, Run(SqueezeXor, View(), src, rbytes, OnBytes(f)))
          == Run(SqueezeXor, old(View()), data, rbytes, OnBytes(f))
        decreases |src|
      {
        var n := Chunk(src);
        ChunkStep(SqueezeXor, View(), src, n, rbytes, OnBytes(f));
        var out := SqueezeXorBlock(src[..n]);
        PrefixedMore(dst, out, Run(SqueezeXor, View(), src[n..], rbytes, OnBytes(f)));
        src, dst := src[n..], dst + out;
      }
      PrefixedEnds(dst, (View(), []));
    }

    method EncryptBlock(p: seq<bv8>) returns (out: seq<bv8>)
      requires Valid() && pos + |p| <= rbytes
      modifies this`pos, state
      ensures Valid() && (View(), out) == Block(Encrypt, old(View()), p, rbytes, OnBytes(f))
    {
      EncryptInBlock(Bytes(state[..]), pos, p);
      AddBytes(p, pos);
      out := ExtractBytes(pos, |p|);
      pos := pos + |p|;
      PermuteIfNeeded();
    }

    /** keccak_encrypt. */
    method EncryptData(data: seq<bv8>) returns (dst: seq<bv8>)
      requires Valid()
      modifies this`pos, state
      ensures Valid() && FitsView() && (View(), dst) == Run(Encrypt, old(View()), data, rbytes, OnBytes(f))
    {
      var src := data;
      dst := [];
      ValidFits();
      PrefixedEnds([], Run(Encrypt, View(), data, rbytes, OnBytes(f)));
      while src != []
        invariant Valid() && FitsView()
        invariant Prefixed(dst, Run(Encrypt, View(), src, rbytes, OnBytes(f)))
          == Run(Encrypt, old(View()), data, rbytes, OnBytes(f))
        decreases |src|
      {
        var n := Chunk(src);
        ChunkStep(Encrypt, View(), src, n, rbytes, OnBytes(f));
        var out := EncryptBlock(src[..n]);
        PrefixedMore(dst, out, Run(Encrypt, View(), src[n..], rbytes, OnBytes(f)));
        src, dst := src[n..], dst + out;
      }
      PrefixedEnds(dst, (View(), []));
    }

    method DecryptBlock(p: seq<bv8>) returns (out: seq<bv8>)
      requires Valid() && pos + |p| <= rbytes
      modifies this`pos, state
      ensures Valid() && (View(), out) == Block(Decrypt, old(View()), p, rbytes, OnBytes(f))
    {
      DecryptInBlock(Bytes(state[..]), pos, p);
      out := ExtractBytes(pos, |p|);
      out := XorInto(out, p);
      AddBytes(out, pos);
      pos := pos + |p|;
      PermuteIfNeeded();
    }

    /** keccak_decrypt, into a buffer apart from the data. */
    method DecryptData(data: seq<bv8>) returns (dst: seq<bv8>)
      requires Valid()
      modifies this`pos, state
      ensures Valid() && FitsView() && (View(), dst) == Run(Decrypt, old(View()), data, rbytes, OnBytes(f))
    {
      var src := data;
      dst := [];
      ValidFits();
      PrefixedEnds([], Run(Decrypt, View(), data, rbytes, OnBytes(f)));
      while src != []
        invariant Valid() && FitsView()
        invariant Prefixed(dst, Run(Decrypt, View(), src, rbytes, OnBytes(f)))
          == Run(Decrypt, old(View()), data, rbytes, OnBytes(f))
        decreases |src|
      {
        var n := Chunk(src);
        ChunkStep(Decrypt, View(), src, n, rbytes, OnBytes(f));
        var out := DecryptBlock(src[..n]);
        PrefixedMore(dst, out, Run(Decrypt, View(), src[n..], rbytes, OnBytes(f)));
        src, dst := src[n..], dst + out;
      }
      PrefixedEnds(dst, (View(), []));
    }

    method SqueezeBlock(n: nat) returns (out: seq<bv8>)
      requires Valid() && pos + n <= rbytes
      modifies this`pos, state
      ensures Valid() && (View(), out) == Block(Squeeze, old(View()), Zeros(n), rbytes, OnBytes(f))
    {
      SqueezeInBlock(Bytes(state[..]), pos, Zeros(n));
      out := ExtractBytes(pos, n);
      pos := pos + n;
      PermuteIfNeeded();
    }

    /** keccak_squeeze. */
    method SqueezeData(len: nat) returns (dst: seq<bv8>)
      requires Valid()
      modifies this`pos, state
      ensures Valid() && FitsView() && (View(), dst) == Run(Squeeze, old(View()), Zeros(len), rbytes, OnBytes(f))
    {
      var left: nat := len;
      dst := [];
      ValidFits();
      PrefixedEnds([], Run(Squeeze, View(), Zeros(len), rbytes, OnBytes(f)));
      while left > 0
        invariant Valid() && FitsView()
        invariant Prefixed(dst, Run(Squeeze, View(), Zeros(left), rbytes, OnBytes(f)))
          == Run(Squeeze, old(View()), Zeros(len), rbytes, OnBytes(f))
      {
        var n := Chunk(Zeros(left));
        ChunkStep(Squeeze, View(), Zeros(left), n, rbytes, OnBytes(f));
        ZerosSplit(left, n);
        var out := SqueezeBlock(n);
        PrefixedMore(dst, out, Run(Squeeze, View(), Zeros(left - n), rbytes, OnBytes(f)));
        left, dst := left - n, dst + out;
      }
      PrefixedEnds(dst, (View(), []));
    }
  }
}
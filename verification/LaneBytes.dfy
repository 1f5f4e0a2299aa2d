/** The bytes of a 64-bit lane, least significant first, and an array of lanes as bytes.

 Shifting is by one byte at a time; facts about longer shifts follow by induction from facts
 about one, for any operations that have them.
 */
module LaneBytes {

  function Iter<W>(f: W -> W, w: W, k: nat): W { if k == 0 then w else Iter(f, f(w), k - 1) }

  lemma {:induction false} IterLast<W>(f: W -> W, w: W, k: nat)
    requires k > 0
    ensures Iter(f, w, k) == f(Iter(f, w, k - 1))
  {
    if k > 1 { IterLast(f, f(w), k - 1); }
  }

  lemma {:induction false} IterAdd<W>(f: W -> W, w: W, m: nat, n: nat)
    ensures Iter(f, w, m + n) == Iter(f, Iter(f, w, m), n)
  {
    if m > 0 { IterAdd(f, f(w), m - 1, n); }
  }

  lemma {:induction false} IterFixed<W>(f: W -> W, w: W, k: nat)
    requires f(w) == w
    ensures Iter(f, w, k) == w
  {
    if k > 0 { IterFixed(f, w, k - 1); }
  }

  /** down undoes up as long as there is room at the top. */
  lemma {:induction false} IterBack<W(!new)>(down: W -> W, up: W -> W, room: (W, nat) -> bool, w: W, n: nat, m: nat,
      k: nat)
    requires forall a, i: nat :: i > 0 && room(a, i) ==> down(up(a)) == a && room(up(a), i - 1)
    requires room(w, n) && k <= m <= n
    ensures room(Iter(up, w, m), n - m) && Iter(down, Iter(up, w, m), k) == Iter(up, w, m - k)
    decreases m
  {
    if m > 0 {
      IterLast(up, w, m);
      IterBack(down, up, room, w, n, m - 1, if k > 0 then k - 1 else 0);
    }
  }

  /** Values are equal when all that down strips off is equal, and what is left. */
  lemma {:induction false} IterJoin<W(!new), B(!new)>(down: W -> W, low: W -> B, v: W, w: W, n: nat)
    requires forall a, b :: low(a) == low(b) && down(a) == down(b) ==> a == b
    requires Iter(down, v, n) == Iter(down, w, n)
    requires forall k: nat :: k < n ==> low(Iter(down, v, k)) == low(Iter(down, w, k))
    ensures v == w
    decreases n
  {
    if n > 0 {
      forall k: nat | k < n - 1 ensures low(Iter(down, down(v), k)) == low(Iter(down, down(w), k)) {
        assert Iter(down, v, k + 1) == Iter(down, down(v), k) && Iter(down, w, k + 1) == Iter(down, down(w), k);
      }
      IterJoin(down, low, down(v), down(w), n - 1);
      assert low(Iter(down, v, 0)) == low(Iter(down, w, 0));
    }
  }

  function Shr8(w: bv64): bv64 { w >> 8 }

  function Shl8(w: bv64): bv64 { w << 8 }

  function Xor(v: bv64, w: bv64): bv64 { v ^ w }

  function Low(w: bv64): bv8 { (w & 0xFF) as bv8 }

  function Wide(b: bv8): bv64 { b as bv64 }

  /** Byte k of a lane. */
  function ByteOf(w: bv64, k: nat): bv8 { Low(Iter(Shr8, w, k)) }

  /** A byte moved to place k of a lane: the shift in xor_byte. */
  function Placed(b: bv8, k: nat): bv64 { Iter(Shl8, Wide(b), k) }

  /** le64dec: the first n bytes of p, each in its place. */
  function Word(p: seq<bv8>, n: nat): bv64
    requires n <= |p|
  {
    if n == 0 then 0 else Xor(Word(p, n - 1), Placed(p[n - 1], n - 1))
  }

  /** The top n bytes are zero: n shifts to the left lose nothing. */
  predicate Room(w: bv64, n: nat)
    decreases n
  {
    n > 0 ==> Shr8(Shl8(w)) == w && Room(Shl8(w), n - 1)
  }

  lemma BoundStep(w: bv64, bound: bv64)
    requires w <= bound <= 0x00FF_FFFF_FFFF_FFFF
    ensures Shr8(Shl8(w)) == w && Shl8(w) <= Shl8(bound)
  {}

  lemma {:induction false} RoomBelow(w: bv64, bound: bv64, n: nat)
    requires w <= bound && Bounds(bound, n)
    ensures Room(w, n)
    decreases n
  {
    if n > 0 {
      BoundStep(w, bound);
      RoomBelow(Shl8(w), Shl8(bound), n - 1);
    }
  }

  predicate Bounds(bound: bv64, n: nat)
    decreases n
  {
    n > 0 ==> bound <= 0x00FF_FFFF_FFFF_FFFF && Bounds(Shl8(bound), n - 1)
  }

  lemma ByteBounds()
    ensures Bounds(0xFF, 7)
  {}

  lemma ByteIsSmall(b: bv8)
    ensures Wide(b) <= 0xFF
  {}

  lemma OneByte(b: bv8)
    ensures Low(Wide(b)) == b && Shr8(Wide(b)) == 0
  {}

  lemma Zero()
    ensures Low(0) == 0 && Shr8(0) == 0
  {}

  lemma LowShl(w: bv64)
    ensures Low(Shl8(w)) == 0
  {}

  lemma ShrXor(v: bv64, w: bv64)
    ensures Shr8(Xor(v, w)) == Xor(Shr8(v), Shr8(w))
  {}

  lemma LowXor(v: bv64, w: bv64)
    ensures Low(Xor(v, w)) == Low(v) ^ Low(w)
  {}

  lemma {:induction false} IterXor(v: bv64, w: bv64, k: nat)
    ensures Iter(Shr8, Xor(v, w), k) == Xor(Iter(Shr8, v, k), Iter(Shr8, w, k))
    decreases k
  {
    if k > 0 {
      ShrXor(v, w);
      IterXor(Shr8(v), Shr8(w), k - 1);
    }
  }

  /** Exclusive or works byte by byte. */
  lemma ByteXor(v: bv64, w: bv64, k: nat)
    ensures ByteOf(Xor(v, w), k) == ByteOf(v, k) ^ ByteOf(w, k)
  {
    IterXor(v, w, k);
    LowXor(Iter(Shr8, v, k), Iter(Shr8, w, k));
  }

  lemma PlacedBack(b: bv8, m: nat, k: nat)
    requires k <= m < 8
    ensures Iter(Shr8, Placed(b, m), k) == Placed(b, m - k)
  {
    forall a: bv64, i: nat | i > 0 && Room(a, i) ensures Shr8(Shl8(a)) == a && Room(Shl8(a), i - 1) {}
    ByteBounds();
    ByteIsSmall(b);
    RoomBelow(Wide(b), 0xFF, 7);
    IterBack(Shr8, Shl8, Room, Wide(b), 7, m, k);
  }

  /** A byte moved to place m is that byte there, and zero elsewhere. */
  lemma PlacedByte(b: bv8, m: nat, k: nat)
    requires m < 8
    ensures ByteOf(Placed(b, m), k) == if k == m then b else 0
  {
    if k < m {
      PlacedBack(b, m, k);
      IterLast(Shl8, Wide(b), m - k);
      LowShl(Iter(Shl8, Wide(b), m - k - 1));
    } else {
      PlacedBack(b, m, m);
      IterAdd(Shr8, Placed(b, m), m, k - m);
      OneByte(b);
      if k > m {
        Zero();
        IterFixed(Shr8, 0, k - m - 1);
      }
    }
  }

  lemma XorZero(b: bv8)
    ensures b ^ 0 == b && 0 ^ b == b
  {}

  lemma {:induction false} WordByte(p: seq<bv8>, n: nat, k: nat)
    requires n <= |p| && n <= 8
    ensures ByteOf(Word(p, n), k) == if k < n then p[k] else 0
    decreases n
  {
    if n == 0 {
      Zero();
      IterFixed(Shr8, 0, k);
    } else {
      ByteXor(Word(p, n - 1), Placed(p[n - 1], n - 1), k);
      WordByte(p, n - 1, k);
      PlacedByte(p[n - 1], n - 1, k);
      XorZero(ByteOf(Word(p, n - 1), k));
      XorZero(ByteOf(Placed(p[n - 1], n - 1), k));
    }
  }

  lemma JoinLow(v: bv64, w: bv64)
    requires Low(v) == Low(w) && Shr8(v) == Shr8(w)
    ensures v == w
  {}

  lemma EightShifts(w: bv64)
    ensures Iter(Shr8, w, 8) == 0
  {}

  /** A lane is determined by its eight bytes. */
  lemma SameBytes(v: bv64, w: bv64)
    requires forall k: nat :: k < 8 ==> ByteOf(v, k) == ByteOf(w, k)
    ensures v == w
  {
    EightShifts(v);
    EightShifts(w);
    forall a, b | Low(a) == Low(b) && Shr8(a) == Shr8(b) ensures a == b { JoinLow(a, b); }
    forall k: nat | k < 8 ensures Low(Iter(Shr8, v, k))
      == Low(Iter(Shr8, w, k)) { assert ByteOf(v, k) == ByteOf(w, k); }
    IterJoin(Shr8, Low, v, w, 8);
  }
}
/** Bits of byte strings, as usual/cbtree.c numbers them.

 Keys are byte strings, thought of as continued by zero bytes without end.  Bit n of a key is
 bit n % 8 of byte n / 8, the most significant one first.
 */
module KeyBits {
  import opened Prelude

  type Key = seq<bv8>

  function ByteAt(key: Key, i: nat): bv8 { if i < |key| then key[i] else 0 }

  /** 1 << (7 - n). */
  function Mask(n: nat): bv8
    requires n < 8
  {
    if n == 0 then 128 else if n == 1 then 64 else if n == 2 then 32 else if n == 3 then 16
    else if n == 4 then 8 else if n == 5 then 4 else if n == 6 then 2 else 1
  }

  function BitOf(b: bv8, n: nat): bool
    requires n < 8
  {
    b & Mask(n) != 0
  }

  /** get_bit. */
  function Bit(key: Key, n: nat): bool { n / 8 < |key| && BitOf(key[n / 8], n % 8) }

  /** fls on a byte: position of the most significant one bit, counted from 1; 0 if there is none. */
  function Fls(c: bv8): (n: nat)
    ensures n <= 8
  {
    if c >= 128 then 8 else if c >= 64 then 7 else if c >= 32 then 6 else if c >= 16 then 5
    else if c >= 8 then 4 else if c >= 4 then 3 else if c >= 2 then 2 else if c >= 1 then 1 else 0
  }

  /** Two keys that are the same when continued by zeros. */
  ghost predicate SameKey(a: Key, b: Key) { forall i: nat :: ByteAt(a, i) == ByteAt(b, i) }

  /** n is the first bit in which a and b differ. */
  ghost predicate CritAt(a: Key, b: Key, n: nat) {
    Bit(a, n) != Bit(b, n) && forall m: nat :: m < n ==> Bit(a, m) == Bit(b, m)
  }

  /** Order of zero-continued byte strings. */
  ghost predicate Less(a: Key, b: Key) { exists i: nat :: LessAt(a, b, i) }

  ghost predicate LessAt(a: Key, b: Key, i: nat) {
    ByteAt(a, i) < ByteAt(b, i) && forall j: nat :: j < i ==> ByteAt(a, j) == ByteAt(b, j)
  }

  lemma XorMask(x: bv8, y: bv8, k: bv8)
    requires k in {128, 64, 32, 16, 8, 4, 2, 1}
    ensures ((x & k != 0) != (y & k != 0)) <==> (x ^ y) & k != 0
  {}

  lemma XorBit(x: bv8, y: bv8, m: nat)
    requires m < 8
    ensures (BitOf(x, m) != BitOf(y, m)) <==> BitOf(x ^ y, m)
  {
    XorMask(x, y, Mask(m));
  }

  lemma FlsBit(c: bv8)
    requires c != 0
    ensures 0 < Fls(c) && BitOf(c, 8 - Fls(c))
  {}

  lemma FlsFirst(c: bv8, m: nat)
    requires m < 8 - Fls(c)
    ensures !BitOf(c, m)
  {}

  /** The first differing bit of two bytes also tells which one is larger. */
  lemma FlsOrder(x: bv8, y: bv8)
    requires x < y
    ensures x ^ y != 0 && Fls(x ^ y) > 0
    ensures BitOf(y, 8 - Fls(x ^ y))
  {}

  lemma XorNonZero(x: bv8, y: bv8)
    requires x != y
    ensures x ^ y != 0 && x ^ y == y ^ x
  {}

  lemma FirstBitOf(x: bv8, y: bv8)
    requires x != y
    ensures 0 < Fls(x ^ y)
    ensures BitOf(x, 8 - Fls(x ^ y)) != BitOf(y, 8 - Fls(x ^ y))
    ensures forall m: nat :: m < 8 - Fls(x ^ y) ==> BitOf(x, m) == BitOf(y, m)
    ensures x < y <==> BitOf(y, 8 - Fls(x ^ y))
  {
    XorNonZero(x, y);
    FlsBit(x ^ y);
    XorBit(x, y, 8 - Fls(x ^ y));
    forall m: nat | m < 8 - Fls(x ^ y) ensures BitOf(x, m) == BitOf(y, m) {
      FlsFirst(x ^ y, m);
      XorBit(x, y, m);
    }
    if x < y {
      FlsOrder(x, y);
    } else {
      FlsOrder(y, x);
    }
  }

  lemma BitEqByte(a: Key, b: Key, n: nat)
    requires ByteAt(a, n / 8) == ByteAt(b, n / 8)
    ensures Bit(a, n) == Bit(b, n)
  {}

  lemma BitByte(a: Key, n: nat)
    ensures Bit(a, n) == BitOf(ByteAt(a, n / 8), n % 8)
  {}

  lemma BitInByte(a: Key, i: nat, p: nat)
    requires p < 8
    ensures Bit(a, i * 8 + p) == BitOf(ByteAt(a, i), p)
  {}

  lemma BitsBefore(a: Key, b: Key, i: nat, p: nat, m: nat)
    requires forall j: nat :: j < i ==> ByteAt(a, j) == ByteAt(b, j)
    requires p < 8 && forall j: nat :: j < p ==> BitOf(ByteAt(a, i), j) == BitOf(ByteAt(b, i), j)
    requires m < i * 8 + p
    ensures Bit(a, m) == Bit(b, m)
  {
    if m / 8 < i {
      BitEqByte(a, b, m);
    } else {
      BitByte(a, m);
      BitByte(b, m);
    }
  }

  /** The first differing byte holds the first differing bit, which tells the order. */
  lemma FirstBit(a: Key, b: Key, i: nat)
    requires ByteAt(a, i) != ByteAt(b, i)
    requires forall j: nat :: j < i ==> ByteAt(a, j) == ByteAt(b, j)
    ensures 0 < Fls(ByteAt(a, i) ^ ByteAt(b, i)) <= 8
    ensures CritAt(a, b, i * 8 + 8 - Fls(ByteAt(a, i) ^ ByteAt(b, i)))
    ensures ByteAt(a, i) < ByteAt(b, i) <==> Bit(b, i * 8 + 8 - Fls(ByteAt(a, i) ^ ByteAt(b, i)))
  {
    var p := FirstPlace(ByteAt(a, i), ByteAt(b, i));
    FirstBitAt(a, b, i, p);
  }

  lemma FirstPlace(x: bv8, y: bv8) returns (p: nat)
    requires x != y
    ensures p < 8 && 8 - Fls(x ^ y) == p && BitOf(x, p) != BitOf(y, p)
    ensures forall m: nat :: m < p ==> BitOf(x, m) == BitOf(y, m)
    ensures x < y <==> BitOf(y, p)
  {
    FirstBitOf(x, y);
    p := 8 - Fls(x ^ y);
  }

  lemma FirstBitAt(a: Key, b: Key, i: nat, p: nat)
    requires p < 8 && BitOf(ByteAt(a, i), p) != BitOf(ByteAt(b, i), p)
    requires forall j: nat :: j < i ==> ByteAt(a, j) == ByteAt(b, j)
    requires forall j: nat :: j < p ==> BitOf(ByteAt(a, i), j) == BitOf(ByteAt(b, i), j)
    ensures CritAt(a, b, i * 8 + p) && Bit(b, i * 8 + p) == BitOf(ByteAt(b, i), p)
  {
    BitInByte(a, i, p);
    BitInByte(b, i, p);
    forall m: nat | m < i * 8 + p ensures Bit(a, m) == Bit(b, m) { BitsBefore(a, b, i, p, m); }
  }

  /** Two keys that differ have a first byte in which they do. */
  lemma {:induction false} FirstByte(a: Key, b: Key, i: nat) returns (k: nat)
    requires ByteAt(a, i) != ByteAt(b, i)
    ensures k <= i && ByteAt(a, k) != ByteAt(b, k)
    ensures forall j: nat :: j < k ==> ByteAt(a, j) == ByteAt(b, j)
  {
    if j: nat :| j < i && ByteAt(a, j) != ByteAt(b, j) {
      k := FirstByte(a, b, j);
    } else {
      k := i;
    }
  }

  lemma CritUnique(a: Key, b: Key, m: nat, n: nat)
    requires CritAt(a, b, m) && CritAt(a, b, n)
    ensures m == n
  {}

  /** Bits see exactly what zero-continued bytes see. */
  lemma SameBits(a: Key, b: Key)
    ensures SameKey(a, b) <==> forall n: nat :: Bit(a, n) == Bit(b, n)
  {
    if SameKey(a, b) {
      forall n: nat ensures Bit(a, n) == Bit(b, n) { BitEqByte(a, b, n); }
    } else {
      var i: nat :| ByteAt(a, i) != ByteAt(b, i);
      var k := FirstByte(a, b, i);
      FirstBit(a, b, k);
    }
  }

  /** The key with a one in the first differing bit is the larger one. */
  lemma CritLess(a: Key, b: Key, n: nat)
    requires CritAt(a, b, n) && Bit(b, n)
    ensures Less(a, b)
  {
    if ByteAt(a, n / 8) == ByteAt(b, n / 8) { BitEqByte(a, b, n); }
    var k := FirstByte(a, b, n / 8);
    FirstBit(a, b, k);
    CritUnique(a, b, n, k * 8 + 8 - Fls(ByteAt(a, k) ^ ByteAt(b, k)));
    assert LessAt(a, b, k);
  }

  /** The shortest key that is the same when continued by zeros. */
  function Canon(key: Key): (r: Key) {
    if key != [] && key[|key| - 1] == 0 then Canon(key[..|key| - 1]) else key
  }

  lemma {:induction false} CanonSame(key: Key)
    ensures SameKey(Canon(key), key)
    ensures Canon(key) != [] ==> Canon(key)[|Canon(key)| - 1] != 0
  {
    if key != [] && key[|key| - 1] == 0 {
      CanonSame(key[..|key| - 1]);
      assert SameKey(key[..|key| - 1], key);
      forall i: nat ensures ByteAt(Canon(key), i) == ByteAt(key, i) {
        assert ByteAt(Canon(key[..|key| - 1]), i) == ByteAt(key[..|key| - 1], i) == ByteAt(key, i);
      }
    }
  }

  /** Canonical forms name the classes of keys that agree when continued by zeros. */
  lemma CanonExact(a: Key, b: Key)
    ensures SameKey(a, b) <==> Canon(a) == Canon(b)
  {
    var x, y := Canon(a), Canon(b);
    CanonSame(a);
    CanonSame(b);
    if SameKey(a, b) {
      forall i: nat ensures ByteAt(x, i) == ByteAt(y, i) {
        assert ByteAt(x, i) == ByteAt(a, i) == ByteAt(b, i) == ByteAt(y, i);
      }
      assert y != [] ==> ByteAt(x, |y| - 1) == y[|y| - 1];
      assert x != [] ==> ByteAt(y, |x| - 1) == x[|x| - 1];
      assert |x| == |y|;
      forall i: nat | i < |x| ensures x[i] == y[i] { assert ByteAt(x, i) == ByteAt(y, i); }
      assert x == y;
    } else {
      var i: nat :| ByteAt(a, i) != ByteAt(b, i);
      assert ByteAt(x, i) != ByteAt(y, i);
    }
  }

  lemma CanonBit(key: Key, n: nat)
    ensures Bit(Canon(key), n) == Bit(key, n)
  {}

  /** find_crit_bit; None stands for SAME_KEY. */
  method FindCritBit(a: Key, b: Key) returns (r: Option<nat>)
    ensures r.None? <==> SameKey(a, b)
    ensures r.Some? ==> CritAt(a, b, r.value)
  {
    var minlen := if |a| > |b| then |b| else |a|;
    var maxlen := if |a| > |b| then |a| else |b|;
    var i := 0;
    while i < minlen && a[i] == b[i]
      invariant 0 <= i <= minlen
      invariant forall j: nat :: j < i ==> ByteAt(a, j) == ByteAt(b, j)
    {
      i := i + 1;
    }
    while i < maxlen && ByteAt(a, i) == ByteAt(b, i)
      invariant 0 <= i <= maxlen
      invariant forall j: nat :: j < i ==> ByteAt(a, j) == ByteAt(b, j)
    {
      i := i + 1;
    }
    if i == maxlen {
      return None;
    }
    FirstBit(a, b, i);
    var c := ByteAt(a, i) ^ ByteAt(b, i);
    r := Some(i * 8 + (8 - Fls(c)));
  }
}

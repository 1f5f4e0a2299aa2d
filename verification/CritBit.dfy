/** The crit-bit tree of usual/cbtree.c on values: what each operation does to the tree, and
 that the tree refines a map keyed by byte strings continued with zeros.
 */
module CritBit {
  import opened KeyBits

  /** addr is where the fork lives in memory; see CritBitMemory. */
  datatype Tree<O> = Leaf(obj: O) | Fork(addr: nat, bit: nat, left: Tree<O>, right: Tree<O>)

  /** The map the tree stands for; keys in canonical form. */
  ghost function Contents<O>(t: Tree<O>, keyOf: O -> Key): (m: map<Key, O>)
    ensures exists k :: k in m
  {
    match t
    case Leaf(o) => assert Canon(keyOf(o)) in map[Canon(keyOf(o)) := o]; map[Canon(keyOf(o)) := o]
    case Fork(_, _, l, r) => Contents(l, keyOf) + Contents(r, keyOf)
  }

  /** All keys have value b in bit n. */
  ghost predicate AllBit(keys: set<Key>, n: nat, b: bool) { forall k :: k in keys ==> Bit(k, n) == b }

  /** All keys agree with key before bit n. */
  ghost predicate AgreeBefore(keys: set<Key>, key: Key, n: nat) {
    forall k, m: nat :: k in keys && m < n ==> Bit(k, m) == Bit(key, m)
  }

  ghost predicate Good<O>(t: Tree<O>, keyOf: O -> Key) {
    match t
    case Leaf(o) => true
    case Fork(_, n, l, r) =>
      var L, R := Contents(l, keyOf).Keys, Contents(r, keyOf).Keys;
      Good(l, keyOf) && Good(r, keyOf) && AllBit(L, n, false) && AllBit(R, n, true)
      && exists key: Key :: AgreeBefore(L, key, n) && AgreeBefore(R, key, n)
  }

  /** raw_lookup. */
  function RawLookup<O>(t: Tree<O>, key: Key): O {
    match t
    case Leaf(o) => o
    case Fork(_, n, l, r) => RawLookup(if Bit(key, n) then r else l, key)
  }

  /** insert_at: below all forks that test an earlier bit, on the key's path. */
  function InsertAt<O>(t: Tree<O>, n: nat, key: Key, addr: nat, obj: O): Tree<O> {
    if t.Fork? && t.bit < n then
      if Bit(key, t.bit) then t.(right := InsertAt(t.right, n, key, addr, obj))
      else t.(left := InsertAt(t.left, n, key, addr, obj))
    else if Bit(key, n) then Fork(addr, n, t, Leaf(obj))
    else Fork(addr, n, Leaf(obj), t)
  }

  /** The part of cbtree_delete that drops the fork above the leaf on the key's path. */
  function DeleteLeaf<O>(t: Tree<O>, key: Key): Tree<O>
    requires t.Fork?
  {
    if Bit(key, t.bit) then
      if t.right.Leaf? then t.left else t.(right := DeleteLeaf(t.right, key))
    else
      if t.left.Leaf? then t.right else t.(left := DeleteLeaf(t.left, key))
  }

  /** The objects in the order of walk. */
  function Walk<O>(t: Tree<O>): (s: seq<O>)
    ensures s != []
  {
    match t
    case Leaf(o) => [o]
    case Fork(_, _, l, r) => Walk(l) + Walk(r)
  }

  // ----- lookup

  lemma {:induction false} RawIsStored<O>(t: Tree<O>, keyOf: O -> Key, key: Key)
    requires Good(t, keyOf)
    ensures Canon(keyOf(RawLookup(t, key))) in Contents(t, keyOf)
  {
    if t.Fork? { RawIsStored(if Bit(key, t.bit) then t.right else t.left, keyOf, key); }
  }

  /** Every entry sits under its own key, and the two sides of a fork share none. */
  lemma {:induction false} StoredUnderKey<O>(t: Tree<O>, keyOf: O -> Key, k: Key)
    requires Good(t, keyOf) && k in Contents(t, keyOf)
    ensures Canon(keyOf(Contents(t, keyOf)[k])) == k
  {
    if t.Fork? {
      if k in Contents(t.right, keyOf) { StoredUnderKey(t.right, keyOf, k); }
      else { StoredUnderKey(t.left, keyOf, k); }
    }
  }

  lemma SidesApart<O>(t: Tree<O>, keyOf: O -> Key, k: Key)
    requires t.Fork? && Good(t, keyOf)
    ensures k in Contents(t.left, keyOf) ==> !Bit(k, t.bit) && k !in Contents(t.right, keyOf)
    ensures k in Contents(t.right, keyOf) ==> Bit(k, t.bit) && k !in Contents(t.left, keyOf)
  {}

  /** If the key is present at all, following the known bits finds it. */
  lemma {:induction false} RawFinds<O>(t: Tree<O>, keyOf: O -> Key, key: Key)
    requires Good(t, keyOf) && Canon(key) in Contents(t, keyOf)
    ensures RawLookup(t, key) == Contents(t, keyOf)[Canon(key)]
  {
    if t.Fork? {
      CanonBit(key, t.bit);
      SidesApart(t, keyOf, Canon(key));
      RawFinds(if Bit(key, t.bit) then t.right else t.left, keyOf, key);
    }
  }

  /** "Known bits, then check": the key is present iff the found object has it. */
  lemma LookupExact<O>(t: Tree<O>, keyOf: O -> Key, key: Key)
    requires Good(t, keyOf)
    ensures Canon(key) in Contents(t, keyOf) <==> SameKey(keyOf(RawLookup(t, key)), key)
    ensures Canon(key) in Contents(t, keyOf) ==> RawLookup(t, key) == Contents(t, keyOf)[Canon(key)]
  {
    RawIsStored(t, keyOf, key);
    CanonExact(keyOf(RawLookup(t, key)), key);
    if Canon(key) in Contents(t, keyOf) {
      RawFinds(t, keyOf, key);
      StoredUnderKey(t, keyOf, Canon(key));
    }
  }

  // ----- bits increase downward

  /** Every fork tests a later bit than the fork above it. */
  ghost predicate Increasing<O>(t: Tree<O>) {
    t.Fork? ==>
      Increasing(t.left) && Increasing(t.right)
      && (t.left.Fork? ==> t.bit < t.left.bit) && (t.right.Fork? ==> t.bit < t.right.bit)
  }

  lemma AgreeApart<O>(t: Tree<O>, keyOf: O -> Key, key: Key, n: nat)
    requires t.Fork? && Good(t, keyOf) && AgreeBefore(Contents(t, keyOf).Keys, key, n)
    ensures n <= t.bit
  {}

  lemma BitApart<O>(t: Tree<O>, keyOf: O -> Key, n: nat, b: bool)
    requires t.Fork? && Good(t, keyOf) && AllBit(Contents(t, keyOf).Keys, n, b)
    ensures n != t.bit
  {}

  lemma {:induction false} BitsIncrease<O>(t: Tree<O>, keyOf: O -> Key)
    requires Good(t, keyOf)
    ensures Increasing(t)
  {
    if t.Fork? {
      BitsIncrease(t.left, keyOf);
      BitsIncrease(t.right, keyOf);
      var L, R := Contents(t.left, keyOf).Keys, Contents(t.right, keyOf).Keys;
      var key: Key :| AgreeBefore(L, key, t.bit) && AgreeBefore(R, key, t.bit);
      if t.left.Fork? { AgreeApart(t.left, keyOf, key, t.bit); BitApart(t.left, keyOf, t.bit, false); }
      if t.right.Fork? { AgreeApart(t.right, keyOf, key, t.bit); BitApart(t.right, keyOf, t.bit, true); }
    }
  }

  // ----- insert

  /** Below a fork that tests a bit after n, all keys agree with the found one up to n. */
  lemma {:induction false} AgreeWithRaw<O>(t: Tree<O>, keyOf: O -> Key, key: Key, n: nat, k: Key)
    requires Good(t, keyOf) && k in Contents(t, keyOf)
    requires t.Fork? ==> n < t.bit
    ensures Bit(k, n) == Bit(keyOf(RawLookup(t, key)), n)
  {
    var raw := keyOf(RawLookup(t, key));
    RawIsStored(t, keyOf, key);
    CanonBit(raw, n);
    if t.Fork? {
      var L, R := Contents(t.left, keyOf).Keys, Contents(t.right, keyOf).Keys;
      var c: Key :| AgreeBefore(L, c, t.bit) && AgreeBefore(R, c, t.bit);
      assert Bit(k, n) == Bit(c, n) == Bit(Canon(raw), n);
    }
  }

  /** At the place of insertion every key agrees with the new one before bit n and not on it. */
  lemma PlaceSplits<O>(t: Tree<O>, keyOf: O -> Key, key: Key, n: nat)
    requires Good(t, keyOf) && CritAt(key, keyOf(RawLookup(t, key)), n)
    requires t.Fork? ==> n <= t.bit
    ensures AgreeBefore(Contents(t, keyOf).Keys, key, n)
    ensures AllBit(Contents(t, keyOf).Keys, n, !Bit(key, n))
  {
    if t.Fork? && n == t.bit { AgreeWithFork(t, keyOf, key); }
    forall k, m: nat | k in Contents(t, keyOf) && m < n ensures Bit(k, m) == Bit(key, m) {
      AgreeWithRaw(t, keyOf, key, m, k);
    }
    forall k | k in Contents(t, keyOf) ensures Bit(k, n) == !Bit(key, n) {
      AgreeWithRaw(t, keyOf, key, n, k);
    }
  }

  /** The object found below a fork agrees with the key on the fork's bit. */
  lemma AgreeWithFork<O>(t: Tree<O>, keyOf: O -> Key, key: Key)
    requires t.Fork? && Good(t, keyOf)
    ensures Bit(keyOf(RawLookup(t, key)), t.bit) == Bit(key, t.bit)
  {
    var side := if Bit(key, t.bit) then t.right else t.left;
    RawIsStored(side, keyOf, key);
    CanonBit(keyOf(RawLookup(t, key)), t.bit);
  }

  lemma PutEither<K, V>(A: map<K, V>, B: map<K, V>, k: K, v: V)
    requires k !in A && k !in B
    ensures A + B[k := v] == (A + B)[k := v]
    ensures A[k := v] + B == (A + B)[k := v]
    ensures A + map[k := v] == A[k := v] == map[k := v] + A
  {}

  lemma DropEither<K, V>(A: map<K, V>, B: map<K, V>, k: K)
    ensures k !in A ==> (A + B) - {k} == A + (B - {k})
    ensures k !in B ==> (A + B) - {k} == (A - {k}) + B
    ensures k !in A ==> (A + map[]) == A == map[] + A
  {}

  lemma {:induction false} InsertContents<O>(t: Tree<O>, keyOf: O -> Key, n: nat, addr: nat, obj: O)
    requires Good(t, keyOf) && Canon(keyOf(obj)) !in Contents(t, keyOf)
    ensures Contents(InsertAt(t, n, keyOf(obj), addr, obj), keyOf) == Contents(t, keyOf)[Canon(keyOf(obj)) := obj]
  {
    var key := keyOf(obj);
    var k := Canon(key);
    var t' := InsertAt(t, n, key, addr, obj);
    if t.Fork? && t.bit < n {
      var A, B := Contents(t.left, keyOf), Contents(t.right, keyOf);
      PutEither(A, B, k, obj);
      if Bit(key, t.bit) {
        InsertContents(t.right, keyOf, n, addr, obj);
        assert Contents(t', keyOf) == A + B[k := obj];
      } else {
        InsertContents(t.left, keyOf, n, addr, obj);
        assert Contents(t', keyOf) == A[k := obj] + B;
      }
    } else {
      var A := Contents(t, keyOf);
      assert Contents(Leaf(obj), keyOf) == map[k := obj];
      PutEither(A, A, k, obj);
    }
  }

  lemma {:induction false} InsertGood<O>(t: Tree<O>, keyOf: O -> Key, n: nat, addr: nat, obj: O)
    requires Good(t, keyOf) && CritAt(keyOf(obj), keyOf(RawLookup(t, keyOf(obj))), n)
    ensures Good(InsertAt(t, n, keyOf(obj), addr, obj), keyOf)
    ensures Canon(keyOf(obj)) !in Contents(t, keyOf)
  {
    var key := keyOf(obj);
    NotStored(t, keyOf, key, n);
    if t.Fork? && t.bit < n {
      InsertGood(if Bit(key, t.bit) then t.right else t.left, keyOf, n, addr, obj);
      InsertBelow(t, keyOf, n, addr, obj);
    } else {
      PlaceSplits(t, keyOf, key, n);
      NewLeaf(keyOf, key, n, obj);
    }
  }

  lemma NotStored<O>(t: Tree<O>, keyOf: O -> Key, key: Key, n: nat)
    requires Good(t, keyOf) && CritAt(key, keyOf(RawLookup(t, key)), n)
    ensures Canon(key) !in Contents(t, keyOf)
  {
    LookupExact(t, keyOf, key);
    SameBits(keyOf(RawLookup(t, key)), key);
  }

  lemma NewLeaf<O>(keyOf: O -> Key, key: Key, n: nat, obj: O)
    requires key == keyOf(obj)
    ensures AllBit(Contents(Leaf(obj), keyOf).Keys, n, Bit(key, n))
    ensures AgreeBefore(Contents(Leaf(obj), keyOf).Keys, key, n)
  {
    CanonBit(key, n);
    forall m: nat ensures Bit(Canon(key), m) == Bit(key, m) { CanonBit(key, m); }
  }

  /** A fork above the place still splits on its bit once the new key is below it. */
  lemma InsertKeepsFork<O>(t: Tree<O>, keyOf: O -> Key, n: nat, obj: O)
    requires t.Fork? && t.bit < n
    requires Good(t, keyOf) && CritAt(keyOf(obj), keyOf(RawLookup(t, keyOf(obj))), n)
    ensures var L, R, key := Contents(t.left, keyOf).Keys, Contents(t.right, keyOf).Keys, keyOf(obj);
            AgreeBefore(L + {Canon(key)}, key, t.bit) && AgreeBefore(R + {Canon(key)}, key, t.bit)
    ensures Bit(Canon(keyOf(obj)), t.bit) == Bit(keyOf(obj), t.bit)
  {
    var key := keyOf(obj);
    var L, R := Contents(t.left, keyOf).Keys, Contents(t.right, keyOf).Keys;
    CanonBit(key, t.bit);
    forall k, m: nat | k in L + R + {Canon(key)} && m < t.bit ensures Bit(k, m) == Bit(key, m) {
      CanonBit(key, m);
      if k in L + R {
        assert k in Contents(t, keyOf);
        AgreeWithRaw(t, keyOf, key, m, k);
      }
    }
  }

  lemma InsertBelow<O>(t: Tree<O>, keyOf: O -> Key, n: nat, addr: nat, obj: O)
    requires t.Fork? && t.bit < n
    requires Good(t, keyOf) && CritAt(keyOf(obj), keyOf(RawLookup(t, keyOf(obj))), n)
    requires Good(InsertAt(if Bit(keyOf(obj), t.bit) then t.right else t.left, n, keyOf(obj), addr, obj), keyOf)
    ensures Good(InsertAt(t, n, keyOf(obj), addr, obj), keyOf)
  {
    var key := keyOf(obj);
    var side := if Bit(key, t.bit) then t.right else t.left;
    NotStored(t, keyOf, key, n);
    InsertContents(side, keyOf, n, addr, obj);
    InsertKeepsFork(t, keyOf, n, obj);
    InsertInto(t, keyOf, key, InsertAt(side, n, key, addr, obj));
  }

  /** A fork with one more key on the side of that key. */
  lemma InsertInto<O>(t: Tree<O>, keyOf: O -> Key, key: Key, s: Tree<O>)
    requires t.Fork? && Good(t, keyOf) && Good(s, keyOf) && Bit(Canon(key), t.bit) == Bit(key, t.bit)
    requires Contents(s, keyOf).Keys == Contents(if Bit(key, t.bit) then t.right else t.left, keyOf).Keys + {Canon(key)}
    requires var L, R := Contents(t.left, keyOf).Keys, Contents(t.right, keyOf).Keys;
             AgreeBefore(L + {Canon(key)}, key, t.bit) && AgreeBefore(R + {Canon(key)}, key, t.bit)
    ensures Good(if Bit(key, t.bit) then t.(right := s) else t.(left := s), keyOf)
  {
    var L, R := Contents(t.left, keyOf).Keys, Contents(t.right, keyOf).Keys;
    SplitWith(L, R, key, t.bit, Canon(key));
    if Bit(key, t.bit) {
      GoodFork(t.left, s, keyOf, t.addr, t.bit, key, L, R + {Canon(key)});
    } else {
      GoodFork(s, t.right, keyOf, t.addr, t.bit, key, L + {Canon(key)}, R);
    }
  }

  lemma GoodFork<O>(l: Tree<O>, r: Tree<O>, keyOf: O -> Key, addr: nat, n: nat, key: Key, L: set<Key>, R: set<Key>)
    requires Good(l, keyOf) && Good(r, keyOf) && Contents(l, keyOf).Keys == L && Contents(r, keyOf).Keys == R
    requires AllBit(L, n, false) && AllBit(R, n, true) && AgreeBefore(L, key, n) && AgreeBefore(R, key, n)
    ensures Good(Fork(addr, n, l, r), keyOf)
  {}

  lemma SplitWith(L: set<Key>, R: set<Key>, key: Key, n: nat, k: Key)
    requires AllBit(L, n, false) && AllBit(R, n, true) && Bit(k, n) == Bit(key, n)
    requires AgreeBefore(L + {k}, key, n) && AgreeBefore(R + {k}, key, n)
    ensures AgreeBefore(L, key, n) && AgreeBefore(R, key, n)
    ensures if Bit(key, n) then AllBit(R + {k}, n, true) else AllBit(L + {k}, n, false)
  {}

  // ----- delete

  lemma {:induction false} DeleteContents<O>(t: Tree<O>, keyOf: O -> Key, key: Key)
    requires t.Fork? && Good(t, keyOf) && Canon(key) in Contents(t, keyOf)
    ensures Contents(DeleteLeaf(t, key), keyOf) == Contents(t, keyOf) - {Canon(key)}
  {
    CanonBit(key, t.bit);
    SidesApart(t, keyOf, Canon(key));
    var A, B := Contents(t.left, keyOf), Contents(t.right, keyOf);
    var k := Canon(key);
    DropEither(A, B, k);
    DropEither(B, A, k);
    if Bit(key, t.bit) {
      if t.right.Fork? { DeleteContents(t.right, keyOf, key); } else { assert B - {k} == map[]; }
    } else {
      if t.left.Fork? { DeleteContents(t.left, keyOf, key); } else { assert A - {k} == map[]; }
    }
  }

  lemma {:induction false} DeleteGood<O>(t: Tree<O>, keyOf: O -> Key, key: Key)
    requires t.Fork? && Good(t, keyOf) && Canon(key) in Contents(t, keyOf)
    ensures Good(DeleteLeaf(t, key), keyOf)
  {
    CanonBit(key, t.bit);
    SidesApart(t, keyOf, Canon(key));
    var side := if Bit(key, t.bit) then t.right else t.left;
    if side.Fork? {
      DeleteGood(side, keyOf, key);
      DeleteContents(side, keyOf, key);
      var L, R := Contents(t.left, keyOf).Keys, Contents(t.right, keyOf).Keys;
      var c: Key :| AgreeBefore(L, c, t.bit) && AgreeBefore(R, c, t.bit);
      AgreeFewer(L, c, t.bit, Canon(key));
      AgreeFewer(R, c, t.bit, Canon(key));
    }
  }

  lemma AgreeFewer(keys: set<Key>, c: Key, n: nat, k: Key)
    requires AgreeBefore(keys, c, n)
    ensures AgreeBefore(keys - {k}, c, n)
  {}

  // ----- walk

  lemma {:induction false} WalkIsContents<O>(t: Tree<O>, keyOf: O -> Key, o: O)
    requires Good(t, keyOf)
    ensures o in Walk(t) <==> Canon(keyOf(o)) in Contents(t, keyOf) && Contents(t, keyOf)[Canon(keyOf(o))] == o
  {
    if t.Fork? {
      WalkIsContents(t.left, keyOf, o);
      WalkIsContents(t.right, keyOf, o);
      SidesApart(t, keyOf, Canon(keyOf(o)));
    }
  }

  ghost predicate Ascending<O>(s: seq<O>, keyOf: O -> Key) {
    forall i, j :: 0 <= i < j < |s| ==> Less(keyOf(s[i]), keyOf(s[j]))
  }

  lemma CrossLess<O>(t: Tree<O>, keyOf: O -> Key, a: O, b: O)
    requires t.Fork? && Good(t, keyOf) && a in Walk(t.left) && b in Walk(t.right)
    ensures Less(keyOf(a), keyOf(b))
  {
    WalkIsContents(t.left, keyOf, a);
    WalkIsContents(t.right, keyOf, b);
    var L, R := Contents(t.left, keyOf).Keys, Contents(t.right, keyOf).Keys;
    var c: Key :| AgreeBefore(L, c, t.bit) && AgreeBefore(R, c, t.bit);
    CanonBit(keyOf(a), t.bit);
    CanonBit(keyOf(b), t.bit);
    forall m: nat | m < t.bit ensures Bit(keyOf(a), m) == Bit(keyOf(b), m) {
      CanonBit(keyOf(a), m);
      CanonBit(keyOf(b), m);
    }
    CritLess(keyOf(a), keyOf(b), t.bit);
  }

  /** walk visits exactly the stored objects, in ascending order of their zero-continued keys. */
  lemma {:induction false} WalkAscends<O>(t: Tree<O>, keyOf: O -> Key)
    requires Good(t, keyOf)
    ensures Ascending(Walk(t), keyOf)
  {
    if t.Fork? {
      WalkAscends(t.left, keyOf);
      WalkAscends(t.right, keyOf);
      forall a, b | a in Walk(t.left) && b in Walk(t.right) ensures Less(keyOf(a), keyOf(b)) {
        CrossLess(t, keyOf, a, b);
      }
      AscendingJoin(Walk(t.left), Walk(t.right), keyOf);
    }
  }

  lemma AscendingJoin<O>(s: seq<O>, r: seq<O>, keyOf: O -> Key)
    requires Ascending(s, keyOf) && Ascending(r, keyOf)
    requires forall a, b :: a in s && b in r ==> Less(keyOf(a), keyOf(b))
    ensures Ascending(s + r, keyOf)
  {}
}

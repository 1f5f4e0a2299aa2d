/** The chained open-addressed hash table of usual/hashtab-impl.h.

 A table is a chain of fixed-size segments; each segment probes with ProbeSequence and keeps
 "every slot on the probe path from an item's home to its slot is occupied".  Every operation
 is proved to act on the chain as on a finite map, and every probe loop to terminate.
 */
module HashTable {
  import opened Prelude
  import opened ProbeSequence

  /** `struct HashItem`; Free stands for a NULL value. */
  datatype Slot<V> = Free | Item(key: nat, value: V)

  /** CALC_POS. */
  function Home(key: nat, size: nat): (r: nat)
    requires size > 0
    ensures r < size
  {
    key % size
  }

  /** MAX_USED: 75 percent of the size, with the product cut to 32 bits. */
  function MaxUsed(size: nat): nat { size * 75 % 0x1_0000_0000 / 100 }

  /** In spite of the cut, every table has room for an item, and keeps a free slot. */
  lemma MaxUsedBounds(k: nat)
    requires 1 <= k < 32
    ensures 1 <= MaxUsed(Pow2(k)) < Pow2(k)
  {
    PowerOf25();
    if k < 26 {
      Pow2Grows(1, k);
      Pow2Grows(k, 25);
      SmallShare(Pow2(k));
    } else {
      LargePower(k);
      LargeShare(Pow2(k));
    }
  }

  /** Three quarters of the slots, as long as the product does not wrap; from 2^26 slots on, less. */
  lemma MaxUsedShare(k: nat)
    requires 2 <= k < 32
    ensures MaxUsed(Pow2(k)) == if k < 26 then 3 * Pow2(k - 2) else Pow2(k) * [11, 11, 11, 3, 3, 1][k - 26] / 100
  {
    PowerOf25();
    if k < 26 {
      Pow2Grows(k, 25);
      assert Pow2(k) == 4 * Pow2(k - 2);
      Quarters(Pow2(k - 2));
    } else {
      LargePower(k);
      WrappedShare(k, Pow2(k));
    }
  }

  lemma Quarters(q: nat)
    requires 4 * q <= 0x200_0000
    ensures MaxUsed(4 * q) == 3 * q
  {
    assert 4 * q * 75 == 100 * (3 * q);
  }

  lemma WrappedShare(k: nat, size: nat)
    requires 26 <= k < 32
    requires size == [0x400_0000, 0x800_0000, 0x1000_0000, 0x2000_0000, 0x4000_0000, 0x8000_0000][k - 26]
    ensures MaxUsed(size) == size * [11, 11, 11, 3, 3, 1][k - 26] / 100
  {}

  lemma PowerOf25()
    ensures Pow2(25) == 0x200_0000
  {
    assert Pow2(10) == 1024;
    assert Pow2(20) == 0x10_0000;
  }

  lemma {:induction false} LargePower(k: nat)
    requires 26 <= k < 32
    ensures Pow2(k) == [0x400_0000, 0x800_0000, 0x1000_0000, 0x2000_0000, 0x4000_0000, 0x8000_0000][k - 26]
  {
    if k == 26 {
      PowerOf25();
    } else {
      LargePower(k - 1);
    }
  }

  lemma SmallShare(size: nat)
    requires 2 <= size <= 0x200_0000
    ensures 1 <= MaxUsed(size) < size
  {
    assert size * 75 < 0x1_0000_0000;
  }

  lemma LargeShare(size: nat)
    requires size in {0x400_0000, 0x800_0000, 0x1000_0000, 0x2000_0000, 0x4000_0000, 0x8000_0000}
    ensures 1 <= MaxUsed(size) < size
  {}

  // ----- one segment as a sequence of slots

  ghost function Occupied<V>(slots: seq<Slot<V>>): set<nat> {
    set i: nat | 0 <= i < |slots| && slots[i].Item?
  }

  /** All slots probed before reaching q for the item stored at q are occupied. */
  ghost predicate PathOk<V>(k: nat, slots: seq<Slot<V>>, q: nat)
    requires |slots| == Pow2(k) && q < |slots| && slots[q].Item?
  {
    var home := Home(slots[q].key, |slots|);
    forall n: nat :: n < Dist(k, |slots|, home, q) ==> slots[Iter(home, n, |slots|)].Item?
  }

  ghost predicate ProbeOk<V>(k: nat, slots: seq<Slot<V>>)
    requires |slots| == Pow2(k)
  {
    forall q: nat :: q < |slots| && slots[q].Item? ==> PathOk(k, slots, q)
  }

  /** Slot i holds an item that counts; the slot `hole` (if any) is about to be emptied. */
  predicate Stored<V>(slots: seq<Slot<V>>, hole: int, i: nat) {
    i < |slots| && slots[i].Item? && i != hole
  }

  function IdOf<V, A>(ident: V -> A, s: Slot<V>): (nat, A)
    requires s.Item?
  {
    (s.key, ident(s.value))
  }

  /** The stored items are exactly the entries of m, each stored once. */
  ghost predicate Represents<V, A>(slots: seq<Slot<V>>, hole: int, ident: V -> A, m: map<(nat, A), V>) {
    && (forall i: nat :: Stored(slots, hole, i) ==>
          IdOf(ident, slots[i]) in m && m[IdOf(ident, slots[i])] == slots[i].value)
    && (forall x :: x in m ==> exists i: nat :: Stored(slots, hole, i) && IdOf(ident, slots[i]) == x)
    && (forall i: nat, j: nat | Stored(slots, hole, i) && Stored(slots, hole, j) ::
          IdOf(ident, slots[i]) == IdOf(ident, slots[j]) ==> i == j)
  }

  lemma HasFree<V>(slots: seq<Slot<V>>) returns (e: nat)
    requires |Occupied(slots)| < |slots|
    ensures e < |slots| && slots[e].Free?
  {
    var all := Below(|slots|);
    if Occupied(slots) == all {
      assert false;
    }
    assert Occupied(slots) <= all;
    e :| e in all && e !in Occupied(slots);
  }

  // ----- probing

  /** The first n slots on the probe sequence of `home` are occupied. */
  ghost predicate AllItems<V>(slots: seq<Slot<V>>, home: nat, n: nat)
    requires home < |slots|
  {
    forall m: nat :: m < n ==> slots[Iter(home, m, |slots|)].Item?
  }

  /** A probe that stops at a free slot has seen every item with that home. */
  lemma ProbeComplete<V>(k: nat, slots: seq<Slot<V>>, home: nat, n: nat, q: nat)
    requires |slots| == Pow2(k) && ProbeOk(k, slots) && home < |slots| && n < |slots|
    requires slots[Iter(home, n, |slots|)].Free?
    requires q < |slots| && slots[q].Item? && Home(slots[q].key, |slots|) == home
    ensures Dist(k, |slots|, home, q) < n
  {
    assert PathOk(k, slots, q);
  }

  /** A probe over occupied slots reaches a free one within the size of the table. */
  lemma ProbeStops<V>(k: nat, slots: seq<Slot<V>>, home: nat, n: nat, e: nat)
    requires |slots| == Pow2(k) && home < |slots| && e < |slots| && slots[e].Free?
    requires AllItems(slots, home, n)
    ensures n <= Dist(k, |slots|, home, e) < |slots|
  {}

  /** The first n probed slots are occupied, and none of them holds the entry looked for. */
  ghost predicate Missed<V, A>(slots: seq<Slot<V>>, ident: V -> A, home: nat, n: nat, key: nat, arg: Option<A>)
    requires home < |slots|
  {
    && AllItems(slots, home, n)
    && (arg.Some? ==> forall m: nat :: m < n ==> IdOf(ident, slots[Iter(home, m, |slots|)]) != (key, arg.value))
  }

  lemma MissedNext<V, A>(slots: seq<Slot<V>>, ident: V -> A, home: nat, n: nat, key: nat, arg: Option<A>)
    requires home < |slots| && Missed(slots, ident, home, n, key, arg)
    requires slots[Iter(home, n, |slots|)].Item?
    requires arg.Some? ==> IdOf(ident, slots[Iter(home, n, |slots|)]) != (key, arg.value)
    ensures Missed(slots, ident, home, n + 1, key, arg)
  {}

  /** One more probe. */
  lemma ProbeStep<V, A>(k: nat, slots: seq<Slot<V>>, ident: V -> A, home: nat, n: nat, key: nat, arg: Option<A>, e: nat)
    requires |slots| == Pow2(k) && home < |slots| && e < |slots| && slots[e].Free?
    requires Missed(slots, ident, home, n, key, arg) && slots[Iter(home, n, |slots|)].Item?
    requires arg.Some? ==> IdOf(ident, slots[Iter(home, n, |slots|)]) != (key, arg.value)
    ensures Missed(slots, ident, home, n + 1, key, arg) && n + 1 < |slots|
    ensures Next(Iter(home, n, |slots|), |slots|) == Iter(home, n + 1, |slots|)
  {
    MissedNext(slots, ident, home, n, key, arg);
    ProbeStops(k, slots, home, n + 1, e);
  }

  lemma MissedAll<V, A>(k: nat, slots: seq<Slot<V>>, ident: V -> A, m: map<(nat, A), V>, home: nat, n: nat, key: nat,
      arg: A)
    requires |slots| == Pow2(k) && ProbeOk(k, slots) && Represents(slots, -1, ident, m)
    requires home == Home(key, |slots|) && n < |slots| && slots[Iter(home, n, |slots|)].Free?
    requires Missed(slots, ident, home, n, key, Some(arg))
    ensures (key, arg) !in m
  {
    if (key, arg) in m {
      var q: nat :| Stored(slots, -1, q) && IdOf(ident, slots[q]) == (key, arg);
      ProbeComplete(k, slots, home, n, q);
      assert false;
    }
  }

  lemma {:induction false} InsertKeepsProbes<V>(k: nat, slots: seq<Slot<V>>, home: nat, n: nat, key: nat, v: V)
    requires |slots| == Pow2(k) && ProbeOk(k, slots) && n < |slots|
    requires home == Home(key, |slots|) && AllItems(slots, home, n)
    requires slots[Iter(home, n, |slots|)].Free?
    ensures ProbeOk(k, slots[Iter(home, n, |slots|) := Item(key, v)])
  {
    var p := Iter(home, n, |slots|);
    var after := slots[p := Item(key, v)];
    forall q: nat | q < |after| && after[q].Item? ensures PathOk(k, after, q) {
      if q == p {
        DistUnique(k, |slots|, home, p, n);
      } else {
        assert PathOk(k, slots, q);
      }
    }
  }

  lemma InsertRepresents<V, A>(slots: seq<Slot<V>>, ident: V -> A, m: map<(nat, A), V>, p: nat, key: nat, v: V)
    requires Represents(slots, -1, ident, m) && p < |slots| && slots[p].Free? && (key, ident(v)) !in m
    ensures Represents(slots[p := Item(key, v)], -1, ident, m[(key, ident(v)) := v])
    ensures Occupied(slots[p := Item(key, v)]) == Occupied(slots) + {p}
  {
    var after, m' := slots[p := Item(key, v)], m[(key, ident(v)) := v];
    forall x | x in m' ensures exists i: nat :: Stored(after, -1, i) && IdOf(ident, after[i]) == x {
      if x == (key, ident(v)) {
        assert Stored(after, -1, p);
      } else {
        var i: nat :| Stored(slots, -1, i) && IdOf(ident, slots[i]) == x;
        assert Stored(after, -1, i);
      }
    }
    forall i: nat | Stored(after, -1, i) && i != p ensures Stored(slots, -1, i) {
    }
  }

  lemma ReplaceRepresents<V, A>(k: nat, slots: seq<Slot<V>>, ident: V -> A, m: map<(nat, A), V>, p: nat, v: V)
    requires |slots| == Pow2(k) && ProbeOk(k, slots)
    requires Represents(slots, -1, ident, m) && p < |slots| && slots[p].Item? && ident(slots[p].value) == ident(v)
    ensures Represents(slots[p := Item(slots[p].key, v)], -1, ident, m[(slots[p].key, ident(v)) := v])
    ensures Occupied(slots[p := Item(slots[p].key, v)]) == Occupied(slots)
    ensures ProbeOk(k, slots[p := Item(slots[p].key, v)])
  {
    var after, m' := slots[p := Item(slots[p].key, v)], m[(slots[p].key, ident(v)) := v];
    assert Stored(slots, -1, p);
    forall x | x in m' ensures exists i: nat :: Stored(after, -1, i) && IdOf(ident, after[i]) == x {
      var i: nat :| Stored(slots, -1, i) && IdOf(ident, slots[i]) == x;
      assert Stored(after, -1, i);
    }
    forall i: nat | Stored(after, -1, i) ensures Stored(slots, -1, i)
      && IdOf(ident, after[i]) == IdOf(ident, slots[i]) {
    }
    forall q: nat | q < |after| && after[q].Item? ensures PathOk(k, after, q) {
      assert PathOk(k, slots, q);
    }
  }

  // ----- deletion: order the slots along the probe cycle, starting from a free slot e

  /** Place of x in the cycle that starts at e. */
  ghost function Rank(k: nat, size: nat, e: nat, x: nat): (n: nat)
    requires size == Pow2(k) && e < size && x < size
    ensures n < size && Iter(e, n, size) == x
  {
    Dist(k, size, e, x)
  }

  lemma RankApart(k: nat, size: nat, e: nat, x: nat, y: nat)
    requires size == Pow2(k) && e < size && x < size && y < size && x != y
    ensures Rank(k, size, e, x) != Rank(k, size, e, y)
  {}

  lemma RankNext(k: nat, size: nat, e: nat, x: nat)
    requires size == Pow2(k) && e < size && x < size
    ensures Rank(k, size, e, x) + 1 < size ==> Rank(k, size, e, Next(x, size)) == Rank(k, size, e, x) + 1
    ensures Rank(k, size, e, x) + 1 == size ==> Next(x, size) == e
    ensures Rank(k, size, e, e) == 0
  {
    var n := Rank(k, size, e, x);
    assert Iter(e, n + 1, size) == Next(x, size);
    if n + 1 < size {
      DistUnique(k, size, e, Next(x, size), n + 1);
    } else {
      ReturnsToStart(k, size, e);
    }
    DistUnique(k, size, e, e, 0);
  }

  /** Path condition of the item at q in terms of ranks: its home does not come after it, and
      every slot from the home up to q is occupied. */
  ghost predicate RankedPath<V>(k: nat, slots: seq<Slot<V>>, e: nat, q: nat)
    requires |slots| == Pow2(k) && e < |slots| && q < |slots| && slots[q].Item?
  {
    var home := Home(slots[q].key, |slots|);
    && Rank(k, |slots|, e, home) <= Rank(k, |slots|, e, q)
    && forall r: nat :: r < |slots| && Rank(k, |slots|, e, home) <= Rank(k, |slots|, e, r) < Rank(k, |slots|, e, q)
         ==> slots[r].Item?
  }

  lemma PathToRanked<V>(k: nat, slots: seq<Slot<V>>, e: nat, q: nat)
    requires |slots| == Pow2(k) && e < |slots| && slots[e].Free? && q < |slots| && slots[q].Item?
    requires PathOk(k, slots, q)
    ensures RankedPath(k, slots, e, q)
  {
    var size, home := |slots|, Home(slots[q].key, |slots|);
    var a, n := Rank(k, size, e, home), Dist(k, size, home, q);
    IterAdds(e, a, n, size);
    if a + n >= size {
      // the path would run into the free slot e
      var m := size - a;
      IterAdds(e, a, m, size);
      ReturnsToStart(k, size, e);
      assert false;
    }
    DistUnique(k, size, e, q, a + n);
    forall r: nat | r < size && a <= Rank(k, size, e, r) < a + n ensures slots[r].Item? {
      var m := Rank(k, size, e, r) - a;
      IterAdds(e, a, m, size);
      assert Iter(home, m, size) == r;
    }
  }

  lemma RankedToPath<V>(k: nat, slots: seq<Slot<V>>, e: nat, q: nat)
    requires |slots| == Pow2(k) && e < |slots| && q < |slots| && slots[q].Item?
    requires RankedPath(k, slots, e, q)
    ensures PathOk(k, slots, q)
  {
    var size, home := |slots|, Home(slots[q].key, |slots|);
    var a, b := Rank(k, size, e, home), Rank(k, size, e, q);
    IterAdds(e, a, b - a, size);
    DistUnique(k, size, home, q, b - a);
    forall n: nat | n < b - a ensures slots[Iter(home, n, size)].Item? {
      IterAdds(e, a, n, size);
      DistUnique(k, size, e, Iter(home, n, size), a + n);
    }
  }

  /** State of the deletion loop: the slot dst is to be emptied, all other items are on ranked paths. */
  ghost predicate HoleAt<V>(k: nat, slots: seq<Slot<V>>, e: nat, dst: nat) {
    && |slots| == Pow2(k) && e < |slots| && slots[e].Free? && dst < |slots| && slots[dst].Item?
    && forall q: nat :: Stored(slots, dst, q) ==> RankedPath(k, slots, e, q)
  }

  /** Rank of pos as the end of a scan that started behind dst: e itself comes last. */
  ghost function ScanRank(k: nat, size: nat, e: nat, pos: nat): nat
    requires size == Pow2(k) && e < size && pos < size
  {
    if pos == e then size else Rank(k, size, e, pos)
  }

  /** No slot between dst and the scan position holds an item that may move to dst. */
  ghost predicate Scanned<V>(k: nat, slots: seq<Slot<V>>, e: nat, dst: nat, pos: nat)
    requires |slots| == Pow2(k) && e < |slots| && dst < |slots| && pos < |slots|
  {
    forall r: nat :: r < |slots| && Rank(k, |slots|, e, dst) < Rank(k, |slots|, e, r) < ScanRank(k, |slots|, e, pos) ==>
      slots[r].Item? && Rank(k, |slots|, e, Home(slots[r].key, |slots|)) > Rank(k, |slots|, e, dst)
  }

  /** Moving an item whose home does not lie behind dst keeps the loop state, with the hole at src. */
  lemma MoveKeepsPaths<V>(k: nat, slots: seq<Slot<V>>, e: nat, dst: nat, src: nat)
    requires HoleAt(k, slots, e, dst) && src < |slots| && src != dst && slots[src].Item?
    requires Rank(k, |slots|, e, dst) < Rank(k, |slots|, e, src)
    requires Rank(k, |slots|, e, Home(slots[src].key, |slots|)) <= Rank(k, |slots|, e, dst)
    ensures HoleAt(k, slots[dst := slots[src]], e, src)
  {
    var after := slots[dst := slots[src]];
    assert Stored(slots, dst, src);
    assert RankedPath(k, slots, e, src);
    forall q: nat | Stored(after, src, q) ensures RankedPath(k, after, e, q) {
      if q != dst {
        assert Stored(slots, dst, q);
        assert RankedPath(k, slots, e, q);
      }
    }
  }

  lemma MoveRepresents<V, A>(slots: seq<Slot<V>>, dst: nat, src: nat, ident: V -> A, m: map<(nat, A), V>)
    requires dst < |slots| && src < |slots| && src != dst && slots[src].Item? && slots[dst].Item?
    requires Represents(slots, dst, ident, m)
    ensures Represents(slots[dst := slots[src]], src, ident, m)
    ensures Occupied(slots[dst := slots[src]]) == Occupied(slots)
  {
    var after := slots[dst := slots[src]];
    forall x | x in m ensures exists i: nat :: Stored(after, src, i) && IdOf(ident, after[i]) == x {
      var i: nat :| Stored(slots, dst, i) && IdOf(ident, slots[i]) == x;
      if i == src {
        assert Stored(after, src, dst);
      } else {
        assert Stored(after, src, i);
      }
    }
    forall i: nat | Stored(after, src, i)
      ensures Stored(slots, dst, if i == dst then src else i) && after[i] == slots[if i == dst then src else i]
    {}
  }

  /** When the scan has met a free slot, no other item needs the hole. */
  lemma HoleUnused<V>(k: nat, slots: seq<Slot<V>>, e: nat, dst: nat, pos: nat, q: nat)
    requires HoleAt(k, slots, e, dst) && pos < |slots| && slots[pos].Free? && Scanned(k, slots, e, dst, pos)
    requires Rank(k, |slots|, e, dst) < ScanRank(k, |slots|, e, pos)
    requires Stored(slots, dst, q)
    ensures !(Rank(k, |slots|, e, Home(slots[q].key, |slots|)) <= Rank(k, |slots|, e, dst) < Rank(k, |slots|, e, q))
  {
    var size, home := |slots|, Home(slots[q].key, |slots|);
    assert RankedPath(k, slots, e, q);
    if Rank(k, size, e, home) <= Rank(k, size, e, dst) < Rank(k, size, e, q) {
      // q lies before the free slot that ended the scan, so it was scanned
      assert false;
    }
  }

  lemma EmptyKeepsPath<V>(k: nat, slots: seq<Slot<V>>, e: nat, dst: nat, q: nat)
    requires HoleAt(k, slots, e, dst) && Stored(slots, dst, q)
    requires !(Rank(k, |slots|, e, Home(slots[q].key, |slots|)) <= Rank(k, |slots|, e, dst) < Rank(k, |slots|, e, q))
    ensures PathOk(k, slots[dst := Free], q)
  {
    assert RankedPath(k, slots, e, q);
    assert RankedPath(k, slots[dst := Free], e, q);
    RankedToPath(k, slots[dst := Free], e, q);
  }

  lemma EmptyKeepsProbes<V>(k: nat, slots: seq<Slot<V>>, e: nat, dst: nat, pos: nat)
    requires HoleAt(k, slots, e, dst) && pos < |slots| && slots[pos].Free? && Scanned(k, slots, e, dst, pos)
    requires Rank(k, |slots|, e, dst) < ScanRank(k, |slots|, e, pos)
    ensures ProbeOk(k, slots[dst := Free])
  {
    var after := slots[dst := Free];
    forall q: nat | q < |after| && after[q].Item? ensures PathOk(k, after, q) {
      HoleUnused(k, slots, e, dst, pos, q);
      EmptyKeepsPath(k, slots, e, dst, q);
    }
  }

  lemma EmptyRepresents<V, A>(slots: seq<Slot<V>>, dst: nat, ident: V -> A, m: map<(nat, A), V>)
    requires dst < |slots| && slots[dst].Item? && Represents(slots, dst, ident, m)
    ensures Represents(slots[dst := Free], -1, ident, m)
  {
    var after := slots[dst := Free];
    forall i: nat ensures Stored(after, -1, i) <==> Stored(slots, dst, i) {
    }
    forall i: nat | Stored(slots, dst, i) ensures after[i] == slots[i] {
    }
    forall x | x in m ensures exists i: nat :: Stored(after, -1, i) && IdOf(ident, after[i]) == x {
      var i: nat :| Stored(slots, dst, i) && IdOf(ident, slots[i]) == x;
      assert Stored(after, -1, i);
    }
  }

  lemma EmptyOccupied<V>(slots: seq<Slot<V>>, dst: nat)
    requires dst < |slots| && slots[dst].Item?
    ensures |Occupied(slots[dst := Free])| == |Occupied(slots)| - 1
  {
    assert Occupied(slots) == Occupied(slots[dst := Free]) + {dst};
  }

  /** Starting a deletion: the item at dst no longer counts. */
  lemma OpenHole<V, A>(k: nat, slots: seq<Slot<V>>, e: nat, dst: nat, ident: V -> A, m: map<(nat, A), V>)
    requires |slots| == Pow2(k) && ProbeOk(k, slots) && e < |slots| && slots[e].Free? && dst < |slots|
      && slots[dst].Item?
    requires Represents(slots, -1, ident, m)
    ensures HoleAt(k, slots, e, dst) && Represents(slots, dst, ident, m - {IdOf(ident, slots[dst])})
  {
    forall q: nat | Stored(slots, dst, q) ensures RankedPath(k, slots, e, q) {
      PathToRanked(k, slots, e, q);
    }
    assert Stored(slots, -1, dst);
    forall x | x in m - {IdOf(ident, slots[dst])}
      ensures exists i: nat :: Stored(slots, dst, i) && IdOf(ident, slots[i]) == x
    {
      var i: nat :| Stored(slots, -1, i) && IdOf(ident, slots[i]) == x;
      assert Stored(slots, dst, i);
    }
    forall i: nat | Stored(slots, dst, i) ensures Stored(slots, -1, i) {
    }
  }

  lemma ScanStarts<V>(k: nat, slots: seq<Slot<V>>, e: nat, dst: nat)
    requires HoleAt(k, slots, e, dst)
    ensures Scanned(k, slots, e, dst, Next(dst, |slots|))
    ensures Rank(k, |slots|, e, dst) < ScanRank(k, |slots|, e, Next(dst, |slots|))
  {
    RankNext(k, |slots|, e, dst);
  }

  /** The item at pos may not move to dst: go on behind it. */
  lemma ScanContinues<V>(k: nat, slots: seq<Slot<V>>, e: nat, dst: nat, pos: nat)
    requires HoleAt(k, slots, e, dst) && pos < |slots| && pos != e && slots[pos].Item?
    requires Scanned(k, slots, e, dst, pos) && Rank(k, |slots|, e, dst) < Rank(k, |slots|, e, pos)
    requires Rank(k, |slots|, e, dst) < Rank(k, |slots|, e, Home(slots[pos].key, |slots|))
    ensures Scanned(k, slots, e, dst, Next(pos, |slots|))
    ensures ScanRank(k, |slots|, e, Next(pos, |slots|)) == ScanRank(k, |slots|, e, pos) + 1
  {
    var size := |slots|;
    RankNext(k, size, e, pos);
    forall r: nat | r < size && Rank(k, size, e, r) == Rank(k, size, e, pos) ensures r == pos {
      assert Iter(e, Rank(k, size, e, r), size) == r;
    }
  }

  /** Invariant of the deletion loop: hole at dst, scan at pos, m is what remains. */
  ghost predicate Deleting<V, A>(
    k: nat, slots: seq<Slot<V>>, e: nat, dst: nat, pos: nat, ident: V -> A, m: map<(nat, A), V>) {
    && HoleAt(k, slots, e, dst) && pos < |slots| && Represents(slots, dst, ident, m)
    && Scanned(k, slots, e, dst, pos) && Rank(k, |slots|, e, dst) < ScanRank(k, |slots|, e, pos)
  }

  lemma MoveStep<V, A>(k: nat, slots: seq<Slot<V>>, e: nat, dst: nat, pos: nat, ident: V -> A, m: map<(nat, A), V>)
    requires Deleting(k, slots, e, dst, pos, ident, m) && slots[pos].Item?
    requires !(Rank(k, |slots|, e, dst) < Rank(k, |slots|, e, Home(slots[pos].key, |slots|))
               <= Rank(k, |slots|, e, pos))
    ensures Deleting(k, slots[dst := slots[pos]], e, pos, Next(pos, |slots|), ident, m)
    ensures |Occupied(slots[dst := slots[pos]])| == |Occupied(slots)|
    ensures ScanRank(k, |slots|, e, pos) < ScanRank(k, |slots|, e, Next(pos, |slots|))
  {
    assert Stored(slots, dst, pos);
    assert RankedPath(k, slots, e, pos);
    MoveKeepsPaths(k, slots, e, dst, pos);
    MoveRepresents(slots, dst, pos, ident, m);
    ScanStarts(k, slots[dst := slots[pos]], e, pos);
  }

  lemma LastStep<V, A>(k: nat, slots: seq<Slot<V>>, e: nat, dst: nat, pos: nat, ident: V -> A, m: map<(nat, A), V>)
    requires Deleting(k, slots, e, dst, pos, ident, m) && slots[pos].Free?
    ensures ProbeOk(k, slots[dst := Free]) && Represents(slots[dst := Free], -1, ident, m)
    ensures |Occupied(slots[dst := Free])| == |Occupied(slots)| - 1
  {
    EmptyKeepsProbes(k, slots, e, dst, pos);
    EmptyRepresents(slots, dst, ident, m);
    EmptyOccupied(slots, dst);
  }

  // ----- copying

  /** part holds exactly the entries of the first n slots. */
  ghost predicate Prefix<V, A>(slots: seq<Slot<V>>, n: nat, ident: V -> A, part: map<(nat, A), V>) {
    && (forall i: nat :: i < n && Stored(slots, -1, i) ==>
          IdOf(ident, slots[i]) in part && part[IdOf(ident, slots[i])] == slots[i].value)
    && (forall x :: x in part ==> exists i: nat :: i < n && Stored(slots, -1, i) && IdOf(ident, slots[i]) == x)
  }

  lemma PrefixItem<V, A>(slots: seq<Slot<V>>, n: nat, ident: V -> A, part: map<(nat, A), V>, m: map<(nat, A), V>)
    requires Prefix(slots, n, ident, part) && Stored(slots, -1, n) && Represents(slots, -1, ident, m)
    ensures IdOf(ident, slots[n]) !in part && IdOf(ident, slots[n]) in m
    ensures Prefix(slots, n + 1, ident, part[IdOf(ident, slots[n]) := slots[n].value])
  {}

  lemma PrefixFree<V, A>(slots: seq<Slot<V>>, n: nat, ident: V -> A, part: map<(nat, A), V>)
    requires Prefix(slots, n, ident, part) && !Stored(slots, -1, n)
    ensures Prefix(slots, n + 1, ident, part)
  {}

  lemma PrefixAll<V, A>(slots: seq<Slot<V>>, ident: V -> A, part: map<(nat, A), V>, m: map<(nat, A), V>)
    requires Prefix(slots, |slots|, ident, part) && Represents(slots, -1, ident, m)
    ensures part == m
  {}

  // ----- the chained table

  lemma MapAssociates<X, Y>(a: map<X, Y>, b: map<X, Y>, c: map<X, Y>)
    ensures (a + b) + c == a + (b + c)
  {}

  lemma MapRemoveRight<X, Y>(a: map<X, Y>, b: map<X, Y>, x: X)
    requires x !in a
    ensures a + (b - {x}) == (a + b) - {x}
  {}

  lemma MapRemoveLeft<X, Y>(a: map<X, Y>, b: map<X, Y>, x: X)
    requires x !in b
    ensures (a - {x}) + b == (a + b) - {x}
  {}

  lemma MapUpdateRight<X, Y>(a: map<X, Y>, b: map<X, Y>, x: X, y: Y)
    requires x !in a
    ensures a + b[x := y] == (a + b)[x := y]
  {}

  lemma MapUpdateLeft<X, Y>(a: map<X, Y>, b: map<X, Y>, x: X, y: Y)
    requires x !in b
    ensures a[x := y] + b == (a + b)[x := y]
  {}

  /** One segment of the chain, `struct HashTab`.  `ident` plays the part of cmp_fn: a stored
      value matches the argument `ident(value)` and no other. */
  class HashTab<V, A(==)> {
    ghost const k: nat
    const size: nat
    const ident: V -> A
    const tab: array<Slot<V>>
    var used: nat
    var next: HashTab?<V, A>
    /** Entries of this segment alone. */
    ghost var local: map<(nat, A), V>
    ghost var Repr: set<object>

    ghost predicate ValidSegment()
      reads this`used, this`local, tab
    {
      && 1 <= k < 32 && size == tab.Length == Pow2(k)
      && used == |Occupied(tab[..])| <= MaxUsed(size)
      && ProbeOk(k, tab[..])
      && Represents(tab[..], -1, ident, local)
    }

    ghost predicate Valid()
      reads this, Repr
      ensures Valid() ==> this in Repr && tab in Repr && ValidSegment()
      decreases Repr, 0
    {
      && this in Repr && tab in Repr && ValidSegment()
      && (next != null ==>
            && next in Repr && next.Repr <= Repr && {this, tab} !! next.Repr
            && next.Valid() && next.ident == ident
            && local.Keys !! next.Contents().Keys)
    }

    /** All entries of the chain from here on. */
    ghost function Contents(): map<(nat, A), V>
      requires Valid()
      reads Repr
      decreases Repr, 1
    {
      if next == null then local else local + next.Contents()
    }

    /** hashtab_create. */
    constructor (ghost k: nat, size: nat, ident: V -> A)
      requires 1 <= k < 32 && size == Pow2(k)
      ensures Valid() && fresh(Repr) && this.ident == ident && this.size == size && this.k == k
      ensures Contents() == map[] && next == null
    {
      this.k, this.size, this.ident := k, size, ident;
      tab := new Slot<V>[size](_ => Free);
      used, next, local := 0, null, map[];
      new;
      Repr := {this, tab};
      assert Occupied(tab[..]) == {};
    }

    /** The probe loop of hashtab_lookup in one segment: stops at a match or at a free slot.
        A missing argument (NULL in the source) matches nothing. */
    method Probe(key: nat, arg: Option<A>) returns (found: bool, pos: nat, ghost n: nat)
      requires ValidSegment()
      ensures pos < size && n < size && pos == Iter(Home(key, size), n, size) && AllItems(tab[..], Home(key, size), n)
      ensures found ==> arg.Some? && tab[pos].Item? && IdOf(ident, tab[pos]) == (key, arg.value)
      ensures !found ==> tab[pos].Free?
      ensures arg.Some? ==> (found <==> (key, arg.value) in local)
    {
      ghost var slots, home := tab[..], Home(key, size);
      MaxUsedBounds(k);
      ghost var e := HasFree(slots);
      pos, n := Home(key, size), 0;
      while tab[pos].Item?
        invariant pos < size && pos == Iter(home, n, size)
        invariant Missed(slots, ident, home, n, key, arg)
        invariant n < size
        decreases size - n
      {
        if tab[pos].key == key && arg.Some? && ident(tab[pos].value) == arg.value {
          assert Stored(slots, -1, pos);
          return true, pos, n;
        }
        ProbeStep(k, slots, ident, home, n, key, arg, e);
        pos, n := Next(pos, size), n + 1;
      }
      if arg.Some? {
        MissedAll(k, slots, ident, local, home, n, key, arg.value);
      }
      return false, pos, n;
    }

    /** hashtab_lookup without insertion. */
    method Lookup(key: nat, arg: Option<A>) returns (r: Option<V>)
      requires Valid()
      ensures r == if arg.Some? && (key, arg.value) in Contents() then Some(Contents()[(key, arg.value)]) else None
      decreases Repr
    {
      var found, pos, _ := Probe(key, arg);
      if found {
        assert Stored(tab[..], -1, pos);
        return Some(tab[pos].value);
      }
      if next != null {
        r := next.Lookup(key, arg);
      } else {
        r := None;
      }
    }

    /** hashtab_lookup with insertion, and the caller's store through the returned pointer.
        Without an argument the caller answers for the entry being new, as hashtab_copy does. */
    method Insert(key: nat, arg: Option<A>, v: V, memory: bool) returns (ok: bool)
      requires Valid()
      requires if arg.Some? then ident(v) == arg.value else (key, ident(v)) !in Contents()
      modifies Repr
      ensures Valid() && fresh(Repr - old(Repr))
      ensures ok || !memory
      ensures Contents() == if ok then old(Contents())[(key, ident(v)) := v] else old(Contents())
      decreases Repr, 1
    {
      var found, pos, n := Probe(key, arg);
      if found {
        Overwrite(pos, v);
      } else if next != null {
        ok := InsertNext(key, arg, v, memory);
        return;
      } else if used >= MaxUsed(size) {
        if !memory {
          return false;
        }
        Extend(key, v);
      } else {
        Store(key, v, pos, n);
      }
      return true;
    }

    method InsertNext(key: nat, arg: Option<A>, v: V, memory: bool) returns (ok: bool)
      requires Valid() && next != null && (key, ident(v)) !in local
      requires if arg.Some? then ident(v) == arg.value else (key, ident(v)) !in Contents()
      modifies Repr
      ensures Valid() && fresh(Repr - old(Repr))
      ensures ok || !memory
      ensures Contents() == if ok then old(Contents())[(key, ident(v)) := v] else old(Contents())
      decreases Repr, 0
    {
      ghost var slots, rest := tab[..], next.Contents();
      MapUpdateRight(local, rest, (key, ident(v)), v);
      ok := next.Insert(key, arg, v, memory);
      Repr := Repr + next.Repr;
      assert tab[..] == slots;
      Linked(if ok then rest[(key, ident(v)) := v] else rest);
    }

    /** A valid segment in front of a valid chain. */
    lemma Linked(rest: map<(nat, A), V>)
      requires this in Repr && tab in Repr && ValidSegment() && next != null
      requires next in Repr && next.Repr <= Repr && {this, tab} !! next.Repr && next.Valid() && next.ident == ident
      requires next.Contents() == rest && local.Keys !! rest.Keys
      ensures Valid() && Contents() == local + rest
    {}

    /** The store into the slot of a matching entry. */
    method Overwrite(pos: nat, v: V)
      requires Valid() && pos < size && tab[pos].Item? && ident(tab[pos].value) == ident(v)
      modifies this`local, tab
      ensures Valid() && Contents() == old(Contents()[(tab[pos].key, ident(v)) := v])
    {
      assert Stored(tab[..], -1, pos);
      if next != null {
        MapUpdateLeft(local, next.Contents(), (tab[pos].key, ident(v)), v);
      }
      OverwriteLocal(pos, v);
    }

    method OverwriteLocal(pos: nat, v: V)
      requires ValidSegment() && pos < size && tab[pos].Item? && ident(tab[pos].value) == ident(v)
      modifies this`local, tab
      ensures ValidSegment() && local == old(local[(tab[pos].key, ident(v)) := v])
    {
      ghost var slots := tab[..];
      ReplaceRepresents(k, slots, ident, local, pos, v);
      local := local[(tab[pos].key, ident(v)) := v];
      tab[pos] := Item(tab[pos].key, v);
      assert tab[..] == slots[pos := Item(slots[pos].key, v)];
    }

    /** Link a new segment of the same size behind a full one and store there. */
    method Extend(key: nat, v: V)
      requires Valid() && next == null && (key, ident(v)) !in local
      modifies this`next, this`Repr
      ensures Valid() && fresh(Repr - old(Repr))
      ensures Contents() == old(Contents())[(key, ident(v)) := v]
    {
      var tmp := new HashTab(k, size, ident);
      MaxUsedBounds(k);
      var _, pos, n := tmp.Probe(key, None);
      tmp.Store(key, v, pos, n);
      MapUpdateRight(local, map[], (key, ident(v)), v);
      next := tmp;
      Repr := Repr + tmp.Repr;
      Linked(map[(key, ident(v)) := v]);
      assert local + map[] == local;
    }

    /** Fill a free slot found by probing. */
    method Store(key: nat, v: V, pos: nat, ghost n: nat)
      requires Valid() && next == null && used < MaxUsed(size) && (key, ident(v)) !in local
      requires pos < size && n < size && pos == Iter(Home(key, size), n, size) && AllItems(tab[..], Home(key, size), n)
      requires tab[pos].Free?
      modifies this`used, this`local, tab
      ensures Valid() && Contents() == old(Contents())[(key, ident(v)) := v]
    {
      ghost var slots := tab[..];
      InsertKeepsProbes(k, slots, Home(key, size), n, key, v);
      InsertRepresents(slots, ident, local, pos, key, v);
      used := used + 1;
      tab[pos] := Item(key, v);
      local := local[(key, ident(v)) := v];
      assert tab[..] == slots[pos := Item(key, v)];
    }

    /** _hashtab_slot_can_move: may the item at srcpos go to dstpos?  Not if its home lies
        behind dstpos and not behind srcpos.  The free slot e only fixes where the cycle starts. */
    method SlotCanMove(dstpos: nat, srcpos: nat, ghost e: nat) returns (can: bool)
      requires size == tab.Length == Pow2(k) && dstpos < size && srcpos < size && e < size && tab[srcpos].Item?
      requires Rank(k, size, e, dstpos) < Rank(k, size, e, srcpos)
      ensures can <==>
        !(Rank(k, size, e, dstpos) < Rank(k, size, e, Home(tab[srcpos].key, size)) <= Rank(k, size, e, srcpos))
    {
      var kpos := Home(tab[srcpos].key, size);
      if kpos == srcpos {
        return false;
      }
      if kpos == dstpos {
        return true;
      }
      ghost var from: int, home: int, to: int := Rank(k, size, e, dstpos), Rank(k, size, e, kpos),
        Rank(k, size, e, srcpos);
      var pos: nat := Next(dstpos, size);
      RankNext(k, size, e, dstpos);
      ghost var n: int := from + 1;
      while pos != srcpos
        invariant pos < size && n == Rank(k, size, e, pos) && from < n <= to && !(from < home < n)
        decreases size - Rank(k, size, e, pos)
      {
        if pos == kpos {
          return false;
        }
        RankApart(k, size, e, pos, srcpos);
        RankApart(k, size, e, pos, kpos);
        RankNext(k, size, e, pos);
        pos, n := Next(pos, size), n + 1;
      }
      RankApart(k, size, e, kpos, srcpos);
      return true;
    }

    /** hashtab_delete. */
    method Delete(key: nat, arg: Option<A>)
      requires Valid()
      modifies Repr
      ensures Valid() && Repr == old(Repr)
      ensures Contents() == if arg.Some? then old(Contents()) - {(key, arg.value)} else old(Contents())
      decreases Repr, 1
    {
      var found, pos, _ := Probe(key, arg);
      if found {
        DeleteAt(pos);
      } else if next != null {
        DeleteNext(key, arg);
      }
    }

    method DeleteNext(key: nat, arg: Option<A>)
      requires Valid() && next != null && (arg.Some? ==> (key, arg.value) !in local)
      modifies Repr
      ensures Valid() && Repr == old(Repr)
      ensures Contents() == if arg.Some? then old(Contents()) - {(key, arg.value)} else old(Contents())
      decreases Repr, 0
    {
      ghost var slots := tab[..];
      if arg.Some? {
        MapRemoveRight(local, next.Contents(), (key, arg.value));
      }
      next.Delete(key, arg);
      assert tab[..] == slots;
      assert ValidSegment();
    }

    method DeleteAt(pos: nat)
      requires Valid() && pos < size && tab[pos].Item?
      modifies this`used, this`local, tab
      ensures Valid() && Contents() == old(Contents() - {IdOf(ident, tab[pos])})
    {
      assert Stored(tab[..], -1, pos);
      if next != null {
        MapRemoveLeft(local, next.Contents(), IdOf(ident, tab[pos]));
      }
      DeleteLocal(pos);
    }

    method DeleteLocal(pos: nat)
      requires ValidSegment() && pos < size && tab[pos].Item?
      modifies this`used, this`local, tab
      ensures ValidSegment() && local == old(local - {IdOf(ident, tab[pos])})
    {
      ghost var m := local - {IdOf(ident, tab[pos])};
      MoveSlots(pos);
      used := used - 1;
      local := m;
    }

    /** The loop of hashtab_delete: fill the hole from behind until it can be left empty. */
    method MoveSlots(pos0: nat)
      requires ValidSegment() && pos0 < size && tab[pos0].Item?
      modifies tab
      ensures ProbeOk(k, tab[..]) && Represents(tab[..], -1, ident, local - {IdOf(ident, old(tab[pos0]))})
      ensures |Occupied(tab[..])| == used - 1
    {
      ghost var slots, m := tab[..], local - {IdOf(ident, tab[pos0])};
      MaxUsedBounds(k);
      ghost var e := HasFree(slots);
      OpenHole(k, slots, e, pos0, ident, local);
      ScanStarts(k, slots, e, pos0);
      var dstpos := pos0;
      var pos: nat := Next(dstpos, size);
      while tab[pos].Item?
        invariant slots == tab[..] && dstpos < size && pos < size
        invariant Deleting(k, slots, e, dstpos, pos, ident, m) && |Occupied(slots)| == used
        decreases size - ScanRank(k, size, e, pos)
      {
        var can := SlotCanMove(dstpos, pos, e);
        RankNext(k, size, e, pos);
        if can {
          MoveStep(k, slots, e, dstpos, pos, ident, m);
          tab[dstpos] := tab[pos];
          slots := slots[dstpos := slots[pos]];
          dstpos := pos;
        } else {
          ScanContinues(k, slots, e, dstpos, pos);
        }
        pos := Next(pos, size);
      }
      LastStep(k, slots, e, dstpos, pos, ident, m);
      tab[dstpos] := Free;
      assert tab[..] == slots[dstpos := Free];
    }

    /** hashtab_copy: the entries of the whole chain in a new table of another size. */
    method Copy(ghost newk: nat, newsize: nat) returns (h: HashTab<V, A>)
      requires Valid() && 1 <= newk < 32 && newsize == Pow2(newk)
      ensures h.Valid() && fresh(h.Repr) && h.ident == ident && h.Contents() == Contents()
    {
      h := new HashTab(newk, newsize, ident);
      ghost var all := Contents();
      assert map[] + all == all;
      CopyInto(h);
    }

    /** The double loop of hashtab_copy, from this segment on. */
    method CopyInto(h: HashTab<V, A>)
      requires Valid() && h.Valid() && Repr !! h.Repr && h.ident == ident && h.Contents().Keys !! Contents().Keys
      modifies h.Repr
      ensures h.Valid() && fresh(h.Repr - old(h.Repr)) && h.Contents() == old(h.Contents()) + Contents()
      decreases Repr
    {
      ghost var start := h.Contents();
      CopySegment(h);
      if next != null {
        MapAssociates(start, local, next.Contents());
        next.CopyInto(h);
      }
    }

    method CopySegment(h: HashTab<V, A>)
      requires ValidSegment() && h.Valid() && {this, tab} !! h.Repr && h.ident == ident
        && h.Contents().Keys !! local.Keys
      modifies h.Repr
      ensures h.Valid() && fresh(h.Repr - old(h.Repr)) && h.Contents() == old(h.Contents()) + local
    {
      ghost var slots, start := tab[..], h.Contents();
      ghost var part: map<(nat, A), V> := map[];
      var i := 0;
      while i < size
        invariant 0 <= i <= size && tab[..] == slots
        invariant h.Valid() && fresh(h.Repr - old(h.Repr)) && {this, tab} !! h.Repr && h.ident == ident
        invariant Prefix(slots, i, ident, part) && h.Contents() == start + part
        invariant start.Keys !! local.Keys
      {
        if tab[i].Item? {
          PrefixItem(slots, i, ident, part, local);
          MapUpdateRight(start, part, IdOf(ident, tab[i]), tab[i].value);
          part := part[IdOf(ident, tab[i]) := tab[i].value];
          var _ := h.Insert(tab[i].key, None, tab[i].value, true);
        } else {
          PrefixFree(slots, i, ident, part);
        }
        i := i + 1;
      }
      PrefixAll(slots, ident, part, local);
    }
  }
}

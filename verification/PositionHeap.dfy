/** The binary heap of usual/heap.c, which tells every object its current index.

 data holds the used part of the array; saved is what the save_pos callback was last told.
 */
module PositionHeap {
  import opened Prelude

  type Better<!O> = (O, O) -> bool

  /** A strict weak order: objects neither of which is better form classes. */
  ghost predicate StrictWeak<O(!new)>(better: Better<O>) {
    (forall x, y :: better(x, y) ==> !better(y, x))
    && (forall x, y, z :: better(x, z) ==> better(x, y) || better(y, z))
  }

  function Parent(i: nat): (p: nat)
    requires i > 0
    ensures p < i
  {
    (i - 1) / 2
  }

  ghost predicate NotAbove<O>(s: seq<O>, better: Better<O>, i: int, p: int)
    requires 0 <= i < |s| && 0 <= p < |s|
  {
    !better(s[i], s[p])
  }

  /** No object is better than its parent. */
  ghost predicate Ordered<O>(s: seq<O>, better: Better<O>) {
    forall i :: 0 < i < |s| ==> NotAbove(s, better, i, Parent(i))
  }

  /** Only object i may be better than its parent. */
  ghost predicate OrderedButUp<O>(s: seq<O>, better: Better<O>, i: nat) {
    i < |s| && (forall j :: 0 < j < |s| && j != i ==> NotAbove(s, better, j, Parent(j)))
    && (forall j :: 0 < j < |s| && i > 0 && Parent(j) == i ==> NotAbove(s, better, j, Parent(i)))
  }

  /** Only children of object i may be better than it. */
  ghost predicate OrderedButDown<O>(s: seq<O>, better: Better<O>, i: nat) {
    i < |s| && (forall j :: 0 < j < |s| && Parent(j) != i ==> NotAbove(s, better, j, Parent(j)))
    && (forall j :: 0 < j < |s| && i > 0 && Parent(j) == i ==> NotAbove(s, better, j, Parent(i)))
  }

  function Swapped<O>(s: seq<O>, i: nat, j: nat): (r: seq<O>)
    requires i < |s| && j < |s|
    ensures |r| == |s|
  {
    s[i := s[j]][j := s[i]]
  }

  lemma SwapBag<O>(s: seq<O>, i: nat, j: nat)
    requires i < |s| && j < |s|
    ensures multiset(Swapped(s, i, j)) == multiset(s)
  {}

  lemma SwapUp<O(!new)>(s: seq<O>, better: Better<O>, i: nat)
    requires StrictWeak(better) && OrderedButUp(s, better, i) && i > 0 && better(s[i], s[Parent(i)])
    ensures OrderedButUp(Swapped(s, i, Parent(i)), better, Parent(i))
  {}

  lemma SwapDown<O(!new)>(s: seq<O>, better: Better<O>, i: nat, c: nat)
    requires StrictWeak(better) && OrderedButDown(s, better, i) && c < |s| && better(s[c], s[i])
    requires BestChild(s, better, i, c)
    ensures OrderedButDown(Swapped(s, i, c), better, c)
  {}

  /** The root is an object that no other beats. */
  lemma {:induction false} RootBest<O(!new)>(s: seq<O>, better: Better<O>, i: nat)
    requires StrictWeak(better) && Ordered(s, better) && i < |s|
    ensures !better(s[i], s[0])
  {
    if i > 0 {
      RootBest(s, better, Parent(i));
      assert NotAbove(s, better, i, Parent(i));
    }
  }

  /** Putting another object at pos leaves at most its own links wrong. */
  lemma Replaced<O(!new)>(s: seq<O>, better: Better<O>, pos: nat, x: O)
    requires StrictWeak(better) && Ordered(s, better) && pos < |s|
    ensures pos > 0 && (better(x, s[Parent(pos)]) || pos == |s| - 1) ==> OrderedButUp(s[pos := x], better, pos)
    ensures pos == 0 || !better(x, s[Parent(pos)]) ==> OrderedButDown(s[pos := x], better, pos)
  {}

  /** The child that bubble_down compares with object i. */
  ghost predicate BestChild<O>(s: seq<O>, better: Better<O>, i: nat, c: nat) {
    0 < c < |s| && Parent(c) == i && forall j :: 0 < j < |s| && Parent(j) == i ==> NotAbove(s, better, j, c)
  }

  lemma ChildChosen<O(!new)>(s: seq<O>, better: Better<O>, i: nat)
    requires StrictWeak(better) && 2 * i + 1 < |s|
    ensures var c := 2 * i + 1;
            if c + 1 < |s| && better(s[c + 1], s[c]) then BestChild(s, better, i, c + 1) else BestChild(s, better, i, c)
  {
    forall j | 0 < j < |s| && Parent(j) == i ensures j == 2 * i + 1 || j == 2 * i + 2 {}
  }

  /** The best child of i is no better than it. */
  lemma Settled<O(!new)>(s: seq<O>, better: Better<O>, i: nat, c: nat)
    requires StrictWeak(better) && OrderedButDown(s, better, i) && BestChild(s, better, i, c) && !better(s[c], s[i])
    ensures Ordered(s, better)
  {}

  lemma NoChildren<O(!new)>(s: seq<O>, better: Better<O>, i: nat)
    requires OrderedButDown(s, better, i) && 2 * i + 1 >= |s|
    ensures Ordered(s, better)
  {}

  /** Objects are found at the saved index, but for those that were stored twice. */
  ghost predicate Tracks<O(!new)>(data: seq<O>, saved: map<O, nat>, doubled: set<O>) {
    forall i :: 0 <= i < |data| && data[i] !in doubled ==> data[i] in saved && saved[data[i]] == i
  }

  lemma SwapTracks<O(!new)>(data: seq<O>, saved: map<O, nat>, doubled: set<O>, i: nat, j: nat)
    requires Tracks(data, saved, doubled) && i < |data| && j < |data| && i != j
    ensures Tracks(Swapped(data, i, j), saved[data[j] := i][data[i] := j], doubled)
  {}

  class Heap<O(==, !new)> {
    var data: seq<O>
    var capacity: nat
    var saved: map<O, nat>
    const better: Better<O>
    /** The objects that were pushed while they were in the heap. */
    ghost var doubled: set<O>

    /** Every object that was not stored twice was last told its real index. */
    ghost predicate Tracked() reads this {
      |data| <= capacity && Tracks(data, saved, doubled)
    }

    ghost predicate Valid() reads this { StrictWeak(better) && Tracked() && Ordered(data, better) }

    constructor (better: Better<O>)
      requires StrictWeak(better)
      ensures Valid() && data == [] && this.better == better && doubled == {}
    {
      data, capacity, saved, doubled := [], 0, map[], {};
      this.better := better;
    }

    method Set(i: nat, ptr: O)
      requires i < |data|
      modifies this`data, this`saved
      ensures data == old(data)[i := ptr] && saved == old(saved)[ptr := i]
    {
      data := data[i := ptr];
      saved := saved[ptr := i];
    }

    method Swap(i: nat, j: nat)
      requires i < |data| && j < |data| && i != j && Tracked()
      modifies this`data, this`saved
      ensures Tracked() && data == Swapped(old(data), i, j) && multiset(data) == multiset(old(data))
    {
      SwapBag(data, i, j);
      SwapTracks(data, saved, doubled, i, j);
      var tmp := data[i];
      Set(i, data[j]);
      Set(j, tmp);
    }

    method BubbleUp(pos: nat)
      requires StrictWeak(better) && Tracked() && OrderedButUp(data, better, pos)
      modifies this`data, this`saved
      ensures Valid() && multiset(data) == multiset(old(data))
    {
      var i: nat := pos;
      while i > 0
        invariant Tracked() && OrderedButUp(data, better, i) && multiset(data) == multiset(old(data))
      {
        var p := Parent(i);
        if !better(data[i], data[p]) {
          break;
        }
        SwapUp(data, better, i);
        Swap(i, p);
        i := p;
      }
    }

    method BubbleDown(pos: nat)
      requires StrictWeak(better) && Tracked() && OrderedButDown(data, better, pos)
      modifies this`data, this`saved
      ensures Valid() && multiset(data) == multiset(old(data))
    {
      var i: nat := pos;
      var c: nat := 2 * i + 1;
      while c < |data|
        invariant c == 2 * i + 1 && i < |data|
        invariant Tracked() && OrderedButDown(data, better, i) && multiset(data) == multiset(old(data))
        decreases |data| - i
      {
        ChildChosen(data, better, i);
        if c + 1 < |data| {
          if better(data[c + 1], data[c]) {
            c := c + 1;
          }
        }
        assert BestChild(data, better, i, c);
        if !better(data[c], data[i]) {
          Settled(data, better, i, c);
          return;
        }
        SwapDown(data, better, i, c);
        Swap(i, c);
        i := c;
        c := 2 * i + 1;
      }
      NoChildren(data, better, i);
    }

    method Rebalance(pos: nat)
      requires StrictWeak(better) && Tracked() && pos < |data|
      requires pos > 0 && (better(data[pos], data[Parent(pos)]) || pos == |data| - 1)
        ==> OrderedButUp(data, better, pos)
      requires pos == 0 || !better(data[pos], data[Parent(pos)]) ==> OrderedButDown(data, better, pos)
      modifies this`data, this`saved
      ensures Valid() && multiset(data) == multiset(old(data))
    {
      if pos == 0 {
        BubbleDown(pos);
      } else if pos == |data| - 1 {
        BubbleUp(pos);
      } else if better(data[pos], data[Parent(pos)]) {
        BubbleUp(pos);
      } else {
        BubbleDown(pos);
      }
    }

    /** heap_reserve; memory is false when the reallocation fails. */
    method Reserve(extra: nat, memory: bool) returns (ok: bool)
      requires Valid()
      modifies this`capacity
      ensures Valid()
      ensures ok ==> |data| + extra <= capacity
      ensures !ok || |data| + extra < old(capacity) ==> capacity == old(capacity)
      ensures capacity != old(capacity) ==>
                capacity >= 2 * old(capacity) && capacity >= 32 && capacity in {2 * old(capacity), 32, |data| + extra}
      ensures ok <==> memory || |data| + extra < old(capacity)
    {
      if |data| + extra < capacity {
        return true;
      }
      var newalloc := capacity * 2;
      if newalloc < 32 {
        newalloc := 32;
      }
      if newalloc < |data| + extra {
        newalloc := |data| + extra;
      }
      if !memory {
        return false;
      }
      capacity := newalloc;
      return true;
    }

    /** heap_push; an object that is in the heap already is stored once more, and no longer tracked. */
    method Push(ptr: O, memory: bool) returns (ok: bool)
      requires Valid()
      modifies this
      ensures Valid()
      ensures doubled == if ok && ptr in old(data) then old(doubled) + {ptr} else old(doubled)
      ensures ok <==> memory || |old(data)| < old(capacity)
      ensures ok ==> multiset(data) == multiset(old(data)) + multiset{ptr}
      ensures |old(data)| < old(capacity) || !ok ==> capacity == old(capacity)
      ensures capacity == old(capacity) || (capacity >= 2 * old(capacity) && capacity >= 32)
      ensures !ok ==> data == old(data) && saved == old(saved)
    {
      if |data| >= capacity {
        ok := Reserve(1, memory);
        if !ok {
          return;
        }
      }
      var pos := |data|;
      Grown(data, better, ptr);
      GrownTracks(data, saved, doubled, ptr);
      doubled := if ptr in data then doubled + {ptr} else doubled;
      data := data + [ptr];
      saved := saved[ptr := pos];
      BubbleUp(pos);
      return true;
    }

    /** heap_remove. */
    method Remove(pos: nat) returns (obj: Option<O>)
      requires Valid()
      modifies this
      ensures Valid()
      ensures obj == if pos < |old(data)| then Some(old(data)[pos]) else None
      ensures obj.None? ==> data == old(data)
      ensures obj.Some? ==> multiset(data) + multiset{obj.value} == multiset(old(data))
      ensures doubled == old(doubled)
    {
      if pos >= |data| {
        return None;
      }
      obj := Some(data[pos]);
      var last := |data| - 1;
      Shrunk(data, better, pos);
      if pos < last {
        MoveLast(pos);
        Rebalance(pos);
      } else {
        DropLast();
      }
    }

    method DropLast()
      requires Valid() && data != []
      modifies this`data
      ensures Valid() && data == old(data[..|data| - 1])
    {
      Shrunk(data, better, |data| - 1);
      MovedLast(data, saved, doubled, |data| - 1);
      data := data[..|data| - 1];
    }

    /** The last object takes the place of the removed one. */
    method MoveLast(pos: nat)
      requires Valid() && pos < |data| - 1
      modifies this`data, this`saved
      ensures StrictWeak(better) && Tracked()
      ensures data == old(data[..|data| - 1][pos := data[|data| - 1]])
      ensures pos > 0 && (better(data[pos], data[Parent(pos)]) || pos == |data| - 1) ==> OrderedButUp(data, better, pos)
      ensures pos == 0 || !better(data[pos], data[Parent(pos)]) ==> OrderedButDown(data, better, pos)
    {
      var last := |data| - 1;
      var moved := data[last];
      Shrunk(data, better, pos);
      MovedLast(data, saved, doubled, pos);
      data := data[..last];
      Replaced(data, better, pos, moved);
      Set(pos, moved);
    }

    /** heap_top: nothing beats it. */
    method Top() returns (obj: Option<O>)
      requires Valid()
      ensures obj.None? <==> data == []
      ensures obj.Some? ==> obj.value in data && forall x :: x in data ==> !better(x, obj.value)
    {
      if |data| > 0 {
        forall i | 0 <= i < |data| ensures !better(data[i], data[0]) { RootBest(data, better, i); }
        return Some(data[0]);
      }
      return None;
    }

    /** heap_pop: the top leaves the heap. */
    method Pop() returns (obj: Option<O>)
      requires Valid()
      modifies this
      ensures Valid()
      ensures obj.None? <==> old(data) == []
      ensures obj.Some? ==> multiset(data) + multiset{obj.value} == multiset(old(data))
      ensures obj.Some? ==> forall x :: x in old(data) ==> !better(x, obj.value)
      ensures doubled == old(doubled)
    {
      forall i | 0 <= i < |data| ensures !better(data[i], data[0]) { RootBest(data, better, i); }
      obj := Remove(0);
    }
  }

  lemma MovedLast<O(!new)>(data: seq<O>, saved: map<O, nat>, doubled: set<O>, pos: nat)
    requires Tracks(data, saved, doubled) && pos < |data|
    ensures var last := |data| - 1;
            Tracks(data[..last], saved, doubled)
            && (pos < last ==> Tracks(data[..last][pos := data[last]], saved[data[last] := pos], doubled))
  {}

  lemma GrownTracks<O(!new)>(data: seq<O>, saved: map<O, nat>, doubled: set<O>, x: O)
    requires Tracks(data, saved, doubled)
    ensures Tracks(data + [x], saved[x := |data|], if x in data then doubled + {x} else doubled)
  {}

  lemma Grown<O(!new)>(s: seq<O>, better: Better<O>, x: O)
    requires Ordered(s, better)
    ensures OrderedButUp(s + [x], better, |s|)
  {}

  lemma Shrunk<O(!new)>(s: seq<O>, better: Better<O>, pos: nat)
    requires Ordered(s, better) && pos < |s|
    ensures var last := |s| - 1; var r := s[..last];
            Ordered(r, better)
            && (pos < last ==> multiset(r[pos := s[last]]) + multiset{s[pos]} == multiset(s))
            && (pos == last ==> multiset(r) + multiset{s[pos]} == multiset(s))
  {
    var last := |s| - 1;
    var r := s[..last];
    assert s == r + [s[last]];
    forall j | 0 < j < |r| ensures NotAbove(r, better, j, Parent(j)) { assert NotAbove(s, better, j, Parent(j)); }
  }
}
/** The crit-bit tree of usual/cbtree.c in memory: pointers that are either external (user
 objects) or internal (nodes), loops that move a pointer to a child slot, one write to that slot.

 Memory is a map from addresses to nodes, so that freed nodes leave it.
 */
module CritBitMemory {
  import opened Prelude
  import opened KeyBits
  import opened CritBit

  /** A child slot: the low bit of the C pointer tells External from Internal. */
  datatype Ptr<O> = Null | External(obj: O) | Internal(addr: nat)

  datatype Node<O> = Node(bitpos: nat, left: Ptr<O>, right: Ptr<O>) {
    function Child(b: bool): Ptr<O> { if b then right else left }
    function WithChild(b: bool, p: Ptr<O>): Node<O> { if b then this.(right := p) else this.(left := p) }
  }

  /** The address of a slot: the root field, or a child field of a node. */
  datatype Slot = Root | Child(addr: nat, bit: bool)

  /** SIZE_MAX / 8 with a 64-bit size_t. */
  const MAX_KEY: nat := 0xFFFF_FFFF_FFFF_FFFF / 8

  ghost function Addrs<O>(t: Tree<O>): set<nat> {
    match t
    case Leaf(_) => {}
    case Fork(a, _, l, r) => {a} + Addrs(l) + Addrs(r)
  }

  /** No node is reached twice. */
  ghost predicate Unshared<O>(t: Tree<O>) {
    t.Fork? ==>
      t.addr !in Addrs(t.left) && t.addr !in Addrs(t.right) && Addrs(t.left) !! Addrs(t.right)
      && Unshared(t.left) && Unshared(t.right)
  }

  /** The slot value p, read in mem, is the tree t. */
  ghost predicate Shape<O(!new)>(mem: map<nat, Node<O>>, p: Ptr<O>, t: Tree<O>)
    decreases t
  {
    match t
    case Leaf(o) => p == External(o)
    case Fork(a, n, l, r) =>
      p == Internal(a) && a in mem && mem[a].bitpos == n && Shape(mem, mem[a].left, l) && Shape(mem, mem[a].right, r)
  }

  lemma {:induction false} Frame<O(!new)>(mem: map<nat, Node<O>>, mem': map<nat, Node<O>>, p: Ptr<O>, t: Tree<O>)
    requires Shape(mem, p, t)
    requires forall a :: a in Addrs(t) && a in mem ==> a in mem' && mem'[a] == mem[a]
    ensures Shape(mem', p, t)
    decreases t
  {
    if t.Fork? {
      Frame(mem, mem', mem[t.addr].left, t.left);
      Frame(mem, mem', mem[t.addr].right, t.right);
    }
  }

  lemma {:induction false} ShapeInMem<O(!new)>(mem: map<nat, Node<O>>, p: Ptr<O>, t: Tree<O>)
    requires Shape(mem, p, t)
    ensures Addrs(t) <= mem.Keys && p != Null
    decreases t
  {
    if t.Fork? {
      ShapeInMem(mem, mem[t.addr].left, t.left);
      ShapeInMem(mem, mem[t.addr].right, t.right);
    }
  }

  function Side<O>(t: Tree<O>, key: Key): Tree<O>
    requires t.Fork?
  {
    if Bit(key, t.bit) then t.right else t.left
  }

  // ----- insert

  ghost predicate Descends<O>(t: Tree<O>, n: nat) { t.Fork? && t.bit < n }

  /** The slot where insert_at stops, when t hangs in the given slot. */
  ghost function Place<O>(slot: Slot, t: Tree<O>, n: nat, key: Key): Slot
    decreases t
  {
    if Descends(t, n) then Place(Child(t.addr, Bit(key, t.bit)), Side(t, key), n, key) else slot
  }

  /** What that slot holds, when t is at p. */
  ghost function OldPtr<O(!new)>(mem: map<nat, Node<O>>, p: Ptr<O>, t: Tree<O>, n: nat, key: Key): Ptr<O>
    requires Shape(mem, p, t)
    decreases t
  {
    if Descends(t, n) then OldPtr(mem, mem[t.addr].Child(Bit(key, t.bit)), Side(t, key), n, key) else p
  }

  function NewNode<O>(n: nat, key: Key, obj: O, p: Ptr<O>): Node<O> {
    Node(n, p, p).WithChild(Bit(key, n), External(obj))
  }

  lemma {:induction false} InsertAddrs<O>(t: Tree<O>, n: nat, key: Key, addr: nat, obj: O)
    requires addr !in Addrs(t) && Unshared(t)
    ensures Addrs(InsertAt(t, n, key, addr, obj)) == Addrs(t) + {addr} && Unshared(InsertAt(t, n, key, addr, obj))
  {
    if Descends(t, n) { InsertAddrs(Side(t, key), n, key, addr, obj); }
  }

  /** One write, to the slot where the loop stops, turns the tree in memory into InsertAt. */
  lemma {:induction false} InsertShape<O(!new)>(
    mem: map<nat, Node<O>>, p: Ptr<O>, t: Tree<O>, n: nat, key: Key, addr: nat, obj: O)
    requires Shape(mem, p, t) && Unshared(t) && addr !in Addrs(t)
    requires addr in mem && mem[addr] == NewNode(n, key, obj, OldPtr(mem, p, t, n, key))
    ensures !Descends(t, n) ==> Shape(mem, Internal(addr), InsertAt(t, n, key, addr, obj))
    ensures Descends(t, n) ==>
      var at := Place(Root, t, n, key);
      at.Child? && at.addr in Addrs(t) && at.addr in mem
      && Shape(mem[at.addr := mem[at.addr].WithChild(at.bit, Internal(addr))], p, InsertAt(t, n, key, addr, obj))
    decreases t
  {
    if Descends(t, n) {
      var b, s := Bit(key, t.bit), Side(t, key);
      var at := Place(Root, t, n, key);
      InsertShape(mem, mem[t.addr].Child(b), s, n, key, addr, obj);
      InsertAddrs(s, n, key, addr, obj);
      PlaceAnySlot(Child(t.addr, b), s, n, key);
      ShapeInMem(mem, p, t);
      var mem' := mem[at.addr := mem[at.addr].WithChild(at.bit, Internal(addr))];
      Frame(mem, mem', mem[t.addr].Child(!b), if b then t.left else t.right);
      if !Descends(s, n) {
        Frame(mem, mem', Internal(addr), InsertAt(s, n, key, addr, obj));
      }
    }
  }

  lemma PlaceAnySlot<O>(slot: Slot, t: Tree<O>, n: nat, key: Key)
    ensures Place(slot, t, n, key) == if Descends(t, n) then Place(Root, t, n, key) else slot
  {}

  lemma {:induction false} OldPtrFrame<O(!new)>(
    mem: map<nat, Node<O>>, mem': map<nat, Node<O>>, p: Ptr<O>, t: Tree<O>, n: nat, key: Key)
    requires Shape(mem, p, t) && Shape(mem', p, t)
    requires forall a :: a in Addrs(t) && a in mem ==> a in mem' && mem'[a] == mem[a]
    ensures OldPtr(mem, p, t, n, key) == OldPtr(mem', p, t, n, key)
    decreases t
  {
    if Descends(t, n) {
      OldPtrFrame(mem, mem', mem[t.addr].Child(Bit(key, t.bit)), Side(t, key), n, key);
    }
  }

  /** A write of p to a slot. */
  function Stored<O>(root: Ptr<O>, mem: map<nat, Node<O>>, slot: Slot, p: Ptr<O>): (Ptr<O>, map<nat, Node<O>>)
    requires slot.Child? ==> slot.addr in mem
  {
    if slot.Root? then (p, mem) else (root, mem[slot.addr := mem[slot.addr].WithChild(slot.bit, p)])
  }

  /** The well formed tree t, unshared and alone in memory. */
  ghost predicate Holds<O(!new)>(root: Ptr<O>, mem: map<nat, Node<O>>, t: Tree<O>, keyOf: O -> Key) {
    Shape(mem, root, t) && Unshared(t) && Addrs(t) == mem.Keys && Good(t, keyOf)
  }

  lemma InsertStored<O(!new)>(root: Ptr<O>, mem: map<nat, Node<O>>, t: Tree<O>, n: nat, key: Key, addr: nat, obj: O)
    requires Shape(mem, root, t) && Unshared(t) && addr !in mem
    ensures var mem1 := mem[addr := NewNode(n, key, obj, OldPtr(mem, root, t, n, key))];
            var at := Place(Root, t, n, key);
            (at.Child? ==> at.addr in mem1)
            && var (root', mem') := Stored(root, mem1, at, Internal(addr));
               Shape(mem', root', InsertAt(t, n, key, addr, obj)) && mem'.Keys == mem.Keys + {addr}
  {
    var mem1 := mem[addr := NewNode(n, key, obj, OldPtr(mem, root, t, n, key))];
    ShapeInMem(mem, root, t);
    Frame(mem, mem1, root, t);
    OldPtrFrame(mem, mem1, root, t, n, key);
    InsertShape(mem1, root, t, n, key, addr, obj);
    PlaceAnySlot(Root, t, n, key);
  }

  lemma InsertHolds<O(!new)>(
    root: Ptr<O>, mem: map<nat, Node<O>>, t: Tree<O>, keyOf: O -> Key, n: nat, addr: nat, obj: O)
    requires Holds(root, mem, t, keyOf) && addr !in mem
    requires CritAt(keyOf(obj), keyOf(RawLookup(t, keyOf(obj))), n)
    ensures var key := keyOf(obj);
            var mem1 := mem[addr := NewNode(n, key, obj, OldPtr(mem, root, t, n, key))];
            var at, t' := Place(Root, t, n, key), InsertAt(t, n, key, addr, obj);
            (at.Child? ==> at.addr in mem1)
            && var (root', mem') := Stored(root, mem1, at, Internal(addr));
               Holds(root', mem', t', keyOf) && Contents(t', keyOf) == Contents(t, keyOf)[Canon(key) := obj]
  {
    var key := keyOf(obj);
    InsertGood(t, keyOf, n, addr, obj);
    InsertContents(t, keyOf, n, addr, obj);
    InsertAddrs(t, n, key, addr, obj);
    InsertStored(root, mem, t, n, key, addr, obj);
  }

  // ----- delete

  /** The slot that holds the last fork on the key's path, when t hangs in the given slot. */
  ghost function DropSlot<O>(slot: Slot, t: Tree<O>, key: Key): Slot
    requires t.Fork?
    decreases t
  {
    if Side(t, key).Leaf? then slot else DropSlot(Child(t.addr, Bit(key, t.bit)), Side(t, key), key)
  }

  /** That fork. */
  ghost function DropFork<O>(t: Tree<O>, key: Key): (f: Tree<O>)
    requires t.Fork?
    ensures f.Fork?
  {
    if Side(t, key).Leaf? then t else DropFork(Side(t, key), key)
  }

  lemma {:induction false} DeleteAddrs<O>(t: Tree<O>, key: Key)
    requires t.Fork? && Unshared(t)
    ensures DropFork(t, key).addr in Addrs(t)
    ensures Addrs(DeleteLeaf(t, key)) == Addrs(t) - {DropFork(t, key).addr} && Unshared(DeleteLeaf(t, key))
  {
    if Side(t, key).Fork? { DeleteAddrs(Side(t, key), key); }
  }

  /** One write, to the slot of the last fork, turns the tree in memory into DeleteLeaf. */
  lemma {:induction false} DeleteShape<O(!new)>(mem: map<nat, Node<O>>, p: Ptr<O>, t: Tree<O>, key: Key)
    requires t.Fork? && Shape(mem, p, t) && Unshared(t)
    ensures DropFork(t, key).addr in mem
    ensures var f := DropFork(t, key);
            var q := mem[f.addr].Child(!Bit(key, f.bit));
            if Side(t, key).Leaf? then Shape(mem, q, DeleteLeaf(t, key))
            else
              var at := DropSlot(Root, t, key);
              at.Child? && at.addr in Addrs(t) && at.addr in mem && at.addr != f.addr
              && Shape(mem[at.addr := mem[at.addr].WithChild(at.bit, q)], p, DeleteLeaf(t, key))
    decreases t
  {
    var b, s := Bit(key, t.bit), Side(t, key);
    ShapeInMem(mem, p, t);
    if s.Fork? {
      DeleteShape(mem, mem[t.addr].Child(b), s, key);
      DeleteAddrs(s, key);
      var at, f := DropSlot(Root, t, key), DropFork(t, key);
      var q := mem[f.addr].Child(!Bit(key, f.bit));
      DropAnySlot(Child(t.addr, b), s, key);
      var mem' := mem[at.addr := mem[at.addr].WithChild(at.bit, q)];
      Frame(mem, mem', mem[t.addr].Child(!b), if b then t.left else t.right);
      if Side(s, key).Leaf? {
        Frame(mem, mem', q, DeleteLeaf(s, key));
      }
    }
  }

  lemma DropAnySlot<O>(slot: Slot, t: Tree<O>, key: Key)
    requires t.Fork?
    ensures DropSlot(slot, t, key) == if Side(t, key).Leaf? then slot else DropSlot(Root, t, key)
  {}

  lemma DeleteHolds<O(!new)>(root: Ptr<O>, mem: map<nat, Node<O>>, t: Tree<O>, keyOf: O -> Key, key: Key)
    requires t.Fork? && Holds(root, mem, t, keyOf) && Canon(key) in Contents(t, keyOf)
    ensures var f, at, t' := DropFork(t, key), DropSlot(Root, t, key), DeleteLeaf(t, key);
            f.addr in mem && (at.Child? ==> at.addr in mem)
            && var (root', mem') := Stored(root, mem, at, mem[f.addr].Child(!Bit(key, f.bit)));
               Holds(root', mem' - {f.addr}, t', keyOf) && Contents(t', keyOf) == Contents(t, keyOf) - {Canon(key)}
  {
    DeleteGood(t, keyOf, key);
    DeleteContents(t, keyOf, key);
    DeletedShape(root, mem, t, key);
  }

  lemma DeletedShape<O(!new)>(root: Ptr<O>, mem: map<nat, Node<O>>, t: Tree<O>, key: Key)
    requires t.Fork? && Shape(mem, root, t) && Unshared(t) && Addrs(t) == mem.Keys
    ensures var f, at, t' := DropFork(t, key), DropSlot(Root, t, key), DeleteLeaf(t, key);
            f.addr in mem && (at.Child? ==> at.addr in mem)
            && var (root', mem') := Stored(root, mem, at, mem[f.addr].Child(!Bit(key, f.bit)));
               Shape(mem' - {f.addr}, root', t') && Unshared(t') && Addrs(t') == (mem' - {f.addr}).Keys
  {
    DeleteAddrs(t, key);
    DeleteShape(mem, root, t, key);
    DropAnySlot(Root, t, key);
    var f, at := DropFork(t, key), DropSlot(Root, t, key);
    var (root', mem') := Stored(root, mem, at, mem[f.addr].Child(!Bit(key, f.bit)));
    assert mem'.Keys == mem.Keys;
    Frame(mem', mem' - {f.addr}, root', DeleteLeaf(t, key));
  }

  class CBTree<O(!new)> {
    var root: Ptr<O>
    var mem: map<nat, Node<O>>
    const keyOf: O -> Key
    ghost var tree: Option<Tree<O>>

    /** The tree is in memory, unshared, and nothing else is; it is well formed. */
    ghost predicate Valid() reads this {
      match tree
      case None => root == Null && mem == map[]
      case Some(t) => Holds(root, mem, t, keyOf)
    }

    ghost function Map(): map<Key, O> reads this {
      match tree
      case None => map[]
      case Some(t) => Contents(t, keyOf)
    }

    constructor (keyOf: O -> Key)
      ensures Valid() && Map() == map[] && this.keyOf == keyOf
    {
      root, mem, tree := Null, map[], None;
      this.keyOf := keyOf;
    }

    function Get(slot: Slot): Ptr<O>
      requires slot.Child? ==> slot.addr in mem
      reads this
    {
      if slot.Root? then root else mem[slot.addr].Child(slot.bit)
    }

    method Put(slot: Slot, p: Ptr<O>)
      requires slot.Child? ==> slot.addr in mem
      modifies this`root, this`mem
      ensures (root, mem) == Stored(old(root), old(mem), slot, p)
    {
      if slot.Root? {
        root := p;
      } else {
        mem := mem[slot.addr := mem[slot.addr].WithChild(slot.bit, p)];
      }
    }

    method RawLookupLoop(key: Key) returns (obj: O)
      requires Valid() && tree.Some?
      ensures obj == RawLookup(tree.value, key)
    {
      var node := root;
      ghost var t := tree.value;
      while node.Internal?
        invariant Shape(mem, node, t) && RawLookup(tree.value, key) == RawLookup(t, key)
        decreases t
      {
        var bit := Bit(key, mem[node.addr].bitpos);
        node := mem[node.addr].Child(bit);
        t := Side(t, key);
      }
      obj := node.obj;
    }

    /** cbtree_lookup: the object stored under exactly this key, length included. */
    method Lookup(key: Key) returns (r: Option<O>)
      requires Valid()
      ensures r.Some? <==> Canon(key) in Map() && keyOf(Map()[Canon(key)]) == key
      ensures r.Some? ==> r.value == Map()[Canon(key)]
    {
      if root == Null {
        return None;
      }
      var obj := RawLookupLoop(key);
      LookupExact(tree.value, keyOf, key);
      if keyOf(obj) == key {
        return Some(obj);
      }
      return None;
    }

    method FindSlot(n: nat, key: Key) returns (pos: Slot)
      requires Valid() && tree.Some?
      ensures pos == Place(Root, tree.value, n, key)
      ensures pos.Child? ==> pos.addr in mem
      ensures Get(pos) == OldPtr(mem, root, tree.value, n, key)
    {
      pos := Root;
      ghost var t := tree.value;
      while Get(pos).Internal? && mem[Get(pos).addr].bitpos < n
        invariant pos.Child? ==> pos.addr in mem
        invariant Shape(mem, Get(pos), t)
        invariant Place(Root, tree.value, n, key) == Place(pos, t, n, key)
        invariant OldPtr(mem, root, tree.value, n, key) == OldPtr(mem, Get(pos), t, n, key)
        decreases t
      {
        var bit := Bit(key, mem[Get(pos).addr].bitpos);
        pos := Child(Get(pos).addr, bit);
        t := Side(t, key);
      }
    }

    /** insert_at; alloc is the address new_node returns, None when it fails. */
    method InsertAtBit(n: nat, obj: O, alloc: Option<nat>) returns (ok: bool)
      requires Valid() && tree.Some? && CritAt(keyOf(obj), keyOf(RawLookup(tree.value, keyOf(obj))), n)
      requires alloc.Some? ==> alloc.value !in mem
      modifies this
      ensures Valid() && ok == alloc.Some?
      ensures ok ==> Map() == old(Map())[Canon(keyOf(obj)) := obj]
      ensures !ok ==> root == old(root) && mem == old(mem) && tree == old(tree)
    {
      var key := keyOf(obj);
      var pos := FindSlot(n, key);
      if alloc.None? {
        return false;
      }
      ghost var t := tree.value;
      var addr := alloc.value;
      InsertHolds(root, mem, t, keyOf, n, addr, obj);
      var node := NewNode(n, key, obj, Get(pos));
      mem := mem[addr := node];
      Put(pos, Internal(addr));
      tree := Some(InsertAt(t, n, key, addr, obj));
      return true;
    }

    /** cbtree_insert. */
    method Insert(obj: O, alloc: Option<nat>) returns (ok: bool)
      requires Valid()
      requires alloc.Some? ==> alloc.value !in mem
      modifies this
      ensures Valid()
      ensures ok <==> old(Map()) == map[]
                      || (|keyOf(obj)| <= MAX_KEY && Canon(keyOf(obj)) !in old(Map()) && alloc.Some?)
      ensures ok ==> Map() == old(Map())[Canon(keyOf(obj)) := obj]
      ensures !ok ==> root == old(root) && mem == old(mem) && tree == old(tree)
    {
      if root == Null {
        root := External(obj);
        tree := Some(Leaf(obj));
        return true;
      }
      var key := keyOf(obj);
      if |key| > MAX_KEY {
        return false;
      }
      var old_obj := RawLookupLoop(key);
      LookupExact(tree.value, keyOf, key);
      var newbit := FindCritBit(key, keyOf(old_obj));
      if newbit.None? {
        return false;
      }
      ok := InsertAtBit(newbit.value, obj, alloc);
    }

    /** The first loop of cbtree_delete: down to the leaf, remembering the slot before. */
    method FindLeaf(key: Key) returns (bit: bool, pos: Slot, prev: Option<Slot>)
      requires Valid() && tree.Some?
      ensures pos.Child? ==> pos.addr in mem
      ensures Get(pos) == External(RawLookup(tree.value, key))
      ensures prev.Some? == tree.value.Fork?
      ensures prev.Some? ==>
        prev.value == DropSlot(Root, tree.value, key) && (prev.value.Child? ==> prev.value.addr in mem)
        && Get(prev.value) == Internal(DropFork(tree.value, key).addr)
        && bit == Bit(key, DropFork(tree.value, key).bit)
    {
      bit, pos, prev := false, Root, None;
      ghost var t0 := tree.value;
      ghost var t := t0;
      while Get(pos).Internal?
        invariant pos.Child? ==> pos.addr in mem
        invariant Shape(mem, Get(pos), t) && RawLookup(t0, key) == RawLookup(t, key)
        invariant prev.None? ==> pos == Root && t == t0
        invariant t0.Fork? && t.Fork? ==>
          DropSlot(Root, t0, key) == DropSlot(pos, t, key) && DropFork(t0, key) == DropFork(t, key)
        invariant prev.Some? ==> t0.Fork? && (prev.value.Child? ==> prev.value.addr in mem)
        invariant prev.Some? && t.Leaf? ==>
          DropSlot(Root, t0, key) == prev.value && Get(prev.value) == Internal(DropFork(t0, key).addr)
          && bit == Bit(key, DropFork(t0, key).bit)
        decreases t
      {
        bit := Bit(key, mem[Get(pos).addr].bitpos);
        prev := Some(pos);
        pos := Child(Get(pos).addr, bit);
        t := Side(t, key);
      }
    }

    /** cbtree_delete, returning the object handed to obj_free_cb. */
    method Delete(key: Key) returns (r: Option<O>)
      requires Valid()
      modifies this
      ensures Valid()
      ensures r.Some? <==> Canon(key) in old(Map()) && keyOf(old(Map())[Canon(key)]) == key
      ensures r.Some? ==> r.value == old(Map())[Canon(key)] && Map() == old(Map()) - {Canon(key)}
      ensures r.None? ==> root == old(root) && mem == old(mem) && tree == old(tree)
    {
      if root == Null {
        return None;
      }
      var bit, pos, prev := FindLeaf(key);
      ghost var t0 := tree.value;
      var obj := Get(pos).obj;
      LookupExact(t0, keyOf, key);
      if keyOf(obj) != key {
        return None;
      }
      if prev.Some? {
        DeleteHolds(root, mem, t0, keyOf, key);
        var tmp := Get(prev.value).addr;
        Put(prev.value, mem[tmp].Child(!bit));
        mem := mem - {tmp};
        tree := Some(DeleteLeaf(t0, key));
      } else {
        root := Null;
        tree := None;
      }
      return Some(obj);
    }

    method WalkNode(p: Ptr<O>, cb: O -> bool, ghost t: Tree<O>) returns (ok: bool, visited: seq<O>)
      requires Shape(mem, p, t)
      ensures Visited(Walk(t), cb, ok, visited)
      decreases t
    {
      if !p.Internal? {
        return cb(p.obj), [p.obj];
      }
      ok, visited := WalkNode(mem[p.addr].left, cb, t.left);
      if ok {
        var rest;
        ok, rest := WalkNode(mem[p.addr].right, cb, t.right);
        visited := visited + rest;
      }
    }

    /** cbtree_walk, returning what the callback was given. */
    method WalkAll(cb: O -> bool) returns (ok: bool, visited: seq<O>)
      requires Valid()
      ensures exists s :: Visited(s, cb, ok, visited) && Ascending(s, keyOf)
                && forall o :: o in s <==> Canon(keyOf(o)) in Map() && Map()[Canon(keyOf(o))] == o
    {
      if root == Null {
        assert Visited([], cb, true, []) && Ascending([], keyOf);
        return true, [];
      }
      ok, visited := WalkNode(root, cb, tree.value);
      WalkAscends(tree.value, keyOf);
      forall o ensures o in Walk(tree.value) <==> Canon(keyOf(o)) in Map() && Map()[Canon(keyOf(o))] == o {
        WalkIsContents(tree.value, keyOf, o);
      }
    }
  }

  /** A walk over s shows the callback everything, or stops right after the first refusal. */
  ghost predicate Visited<O(!new)>(s: seq<O>, cb: O -> bool, ok: bool, visited: seq<O>) {
    visited <= s
    && (ok ==> visited == s && forall o :: o in s ==> cb(o))
    && (!ok ==> visited != [] && !cb(visited[|visited| - 1]) && forall i :: 0 <= i < |visited| - 1 ==> cb(visited[i]))
  }
}

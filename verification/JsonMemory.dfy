/** JSON values in memory, as usual/json.c links them: list elements by their next field, a key to
 its value by the key's next field, the keys of a dict in a crit-bit tree, and every container to
 the one around it.

 A value that is still open is already linked into its parent, so opening writes links and closing
 writes none; JsonTokens.Ctx attaches a container when it is closed.  The relation between the two
 is the subject of this module.
 */
module JsonMemory {
  import opened Prelude
  import opened Utf8
  import opened JsonTokens
  import KB = KeyBits
  import CB = CritBit

  type Addr = nat

  const NIL: Addr := 0

  // ----- keys

  /** A key in the tree of a dict: the string value it points to, and what get_key_data_cb reads there. */
  datatype KeyRef = KeyRef(addr: Addr, key: Bytes)

  type KeyTree = Option<CB.Tree<KeyRef>>

  function KeyOf(s: Bytes): (k: KB.Key)
    ensures |k| == |s|
  {
    seq(|s|, i requires 0 <= i < |s| => Bits(s[i]))
  }

  function RefKey(r: KeyRef): KB.Key { KeyOf(r.key) }

  /** The binary digits of a byte. */
  function Bits(x: nat): bv8 { if x == 0 then 0 else Digit(Bits(x / 2), x % 2 == 1) }

  function Digit(b: bv8, one: bool): bv8 { if one then (b << 1) | 1 else b << 1 }

  lemma DigitBound(b: bv8, one: bool, bound: bv8)
    requires b <= bound <= 127
    ensures Digit(b, one) <= Digit(bound, true)
  {}

  lemma DigitOrder(a: bv8, b: bv8, p: bool, q: bool)
    requires b <= 127 && (a < b || (a == b && !p && q))
    ensures Digit(a, p) < Digit(b, q)
  {}

  /** All ones in the k lowest places. */
  function Ones(k: nat): bv8 { if k == 0 then 0 else Digit(Ones(k - 1), true) }

  lemma OnesBound(k: nat)
    requires k < 8
    ensures Ones(k) <= 127
  {
    assert Ones(1) == 1 && Ones(2) == 3 && Ones(3) == 7 && Ones(4) == 15;
    assert Ones(5) == 31 && Ones(6) == 63 && Ones(7) == 127;
  }

  lemma {:induction false} BitsBound(x: nat, k: nat)
    requires x < Pow2(k) && k <= 8
    ensures Bits(x) <= Ones(k)
    decreases k
  {
    if x > 0 {
      BitsBound(x / 2, k - 1);
      OnesBound(k - 1);
      DigitBound(Bits(x / 2), x % 2 == 1, Ones(k - 1));
    }
  }

  lemma {:induction false} BitsOrder(x: nat, y: nat)
    requires x < y < 256
    ensures Bits(x) < Bits(y)
    decreases y
  {
    assert Pow2(7) == 128 by { assert Pow2(3) == 8 && Pow2(5) == 32; }
    BitsBound(y / 2, 7);
    OnesBound(7);
    if x / 2 < y / 2 { BitsOrder(x / 2, y / 2); }
    BitsCons(x);
    DigitOrder(Bits(x / 2), Bits(y / 2), x % 2 == 1, y % 2 == 1);
  }

  lemma BitsCons(x: nat)
    ensures Bits(x) == Digit(Bits(x / 2), x % 2 == 1)
  {}

  lemma BytesOrder(x: Byte, y: Byte)
    ensures Bits(x) < Bits(y) <==> x < y
    ensures Bits(x) == Bits(y) <==> x == y
  {
    if x < y { BitsOrder(x, y); } else if y < x { BitsOrder(y, x); }
  }

  /** For strings without NUL, equality continued by zeros is equality. */
  lemma SameKeyExact(s: Bytes, t: Bytes)
    requires 0 !in s && 0 !in t
    ensures KB.SameKey(KeyOf(s), KeyOf(t)) <==> s == t
  {
    if KB.SameKey(KeyOf(s), KeyOf(t)) {
      if |s| < |t| { SameByte(s, t, |s|); } else if |t| < |s| { SameByte(s, t, |t|); }
      forall i: nat | i < |s| ensures s[i] == t[i] { SameByte(s, t, i); }
    }
  }

  lemma SameByte(s: Bytes, t: Bytes, i: nat)
    requires 0 !in s && 0 !in t && (i < |s| || i < |t|)
    requires KB.ByteAt(KeyOf(s), i) == KB.ByteAt(KeyOf(t), i)
    ensures i < |s| && i < |t| && s[i] == t[i]
  {
    BytesOrder(if i < |s| then s[i] else 0, if i < |t| then t[i] else 0);
  }

  /** The tree is well formed and holds exactly these keys. */
  ghost predicate TreeHolds(keys: KeyTree, refs: seq<KeyRef>) {
    match keys
    case None => refs == []
    case Some(t) =>
      refs != [] && CB.Good(t, RefKey) && forall r :: r in CB.Walk(t) <==> r in refs
  }

  /** cbtree_insert on the tree of a dict: false if the key is there already. */
  method TreeInsert(keys: KeyTree, r: KeyRef, ghost refs: seq<KeyRef>) returns (ok: bool, keys': KeyTree)
    requires TreeHolds(keys, refs) && 0 !in r.key && forall q :: q in refs ==> 0 !in q.key
    ensures ok <==> forall q :: q in refs ==> q.key != r.key
    ensures ok ==> TreeHolds(keys', refs + [r])
  {
    if keys.None? {
      return true, Some(CB.Leaf(r));
    }
    var t := keys.value;
    var near := CB.RawLookup(t, RefKey(r));
    KeyPresent(t, refs, r);
    var newbit := KB.FindCritBit(RefKey(r), RefKey(near));
    if newbit.None? {
      return false, keys;
    }
    InsertHolds(t, refs, r, newbit.value);
    return true, Some(CB.InsertAt(t, newbit.value, RefKey(r), 0, r));
  }

  lemma KeyPresent(t: CB.Tree<KeyRef>, refs: seq<KeyRef>, r: KeyRef)
    requires TreeHolds(Some(t), refs) && 0 !in r.key && forall q :: q in refs ==> 0 !in q.key
    ensures KB.SameKey(RefKey(r), RefKey(CB.RawLookup(t, RefKey(r)))) <==> exists q :: q in refs && q.key == r.key
  {
    var near := CB.RawLookup(t, RefKey(r));
    CB.LookupExact(t, RefKey, RefKey(r));
    NearIsStored(t, refs, r);
    SameKeyExact(near.key, r.key);
    if q :| q in refs && q.key == r.key {
      CB.WalkIsContents(t, RefKey, q);
    }
  }

  lemma NearIsStored(t: CB.Tree<KeyRef>, refs: seq<KeyRef>, r: KeyRef)
    requires TreeHolds(Some(t), refs)
    ensures CB.RawLookup(t, RefKey(r)) in refs
  {
    RawInWalk(t, RefKey(r));
  }

  lemma {:induction false} RawInWalk(t: CB.Tree<KeyRef>, key: KB.Key)
    ensures CB.RawLookup(t, key) in CB.Walk(t)
  {
    if t.Fork? { RawInWalk(if KB.Bit(key, t.bit) then t.right else t.left, key); }
  }

  lemma InsertHolds(t: CB.Tree<KeyRef>, refs: seq<KeyRef>, r: KeyRef, n: nat)
    requires TreeHolds(Some(t), refs) && KB.CritAt(RefKey(r), RefKey(CB.RawLookup(t, RefKey(r))), n)
    ensures TreeHolds(Some(CB.InsertAt(t, n, RefKey(r), 0, r)), refs + [r])
  {
    var t' := CB.InsertAt(t, n, RefKey(r), 0, r);
    CB.InsertGood(t, RefKey, n, 0, r);
    CB.InsertContents(t, RefKey, n, 0, r);
    forall q ensures q in CB.Walk(t') <==> q in refs + [r] {
      CB.WalkIsContents(t, RefKey, q);
      CB.WalkIsContents(t', RefKey, q);
    }
  }

  // ----- memory

  /** The contents of a value: a scalar or string in place, or a container. */
  datatype Body =
    | Plain(v: Json)
    | ListBody(parent: Addr, first: Addr, last: Addr, size: nat)
    | DictBody(parent: Addr, keys: KeyTree, size: nat)

  datatype Cell = Cell(next: Addr, body: Body)

  type Memory = map<Addr, Cell>

  /** A finished value with the addresses of its parts; members in order of appearance. */
  datatype Value =
    | Single(addr: Addr, v: Json)
    | VList(addr: Addr, items: seq<Value>)
    | VDict(addr: Addr, members: seq<VMember>)

  datatype VMember = VMember(keyAddr: Addr, key: Bytes, value: Value)

  /** The value without its addresses. */
  ghost function Erase(t: Value): Json {
    match t
    case Single(_, v) => v
    case VList(_, items) => List(EraseItems(items))
    case VDict(_, members) => Dict(EraseMembers(members), |members|)
  }

  ghost function EraseItems(items: seq<Value>): (r: seq<Json>)
    ensures |r| == |items|
  {
    seq(|items|, i requires 0 <= i < |items| => Erase(items[i]))
  }

  ghost function EraseMembers(members: seq<VMember>): (r: seq<Member>)
    ensures |r| == |members|
  {
    seq(|members|, i requires 0 <= i < |members| => Member(members[i].key, Erase(members[i].value)))
  }

  ghost function Heads(items: seq<Value>): (hs: seq<Addr>)
    ensures |hs| == |items|
  {
    seq(|items|, i requires 0 <= i < |items| => items[i].addr)
  }

  ghost function Refs(members: seq<VMember>): (refs: seq<KeyRef>)
    ensures |refs| == |members|
  {
    seq(|members|, i requires 0 <= i < |members| => KeyRef(members[i].keyAddr, members[i].key))
  }

  ghost predicate NextIs(mem: Memory, a: Addr, next: Addr) { a in mem && mem[a].next == next }

  ghost function Following(hs: seq<Addr>, i: int): Addr { if 0 <= i + 1 < |hs| then hs[i + 1] else NIL }

  /** Next fields lead from first through hs to last, and to NIL. */
  ghost predicate Links(mem: Memory, first: Addr, last: Addr, hs: seq<Addr>) {
    NIL !in hs
    && (if hs == [] then first == last == NIL else first == hs[0] && last == hs[|hs| - 1])
    && forall i :: 0 <= i < |hs| ==> NextIs(mem, hs[i], Following(hs, i))
  }

  /** A key, a string without NUL, is linked to its value. */
  ghost predicate KeyCell(mem: Memory, r: KeyRef, value: Addr) {
    0 !in r.key && r.addr in mem && mem[r.addr] == Cell(value, Plain(Str(r.key)))
  }

  /** A value without parts. */
  predicate Atomic(v: Json) { v.Str? || Other(v) }

  /** The value t is in memory at its addresses. */
  ghost predicate Shape(mem: Memory, t: Value) {
    t.addr in mem &&
    match t
    case Single(a, v) => mem[a].body == Plain(v) && Atomic(v)
    case VList(a, items) =>
      var b := mem[a].body;
      b.ListBody? && b.size == |items| && Links(mem, b.first, b.last, Heads(items))
      && forall i :: 0 <= i < |items| ==> Shape(mem, items[i])
    case VDict(a, members) =>
      var b := mem[a].body;
      b.DictBody? && b.size == |members| && TreeHolds(b.keys, Refs(members))
      && (forall i :: 0 <= i < |members| ==> Shape(mem, members[i].value))
      && forall i :: 0 <= i < |members| ==> MemberCell(mem, members[i])
  }

  ghost predicate MemberCell(mem: Memory, m: VMember) { KeyCell(mem, KeyRef(m.keyAddr, m.key), m.value.addr) }

  // ----- the addresses of a value

  ghost function Bag(t: Value): multiset<Addr>
    decreases t, 0
  {
    match t
    case Single(a, _) => multiset{a}
    case VList(a, items) => multiset{a} + BagItems(items)
    case VDict(a, members) => multiset{a} + BagMembers(members)
  }

  ghost function BagItems(items: seq<Value>): multiset<Addr>
    decreases items, 0
  {
    if items == [] then multiset{} else BagItems(items[..|items| - 1]) + Bag(items[|items| - 1])
  }

  ghost function BagMembers(members: seq<VMember>): multiset<Addr>
    decreases members, 0
  {
    if members == [] then multiset{}
    else
      var m := members[|members| - 1];
      BagMembers(members[..|members| - 1]) + multiset{m.keyAddr} + Bag(m.value)
  }

  lemma {:induction false} BagItem(items: seq<Value>, i: nat)
    requires i < |items|
    ensures Bag(items[i]) <= BagItems(items)
    decreases |items|
  {
    if i < |items| - 1 { BagItem(items[..|items| - 1], i); }
  }

  lemma {:induction false} BagMember(members: seq<VMember>, i: nat)
    requires i < |members|
    ensures multiset{members[i].keyAddr} + Bag(members[i].value) <= BagMembers(members)
    decreases |members|
  {
    if i < |members| - 1 { BagMember(members[..|members| - 1], i); }
  }

  lemma BagHead(t: Value)
    ensures t.addr in Bag(t)
  {}

  /** No address is used twice. */
  ghost predicate Once(b: multiset<Addr>) { forall x :: b[x] <= 1 }

  lemma OnceSub(a: multiset<Addr>, b: multiset<Addr>)
    requires a <= b && Once(b)
    ensures Once(a)
  {}

  // ----- what a write elsewhere keeps

  /** Bodies at these addresses are kept, and next fields but for the one at free. */
  ghost predicate Keeps(mem: Memory, mem': Memory, b: multiset<Addr>, free: Addr) {
    forall x :: x in b && x in mem ==>
      x in mem' && mem'[x].body == mem[x].body && (x != free ==> mem'[x].next == mem[x].next)
  }

  lemma KeepsSub(mem: Memory, mem': Memory, a: multiset<Addr>, b: multiset<Addr>, free: Addr)
    requires a <= b && Keeps(mem, mem', b, free)
    ensures Keeps(mem, mem', a, free)
  {
    forall x | x in a ensures x in b { assert a[x] <= b[x]; }
  }

  /** A value stays in memory when at most the next field of its head changes. */
  lemma {:induction false} ShapeKeeps(mem: Memory, mem': Memory, t: Value, free: Addr)
    requires Shape(mem, t) && Once(Bag(t)) && Keeps(mem, mem', Bag(t), free) && (free in Bag(t) ==> free == t.addr)
    ensures Shape(mem', t)
    decreases t
  {
    BagHead(t);
    match t
    case Single(_, _) =>
    case VList(a, items) =>
      forall i | 0 <= i < |items| ensures Shape(mem', items[i]) && items[i].addr in mem && items[i].addr in Bag(t)
        && items[i].addr != free {
        ItemKeeps(mem, mem', t, i, free);
        ShapeKeeps(mem, mem', items[i], free);
      }
    case VDict(a, members) =>
      forall i | 0 <= i < |members|
        ensures Shape(mem', members[i].value)
        ensures MemberCell(mem', members[i])
      {
        MemberKeeps(mem, mem', t, i, free);
        ShapeKeeps(mem, mem', members[i].value, free);
      }
  }

  lemma ItemKeeps(mem: Memory, mem': Memory, t: Value, i: nat, free: Addr)
    requires t.VList? && i < |t.items| && Once(Bag(t)) && Keeps(mem, mem', Bag(t), free)
      && (free in Bag(t) ==> free == t.addr)
    ensures Once(Bag(t.items[i])) && Keeps(mem, mem', Bag(t.items[i]), free) && free !in Bag(t.items[i])
    ensures t.items[i].addr in Bag(t) && t.items[i].addr != free
  {
    var x := t.items[i];
    BagItem(t.items, i);
    Within(Bag(x), BagItems(t.items), multiset{t.addr});
    OnceSub(Bag(x), Bag(t));
    KeepsSub(mem, mem', Bag(x), Bag(t), free);
    BagHead(x);
    if free in Bag(t) { Apart(multiset{t.addr}, BagItems(t.items), free); }
  }

  lemma MemberKeeps(mem: Memory, mem': Memory, t: Value, i: nat, free: Addr)
    requires t.VDict? && i < |t.members| && Once(Bag(t)) && Keeps(mem, mem', Bag(t), free)
      && (free in Bag(t) ==> free == t.addr)
    ensures var m := t.members[i];
            Once(Bag(m.value)) && Keeps(mem, mem', Bag(m.value), free) && free !in Bag(m.value)
            && m.keyAddr in Bag(t) && m.keyAddr != free
  {
    var m := t.members[i];
    BagMember(t.members, i);
    Within(multiset{m.keyAddr} + Bag(m.value), BagMembers(t.members), multiset{t.addr});
    Within(Bag(m.value), Bag(m.value), multiset{m.keyAddr});
    OnceSub(Bag(m.value), Bag(t));
    KeepsSub(mem, mem', Bag(m.value), Bag(t), free);
    if free in Bag(t) { Apart(multiset{t.addr}, BagMembers(t.members), free); }
  }

  lemma Within(a: multiset<Addr>, b: multiset<Addr>, c: multiset<Addr>)
    requires a <= b
    ensures a <= c + b && forall x :: x in a ==> x in c + b
  {}

  /** An address of one part is not in another part. */
  lemma Apart(a: multiset<Addr>, b: multiset<Addr>, x: Addr)
    requires Once(a + b) && x in a
    ensures x !in b
  {
    assert (a + b)[x] <= 1;
  }

  // ----- open containers

  /** An open container.  The key of a dict is the one whose value is missing: cur_key in the
      innermost container, and in the others the one that leads to the container inside. */
  datatype OpenValue =
    | OList(addr: Addr, items: seq<Value>)
    | ODict(addr: Addr, members: seq<VMember>, size: nat, key: Option<KeyRef>)

  ghost function ChildHead(child: Addr): seq<Addr> { if child == NIL then [] else [child] }

  /** The keys in the tree: those of the members, and the one whose value is missing once it is counted. */
  ghost function TreeKeys(f: OpenValue): seq<KeyRef>
    requires f.ODict?
  {
    Refs(f.members) + if f.key.Some? && f.size == |f.members| + 1 then [f.key.value] else []
  }

  /** The container f is in memory inside parent; child is the container inside it, or NIL. */
  ghost predicate OpenShape(mem: Memory, f: OpenValue, parent: Addr, child: Addr) {
    f.addr != NIL && f.addr in mem &&
    match f
    case OList(a, items) =>
      var b := mem[a].body;
      var hs := Heads(items) + ChildHead(child);
      b.ListBody? && b.parent == parent && b.size == |hs| && Links(mem, b.first, b.last, hs)
      && forall i :: 0 <= i < |items| ==> Shape(mem, items[i])
    case ODict(a, members, size, key) =>
      var b := mem[a].body;
      b.DictBody? && b.parent == parent && b.size == size && TreeHolds(b.keys, TreeKeys(f))
      && (child != NIL ==> key.Some?)
      && (key.Some? ==> key.value.addr != NIL && KeyCell(mem, key.value, child))
      && (forall i :: 0 <= i < |members| ==> Shape(mem, members[i].value))
      && forall i :: 0 <= i < |members| ==> MemberCell(mem, members[i])
  }

  ghost function BagOpen(f: OpenValue): multiset<Addr> {
    match f
    case OList(a, items) => multiset{a} + BagItems(items)
    case ODict(a, members, _, key) =>
      multiset{a} + BagMembers(members) + if key.Some? then multiset{key.value.addr} else multiset{}
  }

  /** A container with the value t as its next element, or as the value of its key. */
  ghost function Grown(f: OpenValue, t: Value): OpenValue
    requires f.ODict? ==> f.key.Some?
  {
    match f
    case OList(a, items) => OList(a, items + [t])
    case ODict(a, members, size, key) => ODict(a, members + [VMember(key.value.addr, key.value.key, t)], size, None)
  }

  /** The child, once it is a finished value, is an element or a member like the others. */
  lemma ChildGrown(mem: Memory, f: OpenValue, parent: Addr, t: Value)
    requires OpenShape(mem, f, parent, t.addr) && Shape(mem, t) && t.addr != NIL
    requires f.ODict? ==> f.size == |f.members| + 1
    ensures OpenShape(mem, Grown(f, t), parent, NIL)
  {
    match f
    case OList(a, items) =>
      assert Heads(items + [t]) + [] == Heads(items) + [t.addr];
    case ODict(a, members, size, key) =>
      var m := VMember(key.value.addr, key.value.key, t);
      assert Refs(members + [m]) + [] == Refs(members) + [key.value];
      assert MemberCell(mem, m);
  }

  /** The finished value that an open container stands for. */
  ghost function Closed(f: OpenValue): Value {
    match f
    case OList(a, items) => VList(a, items)
    case ODict(a, members, _, _) => VDict(a, members)
  }

  /** Closing a container writes nothing. */
  lemma ClosedShape(mem: Memory, f: OpenValue, parent: Addr)
    requires OpenShape(mem, f, parent, NIL) && (f.ODict? ==> f.key.None? && f.size == |f.members|)
    ensures Shape(mem, Closed(f)) && Closed(f).addr == f.addr
  {
    if f.OList? {
      assert Heads(f.items) + [] == Heads(f.items);
    } else {
      assert Refs(f.members) + [] == Refs(f.members);
    }
  }

  lemma BagGrown(f: OpenValue, t: Value)
    requires f.ODict? ==> f.key.Some?
    ensures BagOpen(Grown(f, t)) == BagOpen(f) + Bag(t)
  {
    match f
    case OList(a, items) => BagItemsSnoc(items, t);
    case ODict(a, members, _, key) =>
      BagMembersSnoc(members, VMember(key.value.addr, key.value.key, t));
      Regrouped(multiset{a}, BagMembers(members), multiset{key.value.addr}, Bag(t));
  }

  lemma Regrouped(a: multiset<Addr>, b: multiset<Addr>, c: multiset<Addr>, d: multiset<Addr>)
    ensures a + (b + c + d) + multiset{} == a + b + c + d
  {}

  lemma BagItemsSnoc(items: seq<Value>, t: Value)
    ensures BagItems(items + [t]) == BagItems(items) + Bag(t)
  {
    assert (items + [t])[..|items|] == items;
  }

  lemma BagMembersSnoc(members: seq<VMember>, m: VMember)
    ensures BagMembers(members + [m]) == BagMembers(members) + multiset{m.keyAddr} + Bag(m.value)
  {
    assert (members + [m])[..|members|] == members;
  }

  lemma BagClosed(f: OpenValue)
    requires f.ODict? ==> f.key.None?
    ensures Bag(Closed(f)) == BagOpen(f)
  {}

  // ----- linking a new value

  /** real_list_append. */
  function Appended(mem: Memory, list: Addr, elem: Addr): Memory
    requires list in mem && mem[list].body.ListBody? && (mem[list].body.last != NIL ==> mem[list].body.last in mem)
  {
    var b := mem[list].body;
    var m := if b.last != NIL then mem[b.last := mem[b.last].(next := elem)] else mem;
    m[list := m[list].(body := b.(first := if b.last != NIL then b.first else elem, last := elem, size := b.size + 1))]
  }

  lemma {:induction false} HeadsApart(items: seq<Value>, i: nat, j: nat)
    requires i < j < |items| && Once(BagItems(items))
    ensures items[i].addr != items[j].addr
    decreases |items|
  {
    var n := |items| - 1;
    var init := items[..n];
    OnceSub(BagItems(init), BagItems(items));
    if j < n {
      HeadsApart(init, i, j);
    } else {
      HeadInBag(init, i);
      BagHead(items[j]);
      Apart(BagItems(init), Bag(items[j]), items[i].addr);
    }
  }

  lemma HeadInBag(items: seq<Value>, i: nat)
    requires i < |items|
    ensures items[i].addr in BagItems(items)
  {
    BagItem(items, i);
    BagHead(items[i]);
    Within(Bag(items[i]), BagItems(items), multiset{});
  }

  /** Links with one more head behind the last. */
  lemma LinksMore(mem: Memory, mem': Memory, first: Addr, last: Addr, hs: seq<Addr>, c: Addr)
    requires Links(mem, first, last, hs) && c != NIL && NextIs(mem', c, NIL)
    requires hs != [] ==> NextIs(mem', last, c)
    requires forall i :: 0 <= i < |hs| - 1 ==> NextIs(mem', hs[i], hs[i + 1])
    ensures Links(mem', if hs == [] then c else first, c, hs + [c])
  {
    var gs := hs + [c];
    forall i | 0 <= i < |gs| ensures NextIs(mem', gs[i], Following(gs, i)) {}
  }

  /** What real_list_append leaves alone. */
  lemma AppendKeeps(mem: Memory, f: OpenValue, parent: Addr, c: Addr, body: Body, i: nat)
    requires f.OList? && OpenShape(mem, f, parent, NIL) && Once(BagOpen(f)) && c != NIL && c !in mem && i < |f.items|
    ensures var m, t, last := mem[c := Cell(NIL, body)], f.items[i], mem[f.addr].body.last;
            last in m && Keeps(mem, Appended(m, f.addr, c), Bag(t), last)
            && (last in Bag(t) ==> last == t.addr) && Once(Bag(t)) && f.addr != t.addr
            && (i < |f.items| - 1 ==> t.addr != last)
  {
    var items, t, last := f.items, f.items[i], mem[f.addr].body.last;
    LastIsHead(mem, f, parent);
    BagItem(items, i);
    OnceSub(BagItems(items), BagOpen(f));
    OnceSub(Bag(t), BagItems(items));
    Apart(multiset{f.addr}, BagItems(items), f.addr);
    Within(Bag(t), BagItems(items), multiset{});
    AppendWrites(mem, f.addr, c, body, Bag(t));
    BagHead(t);
    if i < |items| - 1 {
      ItemsApart(items, i);
      HeadsApart(items, i, |items| - 1);
    }
  }

  lemma AppendWrites(mem: Memory, list: Addr, c: Addr, body: Body, b: multiset<Addr>)
    requires list in mem && mem[list].body.ListBody? && list !in b && c !in mem
    requires mem[list].body.last != NIL && mem[list].body.last in mem
    ensures Keeps(mem, Appended(mem[c := Cell(NIL, body)], list, c), b, mem[list].body.last)
  {}

  lemma ItemsApart(items: seq<Value>, i: nat)
    requires i < |items| - 1 && Once(BagItems(items))
    ensures items[|items| - 1].addr !in Bag(items[i])
  {
    var n := |items| - 1;
    BagItem(items[..n], i);
    BagHead(items[n]);
    assert Bag(items[n]) + BagItems(items[..n]) == BagItems(items);
    Apart(Bag(items[n]), BagItems(items[..n]), items[n].addr);
  }

  /** A new element at c is linked behind the last one. */
  lemma ListLinked(mem: Memory, f: OpenValue, parent: Addr, c: Addr, body: Body)
    requires f.OList? && OpenShape(mem, f, parent, NIL) && Once(BagOpen(f)) && c != NIL && c !in mem
    ensures var m := mem[c := Cell(NIL, body)];
            (m[f.addr].body.last != NIL ==> m[f.addr].body.last in m)
            && OpenShape(Appended(m, f.addr, c), f, parent, c)
  {
    var m, hs, items := mem[c := Cell(NIL, body)], Heads(f.items), f.items;
    assert hs + [] == hs;
    LastIsHead(mem, f, parent);
    var m', first, last := Appended(m, f.addr, c), mem[f.addr].body.first, mem[f.addr].body.last;
    assert Links(mem, first, last, hs);
    forall i | 0 <= i < |items| ensures Shape(m', items[i]) && (i < |items| - 1 ==> NextIs(m', hs[i], hs[i + 1])) {
      AppendKeeps(mem, f, parent, c, body, i);
      BagHead(items[i]);
      ShapeKeeps(mem, m', items[i], last);
      assert NextIs(mem, hs[i], Following(hs, i));
    }
    LinksMore(mem, m', first, last, hs, c);
  }

  lemma LastIsHead(mem: Memory, f: OpenValue, parent: Addr)
    requires f.OList? && OpenShape(mem, f, parent, NIL)
    ensures var last := mem[f.addr].body.last;
            if f.items == [] then last == NIL else last != NIL && last == f.items[|f.items| - 1].addr && last in mem
  {
    assert Heads(f.items) + [] == Heads(f.items);
  }

  /** A new value at c is linked to the key that waits for it. */
  lemma KeyLinked(mem: Memory, f: OpenValue, parent: Addr, c: Addr, body: Body)
    requires f.ODict? && f.key.Some? && OpenShape(mem, f, parent, NIL) && Once(BagOpen(f)) && c != NIL && c !in mem
    ensures var k := f.key.value.addr;
            k in mem && OpenShape(mem[c := Cell(NIL, body)][k := mem[k].(next := c)], f, parent, c) == true
  {
    var k := f.key.value.addr;
    var m' := mem[c := Cell(NIL, body)][k := mem[k].(next := c)];
    KeyApart(f);
    KeyWrites(mem, k, c, body, BagMembers(f.members), f.addr);
    MembersElsewhere(mem, m', f.members, f.addr);
  }

  lemma KeyWrites(mem: Memory, k: Addr, c: Addr, body: Body, b: multiset<Addr>, free: Addr)
    requires k in mem && k !in b && c !in mem
    ensures Keeps(mem, mem[c := Cell(NIL, body)][k := mem[k].(next := c)], b, free)
  {}

  lemma MembersElsewhere(mem: Memory, mem': Memory, members: seq<VMember>, free: Addr)
    requires forall i :: 0 <= i < |members| ==> Shape(mem, members[i].value)
    requires forall i :: 0 <= i < |members| ==> MemberCell(mem, members[i])
    requires Once(BagMembers(members)) && Keeps(mem, mem', BagMembers(members), free) && free !in BagMembers(members)
    ensures forall i :: 0 <= i < |members| ==> Shape(mem', members[i].value)
    ensures forall i :: 0 <= i < |members| ==> MemberCell(mem', members[i])
  {
    forall i | 0 <= i < |members| ensures Shape(mem', members[i].value) && MemberCell(mem', members[i]) {
      MemberElsewhere(mem, mem', members, i, free);
    }
  }

  lemma KeyApart(f: OpenValue)
    requires f.ODict? && f.key.Some? && Once(BagOpen(f))
    ensures f.key.value.addr != f.addr && f.key.value.addr !in BagMembers(f.members) && f.addr !in BagMembers(f.members)
    ensures Once(BagMembers(f.members))
  {
    var k, a, b := multiset{f.key.value.addr}, multiset{f.addr}, BagMembers(f.members);
    assert BagOpen(f) == k + (a + b) == a + (b + k);
    Apart(k, a + b, f.key.value.addr);
    Apart(a, b + k, f.addr);
    OnceSub(b, BagOpen(f));
  }

  /** A member whose cells are all kept. */
  lemma MemberElsewhere(mem: Memory, mem': Memory, members: seq<VMember>, i: nat, free: Addr)
    requires i < |members| && Shape(mem, members[i].value) && MemberCell(mem, members[i]) && Once(BagMembers(members))
    requires Keeps(mem, mem', BagMembers(members), free) && free !in BagMembers(members)
    ensures Shape(mem', members[i].value) && MemberCell(mem', members[i])
  {
    var m := members[i];
    BagMember(members, i);
    OnceSub(Bag(m.value), BagMembers(members));
    KeepsSub(mem, mem', Bag(m.value), BagMembers(members), free);
    assert m.keyAddr in BagMembers(members) by {
      assert m.keyAddr in multiset{m.keyAddr} + Bag(m.value);
    }
    ShapeKeeps(mem, mem', m.value, free);
  }

  // ----- the chain of open containers

  ghost function ParentOf(fs: seq<OpenValue>, i: int): Addr { if 0 <= i - 1 < |fs| then fs[i - 1].addr else NIL }

  ghost function ChildOf(fs: seq<OpenValue>, i: int): Addr { if 0 <= i + 1 < |fs| then fs[i + 1].addr else NIL }

  ghost function BagAll(fs: seq<OpenValue>): multiset<Addr> {
    if fs == [] then multiset{} else BagAll(fs[..|fs| - 1]) + BagOpen(fs[|fs| - 1])
  }

  /** Nothing is shared, and everything is in memory. */
  ghost predicate Separate(mem: Memory, b: multiset<Addr>) { NIL !in mem && Once(b) && forall x :: x in b ==> x in mem }

  /** OpenShape as one proposition. */
  ghost predicate InPlace(mem: Memory, f: OpenValue, parent: Addr, child: Addr) {
    OpenShape(mem, f, parent, child) == true
  }

  /** Container i is in place between its neighbours. */
  ghost predicate At(mem: Memory, fs: seq<OpenValue>, i: nat) {
    i < |fs| && InPlace(mem, fs[i], ParentOf(fs, i), ChildOf(fs, i))
  }

  ghost predicate AllInPlace(mem: Memory, fs: seq<OpenValue>) {
    forall i :: 0 <= i < |fs| ==> At(mem, fs, i)
  }

  /** The open containers, outermost first, are in memory, each linked into the one before. */
  ghost predicate Stacked(mem: Memory, fs: seq<OpenValue>) {
    Separate(mem, BagAll(fs)) && AllInPlace(mem, fs)
  }

  /** Only cells at these addresses, or new ones, were written. */
  ghost predicate Elsewhere(mem: Memory, mem': Memory, b: multiset<Addr>) {
    forall x :: x in mem && x !in b ==> x in mem' && mem'[x] == mem[x]
  }

  lemma {:induction false} BagFrame(fs: seq<OpenValue>, i: nat)
    requires i < |fs|
    ensures BagOpen(fs[i]) <= BagAll(fs)
    decreases |fs|
  {
    if i < |fs| - 1 { BagFrame(fs[..|fs| - 1], i); }
  }

  lemma BagAllSnoc(fs: seq<OpenValue>, g: OpenValue)
    ensures BagAll(fs + [g]) == BagAll(fs) + BagOpen(g)
  {
    assert (fs + [g])[..|fs|] == fs;
  }

  lemma BagAddr(f: OpenValue)
    ensures f.addr in BagOpen(f)
  {}

  /** An open container none of whose cells is written. */
  lemma OpenKeeps(mem: Memory, mem': Memory, f: OpenValue, parent: Addr, child: Addr, free: Addr)
    requires OpenShape(mem, f, parent, child) && Once(BagOpen(f))
    requires Keeps(mem, mem', BagOpen(f), free) && free !in BagOpen(f)
    requires child != NIL && child in mem ==> NextIs(mem', child, mem[child].next)
    ensures OpenShape(mem', f, parent, child)
  {
    BagAddr(f);
    if f.OList? {
      OnceSub(BagItems(f.items), BagOpen(f));
      KeepsSub(mem, mem', BagItems(f.items), BagOpen(f), free);
      ItemsElsewhere(mem, mem', f.items, child, mem[f.addr].body.first, mem[f.addr].body.last, free);
    } else {
      OnceSub(BagMembers(f.members), BagOpen(f));
      KeepsSub(mem, mem', BagMembers(f.members), BagOpen(f), free);
      MembersElsewhere(mem, mem', f.members, free);
    }
  }

  lemma ItemsElsewhere(mem: Memory, mem': Memory, items: seq<Value>, child: Addr, first: Addr, last: Addr, free: Addr)
    requires Links(mem, first, last, Heads(items) + ChildHead(child))
    requires forall i :: 0 <= i < |items| ==> Shape(mem, items[i])
    requires Once(BagItems(items)) && Keeps(mem, mem', BagItems(items), free) && free !in BagItems(items)
    requires child != NIL && child in mem ==> NextIs(mem', child, mem[child].next)
    ensures Links(mem', first, last, Heads(items) + ChildHead(child))
    ensures forall i :: 0 <= i < |items| ==> Shape(mem', items[i])
  {
    var hs := Heads(items) + ChildHead(child);
    forall i | 0 <= i < |items| ensures Shape(mem', items[i]) && NextIs(mem', hs[i], Following(hs, i)) {
      ItemElsewhere(mem, mem', items, i, free);
      assert NextIs(mem, hs[i], Following(hs, i));
    }
    forall i | 0 <= i < |hs| ensures NextIs(mem', hs[i], Following(hs, i)) {
      assert NextIs(mem, hs[i], Following(hs, i));
    }
  }

  lemma ItemElsewhere(mem: Memory, mem': Memory, items: seq<Value>, i: nat, free: Addr)
    requires i < |items| && Shape(mem, items[i]) && Once(BagItems(items))
    requires Keeps(mem, mem', BagItems(items), free) && free !in BagItems(items)
    ensures Shape(mem', items[i]) && NextIs(mem', items[i].addr, mem[items[i].addr].next)
  {
    var t := items[i];
    BagItem(items, i);
    BagHead(t);
    OnceSub(Bag(t), BagItems(items));
    KeepsSub(mem, mem', Bag(t), BagItems(items), free);
    ShapeKeeps(mem, mem', t, free);
  }

  /** Writes to the innermost container keep the others. */
  lemma OuterKeeps(mem: Memory, mem': Memory, fs: seq<OpenValue>, i: nat, parent: Addr, child: Addr)
    requires Once(BagAll(fs)) && i < |fs| - 1 && child == fs[i + 1].addr && InPlace(mem, fs[i], parent, child)
    requires Elsewhere(mem, mem', BagOpen(fs[|fs| - 1]))
    requires fs[|fs| - 1].addr in mem && NextIs(mem', fs[|fs| - 1].addr, mem[fs[|fs| - 1].addr].next)
    ensures InPlace(mem', fs[i], parent, child)
  {
    var f, last := fs[i], fs[|fs| - 1];
    FrameApart(fs, i);
    if i + 1 < |fs| - 1 { AddrApart(fs, i + 1); }
    BagAddr(last);
    FrameKeeps(mem, mem', f, parent, child, BagOpen(last), last.addr);
  }

  lemma FrameKeeps(mem: Memory, mem': Memory, f: OpenValue, parent: Addr, child: Addr, b: multiset<Addr>, last: Addr)
    requires InPlace(mem, f, parent, child) && Once(BagOpen(f)) && Elsewhere(mem, mem', b)
    requires (forall x :: x in BagOpen(f) ==> x !in b) && last in b && (child == last || child !in b)
    requires last in mem && NextIs(mem', last, mem[last].next)
    ensures InPlace(mem', f, parent, child)
  {
    KeepsApart(mem, mem', BagOpen(f), b, last);
    ChildKeeps(mem, mem', b, last, child);
    OpenKeeps(mem, mem', f, parent, child, last);
  }

  lemma KeepsApart(mem: Memory, mem': Memory, a: multiset<Addr>, b: multiset<Addr>, free: Addr)
    requires Elsewhere(mem, mem', b) && forall x :: x in a ==> x !in b
    ensures Keeps(mem, mem', a, free)
  {}

  lemma ChildKeeps(mem: Memory, mem': Memory, b: multiset<Addr>, last: Addr, x: Addr)
    requires Elsewhere(mem, mem', b) && last in mem && NextIs(mem', last, mem[last].next) && (x == last || x !in b)
    ensures x in mem ==> NextIs(mem', x, mem[x].next)
  {}

  lemma AddrApart(fs: seq<OpenValue>, i: nat)
    requires i < |fs| - 1 && Once(BagAll(fs))
    ensures fs[i].addr !in BagOpen(fs[|fs| - 1])
  {
    FrameApart(fs, i);
    BagAddr(fs[i]);
  }

  lemma FrameApart(fs: seq<OpenValue>, i: nat)
    requires i < |fs| - 1 && Once(BagAll(fs))
    ensures Once(BagOpen(fs[i])) && forall x :: x in BagOpen(fs[i]) ==> x !in BagOpen(fs[|fs| - 1])
  {
    var init, f := fs[..|fs| - 1], fs[|fs| - 1];
    BagFrame(init, i);
    OnceSub(BagOpen(fs[i]), BagAll(fs));
    forall x | x in BagOpen(fs[i]) ensures x !in BagOpen(f) {
      assert x in BagAll(init) by { assert BagOpen(fs[i])[x] <= BagAll(init)[x]; }
      Apart(BagAll(init), BagOpen(f), x);
    }
  }

  lemma ReplacedNeighbours(fs: seq<OpenValue>, g: OpenValue, i: nat)
    requires fs != [] && g.addr == fs[|fs| - 1].addr && i < |fs|
    ensures var gs := fs[..|fs| - 1] + [g];
            gs[i] == (if i < |fs| - 1 then fs[i] else g) && ParentOf(gs, i) == ParentOf(fs, i)
              && ChildOf(gs, i) == ChildOf(fs, i)
  {}

  lemma PushedNeighbours(fs: seq<OpenValue>, g: OpenValue, i: nat)
    requires fs != [] && i <= |fs|
    ensures var gs := fs + [g];
            gs[i] == (if i < |fs| then fs[i] else g)
            && ParentOf(gs, i) == (if i < |fs| then ParentOf(fs, i) else fs[|fs| - 1].addr)
            && ChildOf(gs, i) == if i == |fs| - 1 then g.addr else ChildOf(fs, i)
  {}

  lemma OuterAt(mem: Memory, mem': Memory, fs: seq<OpenValue>, i: nat)
    requires AllInPlace(mem, fs) && Once(BagAll(fs)) && i < |fs| - 1
    requires Elsewhere(mem, mem', BagOpen(fs[|fs| - 1]))
    requires fs[|fs| - 1].addr in mem && NextIs(mem', fs[|fs| - 1].addr, mem[fs[|fs| - 1].addr].next)
    ensures At(mem', fs, i)
  {
    assert At(mem, fs, i);
    OuterKeeps(mem, mem', fs, i, ParentOf(fs, i), ChildOf(fs, i));
  }

  /** The innermost container f becomes g. */
  lemma TopReplaced(mem: Memory, mem': Memory, fs: seq<OpenValue>, g: OpenValue)
    requires Stacked(mem, fs) && fs != [] && g.addr == fs[|fs| - 1].addr
    requires Elsewhere(mem, mem', BagOpen(fs[|fs| - 1])) && g.addr in mem && NextIs(mem', g.addr, mem[g.addr].next)
    requires InPlace(mem', g, ParentOf(fs, |fs| - 1), NIL) && Separate(mem', BagAll(fs[..|fs| - 1]) + BagOpen(g))
    ensures Stacked(mem', fs[..|fs| - 1] + [g])
  {
    BagAllSnoc(fs[..|fs| - 1], g);
    forall i | 0 <= i < |fs| - 1 ensures At(mem', fs, i) {
      OuterAt(mem, mem', fs, i);
    }
    ReplacedInPlace(mem', fs, g);
  }

  lemma ReplacedInPlace(mem: Memory, fs: seq<OpenValue>, g: OpenValue)
    requires fs != [] && g.addr == fs[|fs| - 1].addr && InPlace(mem, g, ParentOf(fs, |fs| - 1), NIL)
    requires forall i :: 0 <= i < |fs| - 1 ==> At(mem, fs, i)
    ensures AllInPlace(mem, fs[..|fs| - 1] + [g])
  {
    var gs := fs[..|fs| - 1] + [g];
    forall i | 0 <= i < |gs| ensures At(mem, gs, i) {
      ReplacedNeighbours(fs, g, i);
      if i < |fs| - 1 {
        assert At(mem, fs, i);
      }
    }
  }

  lemma PushedAt(mem: Memory, fs: seq<OpenValue>, g: OpenValue, i: nat)
    requires fs != [] && i <= |fs| && (i < |fs| - 1 ==> At(mem, fs, i))
    requires InPlace(mem, fs[|fs| - 1], ParentOf(fs, |fs| - 1), g.addr) && InPlace(mem, g, fs[|fs| - 1].addr, NIL)
    ensures At(mem, fs + [g], i)
  {
    PushedNeighbours(fs, g, i);
    var gs := fs + [g];
    assert InPlace(mem, gs[i], ParentOf(gs, i), ChildOf(gs, i));
  }

  /** A container g is opened inside the innermost container. */
  lemma TopPushed(mem: Memory, mem': Memory, fs: seq<OpenValue>, g: OpenValue)
    requires Stacked(mem, fs) && fs != [] && Elsewhere(mem, mem', BagOpen(fs[|fs| - 1]))
    requires fs[|fs| - 1].addr in mem && NextIs(mem', fs[|fs| - 1].addr, mem[fs[|fs| - 1].addr].next)
    requires InPlace(mem', fs[|fs| - 1], ParentOf(fs, |fs| - 1), g.addr) && InPlace(mem', g, fs[|fs| - 1].addr, NIL)
    requires Separate(mem', BagAll(fs) + BagOpen(g))
    ensures Stacked(mem', fs + [g])
  {
    BagAllSnoc(fs, g);
    var gs := fs + [g];
    forall i | 0 <= i < |gs| ensures At(mem', gs, i) {
      if i < |fs| - 1 {
        OuterAt(mem, mem', fs, i);
      }
      PushedAt(mem', fs, g, i);
    }
  }

  // ----- the parse context that memory stands for

  ghost function KeyName(key: Option<KeyRef>): Option<Bytes> { if key.None? then None else Some(key.value.key) }

  ghost function FrameOf(f: OpenValue, inner: bool): Frame {
    match f
    case OList(_, items) => ListFrame(EraseItems(items))
    case ODict(_, members, size, key) => DictFrame(EraseMembers(members), size, if inner then None else KeyName(key))
  }

  ghost function Frames(fs: seq<OpenValue>): (r: seq<Frame>)
    ensures |r| == |fs|
  {
    seq(|fs|, i requires 0 <= i < |fs| => FrameOf(fs[i], i == |fs| - 1))
  }

  ghost function CurKey(fs: seq<OpenValue>): Option<Bytes> {
    if fs != [] && fs[|fs| - 1].ODict? then KeyName(fs[|fs| - 1].key) else None
  }

  ghost function View(state: State, fs: seq<OpenValue>, top: Option<Value>): Ctx {
    Ctx(state, Frames(fs), CurKey(fs), if top.None? then None else Some(Erase(top.value)))
  }

  lemma ErasedItems(items: seq<Value>, t: Value)
    ensures EraseItems(items + [t]) == EraseItems(items) + [Erase(t)]
  {}

  lemma ErasedMembers(members: seq<VMember>, m: VMember)
    ensures EraseMembers(members + [m]) == EraseMembers(members) + [Member(m.key, Erase(m.value))]
  {}

  lemma FramesReplaced(fs: seq<OpenValue>, g: OpenValue)
    requires fs != []
    ensures var gs := fs[..|fs| - 1] + [g];
            Frames(gs) == Frames(fs)[..|fs| - 1] + [FrameOf(g, true)]
  {}

  lemma FramesPushed(fs: seq<OpenValue>, g: OpenValue)
    requires fs != []
    ensures Frames(fs + [g]) == Frames(fs)[..|fs| - 1] + [FrameOf(fs[|fs| - 1], false), FrameOf(g, true)]
  {}

  /** A value arrives in the innermost container. */
  lemma ViewGrown(state: State, fs: seq<OpenValue>, t: Value)
    requires fs != [] && (fs[|fs| - 1].ODict? ==> fs[|fs| - 1].key.Some?)
    ensures Attach(View(state, fs, None), Erase(t))
      == Some(View(state, fs[..|fs| - 1] + [Grown(fs[|fs| - 1], t)], None))
  {
    var f := fs[|fs| - 1];
    FramesReplaced(fs, Grown(f, t));
    match f
    case OList(_, items) => ErasedItems(items, t);
    case ODict(_, members, _, key) => ErasedMembers(members, VMember(key.value.addr, key.value.key, t));
  }

  /** A string becomes the current key. */
  lemma ViewKey(state: State, fs: seq<OpenValue>, r: KeyRef)
    requires fs != [] && fs[|fs| - 1].ODict? && fs[|fs| - 1].key.None?
    ensures Attach(View(state, fs, None), Str(r.key))
      == Some(View(state, fs[..|fs| - 1] + [fs[|fs| - 1].(key := Some(r))], None))
  {
    FramesReplaced(fs, fs[|fs| - 1].(key := Some(r)));
    assert Frames(fs) == Frames(fs)[..|fs| - 1] + [FrameOf(fs[|fs| - 1], true)];
  }

  /** A container is opened inside the innermost one. */
  lemma ViewPushed(state: State, fs: seq<OpenValue>, g: OpenValue)
    requires fs != [] && (fs[|fs| - 1].ODict? ==> fs[|fs| - 1].key.Some?) && (g.ODict? ==> g.key.None?)
    ensures JsonTokens.Open(View(state, fs, None), FrameOf(g, true)) == Some(View(state, fs + [g], None))
  {
    FramesPushed(fs, g);
    var st, f := View(state, fs, None), fs[|fs| - 1];
    assert Top(st) == FrameOf(f, true);
    if f.OList? {
      assert Frames(fs) == Pop(st) + [FrameOf(f, false)];
      assert Frames(fs) + [FrameOf(g, true)] == Frames(fs + [g]);
    }
  }

  /** The key that waits is counted. */
  lemma ViewCounted(state: State, fs: seq<OpenValue>)
    requires fs != [] && fs[|fs| - 1].ODict? && fs[|fs| - 1].key.Some?
    ensures var f := fs[|fs| - 1];
            JsonTokens.AddKey(View(state, fs, None))
            == if |f.key.value.key| > JSON_MAX_KEY || HasKey(EraseMembers(f.members), f.key.value.key) then None
               else Some(View(state, fs[..|fs| - 1] + [f.(size := f.size + 1)], None))
  {
    var f := fs[|fs| - 1];
    FramesReplaced(fs, f.(size := f.size + 1));
  }

  /** The innermost container is closed. */
  lemma ViewClosed(fs: seq<OpenValue>)
    requires |fs| > 1 && (fs[|fs| - 2].ODict? ==> fs[|fs| - 2].key.Some?)
    requires fs[|fs| - 1].ODict? ==> fs[|fs| - 1].size == |fs[|fs| - 1].members|
    ensures var n := |fs| - 1;
            var f, o := fs[n], fs[n - 1];
            JsonTokens.Close(View(Parent, fs, None))
            == Some(View(if o.OList? then ListCommaOrClose else DictCommaOrClose,
                         fs[..n - 1] + [Grown(o, Closed(f))], None))
  {
    var n := |fs| - 1;
    var init, f, o := fs[..n], fs[n], fs[n - 1];
    assert init[..n - 1] == fs[..n - 1];
    FramesReplaced(init, Grown(o, Closed(f)));
    assert Frames(fs)[..n][..n - 1] == Frames(init)[..n - 1];
    assert Finished(FrameOf(f, true)) == Erase(Closed(f));
    match o
    case OList(_, items) => ErasedItems(items, Closed(f));
    case ODict(_, members, _, key) => ErasedMembers(members, VMember(key.value.addr, key.value.key, Closed(f)));
  }

  lemma ViewClosedTop(fs: seq<OpenValue>)
    requires |fs| == 1 && (fs[0].ODict? ==> fs[0].size == |fs[0].members|)
    ensures JsonTokens.Close(View(Parent, fs, None)) == Some(View(Done, [], Some(Closed(fs[0]))))
  {
    assert Finished(FrameOf(fs[0], true)) == Erase(Closed(fs[0]));
  }

  // ----- the steps of the parser on memory

  /** The next thing is a value: a list element, or what a counted key waits for. */
  ghost predicate ValueExpected(f: OpenValue) { f.OList? || (f.key.Some? && f.size == |f.members| + 1) }

  ghost predicate KeyExpected(f: OpenValue) { f.ODict? && f.key.None? && f.size == |f.members| }

  /** The value at the new address c was linked into the innermost container f, and nothing else. */
  ghost predicate ChildLinked(mem: Memory, mem': Memory, f: OpenValue, parent: Addr, c: Addr, body: Body) {
    && c != NIL && c !in mem && c in mem' && mem'[c] == Cell(NIL, body)
    && InPlace(mem', f, parent, c) && Elsewhere(mem, mem', BagOpen(f))
    && f.addr in mem && NextIs(mem', f.addr, mem[f.addr].next) && mem'.Keys == mem.Keys + {c}
  }

  lemma LinkedIntoList(mem: Memory, f: OpenValue, parent: Addr, c: Addr, body: Body)
    requires f.OList? && InPlace(mem, f, parent, NIL) && Once(BagOpen(f)) && c != NIL && c !in mem
    ensures var m := mem[c := Cell(NIL, body)];
            (m[f.addr].body.last != NIL ==> m[f.addr].body.last in m)
            && ChildLinked(mem, Appended(m, f.addr, c), f, parent, c, body)
  {
    ListLinked(mem, f, parent, c, body);
    LastInBag(mem, f, parent);
    AppendedElsewhere(mem, f.addr, c, body, BagOpen(f));
  }

  lemma LastInBag(mem: Memory, f: OpenValue, parent: Addr)
    requires f.OList? && InPlace(mem, f, parent, NIL) && Once(BagOpen(f))
    ensures var last := mem[f.addr].body.last; last == NIL || (last in mem && last in BagOpen(f) && last != f.addr)
    ensures f.addr in BagOpen(f)
  {
    LastIsHead(mem, f, parent);
    if f.items != [] {
      HeadInBag(f.items, |f.items| - 1);
      Apart(multiset{f.addr}, BagItems(f.items), f.addr);
    }
  }

  lemma AppendedElsewhere(mem: Memory, list: Addr, c: Addr, body: Body, b: multiset<Addr>)
    requires list in mem && mem[list].body.ListBody? && list in b && c !in mem
    requires var last := mem[list].body.last; last == NIL || (last in mem && last in b && last != list)
    ensures var mem' := Appended(mem[c := Cell(NIL, body)], list, c);
            Elsewhere(mem, mem', b) && NextIs(mem', list, mem[list].next)
            && mem'.Keys == mem.Keys + {c} && mem'[c] == Cell(NIL, body)
  {}

  lemma LinkedToKey(mem: Memory, f: OpenValue, parent: Addr, c: Addr, body: Body)
    requires f.ODict? && f.key.Some? && InPlace(mem, f, parent, NIL) && Once(BagOpen(f)) && c != NIL && c !in mem
    ensures var k := f.key.value.addr;
            k in mem && ChildLinked(mem, mem[c := Cell(NIL, body)][k := mem[k].(next := c)], f, parent, c, body)
  {
    KeyLinked(mem, f, parent, c, body);
    KeyApart(f);
  }

  lemma TopInPlace(mem: Memory, fs: seq<OpenValue>)
    requires Stacked(mem, fs) && fs != []
    ensures var n := |fs| - 1; InPlace(mem, fs[n], ParentOf(fs, n), NIL) && Once(BagOpen(fs[n]))
    ensures fs[|fs| - 1].addr != NIL && fs[|fs| - 1].addr in mem
  {
    var n := |fs| - 1;
    assert At(mem, fs, n);
    OnceSub(BagOpen(fs[n]), BagAll(fs));
  }

  lemma SeparateMore(mem: Memory, mem': Memory, b: multiset<Addr>, c: Addr)
    requires Separate(mem, b) && c != NIL && c !in mem && mem'.Keys == mem.Keys + {c}
    ensures Separate(mem', b + multiset{c})
  {
    assert c !in b;
  }

  /** A scalar was linked into the innermost container. */
  lemma LeafStacked(mem: Memory, mem': Memory, fs: seq<OpenValue>, c: Addr, v: Json)
    requires Stacked(mem, fs) && fs != [] && ValueExpected(fs[|fs| - 1]) && Atomic(v)
    requires ChildLinked(mem, mem', fs[|fs| - 1], ParentOf(fs, |fs| - 1), c, Plain(v))
    ensures Stacked(mem', fs[..|fs| - 1] + [Grown(fs[|fs| - 1], Single(c, v))])
  {
    var n := |fs| - 1;
    var f, t := fs[n], Single(c, v);
    ChildGrown(mem', f, ParentOf(fs, n), t);
    BagGrown(f, t);
    SeparateMore(mem, mem', BagAll(fs), c);
    assert BagAll(fs) + multiset{c} == BagAll(fs[..n]) + BagOpen(Grown(f, t));
    TopReplaced(mem, mem', fs, Grown(f, t));
  }

  /** A container without elements, as mk_value makes it. */
  ghost function Empty(c: Addr, dict: bool): OpenValue { if dict then ODict(c, [], 0, None) else OList(c, []) }

  function EmptyBody(parent: Addr, dict: bool): Body {
    if dict then DictBody(parent, None, 0) else ListBody(parent, NIL, NIL, 0)
  }

  lemma EmptyShape(mem: Memory, c: Addr, parent: Addr, dict: bool)
    requires c != NIL && c in mem && mem[c] == Cell(NIL, EmptyBody(parent, dict))
    ensures InPlace(mem, Empty(c, dict), parent, NIL) && BagOpen(Empty(c, dict)) == multiset{c}
  {
    assert dict ==> TreeKeys(Empty(c, dict)) == [];
    assert Heads([]) + ChildHead(NIL) == [];
  }

  /** A container was linked into the innermost container. */
  lemma OpenStacked(mem: Memory, mem': Memory, fs: seq<OpenValue>, c: Addr, dict: bool)
    requires Stacked(mem, fs) && fs != []
    requires ChildLinked(mem, mem', fs[|fs| - 1], ParentOf(fs, |fs| - 1), c, EmptyBody(fs[|fs| - 1].addr, dict))
    ensures Stacked(mem', fs + [Empty(c, dict)])
  {
    EmptyShape(mem', c, fs[|fs| - 1].addr, dict);
    SeparateMore(mem, mem', BagAll(fs), c);
    TopPushed(mem, mem', fs, Empty(c, dict));
  }

  /** The first container. */
  lemma FirstStacked(mem: Memory, c: Addr, dict: bool)
    requires NIL !in mem && c in mem && mem[c] == Cell(NIL, EmptyBody(NIL, dict))
    ensures Stacked(mem, [Empty(c, dict)])
  {
    var fs := [Empty(c, dict)];
    EmptyShape(mem, c, NIL, dict);
    assert BagAll(fs) == multiset{c} by { BagAllSnoc([], fs[0]); assert [] + fs == fs; }
  }

  /** A string became the current key; it is linked to nothing yet. */
  lemma KeyStacked(mem: Memory, fs: seq<OpenValue>, c: Addr, s: Bytes)
    requires Stacked(mem, fs) && fs != [] && KeyExpected(fs[|fs| - 1]) && 0 !in s && c != NIL && c !in mem
    ensures Stacked(mem[c := Cell(NIL, Plain(Str(s)))], fs[..|fs| - 1] + [fs[|fs| - 1].(key := Some(KeyRef(c, s)))])
  {
    var n, mem' := |fs| - 1, mem[c := Cell(NIL, Plain(Str(s)))];
    var f := fs[n];
    var g := f.(key := Some(KeyRef(c, s)));
    TopInPlace(mem, fs);
    KeyReady(mem, mem', f, ParentOf(fs, n), c, s);
    SeparateMore(mem, mem', BagAll(fs), c);
    KeyBag(f, c, s, BagAll(fs[..n]));
    TopReplaced(mem, mem', fs, g);
  }

  lemma KeyBag(f: OpenValue, c: Addr, s: Bytes, outer: multiset<Addr>)
    requires KeyExpected(f)
    ensures outer + BagOpen(f.(key := Some(KeyRef(c, s)))) == (outer + BagOpen(f)) + multiset{c}
  {}

  lemma KeyReady(mem: Memory, mem': Memory, f: OpenValue, parent: Addr, c: Addr, s: Bytes)
    requires InPlace(mem, f, parent, NIL) && KeyExpected(f) && 0 !in s && Once(BagOpen(f))
    requires c != NIL && c !in mem && mem' == mem[c := Cell(NIL, Plain(Str(s)))]
    ensures InPlace(mem', f.(key := Some(KeyRef(c, s))), parent, NIL)
  {
    OnceSub(BagMembers(f.members), BagOpen(f));
    Apart(multiset{f.addr}, BagMembers(f.members), f.addr);
    NewCellKeeps(mem, c, Cell(NIL, Plain(Str(s))), BagMembers(f.members), f.addr);
    MembersElsewhere(mem, mem', f.members, f.addr);
    assert TreeKeys(f.(key := Some(KeyRef(c, s)))) == TreeKeys(f);
  }

  /** The key that waits was put into the tree. */
  lemma CountedStacked(mem: Memory, fs: seq<OpenValue>, keys: KeyTree)
    requires Stacked(mem, fs) && fs != []
    requires var f := fs[|fs| - 1];
             f.ODict? && f.key.Some? && f.size == |f.members| && TreeHolds(keys, Refs(f.members) + [f.key.value])
    ensures var f := fs[|fs| - 1];
            Stacked(mem[f.addr := mem[f.addr].(body := DictBody(ParentOf(fs, |fs| - 1), keys, f.size + 1))],
                    fs[..|fs| - 1] + [f.(size := f.size + 1)])
  {
    var n := |fs| - 1;
    var f := fs[n];
    var g := f.(size := f.size + 1);
    TopInPlace(mem, fs);
    var mem' := mem[f.addr := mem[f.addr].(body := DictBody(ParentOf(fs, n), keys, f.size + 1))];
    CountedReady(mem, f, ParentOf(fs, n), keys);
    assert BagOpen(g) == BagOpen(f);
    BagAddr(f);
    TopReplaced(mem, mem', fs, g);
  }

  lemma CountedReady(mem: Memory, f: OpenValue, parent: Addr, keys: KeyTree)
    requires InPlace(mem, f, parent, NIL) && Once(BagOpen(f))
    requires f.ODict? && f.key.Some? && f.size == |f.members| && TreeHolds(keys, Refs(f.members) + [f.key.value])
    ensures var mem' := mem[f.addr := mem[f.addr].(body := DictBody(parent, keys, f.size + 1))];
            InPlace(mem', f.(size := f.size + 1), parent, NIL)
  {
    var mem' := mem[f.addr := mem[f.addr].(body := DictBody(parent, keys, f.size + 1))];
    KeyApart(f);
    BodyWrites(mem, f.addr, DictBody(parent, keys, f.size + 1), BagMembers(f.members));
    MembersElsewhere(mem, mem', f.members, f.addr);
    assert TreeKeys(f.(size := f.size + 1)) == Refs(f.members) + [f.key.value];
  }

  lemma NewCellKeeps(mem: Memory, c: Addr, cell: Cell, b: multiset<Addr>, free: Addr)
    requires c !in mem
    ensures Keeps(mem, mem[c := cell], b, free)
  {}

  lemma BodyWrites(mem: Memory, a: Addr, body: Body, b: multiset<Addr>)
    requires a in mem && a !in b
    ensures Keeps(mem, mem[a := mem[a].(body := body)], b, a)
  {}

  // ----- the pointers of the parse context

  function KeyAddr(key: Option<KeyRef>): Addr { if key.None? then NIL else key.value.addr }

  /** A finished value is in memory, and no part of it is shared. */
  ghost predicate Standing(mem: Memory, t: Value) { t.addr != NIL && Shape(mem, t) && Separate(mem, Bag(t)) }

  /** The fields parent, cur_key and top of the context point to these open containers, or to the
      finished top value. */
  ghost predicate Points(mem: Memory, parent: Addr, curKey: Addr, top: Addr, fs: seq<OpenValue>, value: Option<Value>) {
    if fs == [] then
      && parent == curKey == NIL
      && (if value.None? then top == NIL else top == value.value.addr && Standing(mem, value.value))
    else
      var f := fs[|fs| - 1];
      value.None? && parent == f.addr && top == fs[0].addr && curKey == if f.ODict? then KeyAddr(f.key) else NIL
  }

  /** What has_type finds at parent. */
  lemma ParentType(mem: Memory, fs: seq<OpenValue>)
    requires Stacked(mem, fs) && fs != []
    ensures var n := |fs| - 1;
            var a := fs[n].addr;
            a != NIL && a in mem && (mem[a].body.DictBody? <==> fs[n].ODict?)
              && (mem[a].body.ListBody? <==> fs[n].OList?)
            && mem[a].body.parent == ParentOf(fs, n)
            && (fs[n].ODict? ==> mem[a].body.size == fs[n].size && (fs[n].key.Some? ==> KeyAddr(fs[n].key) != NIL))
  {
    TopInPlace(mem, fs);
  }

  /** The innermost container may be closed, and the one around it waits for it. */
  ghost predicate Closable(fs: seq<OpenValue>) {
    fs != [] && (fs[|fs| - 1].OList? || KeyExpected(fs[|fs| - 1])) && (|fs| > 1 ==> ValueExpected(fs[|fs| - 2]))
  }

  /** Closing the innermost container writes no memory: it is a finished part of the one around it. */
  lemma ClosedStacked(mem: Memory, fs: seq<OpenValue>)
    requires Stacked(mem, fs) && Closable(fs) && |fs| > 1
    ensures var n := |fs| - 1; Stacked(mem, fs[..n - 1] + [Grown(fs[n - 1], Closed(fs[n]))])
  {
    var n := |fs| - 1;
    var g := Grown(fs[n - 1], Closed(fs[n]));
    assert At(mem, fs, n - 1) && At(mem, fs, n);
    ClosedGrown(mem, fs[n - 1], fs[n], ParentOf(fs, n - 1));
    ClosedBag(fs);
    OutermostInPlace(mem, fs, g);
  }

  lemma ClosedGrown(mem: Memory, o: OpenValue, f: OpenValue, parent: Addr)
    requires InPlace(mem, o, parent, f.addr) && InPlace(mem, f, o.addr, NIL)
    requires ValueExpected(o) && (f.OList? || KeyExpected(f))
    ensures InPlace(mem, Grown(o, Closed(f)), parent, NIL)
  {
    ClosedShape(mem, f, o.addr);
    ChildGrown(mem, o, parent, Closed(f));
  }

  lemma ClosedBag(fs: seq<OpenValue>)
    requires Closable(fs) && |fs| > 1
    ensures var n := |fs| - 1; BagAll(fs[..n - 1] + [Grown(fs[n - 1], Closed(fs[n]))]) == BagAll(fs)
  {
    var n := |fs| - 1;
    ClosedBagOf(fs[..n - 1], fs[n - 1], fs[n]);
    LastTwo(fs);
  }

  lemma LastTwo(fs: seq<OpenValue>)
    requires |fs| > 1
    ensures fs[..|fs| - 2] + [fs[|fs| - 2]] + [fs[|fs| - 1]] == fs
  {}

  lemma ClosedBagOf(init: seq<OpenValue>, o: OpenValue, f: OpenValue)
    requires ValueExpected(o) && (f.OList? || KeyExpected(f))
    ensures BagAll(init + [Grown(o, Closed(f))]) == BagAll(init + [o] + [f])
  {
    BagAllSnoc(init, Grown(o, Closed(f)));
    BagAllSnoc(init, o);
    BagAllSnoc(init + [o], f);
    ClosedBagParts(BagAll(init), o, f);
  }

  lemma ClosedBagParts(b: multiset<Addr>, o: OpenValue, f: OpenValue)
    requires ValueExpected(o) && (f.OList? || KeyExpected(f))
    ensures b + BagOpen(Grown(o, Closed(f))) == b + BagOpen(o) + BagOpen(f)
  {
    BagGrown(o, Closed(f));
    BagClosed(f);
    BagAssoc(b, BagOpen(o), BagOpen(f));
  }

  lemma BagAssoc(a: multiset<Addr>, b: multiset<Addr>, c: multiset<Addr>)
    ensures a + b + c == a + (b + c)
  {}

  lemma OutermostInPlace(mem: Memory, fs: seq<OpenValue>, g: OpenValue)
    requires AllInPlace(mem, fs) && |fs| > 1 && g.addr == fs[|fs| - 2].addr
      && InPlace(mem, g, ParentOf(fs, |fs| - 2), NIL)
    ensures AllInPlace(mem, fs[..|fs| - 2] + [g])
  {
    var gs := fs[..|fs| - 2] + [g];
    forall i | 0 <= i < |gs| ensures At(mem, gs, i) {
      assert At(mem, fs, i);
      PoppedNeighbours(fs, g, i);
    }
  }

  lemma PoppedNeighbours(fs: seq<OpenValue>, g: OpenValue, i: nat)
    requires |fs| > 1 && g.addr == fs[|fs| - 2].addr && i < |fs| - 1
    ensures var gs := fs[..|fs| - 2] + [g];
            ParentOf(gs, i) == ParentOf(fs, i)
            && if i < |fs| - 2 then gs[i] == fs[i] && ChildOf(gs, i) == ChildOf(fs, i)
               else gs[i] == g && ChildOf(gs, i) == NIL
  {}

  lemma ClosedTop(mem: Memory, f: OpenValue)
    requires Stacked(mem, [f]) && Closable([f])
    ensures Standing(mem, Closed(f)) && Closed(f).addr == f.addr
  {
    TopInPlace(mem, [f]);
    ClosedShape(mem, f, NIL);
    BagClosed(f);
    assert [] + [f] == [f];
    BagAllSnoc([], f);
  }

  // ----- what the parser state says about the open containers

  /** In a good state the table lets a token through only where the open containers have a place for it. */
  lemma TokenFits(state: State, fs: seq<OpenValue>, value: Option<Value>, t: Token)
    requires Ok(View(state, fs, value)) && NextState(state, t).Some? && fs != []
    ensures value.None?
    ensures var f := fs[|fs| - 1];
            match t
            case TString(_) => ValueExpected(f) || KeyExpected(f)
            case TOther(_) => ValueExpected(f)
            case TComma => true
            case TColon => f.ODict? && f.key.Some? && f.size == |f.members|
            case TOpenDict => ValueExpected(f)
            case TOpenList => ValueExpected(f)
            case TCloseDict => Closable(fs)
            case TCloseList => Closable(fs)
  {
    var st := View(state, fs, value);
    assert Top(st) == FrameOf(fs[|fs| - 1], true);
    if |fs| > 1 {
      assert OuterOk(Pop(st)[|fs| - 2]);
      assert Pop(st)[|fs| - 2] == FrameOf(fs[|fs| - 2], false);
    }
  }

  /** With nothing open, a token fits only at the start. */
  lemma FirstTokenFits(state: State, value: Option<Value>, t: Token)
    requires Ok(View(state, [], value)) && NextState(state, t).Some?
    ensures value.None? && (t.TString? || t.TOther? || t.TOpenDict? || t.TOpenList?)
  {}

  /** What real_dict_add_key reads. */
  lemma KeyText(mem: Memory, fs: seq<OpenValue>)
    requires Stacked(mem, fs) && fs != [] && fs[|fs| - 1].ODict? && fs[|fs| - 1].key.Some?
    requires fs[|fs| - 1].size == |fs[|fs| - 1].members|
    ensures var f := fs[|fs| - 1];
            var k := f.key.value;
            k.addr in mem && mem[k.addr].body == Plain(Str(k.key)) && 0 !in k.key
            && f.addr in mem && mem[f.addr].body.DictBody? && TreeHolds(mem[f.addr].body.keys, Refs(f.members))
            && forall q :: q in Refs(f.members) ==> 0 !in q.key
  {
    var f := fs[|fs| - 1];
    TopInPlace(mem, fs);
    assert TreeKeys(f) == Refs(f.members);
    forall q | q in Refs(f.members) ensures 0 !in q.key {
      var i :| 0 <= i < |f.members| && Refs(f.members)[i] == q;
      assert MemberCell(mem, f.members[i]);
    }
  }

  lemma KeyStored(f: OpenValue)
    requires f.ODict? && f.key.Some? && exists q :: q in Refs(f.members) && q.key == f.key.value.key
    ensures HasKey(EraseMembers(f.members), f.key.value.key)
  {
    var i :| 0 <= i < |f.members| && Refs(f.members)[i].key == f.key.value.key;
    assert EraseMembers(f.members)[i].key == f.key.value.key;
  }

  lemma KeyNotStored(f: OpenValue)
    requires f.ODict? && f.key.Some? && forall q :: q in Refs(f.members) ==> q.key != f.key.value.key
    ensures !HasKey(EraseMembers(f.members), f.key.value.key)
  {
    forall i | 0 <= i < |f.members| ensures EraseMembers(f.members)[i].key != f.key.value.key {
      assert Refs(f.members)[i] in Refs(f.members);
    }
  }

  // ----- one step of the parse context

  /** Memory and pointers stand for these open containers or this value: Stacked and Points, under
      layers that keep the verifier from unfolding both in the methods of the parser. */
  ghost predicate Represents(mem: Memory, parent: Addr, curKey: Addr, top: Addr, fs: seq<OpenValue>,
      value: Option<Value>) {
    RepresentsIn(|fs| + 3, mem, parent, curKey, top, fs, value)
  }

  ghost predicate RepresentsIn(layers: nat, mem: Memory, parent: Addr, curKey: Addr, top: Addr, fs: seq<OpenValue>,
                               value: Option<Value>) {
    if layers > 0 then RepresentsIn(layers - 1, mem, parent, curKey, top, fs, value)
    else Stacked(mem, fs) && Points(mem, parent, curKey, top, fs, value)
  }

  lemma {:induction false} Represented(layers: nat, mem: Memory, parent: Addr, curKey: Addr, top: Addr,
      fs: seq<OpenValue>,
                                       value: Option<Value>)
    ensures RepresentsIn(layers, mem, parent, curKey, top, fs, value)
       <==> Stacked(mem, fs) && Points(mem, parent, curKey, top, fs, value)
  {
    if layers > 0 {
      Represented(layers - 1, mem, parent, curKey, top, fs, value);
    }
  }

  lemma IsRepresented(mem: Memory, parent: Addr, curKey: Addr, top: Addr, fs: seq<OpenValue>, value: Option<Value>)
    ensures Represents(mem, parent, curKey, top, fs, value)
      <==> Stacked(mem, fs) && Points(mem, parent, curKey, top, fs, value)
  {
    Represented(|fs| + 3, mem, parent, curKey, top, fs, value);
  }

  /** What mk_value did: the new value at a is the top value, the current key, or linked into the
      innermost container. */
  ghost predicate Linked(mem: Memory, mem': Memory, fs: seq<OpenValue>, curKey: Addr, top: Addr, top': Addr, a: Addr,
      body: Body) {
    && a != NIL && a !in mem && mem'.Keys == mem.Keys + {a}
    && (if fs == [] then top' == a && curKey == NIL && mem' == mem[a := Cell(NIL, body)]
        else
          top' == top
          && if KeyExpected(fs[|fs| - 1]) then curKey == a && mem' == mem[a := Cell(NIL, body)]
             else curKey == NIL && ChildLinked(mem, mem', fs[|fs| - 1], ParentOf(fs, |fs| - 1), a, body))
  }

  /** Linked, under layers. */
  ghost predicate Made(mem: Memory, mem': Memory, fs: seq<OpenValue>, curKey: Addr, top: Addr, top': Addr, a: Addr,
      body: Body) {
    MadeIn(|fs| + 3, mem, mem', fs, curKey, top, top', a, body)
  }

  ghost predicate MadeIn(layers: nat, mem: Memory, mem': Memory, fs: seq<OpenValue>, curKey: Addr, top: Addr,
      top': Addr,
                         a: Addr, body: Body) {
    if layers > 0 then MadeIn(layers - 1, mem, mem', fs, curKey, top, top', a, body)
    else Linked(mem, mem', fs, curKey, top, top', a, body)
  }

  lemma {:induction false} MadeIsLinked(layers: nat, mem: Memory, mem': Memory, fs: seq<OpenValue>, curKey: Addr,
      top: Addr,
                                        top': Addr, a: Addr, body: Body)
    ensures MadeIn(layers, mem, mem', fs, curKey, top, top', a, body)
      <==> Linked(mem, mem', fs, curKey, top, top', a, body)
  {
    if layers > 0 {
      MadeIsLinked(layers - 1, mem, mem', fs, curKey, top, top', a, body);
    }
  }

  lemma IsLinked(mem: Memory, mem': Memory, fs: seq<OpenValue>, curKey: Addr, top: Addr, top': Addr, a: Addr,
      body: Body)
    ensures Made(mem, mem', fs, curKey, top, top', a, body) <==> Linked(mem, mem', fs, curKey, top, top', a, body)
  {
    MadeIsLinked(|fs| + 3, mem, mem', fs, curKey, top, top', a, body);
  }

  /** A value without parts arrives. */
  lemma ScalarMade(mem: Memory, mem': Memory, parent: Addr, curKey: Addr, curKey': Addr, top: Addr, top': Addr,
                   fs: seq<OpenValue>, a: Addr, v: Json, state: State)
    returns (gs: seq<OpenValue>, value: Option<Value>)
    requires Represents(mem, parent, curKey, top, fs, None) && Made(mem, mem', fs, curKey', top, top', a, Plain(v))
    requires fs != [] ==> ValueExpected(fs[|fs| - 1]) || (KeyExpected(fs[|fs| - 1]) && v.Str?)
    requires Atomic(v) && (v.Str? ==> 0 !in v.s)
    ensures Represents(mem', parent, curKey', top', gs, value)
    ensures Attach(View(state, fs, None), v) == Some(View(state, gs, value))
  {
    IsRepresented(mem, parent, curKey, top, fs, None);
    IsLinked(mem, mem', fs, curKey', top, top', a, Plain(v));
    if fs == [] {
      value := Some(Single(a, v));
      gs := fs;
      FirstScalar(mem, mem', a, v, state);
    } else {
      value := None;
      gs := fs[..|fs| - 1] + [WithScalar(fs[|fs| - 1], a, v)];
      ScalarStacked(mem, mem', fs, curKey', top, top', a, v);
      ScalarView(state, fs, a, v);
      TopPoints(mem', parent, curKey', top, fs, WithScalar(fs[|fs| - 1], a, v));
    }
    IsRepresented(mem', parent, curKey', top', gs, value);
  }

  lemma FirstScalar(mem: Memory, mem': Memory, a: Addr, v: Json, state: State)
    requires Stacked(mem, []) && Atomic(v) && a != NIL && a !in mem && mem' == mem[a := Cell(NIL, Plain(v))]
    ensures Represents(mem', NIL, NIL, a, [], Some(Single(a, v)))
    ensures Attach(View(state, [], None), v) == Some(View(state, [], Some(Single(a, v))))
  {
    IsRepresented(mem', NIL, NIL, a, [], Some(Single(a, v)));
  }

  /** The container with a new value without parts: as a value, or as the current key. */
  ghost function WithScalar(f: OpenValue, a: Addr, v: Json): OpenValue
    requires ValueExpected(f) || (KeyExpected(f) && v.Str?)
  {
    if ValueExpected(f) then Grown(f, Single(a, v)) else f.(key := Some(KeyRef(a, v.s)))
  }

  lemma ScalarStacked(mem: Memory, mem': Memory, fs: seq<OpenValue>, curKey: Addr, top: Addr, top': Addr, a: Addr,
      v: Json)
    requires Stacked(mem, fs) && Made(mem, mem', fs, curKey, top, top', a, Plain(v)) && Atomic(v)
      && (v.Str? ==> 0 !in v.s)
    requires fs != [] && (ValueExpected(fs[|fs| - 1]) || (KeyExpected(fs[|fs| - 1]) && v.Str?))
    ensures Stacked(mem', fs[..|fs| - 1] + [WithScalar(fs[|fs| - 1], a, v)])
  {
    IsLinked(mem, mem', fs, curKey, top, top', a, Plain(v));
    if ValueExpected(fs[|fs| - 1]) {
      LeafStacked(mem, mem', fs, a, v);
    } else {
      KeyStacked(mem, fs, a, v.s);
    }
  }

  lemma ScalarView(state: State, fs: seq<OpenValue>, a: Addr, v: Json)
    requires fs != [] && (ValueExpected(fs[|fs| - 1]) || (KeyExpected(fs[|fs| - 1]) && v.Str?))
    ensures var gs := fs[..|fs| - 1] + [WithScalar(fs[|fs| - 1], a, v)];
            Attach(View(state, fs, None), v) == Some(View(state, gs, None))
  {
    if ValueExpected(fs[|fs| - 1]) {
      ViewGrown(state, fs, Single(a, v));
    } else {
      ViewKey(state, fs, KeyRef(a, v.s));
    }
  }

  /** The pointers still fit when the innermost container changes. */
  lemma TopPoints(mem: Memory, parent: Addr, curKey: Addr, top: Addr, fs: seq<OpenValue>, g: OpenValue)
    requires fs != [] && g.addr == fs[|fs| - 1].addr == parent && top == fs[0].addr
    requires curKey == if g.ODict? then KeyAddr(g.key) else NIL
    ensures Points(mem, parent, curKey, top, fs[..|fs| - 1] + [g], None)
  {}

  ghost function EmptyFrame(dict: bool): Frame { if dict then DictFrame([], 0, None) else ListFrame([]) }

  /** A container is opened. */
  lemma ContainerMade(mem: Memory, mem': Memory, parent: Addr, curKey: Addr, curKey': Addr, top: Addr, top': Addr,
                      fs: seq<OpenValue>, a: Addr, dict: bool, state: State)
    requires Represents(mem, parent, curKey, top, fs, None)
      && Made(mem, mem', fs, curKey', top, top', a, EmptyBody(parent, dict))
    requires fs != [] ==> ValueExpected(fs[|fs| - 1])
    ensures Represents(mem', a, NIL, top', fs + [Empty(a, dict)], None)
    ensures JsonTokens.Open(View(state, fs, None), EmptyFrame(dict)) == Some(View(state, fs + [Empty(a, dict)], None))
  {
    IsRepresented(mem, parent, curKey, top, fs, None);
    IsLinked(mem, mem', fs, curKey', top, top', a, EmptyBody(parent, dict));
    OpenedStacked(mem, mem', fs, curKey', top, top', a, parent, dict);
    OpenedView(state, fs, a, dict);
    OpenedPoints(mem', fs, a, dict, top, top');
    IsRepresented(mem', a, NIL, top', fs + [Empty(a, dict)], None);
  }

  lemma OpenedStacked(mem: Memory, mem': Memory, fs: seq<OpenValue>, curKey: Addr, top: Addr, top': Addr, a: Addr,
      parent: Addr,
                      dict: bool)
    requires Stacked(mem, fs) && Linked(mem, mem', fs, curKey, top, top', a, EmptyBody(parent, dict))
    requires if fs == [] then parent == NIL else parent == fs[|fs| - 1].addr && ValueExpected(fs[|fs| - 1])
    ensures Stacked(mem', fs + [Empty(a, dict)])
  {
    if fs == [] {
      FirstStacked(mem', a, dict);
      assert fs + [Empty(a, dict)] == [Empty(a, dict)];
    } else {
      OpenStacked(mem, mem', fs, a, dict);
    }
  }

  lemma OpenedView(state: State, fs: seq<OpenValue>, a: Addr, dict: bool)
    requires fs != [] ==> ValueExpected(fs[|fs| - 1])
    ensures JsonTokens.Open(View(state, fs, None), EmptyFrame(dict)) == Some(View(state, fs + [Empty(a, dict)], None))
  {
    var g := Empty(a, dict);
    assert EraseItems([]) == [] && EraseMembers([]) == [];
    assert FrameOf(g, true) == EmptyFrame(dict);
    if fs == [] {
      assert fs + [g] == [g];
      assert Frames([g]) == Frames([]) + [FrameOf(g, true)];
    } else {
      ViewPushed(state, fs, g);
    }
  }

  lemma OpenedPoints(mem: Memory, fs: seq<OpenValue>, a: Addr, dict: bool, top: Addr, top': Addr)
    requires if fs == [] then top' == a else top == top' == fs[0].addr
    ensures Points(mem, a, NIL, top', fs + [Empty(a, dict)], None)
  {}

  /** The state that close_container finds behind the parent link. */
  ghost predicate StateBehind(mem: Memory, parent: Addr, state: State) {
    if parent == NIL then state == Done
    else parent in mem && if mem[parent].body.DictBody? then state == DictCommaOrClose else state == ListCommaOrClose
  }

  /** The innermost container is closed. */
  lemma ContainerClosed(mem: Memory, parent: Addr, curKey: Addr, top: Addr, fs: seq<OpenValue>)
    returns (gs: seq<OpenValue>, value: Option<Value>)
    requires Represents(mem, parent, curKey, top, fs, None) && Closable(fs)
    ensures parent in mem && !mem[parent].body.Plain?
      && (mem[parent].body.parent != NIL ==> mem[parent].body.parent in mem)
    ensures Represents(mem, mem[parent].body.parent, NIL, top, gs, value)
    ensures forall state :: StateBehind(mem, mem[parent].body.parent, state) ==>
              Close(View(Parent, fs, None)) == Some(View(state, gs, value))
  {
    IsRepresented(mem, parent, curKey, top, fs, None);
    ParentType(mem, fs);
    if |fs| == 1 {
      assert fs == [fs[0]];
      ClosedTop(mem, fs[0]);
      ViewClosedTop(fs);
      IsRepresented(mem, NIL, NIL, top, [], Some(Closed(fs[0])));
      return [], Some(Closed(fs[0]));
    } else {
      gs, value := ClosedInner(mem, fs, top);
    }
  }

  lemma ClosedInner(mem: Memory, fs: seq<OpenValue>, top: Addr) returns (gs: seq<OpenValue>, value: Option<Value>)
    requires Stacked(mem, fs) && Closable(fs) && |fs| > 1 && top == fs[0].addr
    ensures var p := ParentOf(fs, |fs| - 1);
            p in mem && Represents(mem, p, NIL, top, gs, value)
            && forall state :: StateBehind(mem, p, state) ==>
                 Close(View(Parent, fs, None)) == Some(View(state, gs, value))
  {
    gs, value := Popped(fs), None;
    ClosedRepresents(mem, fs, top);
    ViewClosed(fs);
  }

  /** The open containers after the innermost one is closed. */
  ghost function Popped(fs: seq<OpenValue>): seq<OpenValue>
    requires Closable(fs) && |fs| > 1
  {
    fs[..|fs| - 2] + [Grown(fs[|fs| - 2], Closed(fs[|fs| - 1]))]
  }

  lemma ClosedRepresents(mem: Memory, fs: seq<OpenValue>, top: Addr)
    requires Stacked(mem, fs) && Closable(fs) && |fs| > 1 && top == fs[0].addr
    ensures var p := ParentOf(fs, |fs| - 1);
            p in mem && p != NIL && (mem[p].body.DictBody? <==> fs[|fs| - 2].ODict?)
              && Represents(mem, p, NIL, top, Popped(fs), None)
  {

    var n := |fs| - 1;
    var g := Grown(fs[n - 1], Closed(fs[n]));
    ClosedStacked(mem, fs);
    ParentType(mem, Popped(fs));
    assert fs[..n][..n - 1] == fs[..n - 1];
    TopPoints(mem, g.addr, NIL, top, fs[..n], g);
    IsRepresented(mem, g.addr, NIL, top, Popped(fs), None);
  }

  /** A dict whose current key is to be counted. */
  ghost predicate ColonExpected(fs: seq<OpenValue>) {
    fs != [] && fs[|fs| - 1].ODict? && fs[|fs| - 1].key.Some? && fs[|fs| - 1].size == |fs[|fs| - 1].members|
  }

  /** The key was put into the tree of the innermost container. */
  lemma KeyCounted(mem: Memory, parent: Addr, curKey: Addr, top: Addr, fs: seq<OpenValue>, keys: KeyTree, state: State)
    requires Represents(mem, parent, curKey, top, fs, None) && ColonExpected(fs)
    requires var f := fs[|fs| - 1];
             |f.key.value.key| <= JSON_MAX_KEY && TreeHolds(keys, Refs(f.members) + [f.key.value])
             && forall q :: q in Refs(f.members) ==> q.key != f.key.value.key
    ensures parent in mem && mem[parent].body.DictBody?
    ensures var f := fs[|fs| - 1];
            var gs := fs[..|fs| - 1] + [f.(size := f.size + 1)];
            var b := mem[parent].body;
            Represents(mem[parent := mem[parent].(body := b.(keys := keys, size := b.size + 1))], parent, curKey, top,
              gs, None)
            && JsonTokens.AddKey(View(state, fs, None)) == Some(View(state, gs, None))
  {
    IsRepresented(mem, parent, curKey, top, fs, None);
    ParentType(mem, fs);
    CountedStacked(mem, fs, keys);
    ViewCounted(state, fs);
    KeyNotStored(fs[|fs| - 1]);
    var f, b := fs[|fs| - 1], mem[parent].body;
    IsRepresented(mem[parent := mem[parent].(body := b.(keys := keys, size := b.size + 1))], parent, curKey, top,
                  fs[..|fs| - 1] + [f.(size := f.size + 1)], None);
  }

  /** What real_dict_add_key finds. */
  lemma KeyWaits(mem: Memory, parent: Addr, curKey: Addr, top: Addr, fs: seq<OpenValue>, state: State)
    requires Represents(mem, parent, curKey, top, fs, None) && ColonExpected(fs)
    ensures var refs, k := Refs(fs[|fs| - 1].members), fs[|fs| - 1].key.value;
            && curKey == k.addr && curKey in mem && mem[curKey].body == Plain(Str(k.key)) && 0 !in k.key
            && parent in mem && mem[parent].body.DictBody? && TreeHolds(mem[parent].body.keys, refs)
            && (forall q :: q in refs ==> 0 !in q.key)
            && (|k.key| > JSON_MAX_KEY || (exists q :: q in refs && q.key == k.key)
            ==> JsonTokens.AddKey(View(state, fs, None)).None?)
  {
    IsRepresented(mem, parent, curKey, top, fs, None);
    var f := fs[|fs| - 1];
    ParentType(mem, fs);
    KeyText(mem, fs);
    ViewCounted(state, fs);
    if exists q :: q in Refs(f.members) && q.key == f.key.value.key {
      KeyStored(f);
    }
  }

  lemma MadeForKey(mem: Memory, fs: seq<OpenValue>, top: Addr, a: Addr, body: Body)
    requires Stacked(mem, fs) && fs != [] && fs[|fs| - 1].ODict? && ValueExpected(fs[|fs| - 1]) && a != NIL && a !in mem
    ensures var k := fs[|fs| - 1].key.value.addr;
            k in mem && Made(mem, mem[a := Cell(NIL, body)][k := mem[k].(next := a)], fs, NIL, top, top, a, body)
  {

    TopInPlace(mem, fs);
    LinkedToKey(mem, fs[|fs| - 1], ParentOf(fs, |fs| - 1), a, body);
    var k := fs[|fs| - 1].key.value.addr;
    IsLinked(mem, mem[a := Cell(NIL, body)][k := mem[k].(next := a)], fs, NIL, top, top, a, body);
  }

  lemma MadeForList(mem: Memory, fs: seq<OpenValue>, top: Addr, a: Addr, body: Body)
    requires Stacked(mem, fs) && fs != [] && fs[|fs| - 1].OList? && a != NIL && a !in mem
    ensures var m, list := mem[a := Cell(NIL, body)], fs[|fs| - 1].addr;
            && list in m && m[list].body.ListBody? && (m[list].body.last != NIL ==> m[list].body.last in m)
            && Made(mem, Appended(m, list, a), fs, NIL, top, top, a, body)
  {

    TopInPlace(mem, fs);
    LinkedIntoList(mem, fs[|fs| - 1], ParentOf(fs, |fs| - 1), a, body);
    IsLinked(mem, Appended(mem[a := Cell(NIL, body)], fs[|fs| - 1].addr, a), fs, NIL, top, top, a, body);
  }

  // ----- the pool

  /** All of memory was allocated: it lies below the next free address (one proposition). */
  ghost predicate Below(mem: Memory, pool: Addr) { (pool > NIL && forall a :: a in mem ==> NIL < a < pool) == true }

  lemma BelowMore(mem: Memory, pool: Addr)
    requires Below(mem, pool)
    ensures Below(mem, pool + 1) && pool != NIL && pool !in mem
  {}

  lemma BelowMade(mem: Memory, mem': Memory, fs: seq<OpenValue>, curKey: Addr, top: Addr, top': Addr, a: Addr,
      body: Body, pool: Addr)
    requires Below(mem, pool) && a < pool && Made(mem, mem', fs, curKey, top, top', a, body)
    ensures Below(mem', pool)
  {
    IsLinked(mem, mem', fs, curKey, top, top', a, body);
  }

  lemma BelowSame(mem: Memory, mem': Memory, pool: Addr)
    requires Below(mem, pool) && mem'.Keys == mem.Keys
    ensures Below(mem', pool)
  {}

  /** A value that is linked to nothing yet. */
  lemma MadeAlone(mem: Memory, fs: seq<OpenValue>, top: Addr, a: Addr, body: Body)
    requires a != NIL && a !in mem
    ensures fs == [] ==> Made(mem, mem[a := Cell(NIL, body)], fs, NIL, top, a, a, body)
    ensures fs != [] && KeyExpected(fs[|fs| - 1]) ==> Made(mem, mem[a := Cell(NIL, body)], fs, a, top, top, a, body)
  {
    IsLinked(mem, mem[a := Cell(NIL, body)], fs, NIL, top, a, a, body);
    IsLinked(mem, mem[a := Cell(NIL, body)], fs, a, top, top, a, body);
  }

  // ----- what the methods of the parser find

  lemma NothingYet(mem: Memory, pool: Addr)
    requires Below(mem, pool)
    ensures Represents(mem, NIL, NIL, NIL, [], None)
  {
    IsRepresented(mem, NIL, NIL, NIL, [], None);
  }

  /** The branches of mk_value. */
  lemma MakePlaces(mem: Memory, parent: Addr, curKey: Addr, top: Addr, fs: seq<OpenValue>, a: Addr, body: Body)
    requires Represents(mem, parent, curKey, top, fs, None) && a != NIL && a !in mem
    requires fs != [] ==> ValueExpected(fs[|fs| - 1]) || KeyExpected(fs[|fs| - 1])
    ensures parent == NIL <==> fs == []
    ensures var m := mem[a := Cell(NIL, body)];
            if parent == NIL then curKey == NIL && Made(mem, m, fs, NIL, top, a, a, body)
            else if parent !in mem then false
            else if !mem[parent].body.DictBody? then
              && mem[parent].body.ListBody? && (mem[parent].body.last != NIL ==> mem[parent].body.last in mem)
              && curKey == NIL
              && Made(mem, Appended(m, parent, a), fs, NIL, top, top, a, body)
            else if curKey == NIL then Made(mem, m, fs, a, top, top, a, body)
            else curKey in mem && Made(mem, m[curKey := mem[curKey].(next := a)], fs, NIL, top, top, a, body)
  {
    IsRepresented(mem, parent, curKey, top, fs, None);
    MadeAlone(mem, fs, top, a, body);
    if fs != [] {
      ParentType(mem, fs);
      if fs[|fs| - 1].OList? {
        LastKnown(mem, fs);
        MadeForList(mem, fs, top, a, body);
      } else if ValueExpected(fs[|fs| - 1]) {
        MadeForKey(mem, fs, top, a, body);
      }
    }
  }

  lemma LastKnown(mem: Memory, fs: seq<OpenValue>)
    requires Stacked(mem, fs) && fs != [] && fs[|fs| - 1].OList?
    ensures var a := fs[|fs| - 1].addr;
            a in mem && mem[a].body.ListBody? && (mem[a].body.last != NIL ==> mem[a].body.last in mem)
  {
    TopInPlace(mem, fs);
    LastIsHead(mem, fs[|fs| - 1], ParentOf(fs, |fs| - 1));
  }

  /** The end of a run. */
  lemma TopFound(mem: Memory, parent: Addr, curKey: Addr, top: Addr, fs: seq<OpenValue>, value: Option<Value>,
      state: State)
    requires Represents(mem, parent, curKey, top, fs, value) && Ok(View(state, fs, value)) && state == Done
    ensures value.Some? && top == value.value.addr && Standing(mem, value.value)
  {
    IsRepresented(mem, parent, curKey, top, fs, value);
    DoneMeansValue(fs, value);
  }

  lemma DoneMeansValue(fs: seq<OpenValue>, value: Option<Value>)
    requires Ok(View(Done, fs, value))
    ensures fs == [] && value.Some?
  {
  }

  /** The innermost dict counts its current key. */
  ghost function Counted(fs: seq<OpenValue>): seq<OpenValue>
    requires ColonExpected(fs)
  {
    fs[..|fs| - 1] + [fs[|fs| - 1].(size := fs[|fs| - 1].size + 1)]
  }

  ghost predicate KeyAdded(mem: Memory, mem': Memory, parent: Addr, curKey: Addr, top: Addr, fs: seq<OpenValue>,
      state: State)
    requires ColonExpected(fs)
  {
    && Represents(mem', parent, curKey, top, Counted(fs), None) && mem'.Keys == mem.Keys
    && JsonTokens.AddKey(View(state, fs, None)) == Some(View(state, Counted(fs), None))
  }

  /** real_dict_add_key behind the length test; `first` tells that the tree was empty. */
  method PutKey(mem: Memory, parent: Addr, curKey: Addr, ghost top: Addr, ghost fs: seq<OpenValue>, ghost state: State)
    returns (ok: bool, mem': Memory, first: bool)
    requires Represents(mem, parent, curKey, top, fs, None) && ColonExpected(fs)
    requires curKey in mem && mem[curKey].body.Plain? && mem[curKey].body.v.Str?
      && |mem[curKey].body.v.s| <= JSON_MAX_KEY
    ensures mem'.Keys == mem.Keys
    ensures ok ==> KeyAdded(mem, mem', parent, curKey, top, fs, state)
    ensures !ok ==> JsonTokens.AddKey(View(state, fs, None)).None?
  {
    ghost var f := fs[|fs| - 1];
    KeyWaits(mem, parent, curKey, top, fs, state);
    var b := mem[parent].body;
    var keys;
    ok, keys := TreeInsert(b.keys, KeyRef(curKey, mem[curKey].body.v.s), Refs(f.members));
    first := b.keys.None?;
    if ok {
      KeyCounted(mem, parent, curKey, top, fs, keys, state);
      mem' := mem[parent := mem[parent].(body := b.(keys := keys, size := b.size + 1))];
    } else {
      mem' := mem[parent := mem[parent].(body := DictBody(b.parent, b.keys, b.size + 1))];
    }
  }

  /** The string at cur_key. */
  lemma KeyFound(mem: Memory, parent: Addr, curKey: Addr, top: Addr, fs: seq<OpenValue>, state: State)
    requires Represents(mem, parent, curKey, top, fs, None) && ColonExpected(fs)
    ensures curKey in mem && mem[curKey].body.Plain? && mem[curKey].body.v.Str?
    ensures |mem[curKey].body.v.s| > JSON_MAX_KEY ==> JsonTokens.AddKey(View(state, fs, None)).None?
  {
    KeyWaits(mem, parent, curKey, top, fs, state);
  }
}

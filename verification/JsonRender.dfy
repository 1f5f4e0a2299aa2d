/** Rendering of linked values, as usual/json.c does it: lists along their next links, dicts in the
 order of their key tree.  The text is that of the value with ascending keys, so texts are equal
 exactly if the values are equal with objects taken as maps, and parsing gives that value back.
 */
module JsonRender {
  import opened Prelude
  import opened Utf8
  import opened JsonStrings
  import opened JsonTokens
  import opened JsonText
  import opened JsonMemory
  import opened JsonOrder
  import KB = KeyBits
  import CB = CritBit

  // ----- the order of the key tree

  /** For strings without NUL the order of the tree is the order of the bytes. */
  lemma LessIsBefore(s: Bytes, t: Bytes)
    requires 0 !in s && 0 !in t && KB.Less(KeyOf(s), KeyOf(t))
    ensures Before(s, t)
  {
    var i: nat :| KB.LessAt(KeyOf(s), KeyOf(t), i);
    assert i < |t|;
    forall j: nat | j < i ensures j < |s| && s[j] == t[j] {
      assert KB.ByteAt(KeyOf(s), j) == KB.ByteAt(KeyOf(t), j);
      SameByte(s, t, j);
    }
    if i < |s| {
      BytesOrder(s[i], t[i]);
    } else if i > 0 {
      assert KB.ByteAt(KeyOf(s), i - 1) == KB.ByteAt(KeyOf(t), i - 1);
      SameByte(s, t, i - 1);
    }
    assert BeforeAt(s, t, i);
  }

  function WalkOf(keys: KeyTree): seq<KeyRef> { if keys.None? then [] else CB.Walk(keys.value) }

  ghost predicate NulFree(refs: seq<KeyRef>) { forall r :: r in refs ==> 0 !in r.key }

  /** The walk visits the keys of the members, in ascending order. */
  lemma WalkBefore(keys: KeyTree, refs: seq<KeyRef>)
    requires TreeHolds(keys, refs) && NulFree(refs)
    ensures forall r :: r in WalkOf(keys) <==> r in refs
    ensures forall i, j :: 0 <= i < j < |WalkOf(keys)| ==> Before(WalkOf(keys)[i].key, WalkOf(keys)[j].key)
  {
    if keys.Some? {
      var walk := CB.Walk(keys.value);
      CB.WalkAscends(keys.value, RefKey);
      forall i, j | 0 <= i < j < |walk| ensures Before(walk[i].key, walk[j].key) {
        assert walk[i] in refs && walk[j] in refs;
        LessIsBefore(walk[i].key, walk[j].key);
      }
    }
  }

  ghost function IndexOf(members: seq<VMember>, r: KeyRef): (i: nat)
    requires r in Refs(members)
    ensures i < |members| && Refs(members)[i] == r
  {
    var i :| 0 <= i < |members| && Refs(members)[i] == r;
    i
  }

  // ----- the value in the order in which it is visited

  ghost function Ordered(mem: Memory, t: Value): Json
    requires Shape(mem, t)
    decreases t, 0
  {
    match t
    case Single(_, v) => v
    case VList(_, items) => List(OrderedItems(mem, items))
    case VDict(a, members) =>
      Visited(mem[a].body.keys, Refs(members));
      Dict(OrderedMembers(mem, members, WalkOf(mem[a].body.keys)), |members|)
  }

  ghost function OrderedItems(mem: Memory, items: seq<Value>): (r: seq<Json>)
    requires forall i :: 0 <= i < |items| ==> Shape(mem, items[i])
    ensures |r| == |items|
    decreases items, 0
  {
    seq(|items|, i requires 0 <= i < |items| => Ordered(mem, items[i]))
  }

  /** The members in the order of the walk. */
  ghost function OrderedMembers(mem: Memory, members: seq<VMember>, walk: seq<KeyRef>): (r: seq<Member>)
    requires forall i :: 0 <= i < |members| ==> Shape(mem, members[i].value)
    requires forall i :: 0 <= i < |walk| ==> walk[i] in Refs(members)
    ensures |r| == |walk|
    decreases members, 0
  {
    seq(|walk|, i requires 0 <= i < |walk| =>
      Member(walk[i].key, Ordered(mem, members[IndexOf(members, walk[i])].value)))
  }

  lemma Visited(keys: KeyTree, refs: seq<KeyRef>)
    requires TreeHolds(keys, refs)
    ensures forall i :: 0 <= i < |WalkOf(keys)| ==> WalkOf(keys)[i] in refs
  {}

  // ----- what the order changes, and what it does not

  lemma MembersNulFree(mem: Memory, t: Value)
    requires Shape(mem, t) && t.VDict?
    ensures NulFree(Refs(t.members))
  {
    forall r | r in Refs(t.members) ensures 0 !in r.key {
      var i :| 0 <= i < |t.members| && Refs(t.members)[i] == r;
      assert MemberCell(mem, t.members[i]);
    }
  }

  /** A visited member is one of those that were linked. */
  lemma VisitedMember(mem: Memory, members: seq<VMember>, walk: seq<KeyRef>, i: nat) returns (k: nat)
    requires forall k :: 0 <= k < |members| ==> Shape(mem, members[k].value)
    requires i < |walk| && forall i :: 0 <= i < |walk| ==> walk[i] in Refs(members)
    ensures k < |members|
      && OrderedMembers(mem, members, walk)[i] == Member(members[k].key, Ordered(mem, members[k].value))
  {
    k := IndexOf(members, walk[i]);
  }

  /** Every linked member is visited. */
  lemma LinkedMember(mem: Memory, members: seq<VMember>, walk: seq<KeyRef>, k: nat)
    requires forall k :: 0 <= k < |members| ==> Shape(mem, members[k].value)
    requires k < |members| && forall r :: r in walk <==> r in Refs(members)
    ensures HasKey(OrderedMembers(mem, members, walk), members[k].key)
  {
    assert Refs(members)[k] in walk;
    var i :| 0 <= i < |walk| && walk[i] == Refs(members)[k];
    assert OrderedMembers(mem, members, walk)[i].key == members[k].key;
  }

  /** What the walk over the tree of a dict gives. */
  ghost predicate Walks(walk: seq<KeyRef>, members: seq<VMember>) {
    && (forall r :: r in walk <==> r in Refs(members))
    && forall i, j :: 0 <= i < j < |walk| ==> Before(walk[i].key, walk[j].key)
  }

  lemma DictWalks(mem: Memory, t: Value)
    requires Shape(mem, t) && t.VDict?
    ensures Walks(WalkOf(mem[t.addr].body.keys), t.members)
  {
    MembersNulFree(mem, t);
    WalkBefore(mem[t.addr].body.keys, Refs(t.members));
  }

  lemma OrderedAscends(mem: Memory, members: seq<VMember>, walk: seq<KeyRef>)
    requires Walks(walk, members) && forall k :: 0 <= k < |members| ==> Shape(mem, members[k].value)
    ensures Ascends(OrderedMembers(mem, members, walk)) && Distinct(OrderedMembers(mem, members, walk))
  {
    var ms := OrderedMembers(mem, members, walk);
    assert forall i :: 0 <= i < |ms| ==> ms[i].key == walk[i].key;
    AscendsDistinct(ms);
  }

  /** The visited value has the same meaning. */
  lemma {:induction false} OrderedMeaning(mem: Memory, t: Value)
    requires Shape(mem, t) && ValidJson(Erase(t))
    ensures Meaning(Ordered(mem, t)) == Meaning(Erase(t))
    decreases t, 0
  {
    match t
    case Single(_, _) =>
    case VList(_, items) =>
      ItemsMeaning(mem, items);
    case VDict(_, members) =>
      DictWalks(mem, t);
      MembersMeaning(mem, members, WalkOf(mem[t.addr].body.keys));
  }

  lemma {:induction false} ItemsMeaning(mem: Memory, items: seq<Value>)
    requires forall i :: 0 <= i < |items| ==> Shape(mem, items[i])
    requires ValidItems(EraseItems(items))
    ensures Meaning(List(OrderedItems(mem, items))) == Meaning(List(EraseItems(items)))
    decreases items, 0
  {
    var v, w := OrderedItems(mem, items), EraseItems(items);
    forall i | 0 <= i < |items| ensures Meaning(v[i]) == Meaning(w[i]) {
      assert w[i] == Erase(items[i]) && v[i] == Ordered(mem, items[i]);
      OrderedMeaning(mem, items[i]);
    }
    assert Meaning(List(v)).docs == Meaning(List(w)).docs;
  }

  lemma {:induction false} MembersMeaning(mem: Memory, members: seq<VMember>, walk: seq<KeyRef>)
    requires Walks(walk, members) && ValidMembers(EraseMembers(members))
    requires forall k :: 0 <= k < |members| ==> Shape(mem, members[k].value)
    ensures MeaningOf(OrderedMembers(mem, members, walk)) == MeaningOf(EraseMembers(members))
    decreases members, 0
  {
    var ms, ns := OrderedMembers(mem, members, walk), EraseMembers(members);
    OrderedAscends(mem, members, walk);
    forall i | 0 <= i < |ms| ensures HasSame(ns, ms[i]) {
      var k := VisitedMember(mem, members, walk, i);
      assert ns[k] == Member(members[k].key, Erase(members[k].value));
      OrderedMeaning(mem, members[k].value);
      assert SameMember(ms[i], ns[k]);
    }
    forall k | 0 <= k < |ns| ensures HasKey(ms, ns[k].key) {
      LinkedMember(mem, members, walk, k);
    }
    SameFields(ms, ns);
  }

  /** The visited value has ascending keys, is valid, and is as renderable as the linked one. */
  lemma {:induction false} OrderedSorted(mem: Memory, t: Value)
    requires Shape(mem, t) && ValidJson(Erase(t))
    ensures Sorted(Ordered(mem, t)) && ValidJson(Ordered(mem, t))
    ensures Renderable(Erase(t)) ==> Renderable(Ordered(mem, t))
    decreases t, 0
  {
    match t
    case Single(_, v) =>
    case VList(_, items) =>
      ItemsSorted(mem, items);
    case VDict(_, members) =>
      DictWalks(mem, t);
      MembersSorted(mem, members, WalkOf(mem[t.addr].body.keys));
  }

  lemma {:induction false} ItemsSorted(mem: Memory, items: seq<Value>)
    requires forall i :: 0 <= i < |items| ==> Shape(mem, items[i])
    requires ValidItems(EraseItems(items))
    ensures var v := OrderedItems(mem, items);
            Sorted(List(v)) && ValidItems(v) && (RenderableItems(EraseItems(items)) ==> RenderableItems(v))
    decreases items, 0
  {
    var v, w := OrderedItems(mem, items), EraseItems(items);
    forall i | 0 <= i < |items| ensures Sorted(v[i]) && ValidJson(v[i]) && (Renderable(w[i]) ==> Renderable(v[i])) {
      assert w[i] == Erase(items[i]) && v[i] == Ordered(mem, items[i]);
      OrderedSorted(mem, items[i]);
    }
  }

  lemma {:induction false} MembersSorted(mem: Memory, members: seq<VMember>, walk: seq<KeyRef>)
    requires Walks(walk, members) && ValidMembers(EraseMembers(members))
    requires forall k :: 0 <= k < |members| ==> Shape(mem, members[k].value)
    ensures var ms := OrderedMembers(mem, members, walk);
            |ms| == |members| && Sorted(Dict(ms, |members|)) && ValidMembers(ms)
            && (RenderableMembers(EraseMembers(members)) ==> RenderableMembers(ms))
    decreases members, 0
  {
    var ms, ns := OrderedMembers(mem, members, walk), EraseMembers(members);
    OrderedAscends(mem, members, walk);
    MembersMeaning(mem, members, walk);
    MeaningCount(ms);
    MeaningCount(ns);
    forall i | 0 <= i < |ms|
      ensures Sorted(ms[i].value) && ValidJson(ms[i].value) && |ms[i].key| <= JSON_MAX_KEY
      ensures RenderableMembers(ns) ==> Text(ms[i].key) && Renderable(ms[i].value)
    {
      var k := VisitedMember(mem, members, walk, i);
      assert ns[k] == Member(members[k].key, Erase(members[k].value));
      OrderedSorted(mem, members[k].value);
    }
  }

  // ----- the main results

  /** Rendering a linked value and parsing the text gives the value with ascending keys, which means the same. */
  lemma MemoryRoundTrip(mem: Memory, t: Value, floatOk: FloatOk)
    requires Shape(mem, t) && ValidJson(Erase(t)) && Renderable(Erase(t))
    ensures var w := Ordered(mem, t);
            Parse(Render(w), floatOk) == Some(w) && Sorted(w) && Meaning(w) == Meaning(Erase(t))
  {
    OrderedMeaning(mem, t);
    OrderedSorted(mem, t);
    RenderParseRoundTrip(Ordered(mem, t), floatOk);
  }

  /** The texts of two linked values are equal exactly if the values are equal as maps. */
  lemma SameTextSameMeaning(mem: Memory, t: Value, mem': Memory, u: Value)
    requires Shape(mem, t) && ValidJson(Erase(t)) && Renderable(Erase(t))
    requires Shape(mem', u) && ValidJson(Erase(u)) && Renderable(Erase(u))
    ensures Render(Ordered(mem, t)) == Render(Ordered(mem', u)) <==> Meaning(Erase(t)) == Meaning(Erase(u))
  {
    OrderedMeaning(mem, t);
    OrderedSorted(mem, t);
    OrderedMeaning(mem', u);
    OrderedSorted(mem', u);
    if Render(Ordered(mem, t)) == Render(Ordered(mem', u)) {
      RenderInjective(Ordered(mem, t), Ordered(mem', u));
    }
    if Meaning(Erase(t)) == Meaning(Erase(u)) {
      SortedUnique(Ordered(mem, t), Ordered(mem', u));
    }
  }

  // ----- rendering into a buffer

  /** state->sep: nothing before the first element. */
  function Separator(sep: bool): Bytes { if sep then [44] else [] }

  lemma {:induction false} ItemsGrow(start: Bytes, items: seq<Json>, i: nat)
    requires i < |items|
    ensures start + RenderItems(items[..i]) + Separator(i > 0) + Render(items[i]) == start + RenderItems(items[..i + 1])
  {
    var p := items[..i + 1];
    assert p[..i] == items[..i];
    assert i == 0 ==> items[..i] == [];
    Appends(start, RenderItems(items[..i]), Render(items[i]), i > 0);
  }

  lemma {:induction false} MembersGrow(start: Bytes, members: seq<Member>, i: nat)
    requires i < |members|
    ensures start + RenderMembers(members[..i]) + Separator(i > 0) + RenderMember(members[i])
         == start + RenderMembers(members[..i + 1])
  {
    var p := members[..i + 1];
    assert p[..i] == members[..i];
    assert i == 0 ==> members[..i] == [];
    Appends(start, RenderMembers(members[..i]), RenderMember(members[i]), i > 0);
  }

  /** The separator and one more piece, behind what is already there. */
  lemma Appends(start: Bytes, done: Bytes, piece: Bytes, sep: bool)
    requires !sep ==> done == []
    ensures start + done + Separator(sep) + piece == start + ((if sep then done + [44] else []) + piece)
  {}

  /** render_any: append the text of the value at a to dst. */
  method RenderAny(dst: Bytes, mem: Memory, a: Addr, ghost t: Value) returns (out: Bytes)
    requires Shape(mem, t) && t.addr == a
    ensures out == dst + Render(Ordered(mem, t))
    decreases t, 2
  {
    TypeTag(mem, t);
    match mem[a].body
    case Plain(v) => out := RenderAtom(dst, v);
    case ListBody(_, _, _, _) => out := RenderList(dst, mem, a, t);
    case DictBody(_, _, _) => out := RenderDict(dst, mem, a, t);
  }

  /** What get_type tells. */
  lemma TypeTag(mem: Memory, t: Value)
    requires Shape(mem, t)
    ensures match mem[t.addr].body
            case Plain(v) => t.Single? && Atomic(v) && Ordered(mem, t) == v
            case ListBody(_, _, _, _) => t.VList?
            case DictBody(_, _, _) => t.VDict?
  {}

  /** render_null, render_bool, render_int, render_float and render_string. */
  method RenderAtom(dst: Bytes, v: Json) returns (out: Bytes)
    requires Atomic(v)
    ensures out == dst + Render(v)
  {
    match v
    case Null => out := dst + NULL_TEXT;
    case Bool(b) => out := dst + if b then TRUE_TEXT else FALSE_TEXT;
    case Int(n) => out := dst + RenderInt(n);
    case Float(text) => out := dst + text;
    case Str(s) =>
      var text := RenderString(s);
      out := dst + text;
  }

  /** render_list: along the next links, with a comma before every element but the first. */
  method RenderList(dst: Bytes, mem: Memory, a: Addr, ghost t: Value) returns (out: Bytes)
    requires Shape(mem, t) && t.addr == a && t.VList?
    ensures out == dst + Render(Ordered(mem, t))
    decreases t, 1
  {
    ghost var v := OrderedItems(mem, t.items);
    out := dst + [91];
    ghost var start := out;
    ghost var i := 0;
    var p := mem[a].body.first;
    var sep := false;
    assert v[..0] == [] && start + [] == start;
    while p != NIL
      invariant i <= |t.items| && p == AddrAt(t.items, i) && (sep <==> i > 0)
      invariant out == start + RenderItems(v[..i])
      decreases |t.items| - i
    {
      NextElement(mem, t, i);
      ItemsGrow(start, v, i);
      out := RenderAny(out + Separator(sep), mem, p, t.items[i]);
      sep := true;
      i := i + 1;
      p := mem[p].next;
    }
    AtEnd(mem, t, i);
    assert v[..|v|] == v;
    out := out + [93];
    Regroup(dst, [91], RenderItems(v), [93]);
  }

  ghost function AddrAt(items: seq<Value>, i: nat): Addr { if i < |items| then items[i].addr else NIL }

  lemma NextElement(mem: Memory, t: Value, i: nat)
    requires Shape(mem, t) && t.VList? && AddrAt(t.items, i) != NIL
    ensures i < |t.items| && t.items[i].addr in mem && mem[t.items[i].addr].next == AddrAt(t.items, i + 1)
  {
    var hs := Heads(t.items);
    assert NextIs(mem, hs[i], Following(hs, i));
  }

  lemma AtEnd(mem: Memory, t: Value, i: nat)
    requires Shape(mem, t) && t.VList? && i <= |t.items| && AddrAt(t.items, i) == NIL
    ensures i == |t.items|
  {
    assert forall k :: 0 <= k < |t.items| ==> Heads(t.items)[k] == t.items[k].addr;
  }

  /** render_dict: the members between braces. */
  method RenderDict(dst: Bytes, mem: Memory, a: Addr, ghost t: Value) returns (out: Bytes)
    requires Shape(mem, t) && t.addr == a && t.VDict?
    ensures out == dst + Render(Ordered(mem, t))
    decreases t, 1
  {
    DictText(mem, t);
    MemberShapes(mem, t);
    var walk := WalkOf(mem[a].body.keys);
    out := RenderWalk(dst + [123], mem, walk, t.members);
    out := out + [125];
    Regroup(dst, [123], RenderMembers(OrderedMembers(mem, t.members, walk)), [125]);
  }

  /** json_dict_iter: the keys in the order of cbtree_walk, each with the value behind its next link. */
  method RenderWalk(dst: Bytes, mem: Memory, walk: seq<KeyRef>, ghost members: seq<VMember>) returns (out: Bytes)
    requires forall k :: 0 <= k < |members| ==> Shape(mem, members[k].value)
    requires forall k :: 0 <= k < |members| ==> MemberCell(mem, members[k])
    requires forall i :: 0 <= i < |walk| ==> walk[i] in Refs(members)
    ensures out == dst + RenderMembers(OrderedMembers(mem, members, walk))
    decreases members, 4
  {
    ghost var v := OrderedMembers(mem, members, walk);
    out := dst;
    assert v[..0] == [] && dst + [] == dst;
    for i := 0 to |walk|
      invariant out == dst + RenderMembers(v[..i])
    {
      ghost var k := IndexOf(members, walk[i]);
      MembersGrow(dst, v, i);
      out := RenderPair(out, mem, walk[i].addr, i > 0, members[k]);
    }
    assert v[..|v|] == v;
  }

  lemma DictText(mem: Memory, t: Value)
    requires Shape(mem, t) && t.VDict?
    ensures var walk := WalkOf(mem[t.addr].body.keys);
            (forall i :: 0 <= i < |walk| ==> walk[i] in Refs(t.members))
            && Render(Ordered(mem, t)) == [123] + RenderMembers(OrderedMembers(mem, t.members, walk)) + [125]
  {
    Visited(mem[t.addr].body.keys, Refs(t.members));
    MembersText(OrderedMembers(mem, t.members, WalkOf(mem[t.addr].body.keys)), |t.members|);
  }

  lemma MembersText(members: seq<Member>, size: nat)
    ensures Render(Dict(members, size)) == [123] + RenderMembers(members) + [125]
  {}

  lemma MemberShapes(mem: Memory, t: Value)
    requires Shape(mem, t) && t.VDict?
    ensures mem[t.addr].body.DictBody? && forall k :: 0 <= k < |t.members| ==> Shape(mem, t.members[k].value)
    ensures forall k :: 0 <= k < |t.members| ==> MemberCell(mem, t.members[k])
  {}

  /** dict_elem_writer. */
  method RenderPair(dst: Bytes, mem: Memory, key: Addr, sep: bool, ghost m: VMember) returns (out: Bytes)
    requires MemberCell(mem, m) && Shape(mem, m.value) && m.keyAddr == key
    ensures out == dst + Separator(sep) + RenderMember(Member(m.key, Ordered(mem, m.value)))
    decreases m, 3
  {
    assert mem[key] == Cell(m.value.addr, Plain(Str(m.key)));
    out := RenderAtom(dst + Separator(sep), mem[key].body.v);
    out := out + [58];
    out := RenderAny(out, mem, mem[key].next, m.value);
    PairText(dst + Separator(sep), m.key, Ordered(mem, m.value));
  }

  lemma PairText(dst: Bytes, key: Bytes, v: Json)
    ensures dst + Render(Str(key)) + [58] + Render(v) == dst + RenderMember(Member(key, v))
  {
    Regroup(dst, RenderStr(key), [58], Render(v));
  }
}

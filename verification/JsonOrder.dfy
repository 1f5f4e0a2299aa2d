/** What a JSON value means when the order of the members of an object does not count, and the one
 form of it whose keys are in ascending order.
 */
module JsonOrder {
  import opened Prelude
  import opened Utf8
  import opened JsonTokens

  /** A value whose objects are maps. */
  datatype Doc = Scalar(v: Json) | Items(docs: seq<Doc>) | Fields(fields: map<Bytes, Doc>)

  ghost function Meaning(v: Json): Doc
    decreases v, 0
  {
    match v
    case List(items) => Items(seq(|items|, i requires 0 <= i < |items| => Meaning(items[i])))
    case Dict(members, _) => Fields(MeaningOf(members))
    case _ => Scalar(v)
  }

  ghost function MeaningOf(members: seq<Member>): map<Bytes, Doc>
    decreases members, 0
  {
    if members == [] then map[]
    else
      var m := members[|members| - 1];
      MeaningOf(members[..|members| - 1])[m.key := Meaning(m.value)]
  }

  ghost predicate Distinct(members: seq<Member>) {
    forall i, j :: 0 <= i < j < |members| ==> members[i].key != members[j].key
  }

  /** The fields of an object with distinct keys are its members. */
  lemma {:induction false} MeaningAt(members: seq<Member>, k: Bytes)
    requires Distinct(members)
    ensures k in MeaningOf(members) <==> HasKey(members, k)
    ensures forall i :: 0 <= i < |members| && members[i].key == k ==> MeaningOf(members)[k] == Meaning(members[i].value)
    decreases |members|
  {
    if members != [] {
      var n := |members| - 1;
      MeaningAt(members[..n], k);
      if HasKey(members[..n], k) {
        var i :| 0 <= i < n && members[..n][i].key == k;
        assert members[i].key == k;
      } else {
        forall i | 0 <= i < n ensures members[i].key != k {
          assert members[..n][i] == members[i];
        }
      }
    }
  }

  lemma {:induction false} MeaningCount(members: seq<Member>)
    requires Distinct(members)
    ensures |MeaningOf(members)| == |members|
    decreases |members|
  {
    if members != [] {
      var n := |members| - 1;
      var init, k := members[..n], members[n].key;
      MeaningCount(init);
      MeaningAt(init, k);
      assert MeaningOf(members).Keys == MeaningOf(init).Keys + {k};
    }
  }

  ghost predicate SameMember(m: Member, x: Member) { m.key == x.key && Meaning(m.value) == Meaning(x.value) }

  ghost predicate HasSame(ns: seq<Member>, m: Member) { exists k :: 0 <= k < |ns| && SameMember(m, ns[k]) }

  /** Objects with the same members in any order mean the same. */
  lemma SameFields(ms: seq<Member>, ns: seq<Member>)
    requires Distinct(ms) && Distinct(ns)
    requires forall i :: 0 <= i < |ms| ==> HasSame(ns, ms[i])
    requires forall k :: 0 <= k < |ns| ==> HasKey(ms, ns[k].key)
    ensures MeaningOf(ms) == MeaningOf(ns)
  {
    var f, g := MeaningOf(ms), MeaningOf(ns);
    forall key ensures (key in f <==> key in g) && (key in f && key in g ==> f[key] == g[key]) {
      MeaningAt(ms, key);
      MeaningAt(ns, key);
      if HasKey(ms, key) {
        var i :| 0 <= i < |ms| && ms[i].key == key;
        var k :| 0 <= k < |ns| && SameMember(ms[i], ns[k]);
      }
    }
  }

  // ----- the order of keys

  /** Byte by byte; i is the first place where they differ. */
  predicate BeforeAt(s: Bytes, t: Bytes, i: nat) {
    i <= |s| && i < |t| && (forall j :: 0 <= j < i ==> s[j] == t[j]) && (i == |s| || s[i] < t[i])
  }

  ghost predicate Before(s: Bytes, t: Bytes) { exists i: nat :: BeforeAt(s, t, i) }

  lemma BeforeOneWay(s: Bytes, t: Bytes)
    requires Before(s, t)
    ensures s != t && !Before(t, s)
  {
    var i: nat :| BeforeAt(s, t, i);
    if Before(t, s) {
      var j: nat :| BeforeAt(t, s, j);
    }
  }

  ghost predicate Ascends(members: seq<Member>) {
    forall i, j :: 0 <= i < j < |members| ==> Before(members[i].key, members[j].key)
  }

  /** In every object the keys are in ascending order. */
  ghost predicate Sorted(v: Json)
    decreases v, 0
  {
    match v
    case List(items) => forall i :: 0 <= i < |items| ==> Sorted(items[i])
    case Dict(members, size) =>
      Ascends(members) && size == |members| && forall i :: 0 <= i < |members| ==> Sorted(members[i].value)
    case _ => true
  }

  lemma AscendsDistinct(members: seq<Member>)
    requires Ascends(members)
    ensures Distinct(members)
  {
    forall i, j | 0 <= i < j < |members| ensures members[i].key != members[j].key {
      BeforeOneWay(members[i].key, members[j].key);
    }
  }

  /** Two values with ascending keys and the same meaning are the same value. */
  lemma {:induction false} SortedUnique(v: Json, w: Json)
    requires Sorted(v) && Sorted(w) && Meaning(v) == Meaning(w)
    ensures v == w
    decreases v, 0
  {
    match v
    case List(items) =>
      assert |Meaning(v).docs| == |items| == |w.items|;
      forall i | 0 <= i < |items| ensures items[i] == w.items[i] {
        assert Meaning(v).docs[i] == Meaning(items[i]) && Meaning(w).docs[i] == Meaning(w.items[i]);
        SortedUnique(items[i], w.items[i]);
      }
    case Dict(members, _) => MembersUnique(members, w.members);
    case _ =>
  }

  lemma {:induction false} MembersUnique(members: seq<Member>, others: seq<Member>)
    requires Ascends(members) && Ascends(others) && MeaningOf(members) == MeaningOf(others)
    requires forall i :: 0 <= i < |members| ==> Sorted(members[i].value)
    requires forall i :: 0 <= i < |others| ==> Sorted(others[i].value)
    ensures members == others
    decreases members, 0
  {
    if members == [] || others == [] {
      NoMembers(members);
      NoMembers(others);
    } else {
      var n, k := |members| - 1, |others| - 1;
      LastKey(members, others);
      LastApart(members);
      LastApart(others);
      SortedUnique(members[n].value, others[k].value);
      MembersUnique(members[..n], others[..k]);
      assert members == members[..n] + [members[n]] && others == others[..k] + [others[k]];
    }
  }

  lemma NoMembers(members: seq<Member>)
    ensures MeaningOf(members) == map[] <==> members == []
  {
    if members != [] {
      assert members[|members| - 1].key in MeaningOf(members);
    }
  }

  lemma LastApart(members: seq<Member>)
    requires Ascends(members) && members != []
    ensures var init, m := members[..|members| - 1], members[|members| - 1];
            && m.key in MeaningOf(members) && MeaningOf(members)[m.key] == Meaning(m.value)
            && MeaningOf(init) == MeaningOf(members) - {m.key}
  {
    AscendsDistinct(members);
    MeaningAt(members[..|members| - 1], members[|members| - 1].key);
  }

  /** The last key is the largest one. */
  lemma LastKey(members: seq<Member>, others: seq<Member>)
    requires Ascends(members) && Ascends(others) && members != [] && others != []
      && MeaningOf(members) == MeaningOf(others)
    ensures members[|members| - 1].key == others[|others| - 1].key
  {
    var a, b := members[|members| - 1].key, others[|others| - 1].key;
    NotBeyond(members, others);
    NotBeyond(others, members);
    if a != b { BeforeOneWay(a, b); }
  }

  lemma NotBeyond(members: seq<Member>, others: seq<Member>)
    requires Ascends(members) && Ascends(others) && members != [] && others != []
      && MeaningOf(members) == MeaningOf(others)
    ensures var a, b := members[|members| - 1].key, others[|others| - 1].key; a == b || Before(a, b)
  {
    var a := members[|members| - 1].key;
    AscendsDistinct(members);
    AscendsDistinct(others);
    MeaningAt(members, a);
    MeaningAt(others, a);
    var i :| 0 <= i < |others| && others[i].key == a;
  }
}

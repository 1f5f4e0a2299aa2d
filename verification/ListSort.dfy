/** The circular doubly linked list of usual/list.c and its merge sort.

 Memory is two maps from the address of a node to its next and prev fields.  The comparison is a
 function of addresses, that is of what the nodes are embedded in; sorting changes only links.
 */
module ListSort {
  import opened Prelude
  import opened StableMerge

  type Addr = nat

  const NULL: Addr := 0

  type Cmp = (Addr, Addr) -> int

  type Links = map<Addr, Addr>

  /** Next-links lead from p through s to end. */
  ghost predicate Chain(next: Links, p: Addr, s: seq<Addr>, end: Addr)
    decreases s
  {
    if s == [] then p == end else p == s[0] && p != end && p in next && Chain(next, next[p], s[1..], end)
  }

  /** Next-links lead from each node of w to the following one. */
  ghost predicate Path(next: Links, w: seq<Addr>) {
    |w| <= 1 || (w[0] in next && next[w[0]] == w[1] && Path(next, w[1..]))
  }

  lemma {:induction false} ChainFrame(next: Links, p: Addr, s: seq<Addr>, end: Addr, a: Addr, v: Addr)
    requires Chain(next, p, s, end) && a !in s
    ensures Chain(next[a := v], p, s, end)
    decreases s
  {
    if s != [] { ChainFrame(next, next[p], s[1..], end, a, v); }
  }

  lemma {:induction false} PathSnoc(next: Links, w: seq<Addr>, e: Addr)
    requires w != [] && Path(next, w) && w[|w| - 1] !in w[..|w| - 1]
    ensures Path(next[w[|w| - 1] := e], w + [e])
  {
    if |w| > 1 {
      assert w[1..][|w| - 2] == w[|w| - 1];
      assert w[1..][..|w| - 2] == w[1..|w| - 1];
      PathSnoc(next, w[1..], e);
      assert (w + [e])[1..] == w[1..] + [e];
    }
  }

  lemma {:induction false} PathChain(next: Links, w: seq<Addr>, s: seq<Addr>, end: Addr)
    requires w != [] && Path(next, w) && end !in w
    requires w[|w| - 1] in next && Chain(next, next[w[|w| - 1]], s, end)
    ensures Chain(next, w[0], w + s, end)
  {
    assert (w + s)[1..] == w[1..] + s;
    if |w| > 1 {
      assert w[1..][|w| - 2] == w[|w| - 1];
      PathChain(next, w[1..], s, end);
    }
  }

  /** No address occurs twice. */
  ghost predicate Once(m: multiset<Addr>) { forall x :: m[x] <= 1 }

  lemma OnceApart(a: seq<Addr>, b: seq<Addr>, m: multiset<Addr>, x: Addr)
    requires Once(m) && multiset(a) + multiset(b) <= m && x in a
    ensures x !in b
  {
    assert x in multiset(a);
    assert (multiset(a) + multiset(b))[x] <= m[x];
  }

  lemma OnceWithin(a: multiset<Addr>, b: multiset<Addr>)
    requires Once(a + b)
    ensures Once(a)
  {
    forall x ensures a[x] <= 1 { assert (a + b)[x] <= 1; }
  }

  /** One step of a merge, after the nodes w. */
  lemma MergedStep(w: seq<Addr>, a: seq<Addr>, b: seq<Addr>, cmp: Cmp)
    requires a != [] && b != []
    ensures cmp(a[0], b[0]) <= 0 ==> w + Merged(a, b, cmp) == w + [a[0]] + Merged(a[1..], b, cmp)
    ensures cmp(a[0], b[0]) > 0 ==> w + Merged(a, b, cmp) == w + [b[0]] + Merged(a, b[1..], cmp)
  {}

  lemma MoveHead(w: seq<Addr>, a: seq<Addr>, b: seq<Addr>)
    requires a != []
    ensures a == [a[0]] + a[1..]
    ensures multiset(w) + multiset(a) + multiset(b) == multiset(w + [a[0]]) + multiset(a[1..]) + multiset(b)
  {}

  lemma OnceLast(w: seq<Addr>)
    requires w != [] && Once(multiset(w))
    ensures w[|w| - 1] !in w[..|w| - 1]
  {
    var x := w[|w| - 1];
    assert w == w[..|w| - 1] + [x];
    assert multiset(w)[x] == multiset(w[..|w| - 1])[x] + 1;
  }

  class Lists {
    var next: Links
    var prev: Links

    /** Appending e to the merged nodes w, whose last one is tail; NULL is the dummy on the stack. */
    method Append(res: Addr, tail: Addr, e: Addr, ghost w: seq<Addr>) returns (res': Addr, tail': Addr)
      requires Joined(next, res, tail, w) && e != NULL && Once(multiset(w + [e]))
      modifies this`next
      ensures Joined(next, res', tail', w + [e])
      ensures next == if tail == NULL then old(next) else old(next)[tail := e]
    {
      res', tail' := res, e;
      if tail == NULL {
        res' := e;
      } else {
        OnceLast(w);
        PathSnoc(next, w, e);
        next := next[tail := e];
      }
    }

    /** merge: relinks the runs P and Q into their stable merge and touches no other node. */
    method Merge(cmp: Cmp, first: Addr, second: Addr, ghost P: seq<Addr>, ghost Q: seq<Addr>) returns (r: Addr)
      requires Chain(next, first, P, NULL) && Chain(next, second, Q, NULL) && Once(multiset(P) + multiset(Q))
      modifies this`next
      ensures Chain(next, r, Merged(P, Q, cmp), NULL)
      ensures Untouched(old(next), next, P, Q)
    {
      var p, q, res, tail := first, second, NULL, NULL;
      ghost var ps, qs, w := P, Q, [];
      while p != NULL && q != NULL
        invariant Halfway(old(next), next, cmp, P, Q, ps, qs, w) == true
        invariant Merging(next, p, ps, q, qs, res, tail, w) == true
        decreases |ps| + |qs|
      {
        if cmp(p, q) <= 0 {
          res, tail, p := TakeFirst(old(next), cmp, P, Q, res, tail, p, q, ps, qs, w);
          ps, w := ps[1..], w + [ps[0]];
        } else {
          res, tail, q := TakeSecond(old(next), cmp, P, Q, res, tail, p, q, ps, qs, w);
          qs, w := qs[1..], w + [qs[0]];
        }
      }
      UntouchedTail(old(next), next, P, Q, w, tail, if p != NULL then p else q);
      if p != NULL {
        r := Close(res, tail, p, w, ps);
      } else {
        r := Close(res, tail, q, w, qs);
      }
    }

    method TakeFirst(ghost before: Links, cmp: Cmp, ghost P: seq<Addr>, ghost Q: seq<Addr>,
                     res: Addr, tail: Addr, p: Addr, q: Addr, ghost ps: seq<Addr>, ghost qs: seq<Addr>,
                       ghost w: seq<Addr>)
      returns (res': Addr, tail': Addr, p': Addr)
      requires Halfway(before, next, cmp, P, Q, ps, qs, w) == true && Merging(next, p, ps, q, qs, res, tail, w) == true
      requires ps != [] && qs != [] && cmp(p, q) <= 0
      modifies this`next
      ensures Halfway(before, next, cmp, P, Q, ps[1..], qs, w + [ps[0]]) == true
      ensures Merging(next, p', ps[1..], q, qs, res', tail', w + [ps[0]]) == true
    {
      HalfwayStep(before, next, cmp, P, Q, ps, qs, w, tail);
      res', tail', p' := Take(res, tail, p, w + [p], ps[1..], q, qs, multiset(P) + multiset(Q));
    }

    method TakeSecond(ghost before: Links, cmp: Cmp, ghost P: seq<Addr>, ghost Q: seq<Addr>,
                      res: Addr, tail: Addr, p: Addr, q: Addr, ghost ps: seq<Addr>, ghost qs: seq<Addr>,
                        ghost w: seq<Addr>)
      returns (res': Addr, tail': Addr, q': Addr)
      requires Halfway(before, next, cmp, P, Q, ps, qs, w) == true && Merging(next, p, ps, q, qs, res, tail, w) == true
      requires ps != [] && qs != [] && cmp(p, q) > 0
      modifies this`next
      ensures Halfway(before, next, cmp, P, Q, ps, qs[1..], w + [qs[0]]) == true
      ensures Merging(next, p, ps, q', qs[1..], res', tail', w + [qs[0]]) == true
    {
      HalfwayStep(before, next, cmp, P, Q, ps, qs, w, tail);
      res', tail', q' := Take(res, tail, q, w + [q], qs[1..], p, ps, multiset(P) + multiset(Q));
    }

    /** The for loop of list_sort: a binary counter of runs, carrying into the first empty slot. */
    method CarryUp(cmp: Cmp, stack: array<Addr>, top: nat, node: Addr, ghost runs0: seq<seq<Addr>>)
      returns (r: Addr, k: nat, ghost runs': seq<seq<Addr>>, ghost run: seq<Addr>)
      requires Preorder(cmp) && top == |runs0| <= stack.Length
      requires Carry(next, stack[..], runs0, node, [node], 0, cmp) == true
      requires Grows(next, next, Back(runs0), node, runs0, [node], cmp) == true
      modifies this`next, stack
      ensures |runs'| == top && Carry(next, stack[..], runs', r, run, k, cmp) == true && (k < top ==> runs'[k] == [])
      ensures Grows(old(next), next, Back(runs0), node, runs', run, cmp) == true
    {
      var p, i := node, 0;
      ghost var runs, cur := runs0, [node];
      while i < top && stack[i] != NULL
        invariant |runs| == top && Carry(next, stack[..], runs, p, cur, i, cmp) == true
        invariant Grows(old(next), next, Back(runs0), node, runs, cur, cmp) == true
        decreases top - i
      {
        p := CarryStep(cmp, stack, i, p, runs, cur, old(next), Back(runs0), node);
        cur, runs := Merged(runs[i], cur, cmp), runs[i := []];
        i := i + 1;
      }
      SlotStops(next, stack[..], runs, p, cur, i, cmp);
      return p, i, runs, cur;
    }

    method CarryStep(cmp: Cmp, stack: array<Addr>, i: nat, p: Addr, ghost runs: seq<seq<Addr>>, ghost cur: seq<Addr>,
                     ghost before: Links, ghost done: seq<Addr>, ghost node: Addr) returns (r: Addr)
      requires Preorder(cmp) && i < |runs| && i < stack.Length && stack[i] != NULL
      requires Carry(next, stack[..], runs, p, cur, i, cmp) == true
      requires Grows(before, next, done, node, runs, cur, cmp) == true
      modifies this`next, stack
      ensures Carry(next, stack[..], runs[i := []], r, Merged(runs[i], cur, cmp), i + 1, cmp) == true
      ensures Grows(before, next, done, node, runs[i := []], Merged(runs[i], cur, cmp), cmp) == true
    {
      PushFacts(next, stack[..], runs, p, cur, i, cmp, done + [node]);
      ghost var next0, st := next, stack[..];
      r := Merge(cmp, stack[i], p, runs[i], cur);
      CarryOn(next0, next, st, runs, p, cur, i, cmp, r);
      UntouchedMore(before, next0, next, done, [node], runs[i], cur);
      stack[i] := NULL;
      assert stack[..] == st[i := NULL];
    }

    /** One round of the first loop of list_sort: a new node joins the stack of runs. */
    method Push(cmp: Cmp, stack: array<Addr>, top: nat, node: Addr, ghost runs0: seq<seq<Addr>>)
      returns (top': nat, ghost runs: seq<seq<Addr>>)
      requires Preorder(cmp) && stack.Length == 64 && top == |runs0| && |Back(runs0)| + 1 < Pow2(64)
      requires Carry(next, stack[..], runs0, node, [node], 0, cmp)
      modifies this`next, stack
      ensures top' == |runs| && Stacked(next, stack[..], runs, cmp) && Equiv(Back(runs), Back(runs0) + [node], cmp)
      ensures Untouched(old(next), next, Back(runs0), [node])
    {
      var p: Addr, i: nat;
      ghost var cur;
      p, i, runs, cur := CarryUp(cmp, stack, top, node, runs0);
      SlotsSuffice(next, stack[..], runs, p, cur, i, cmp, Back(runs0) + [node]);
      CarryStored(next, stack[..], runs, p, cur, i, cmp);
      ghost var st := stack[..];
      stack[i] := p;
      assert stack[..] == st[i := p];
      runs := WithRun(runs, cur, i);
      top' := if i == top then top + 1 else top;
    }

    /** The second loop of list_sort: the runs from the latest to the earliest. */
    method MergeAll(cmp: Cmp, stack: array<Addr>, top: nat, ghost runs: seq<seq<Addr>>) returns (r: Addr,
        ghost sorted: seq<Addr>)
      requires Preorder(cmp) && top == |runs| <= stack.Length
      requires Finishing(next, stack[..], runs, NULL, [], 0, cmp) == true
      modifies this`next
      ensures Chain(next, r, sorted, NULL) && Sorted(sorted, cmp)
      ensures Equiv(sorted, Back(runs), cmp) == true && Untouched(old(next), next, Back(runs), []) == true
    {
      var p := NULL;
      ghost var cur := [];
      FinishStart(runs, cmp);
      for i := 0 to top
        invariant Finishing(next, stack[..], runs, p, cur, i, cmp) == true
        invariant Equiv(Back(runs[i..]) + cur, Back(runs), cmp) == true
        invariant Untouched(old(next), next, Back(runs), []) == true
      {
        FinishFacts(next, stack[..], runs, p, cur, i, cmp);
        ghost var before, q := next, p;
        p := Merge(cmp, stack[i], p, runs[i], cur);
        FinishOn(before, next, stack[..], runs, q, cur, i, cmp, p);
        UntouchedMore(old(next), before, next, Back(runs), [], runs[i], cur);
        cur := Merged(runs[i], cur, cmp);
      }
      assert Back(runs[top..]) + cur == cur;
      return p, cur;
    }

    /** The last loop of list_sort: prev links, and the ring closed. */
    method Relink(list: Addr, first: Addr, ghost r: seq<Addr>)
      requires list != NULL && Once(multiset([list] + r)) && Chain(next, first, r, NULL)
      modifies this
      ensures Ring(next, prev, list, r)
      ensures Untouched(old(next), next, [list], r) && Untouched(old(prev), prev, [list], r)
    {
      HeadApart(list, r);
      ChainFrame(next, first, r, NULL, list, first);
      next := next[list := first];
      var p := list;
      ghost var w, t, next1 := [list], r, next;
      while next[p] != NULL
        invariant next == next1
        invariant w != [] && p == w[|w| - 1] && p in next && w + t == [list] + r
        invariant Chain(next, next[p], t, NULL) && Prevs(prev, w) && Untouched(old(prev), prev, [list], r)
        decreases |t|
      {
        var n := next[p];
        PrevsSnoc(prev, w, t, list, r);
        prev := prev[n := p];
        w, t := w + [n], t[1..];
        p := n;
      }
      assert w + [] == w;
      CloseRing(next, prev, list, first, r);
      prev := prev[list := p];
      next := next[p := list];
    }

    /** list_sort: the stable sort of the list, as a well formed ring of the same nodes. */
    method Sort(list: Addr, cmp: Cmp, ghost s: seq<Addr>) returns (ghost r: seq<Addr>)
      requires Preorder(cmp) && Ring(next, prev, list, s) && |s| < Pow2(64)
      modifies this
      ensures Ring(next, prev, list, r) && StableSortOf(r, s, cmp)
      ensures Untouched(old(next), next, [list], s) && Untouched(old(prev), prev, [list], s)
    {
      if next[list] == list {
        return s;
      }
      var p;
      p, r := SortChain(list, cmp, s);
      ghost var next1 := next;
      SameNodes(r, s, cmp);
      Relink(list, p, r);
      UntouchedMore(old(next), next1, next, [list], s, [list], r);
      UntouchedMore(old(prev), old(prev), prev, [list], s, [list], r);
    }

    /** The first two loops of list_sort. */
    method SortChain(list: Addr, cmp: Cmp, ghost s: seq<Addr>) returns (p: Addr, ghost r: seq<Addr>)
      requires Preorder(cmp) && Ring(next, prev, list, s) == true && |s| < Pow2(64)
      modifies this`next
      ensures Chain(next, p, r, NULL) && StableSortOf(r, s, cmp) == true && Once(multiset([list] + r)) == true
      ensures Untouched(old(next), next, [list], s) == true
    {
      var stack := new Addr[64];
      SortStart(next, prev, stack[..], list, s, cmp);
      var top, runs := SplitAll(list, cmp, stack, s);
      ghost var next1 := next;
      SortEnd(old(next), next, stack[..], list, runs, s, cmp);
      p, r := MergeAll(cmp, stack, top, runs);
      SortedEnd(old(next), next1, next, list, runs, s, r, cmp);
    }

    /** The first loop of list_sort: nodes leave the ring one by one and join the stack of runs. */
    method SplitAll(list: Addr, cmp: Cmp, stack: array<Addr>, ghost s: seq<Addr>) returns (n: nat,
        ghost runs': seq<seq<Addr>>)
      requires Preorder(cmp) && stack.Length == 64 && list in next
        && Sorting(next, next, stack[..], list, [], [], s, cmp) == true
      modifies this`next, stack
      ensures n == |runs'| && Sorting(old(next), next, stack[..], list, runs', s, [], cmp) == true
    {
      var top := 0;
      ghost var runs, done, rest := [], [], s;
      while next[list] != list
        invariant top == |runs| && done + rest == s && list in next
        invariant Sorting(old(next), next, stack[..], list, runs, done, rest, cmp) == true
        decreases |rest|
      {
        top, runs := PopAndPush(list, cmp, stack, top, runs, old(next), done, rest);
        ShiftFirst(done, rest);
        done, rest := done + [rest[0]], rest[1..];
      }
      SortDone(old(next), next, stack[..], list, runs, s, done, rest, cmp);
      return top, runs;
    }

    method PopAndPush(list: Addr, cmp: Cmp, stack: array<Addr>, top: nat, ghost runs0: seq<seq<Addr>>,
                      ghost next0: Links, ghost done: seq<Addr>, ghost rest: seq<Addr>) returns (top': nat,
                        ghost runs: seq<seq<Addr>>)
      requires Preorder(cmp) && stack.Length == 64 && top == |runs0| && list in next && next[list] != list
      requires Sorting(next0, next, stack[..], list, runs0, done, rest, cmp) == true
      modifies this`next, stack
      ensures top' == |runs| && rest != [] && list in next
      ensures Sorting(next0, next, stack[..], list, runs, done + [rest[0]], rest[1..], cmp) == true
    {
      SortPop(next0, next, stack[..], list, runs0, done, rest, cmp);
      var p := next[list];
      next := next[list := next[p]];
      next := next[p := NULL];
      ghost var before := next;
      top', runs := Push(cmp, stack, top, p, runs0);
      SortPushed(next0, before, next, stack[..], list, runs0, runs, done, rest, cmp);
    }

    /** Moves the first node e of a run to the merged nodes, which become w. */
    method Take(res: Addr, tail: Addr, e: Addr, ghost w: seq<Addr>, ghost rest: seq<Addr>, other: Addr,
        ghost ys: seq<Addr>,
                ghost all: multiset<Addr>) returns (res': Addr, tail': Addr, p: Addr)
      requires w != [] && w[|w| - 1] == e && Joined(next, res, tail, w[..|w| - 1])
      requires Chain(next, e, [e] + rest, NULL) && Chain(next, other, ys, NULL)
      requires Once(all) && multiset(w) + multiset(rest) + multiset(ys) == all
      modifies this`next
      ensures Joined(next, res', tail', w) && Chain(next, p, rest, NULL) && Chain(next, other, ys, NULL)
      ensures next == if tail == NULL then old(next) else old(next)[tail := e]
    {
      assert ([e] + rest)[1..] == rest;
      ghost var v := w[..|w| - 1];
      assert w == v + [e];
      assert multiset(w) + (multiset(rest) + multiset(ys)) == all;
      OnceWithin(multiset(w), multiset(rest) + multiset(ys));
      p := next[e];
      if tail != NULL {
        OnceApart(w, rest, all, tail);
        OnceApart(w, ys, all, tail);
        ChainFrame(next, p, rest, NULL, tail, e);
        ChainFrame(next, other, ys, NULL, tail, e);
      }
      res', tail' := Append(res, tail, e, v);
    }

    /** The end of merge: the rest of the longer run follows. */
    method Close(res: Addr, tail: Addr, p: Addr, ghost w: seq<Addr>, ghost s: seq<Addr>) returns (r: Addr)
      requires Joined(next, res, tail, w) && Chain(next, p, s, NULL) && Once(multiset(w) + multiset(s))
      modifies this`next
      ensures Chain(next, r, w + s, NULL)
      ensures next == if tail == NULL then old(next) else old(next)[tail := p]
    {
      if tail == NULL {
        assert w + s == s;
        return p;
      }
      OnceApart(w, s, multiset(w) + multiset(s), tail);
      ChainFrame(next, p, s, NULL, tail, p);
      OnceLast(w);
      PathFrame(next, w, p);
      PathChain(next[tail := p], w, s, NULL);
      next := next[tail := p];
      return res;
    }
  }

  lemma {:induction false} PathFrame(next: Links, w: seq<Addr>, v: Addr)
    requires w != [] && Path(next, w) && w[|w| - 1] !in w[..|w| - 1]
    ensures Path(next[w[|w| - 1] := v], w)
  {
    if |w| > 1 {
      assert w[1..][|w| - 2] == w[|w| - 1];
      assert w[1..][..|w| - 2] == w[1..|w| - 1];
      PathFrame(next, w[1..], v);
    }
  }

  lemma UntouchedTail(before: Links, after: Links, P: seq<Addr>, Q: seq<Addr>, w: seq<Addr>, tail: Addr, v: Addr)
    requires Untouched(before, after, P, Q) && multiset(w) <= multiset(P) + multiset(Q)
    requires tail == NULL || tail in w
    ensures tail != NULL ==> Untouched(before, after[tail := v], P, Q)
  {
    if tail != NULL {
      assert tail in multiset(w);
      assert tail in multiset(P) + multiset(Q);
    }
  }

  /** A further merge of nodes that belong to P or Q. */
  lemma UntouchedMore(a: Links, b: Links, c: Links, P: seq<Addr>, Q: seq<Addr>, R: seq<Addr>, S: seq<Addr>)
    requires Untouched(a, b, P, Q) && Untouched(b, c, R, S)
    requires forall x :: x in R || x in S ==> x in P || x in Q
    ensures Untouched(a, c, P, Q)
  {}

  /** The merged nodes w start at res and end at tail. */
  ghost predicate Joined(next: Links, res: Addr, tail: Addr, w: seq<Addr>) {
    NULL !in w && Once(multiset(w)) && Path(next, w)
    && (if w == [] then tail == NULL else res == w[0] && tail == w[|w| - 1])
  }

  ghost predicate Merging(next: Links, p: Addr, ps: seq<Addr>, q: Addr, qs: seq<Addr>, res: Addr, tail: Addr,
      w: seq<Addr>) {
    Chain(next, p, ps, NULL) && Chain(next, q, qs, NULL) && Joined(next, res, tail, w)
  }

  /** Of the merge of P and Q the nodes w are done, and the runs ps and qs are left. */
  ghost predicate Halfway(before: Links, after: Links, cmp: Cmp, P: seq<Addr>, Q: seq<Addr>,
                          ps: seq<Addr>, qs: seq<Addr>, w: seq<Addr>) {
    Merged(P, Q, cmp) == w + Merged(ps, qs, cmp) && Untouched(before, after, P, Q)
    && multiset(w) + multiset(ps) + multiset(qs) == multiset(P) + multiset(Q) && Once(multiset(P) + multiset(Q))
  }

  lemma HalfwayStep(before: Links, after: Links, cmp: Cmp, P: seq<Addr>, Q: seq<Addr>,
                    ps: seq<Addr>, qs: seq<Addr>, w: seq<Addr>, tail: Addr)
    requires Halfway(before, after, cmp, P, Q, ps, qs, w) && ps != [] && qs != []
    requires tail == NULL || tail in w
    ensures ps == [ps[0]] + ps[1..] && qs == [qs[0]] + qs[1..]
    ensures var first := cmp(ps[0], qs[0]) <= 0;
            var e := if first then ps[0] else qs[0];
            Halfway(before, if tail == NULL then after else after[tail := e], cmp, P, Q,
                    if first then ps[1..] else ps, if first then qs else qs[1..], w + [e])
  {
    MergedStep(w, ps, qs, cmp);
    MoveHead(w, ps, qs);
    MoveHead(w, qs, ps);
    UntouchedTail(before, after, P, Q, w, tail, if cmp(ps[0], qs[0]) <= 0 then ps[0] else qs[0]);
  }

  /** Only nodes of P and Q were relinked. */
  ghost predicate Untouched(before: Links, after: Links, P: seq<Addr>, Q: seq<Addr>) {
    before.Keys <= after.Keys && forall a :: a in before && a !in P && a !in Q ==> after[a] == before[a]
  }

  lemma {:induction false} ChainAgree(next: Links, next': Links, p: Addr, s: seq<Addr>, end: Addr)
    requires Chain(next, p, s, end) && forall x :: x in s && x in next ==> x in next' && next'[x] == next[x]
    ensures Chain(next', p, s, end)
    decreases s
  {
    if s != [] { ChainAgree(next, next', next[p], s[1..], end); }
  }

  /** Slot j of the stack holds nothing or a sorted run of exactly 2^j nodes. */
  ghost predicate Stacked(next: Links, st: seq<Addr>, runs: seq<seq<Addr>>, cmp: Cmp) {
    |runs| <= |st| && forall j :: 0 <= j < |runs| ==> Slot(next, st[j], runs[j], j, cmp)
  }

  ghost predicate Slot(next: Links, p: Addr, run: seq<Addr>, j: nat, cmp: Cmp) {
    Chain(next, p, run, NULL) && Sorted(run, cmp) && (run == [] || |run| == Pow2(j))
  }

  /** Slots below i are empty, and the run cur of 2^i nodes at p is to be stored. */
  ghost predicate Carry(next: Links, st: seq<Addr>, runs: seq<seq<Addr>>, p: Addr, cur: seq<Addr>, i: nat, cmp: Cmp) {
    i <= |runs| && (forall j :: 0 <= j < i ==> runs[j] == []) && Stacked(next, st, runs, cmp)
    && Chain(next, p, cur, NULL) && Sorted(cur, cmp) && |cur| == Pow2(i) && Once(multiset(Back(runs) + cur))
  }

  /** The runs and cur hold the nodes done and the new one, in a stable order, and no other node was touched. */
  ghost predicate Grows(before: Links, after: Links, done: seq<Addr>, node: Addr, runs: seq<seq<Addr>>, cur: seq<Addr>,
      cmp: Cmp) {
    Equiv(Back(runs) + cur, done + [node], cmp) && Untouched(before, after, done, [node])
  }

  /** Nodes of other runs are not touched by a merge. */
  lemma SlotUntouched(before: Links, after: Links, st: seq<Addr>, runs: seq<seq<Addr>>, p: Addr, cur: seq<Addr>, i: nat,
      j: nat, cmp: Cmp)
    requires Carry(before, st, runs, p, cur, i, cmp) && i < j < |runs| && Untouched(before, after, runs[i], cur)
    ensures Slot(after, st[j], runs[j], j, cmp)
  {
    BackSplit(runs, i);
    var tail := Back(runs[i + 1..]);
    assert multiset(Back(runs) + cur) == multiset(tail) + multiset(runs[i]) + multiset(cur);
    forall x | x in runs[j] ensures x !in runs[i] && x !in cur {
      assert runs[i + 1..][j - i - 1] == runs[j];
      BackHas(runs[i + 1..], j - i - 1, x);
      OnceApart(tail, runs[i], multiset(Back(runs) + cur), x);
      OnceApart(tail, cur, multiset(Back(runs) + cur), x);
    }
    assert Slot(before, st[j], runs[j], j, cmp);
    ChainAgree(before, after, st[j], runs[j], NULL);
  }

  /** A merge with slot i empties it and carries twice as many nodes on. */
  lemma CarryOn(before: Links, after: Links, st: seq<Addr>, runs: seq<seq<Addr>>, p: Addr, cur: seq<Addr>, i: nat,
      cmp: Cmp, r: Addr)
    requires Preorder(cmp) && Carry(before, st, runs, p, cur, i, cmp) && i < |runs| && runs[i] != []
    requires Untouched(before, after, runs[i], cur) && Chain(after, r, Merged(runs[i], cur, cmp), NULL)
    ensures Equiv(Back(runs[i := []]) + Merged(runs[i], cur, cmp), Back(runs) + cur, cmp)
    ensures Carry(after, st[i := NULL], runs[i := []], r, Merged(runs[i], cur, cmp), i + 1, cmp) == true
  {
    assert Slot(before, st[i], runs[i], i, cmp);
    MergedEquiv(runs[i], cur, cmp);
    CarryEquiv(runs, i, cur, cmp);
    SlotEmptied(before, after, st, runs, p, cur, i, cmp);
    assert |Merged(runs[i], cur, cmp)| == Pow2(i + 1);
  }

  lemma SlotEmptied(before: Links, after: Links, st: seq<Addr>, runs: seq<seq<Addr>>, p: Addr, cur: seq<Addr>, i: nat,
      cmp: Cmp)
    requires Carry(before, st, runs, p, cur, i, cmp) && i < |runs| && Untouched(before, after, runs[i], cur)
    ensures Stacked(after, st[i := NULL], runs[i := []], cmp)
    ensures var runs' := runs[i := []]; forall j :: 0 <= j < i + 1 ==> runs'[j] == []
  {
    var runs' := runs[i := []];
    forall j | 0 <= j < |runs'| ensures Slot(after, st[i := NULL][j], runs'[j], j, cmp) {
      if i < j { SlotUntouched(before, after, st, runs, p, cur, i, j, cmp); }
      else if j < i { assert Slot(before, st[j], runs[j], j, cmp); }
    }
  }

  lemma CarryEquiv(runs: seq<seq<Addr>>, i: nat, cur: seq<Addr>, cmp: Cmp)
    requires Preorder(cmp) && i < |runs| && Sorted(runs[i], cmp) && Sorted(cur, cmp)
    requires forall j :: 0 <= j < i ==> runs[j] == []
    ensures Equiv(Back(runs[i := []]) + Merged(runs[i], cur, cmp), Back(runs) + cur, cmp)
  {
    var cur', tail := Merged(runs[i], cur, cmp), Back(runs[i + 1..]);
    MergedEquiv(runs[i], cur, cmp);
    BackSplit(runs, i);
    BackUpdate(runs, i, []);
    EquivConcat(tail, tail, cur', runs[i] + cur, cmp);
    Assoc(tail, runs[i], cur);
    assert tail + [] == tail;
  }

  lemma PushFacts(next: Links, st: seq<Addr>, runs: seq<seq<Addr>>, p: Addr, cur: seq<Addr>, i: nat, cmp: Cmp,
      all: seq<Addr>)
    requires Carry(next, st, runs, p, cur, i, cmp) && i < |runs| && st[i] != NULL && Equiv(Back(runs) + cur, all, cmp)
    ensures Chain(next, st[i], runs[i], NULL) && runs[i] != [] && Once(multiset(runs[i]) + multiset(cur))
    ensures forall x :: x in runs[i] || x in cur ==> x in all
  {
    assert Slot(next, st[i], runs[i], i, cmp);
    BackSplit(runs, i);
    var tail, now := Back(runs[i + 1..]), Back(runs) + cur;
    assert multiset(now) == (multiset(runs[i]) + multiset(cur)) + multiset(tail);
    OnceWithin(multiset(runs[i]) + multiset(cur), multiset(tail));
    forall x | x in runs[i] || x in cur ensures x in all { assert x in multiset(now); }
  }

  /** 64 slots are enough for a list of less than 2^64 nodes. */
  lemma SlotsSuffice(next: Links, st: seq<Addr>, runs: seq<seq<Addr>>, p: Addr, cur: seq<Addr>, i: nat, cmp: Cmp,
      all: seq<Addr>)
    requires Carry(next, st, runs, p, cur, i, cmp) && |st| == 64 && Equiv(Back(runs) + cur, all, cmp)
      && |all| < Pow2(64)
    ensures i < 64
  {
    assert |multiset(all)| == |all| && |multiset(Back(runs) + cur)| == |Back(runs) + cur|;
    Pow2Grows(64, i);
  }

  lemma SlotStops(next: Links, st: seq<Addr>, runs: seq<seq<Addr>>, p: Addr, cur: seq<Addr>, i: nat, cmp: Cmp)
    requires Carry(next, st, runs, p, cur, i, cmp) == true && (i < |runs| ==> st[i] == NULL)
    ensures i < |runs| ==> runs[i] == []
  {}

  /** The run is stored in the first empty slot. */
  lemma CarryStored(next: Links, st: seq<Addr>, runs: seq<seq<Addr>>, p: Addr, cur: seq<Addr>, i: nat, cmp: Cmp)
    requires Carry(next, st, runs, p, cur, i, cmp) && i < |st| && (i < |runs| ==> runs[i] == [])
    ensures Stacked(next, st[i := p], WithRun(runs, cur, i), cmp) && Back(WithRun(runs, cur, i)) == Back(runs) + cur
  {
    BackWith(runs, cur, i);
    StoredSlots(next, st, runs, p, cur, i, cmp);
  }

  lemma StoredSlots(next: Links, st: seq<Addr>, runs: seq<seq<Addr>>, p: Addr, cur: seq<Addr>, i: nat, cmp: Cmp)
    requires Stacked(next, st, runs, cmp) && i <= |runs| && i < |st| && Slot(next, p, cur, i, cmp)
    ensures Stacked(next, st[i := p], WithRun(runs, cur, i), cmp)
  {
    var runs' := WithRun(runs, cur, i);
    forall j | 0 <= j < |runs'| ensures Slot(next, st[i := p][j], runs'[j], j, cmp) {
      if j != i {
        assert Slot(next, st[j], runs[j], j, cmp);
      }
    }
  }

  /** Runs from i on are still in their slots, and cur at p is the merge of those before. */
  ghost predicate Finishing(next: Links, st: seq<Addr>, runs: seq<seq<Addr>>, p: Addr, cur: seq<Addr>, i: nat,
      cmp: Cmp) {
    i <= |runs| <= |st| && (forall j :: i <= j < |runs| ==> Slot(next, st[j], runs[j], j, cmp))
    && Chain(next, p, cur, NULL) && Sorted(cur, cmp) && Once(multiset(Back(runs[i..]) + cur))
  }

  lemma FinishStart(runs: seq<seq<Addr>>, cmp: Cmp)
    ensures Equiv(Back(runs[0..]) + [], Back(runs), cmp)
  {
    assert runs[0..] == runs && Back(runs) + [] == Back(runs);
  }

  lemma FinishSplit(runs: seq<seq<Addr>>, i: nat, cur: seq<Addr>)
    requires i < |runs|
    ensures Back(runs[i..]) + cur == Back(runs[i + 1..]) + (runs[i] + cur)
    ensures multiset(Back(runs[i..]) + cur) == (multiset(runs[i]) + multiset(cur)) + multiset(Back(runs[i + 1..]))
  {}

  lemma FinishFacts(next: Links, st: seq<Addr>, runs: seq<seq<Addr>>, p: Addr, cur: seq<Addr>, i: nat, cmp: Cmp)
    requires Finishing(next, st, runs, p, cur, i, cmp) && i < |runs| && Equiv(Back(runs[i..]) + cur, Back(runs), cmp)
    ensures Chain(next, st[i], runs[i], NULL) && Chain(next, p, cur, NULL) && Once(multiset(runs[i]) + multiset(cur))
    ensures forall x :: x in runs[i] || x in cur ==> x in Back(runs)
  {
    assert Slot(next, st[i], runs[i], i, cmp);
    FinishSplit(runs, i, cur);
    OnceWithin(multiset(runs[i]) + multiset(cur), multiset(Back(runs[i + 1..])));
    forall x | x in runs[i] || x in cur ensures x in Back(runs) { assert x in multiset(Back(runs[i..]) + cur); }
  }

  lemma FinishOn(before: Links, after: Links, st: seq<Addr>, runs: seq<seq<Addr>>, p: Addr, cur: seq<Addr>, i: nat,
      cmp: Cmp, r: Addr)
    requires Preorder(cmp) && Finishing(before, st, runs, p, cur, i, cmp) && i < |runs|
    requires Untouched(before, after, runs[i], cur) && Chain(after, r, Merged(runs[i], cur, cmp), NULL)
    ensures Finishing(after, st, runs, r, Merged(runs[i], cur, cmp), i + 1, cmp) == true
    ensures Equiv(Back(runs[i + 1..]) + Merged(runs[i], cur, cmp), Back(runs[i..]) + cur, cmp)
  {
    assert Slot(before, st[i], runs[i], i, cmp);
    FinishSplit(runs, i, cur);
    MergedEquiv(runs[i], cur, cmp);
    var tail := Back(runs[i + 1..]);
    EquivConcat(tail, tail, Merged(runs[i], cur, cmp), runs[i] + cur, cmp);
    forall j | i + 1 <= j < |runs| ensures Slot(after, st[j], runs[j], j, cmp) {
      FinishSlot(before, after, st, runs, p, cur, i, j, cmp);
    }
  }

  lemma FinishSlot(before: Links, after: Links, st: seq<Addr>, runs: seq<seq<Addr>>, p: Addr, cur: seq<Addr>, i: nat,
      j: nat, cmp: Cmp)
    requires Finishing(before, st, runs, p, cur, i, cmp) && i < j < |runs| && Untouched(before, after, runs[i], cur)
    ensures Slot(after, st[j], runs[j], j, cmp)
  {
    FinishSplit(runs, i, cur);
    var tail, all := Back(runs[i + 1..]), multiset(Back(runs[i..]) + cur);
    forall x | x in runs[j] ensures x !in runs[i] && x !in cur {
      assert runs[i + 1..][j - i - 1] == runs[j];
      BackHas(runs[i + 1..], j - i - 1, x);
      OnceApart(tail, runs[i], all, x);
      OnceApart(tail, cur, all, x);
    }
    assert Slot(before, st[j], runs[j], j, cmp);
    ChainAgree(before, after, st[j], runs[j], NULL);
  }

  /** Prev-links lead back along w. */
  ghost predicate Prevs(prev: Links, w: seq<Addr>) {
    forall i :: 0 < i < |w| ==> w[i] in prev && prev[w[i]] == w[i - 1]
  }

  /** A well formed doubly linked ring: the head and the nodes s. */
  ghost predicate Ring(next: Links, prev: Links, list: Addr, s: seq<Addr>) {
    list != NULL && NULL !in s && Once(multiset([list] + s))
    && list in next && Chain(next, next[list], s, list)
    && Prevs(prev, [list] + s) && list in prev && prev[list] == ([list] + s)[|s|]
  }

  lemma HeadApart(list: Addr, s: seq<Addr>)
    requires Once(multiset([list] + s))
    ensures list !in s && Once(multiset(s))
  {
    assert multiset([list] + s) == multiset(s) + multiset{list};
    OnceWithin(multiset(s), multiset{list});
    assert list in s ==> (multiset(s) + multiset{list})[list] >= 2;
  }

  lemma PrevsSnoc(prev: Links, w: seq<Addr>, t: seq<Addr>, list: Addr, r: seq<Addr>)
    requires Prevs(prev, w) && w != [] && t != [] && w + t == [list] + r && Once(multiset([list] + r))
    ensures Prevs(prev[t[0] := w[|w| - 1]], w + [t[0]]) && w + [t[0]] + t[1..] == [list] + r
    ensures t[0] in r
  {
    assert multiset([list] + r) == multiset(w) + multiset(t);
    OnceApart(t, w, multiset([list] + r), t[0]);
    assert ([list] + r)[|w|] == t[0];
  }

  lemma {:induction false} ChainToRing(next: Links, p: Addr, r: seq<Addr>, list: Addr)
    requires Chain(next, p, r, NULL) && r != [] && list !in r && Once(multiset(r))
    ensures Chain(next[r[|r| - 1] := list], p, r, list)
    decreases r
  {
    var z := r[|r| - 1];
    if |r| > 1 {
      assert r == [r[0]] + r[1..];
      assert r[1..][|r| - 2] == z;
      HeadApart(r[0], r[1..]);
      ChainToRing(next, next[p], r[1..], list);
    }
  }

  lemma CloseRing(next: Links, prev: Links, list: Addr, first: Addr, r: seq<Addr>)
    requires list != NULL && Once(multiset([list] + r)) && list in next && next[list] == first
    requires Chain(next, first, r, NULL) && Prevs(prev, [list] + r)
    ensures var z := ([list] + r)[|r|]; Ring(next[z := list], prev[list := z], list, r)
  {
    HeadApart(list, r);
    ChainNotEnd(next, first, r, NULL);
    var z := ([list] + r)[|r|];
    if r != [] { ChainToRing(next, first, r, list); }
    forall i | 0 < i < |[list] + r| ensures ([list] + r)[i] in r { assert ([list] + r)[i] == r[i - 1]; }
  }

  lemma {:induction false} ChainNotEnd(next: Links, p: Addr, s: seq<Addr>, end: Addr)
    requires Chain(next, p, s, end)
    ensures end !in s
    decreases s
  {
    if s != [] { ChainNotEnd(next, next[p], s[1..], end); }
  }

  /** The nodes done are in the runs, and the nodes rest still in the ring. */
  ghost predicate Sorting(next0: Links, next: Links, st: seq<Addr>, list: Addr, runs: seq<seq<Addr>>,
                          done: seq<Addr>, rest: seq<Addr>, cmp: Cmp) {
    Remaining(next0, next, list, done, rest) && Stacked(next, st, runs, cmp) && Equiv(Back(runs), done, cmp)
  }

  ghost predicate Remaining(next0: Links, next: Links, list: Addr, done: seq<Addr>, rest: seq<Addr>) {
    list != NULL && list in next && Chain(next, next[list], rest, list) && NULL !in done + rest
    && Once(multiset([list] + (done + rest))) && |done + rest| < Pow2(64) && Untouched(next0, next, [list], done + rest)
  }

  lemma SortStart(next: Links, prev: Links, st: seq<Addr>, list: Addr, s: seq<Addr>, cmp: Cmp)
    requires Ring(next, prev, list, s) && |s| < Pow2(64)
    ensures Sorting(next, next, st, list, [], [], s, cmp)
  {
    assert [] + s == s;
  }

  lemma SameNodes(r: seq<Addr>, s: seq<Addr>, cmp: Cmp)
    requires Equiv(r, s, cmp)
    ensures forall x :: x in r <==> x in s
  {
    forall x ensures x in r <==> x in s { assert x in multiset(r) <==> x in multiset(s); }
  }

  /** Head, nodes done and nodes to do have nothing in common. */
  lemma PartsApart(list: Addr, done: seq<Addr>, rest: seq<Addr>)
    requires Once(multiset([list] + (done + rest)))
    ensures list !in done && list !in rest && Once(multiset(done)) && forall x :: x in rest ==> x !in done
    ensures rest != [] ==> rest[0] !in rest[1..]
  {
    HeadApart(list, done + rest);
    assert multiset(done + rest) == multiset(done) + multiset(rest);
    OnceWithin(multiset(done), multiset(rest));
    assert multiset(done + rest) == multiset(rest) + multiset(done);
    OnceWithin(multiset(rest), multiset(done));
    forall x | x in rest ensures x !in done { OnceApart(rest, done, multiset(done + rest), x); }
    if rest != [] {
      assert rest == [rest[0]] + rest[1..];
      HeadApart(rest[0], rest[1..]);
    }
  }

  /** Taking the first node out of the ring. */
  lemma SortPop(next0: Links, next: Links, st: seq<Addr>, list: Addr, runs: seq<seq<Addr>>,
                done: seq<Addr>, rest: seq<Addr>, cmp: Cmp)
    requires Sorting(next0, next, st, list, runs, done, rest, cmp) && list in next && next[list] != list
    ensures rest != [] && next[list] == rest[0] && rest[0] in next
    ensures var p := rest[0];
            var next' := next[list := next[p]][p := NULL];
            Carry(next', st, runs, p, [p], 0, cmp) && |Back(runs)| + 1 < Pow2(64)
            && Remaining(next0, next', list, done + [p], rest[1..])
  {
    var p := rest[0];
    PartsApart(list, done, rest);
    var next' := next[list := next[p]][p := NULL];
    PopRemaining(next0, next, list, done, rest);
    SameNodes(Back(runs), done, cmp);
    assert |multiset(Back(runs))| == |multiset(done)|;
    StackedAgree(next, next', st, runs, cmp, list, p);
    PopOnce(list, runs, done, rest, cmp);
  }

  lemma PopRemaining(next0: Links, next: Links, list: Addr, done: seq<Addr>, rest: seq<Addr>)
    requires Remaining(next0, next, list, done, rest) && next[list] != list
    ensures rest != [] && next[list] == rest[0] && rest[0] in next
    ensures var p := rest[0]; Remaining(next0, next[list := next[p]][p := NULL], list, done + [p], rest[1..])
  {
    var p := rest[0];
    PartsApart(list, done, rest);
    ChainFrame(next, next[p], rest[1..], list, list, next[p]);
    ChainFrame(next[list := next[p]], next[p], rest[1..], list, p, NULL);
    assert done + rest == (done + [p]) + rest[1..];
  }

  lemma PopOnce(list: Addr, runs: seq<seq<Addr>>, done: seq<Addr>, rest: seq<Addr>, cmp: Cmp)
    requires Once(multiset([list] + (done + rest))) && rest != [] && Equiv(Back(runs), done, cmp)
    ensures Once(multiset(Back(runs) + [rest[0]]))
  {
    HeadApart(list, done + rest);
    assert rest == [rest[0]] + rest[1..];
    assert multiset(done + rest) == multiset(Back(runs) + [rest[0]]) + multiset(rest[1..]);
    OnceWithin(multiset(Back(runs) + [rest[0]]), multiset(rest[1..]));
  }

  lemma StackedAgree(next: Links, next': Links, st: seq<Addr>, runs: seq<seq<Addr>>, cmp: Cmp, a: Addr, b: Addr)
    requires Stacked(next, st, runs, cmp) && a !in Back(runs) && b !in Back(runs) && Untouched(next, next', [a], [b])
    ensures Stacked(next', st, runs, cmp)
  {
    forall j | 0 <= j < |runs| ensures Slot(next', st[j], runs[j], j, cmp) {
      forall x | x in runs[j] ensures x != a && x != b { BackHas(runs, j, x); }
      assert Slot(next, st[j], runs[j], j, cmp);
      ChainAgree(next, next', st[j], runs[j], NULL);
    }
  }

  lemma SortPushed(next0: Links, before: Links, after: Links, st: seq<Addr>, list: Addr,
                   runs0: seq<seq<Addr>>, runs: seq<seq<Addr>>, done: seq<Addr>, rest: seq<Addr>, cmp: Cmp)
    requires rest != [] && Remaining(next0, before, list, done + [rest[0]], rest[1..])
    requires Untouched(before, after, Back(runs0), [rest[0]]) && Equiv(Back(runs0), done, cmp)
    requires Stacked(after, st, runs, cmp) && Equiv(Back(runs), Back(runs0) + [rest[0]], cmp)
    ensures Sorting(next0, after, st, list, runs, done + [rest[0]], rest[1..], cmp)
  {
    var p, all := rest[0], done + [rest[0]] + rest[1..];
    PartsApart(list, done + [p], rest[1..]);
    SameNodes(Back(runs0), done, cmp);
    EquivConcat(Back(runs0), done, [p], [p], cmp);
    ChainAgree(before, after, before[list], rest[1..], list);
    UntouchedMore(next0, before, after, [list], all, Back(runs0), [p]);
  }

  lemma SortDone(next0: Links, next: Links, st: seq<Addr>, list: Addr, runs: seq<seq<Addr>>, s: seq<Addr>,
                 done: seq<Addr>, rest: seq<Addr>, cmp: Cmp)
    requires Sorting(next0, next, st, list, runs, done, rest, cmp) == true && list in next && next[list] == list
      && done + rest == s
    ensures rest == [] && done == s
  {}

  lemma ShiftFirst<T>(a: seq<T>, b: seq<T>)
    requires b != []
    ensures a + [b[0]] + b[1..] == a + b
  {}

  lemma SortEnd(next0: Links, next: Links, st: seq<Addr>, list: Addr, runs: seq<seq<Addr>>, s: seq<Addr>, cmp: Cmp)
    requires Sorting(next0, next, st, list, runs, s, [], cmp)
    ensures Finishing(next, st, runs, NULL, [], 0, cmp)
  {
    PartsApart(list, s, []);
    assert runs[0..] == runs && Back(runs) + [] == Back(runs);
  }

  lemma SortedEnd(next0: Links, before: Links, after: Links, list: Addr, runs: seq<seq<Addr>>, s: seq<Addr>,
      r: seq<Addr>, cmp: Cmp)
    requires Remaining(next0, before, list, s, []) && Equiv(Back(runs), s, cmp) && Equiv(r, Back(runs), cmp)
    requires Untouched(before, after, Back(runs), [])
    ensures Equiv(r, s, cmp) && Once(multiset([list] + r)) && Untouched(next0, after, [list], s)
  {
    assert s + [] == s;
    assert multiset([list] + r) == multiset([list] + s);
    SameNodes(Back(runs), s, cmp);
    UntouchedMore(next0, before, after, [list], s, Back(runs), []);
  }
}
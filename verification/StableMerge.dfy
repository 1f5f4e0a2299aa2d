/** What the merge sort of usual/list.c computes, on sequences: merging two runs, and why merging
 runs in their original order makes a stable sort.
 */
module StableMerge {

  /** A comparison function that is negative, zero or positive like a total preorder. */
  ghost predicate Preorder<T(!new)>(cmp: (T, T) -> int) {
    (forall x, y :: cmp(x, y) <= 0 || cmp(y, x) <= 0)
    && (forall x, y, z :: cmp(x, y) <= 0 && cmp(y, z) <= 0 ==> cmp(x, z) <= 0)
  }

  ghost predicate Sorted<T>(s: seq<T>, cmp: (T, T) -> int) {
    forall i, j :: 0 <= i < j < |s| ==> cmp(s[i], s[j]) <= 0
  }

  ghost predicate Same<T>(x: T, y: T, cmp: (T, T) -> int) { cmp(x, y) <= 0 && cmp(y, x) <= 0 }

  /** The elements of s that compare as equal to x, in order. */
  ghost function ClassOf<T>(s: seq<T>, x: T, cmp: (T, T) -> int): seq<T> {
    if s == [] then []
    else if Same(s[0], x, cmp) then [s[0]] + ClassOf(s[1..], x, cmp)
    else ClassOf(s[1..], x, cmp)
  }

  /** The same elements, with those that compare as equal in the same order. */
  ghost predicate Equiv<T(!new)>(a: seq<T>, b: seq<T>, cmp: (T, T) -> int) {
    multiset(a) == multiset(b) && forall x :: ClassOf(a, x, cmp) == ClassOf(b, x, cmp)
  }

  /** r is the stable sort of s: sorted, the same elements, equal ones in the order of s. */
  ghost predicate StableSortOf<T(!new)>(r: seq<T>, s: seq<T>, cmp: (T, T) -> int) {
    Sorted(r, cmp) && Equiv(r, s, cmp)
  }

  /** merge. */
  ghost function Merged<T>(a: seq<T>, b: seq<T>, cmp: (T, T) -> int): seq<T> {
    if a == [] then b
    else if b == [] then a
    else if cmp(a[0], b[0]) <= 0 then [a[0]] + Merged(a[1..], b, cmp)
    else [b[0]] + Merged(a, b[1..], cmp)
  }

  lemma {:induction false} MergedBag<T>(a: seq<T>, b: seq<T>, cmp: (T, T) -> int)
    ensures multiset(Merged(a, b, cmp)) == multiset(a) + multiset(b)
    ensures |Merged(a, b, cmp)| == |a| + |b|
  {
    if a != [] && b != [] {
      if cmp(a[0], b[0]) <= 0 {
        MergedBag(a[1..], b, cmp);
        assert a == [a[0]] + a[1..];
      } else {
        MergedBag(a, b[1..], cmp);
        assert b == [b[0]] + b[1..];
      }
    }
  }

  lemma MergedHas<T>(a: seq<T>, b: seq<T>, cmp: (T, T) -> int, x: T)
    ensures x in Merged(a, b, cmp) <==> x in a || x in b
  {}

  /** An element before a sorted sequence whose members it does not exceed. */
  lemma SortedCons<T>(x: T, s: seq<T>, cmp: (T, T) -> int)
    requires Sorted(s, cmp) && forall y :: y in s ==> cmp(x, y) <= 0
    ensures Sorted([x] + s, cmp)
  {}

  lemma HeadLeast<T>(s: seq<T>, cmp: (T, T) -> int, y: T)
    requires Sorted(s, cmp) && y in s
    ensures y == s[0] || cmp(s[0], y) <= 0
  {}

  lemma {:induction false} MergedSorted<T(!new)>(a: seq<T>, b: seq<T>, cmp: (T, T) -> int)
    requires Preorder(cmp) && Sorted(a, cmp) && Sorted(b, cmp)
    ensures Sorted(Merged(a, b, cmp), cmp)
  {
    if a != [] && b != [] {
      if cmp(a[0], b[0]) <= 0 {
        MergedSorted(a[1..], b, cmp);
        forall y | y in Merged(a[1..], b, cmp) ensures cmp(a[0], y) <= 0 {
          MergedHas(a[1..], b, cmp, y);
          if y in b { HeadLeast(b, cmp, y); }
        }
        SortedCons(a[0], Merged(a[1..], b, cmp), cmp);
      } else {
        MergedSorted(a, b[1..], cmp);
        forall y | y in Merged(a, b[1..], cmp) ensures cmp(b[0], y) <= 0 {
          MergedHas(a, b[1..], cmp, y);
          if y in a { HeadLeast(a, cmp, y); }
        }
        SortedCons(b[0], Merged(a, b[1..], cmp), cmp);
      }
    }
  }

  lemma {:induction false} ClassConcat<T>(a: seq<T>, b: seq<T>, x: T, cmp: (T, T) -> int)
    ensures ClassOf(a + b, x, cmp) == ClassOf(a, x, cmp) + ClassOf(b, x, cmp)
  {
    if a == [] {
      assert a + b == b;
    } else {
      assert (a + b)[1..] == a[1..] + b;
      ClassConcat(a[1..], b, x, cmp);
    }
  }

  lemma {:induction false} ClassEmpty<T>(s: seq<T>, x: T, cmp: (T, T) -> int)
    requires forall y :: y in s ==> !Same(y, x, cmp)
    ensures ClassOf(s, x, cmp) == []
  {
    if s != [] { ClassEmpty(s[1..], x, cmp); }
  }

  /** Equal elements of the first run come out before those of the second. */
  lemma {:induction false} MergedStable<T(!new)>(a: seq<T>, b: seq<T>, x: T, cmp: (T, T) -> int)
    requires Preorder(cmp) && Sorted(a, cmp) && Sorted(b, cmp)
    ensures ClassOf(Merged(a, b, cmp), x, cmp) == ClassOf(a, x, cmp) + ClassOf(b, x, cmp)
  {
    if a != [] && b != [] {
      if cmp(a[0], b[0]) <= 0 {
        MergedStable(a[1..], b, x, cmp);
        ConsClass(a[0], Merged(a[1..], b, cmp), x, cmp);
      } else {
        MergedStable(a, b[1..], x, cmp);
        ConsClass(b[0], Merged(a, b[1..], cmp), x, cmp);
        if Same(b[0], x, cmp) {
          forall y | y in a ensures !Same(y, x, cmp) { HeadLeast(a, cmp, y); Above(a[0], b[0], x, y, cmp); }
          ClassEmpty(a, x, cmp);
        }
      }
    }
  }

  lemma ConsClass<T>(y: T, s: seq<T>, x: T, cmp: (T, T) -> int)
    ensures ClassOf([y] + s, x, cmp) == (if Same(y, x, cmp) then [y] else []) + ClassOf(s, x, cmp)
  {}

  lemma Above<T(!new)>(h: T, b: T, x: T, y: T, cmp: (T, T) -> int)
    requires Preorder(cmp) && cmp(h, b) > 0 && Same(b, x, cmp) && (y == h || cmp(h, y) <= 0)
    ensures !Same(y, x, cmp)
  {}

  /** The three properties of a stable sort leave only one result. */
  lemma {:induction false} StableSortUnique<T(!new)>(r: seq<T>, q: seq<T>, s: seq<T>, cmp: (T, T) -> int)
    requires Preorder(cmp) && StableSortOf(r, s, cmp) && StableSortOf(q, s, cmp)
    ensures r == q
  {
    assert |multiset(r)| == |r| && |multiset(q)| == |q|;
    SameClasses(r, q, cmp);
  }

  lemma {:induction false} SameClasses<T(!new)>(r: seq<T>, q: seq<T>, cmp: (T, T) -> int)
    requires Preorder(cmp) && Sorted(r, cmp) && Sorted(q, cmp) && |r| == |q|
    requires forall x :: ClassOf(r, x, cmp) == ClassOf(q, x, cmp)
    ensures r == q
  {
    if r != [] {
      InClass(r, r[0], cmp);
      InClass(q, q[0], cmp);
      var x, y := r[0], q[0];
      ClassHas(q, x, cmp);
      ClassHas(r, y, cmp);
      assert Same(x, y, cmp);
      assert ClassOf(r, x, cmp)[0] == x && ClassOf(q, x, cmp)[0] == y;
      forall z ensures ClassOf(r[1..], z, cmp) == ClassOf(q[1..], z, cmp) {
        assert ClassOf(r, z, cmp) == ClassOf(q, z, cmp);
        ConsClass(x, r[1..], z, cmp);
        ConsClass(x, q[1..], z, cmp);
        assert r == [x] + r[1..] && q == [x] + q[1..];
        var p, A, B := if Same(x, z, cmp) then [x] else [], ClassOf(r[1..], z, cmp), ClassOf(q[1..], z, cmp);
        assert A == (p + A)[|p|..] && B == (p + B)[|p|..];
      }
      SameClasses(r[1..], q[1..], cmp);
      assert r == [x] + r[1..] && q == [x] + q[1..];
    }
  }

  lemma InClass<T(!new)>(s: seq<T>, x: T, cmp: (T, T) -> int)
    requires Preorder(cmp) && s != [] && x == s[0]
    ensures ClassOf(s, x, cmp) != [] && ClassOf(s, x, cmp)[0] == x
  {}

  /** A class is not empty only if the sequence has a member of it; that is not below the head. */
  lemma {:induction false} ClassHas<T(!new)>(s: seq<T>, x: T, cmp: (T, T) -> int)
    requires Preorder(cmp) && Sorted(s, cmp) && ClassOf(s, x, cmp) != []
    ensures s != [] && cmp(s[0], x) <= 0
  {
    assert Same(s[0], s[0], cmp);
    if !Same(s[0], x, cmp) {
      ClassHas(s[1..], x, cmp);
      assert cmp(s[0], s[1]) <= 0;
    }
  }

  lemma EquivConcat<T(!new)>(a: seq<T>, a': seq<T>, b: seq<T>, b': seq<T>, cmp: (T, T) -> int)
    requires Equiv(a, a', cmp) && Equiv(b, b', cmp)
    ensures Equiv(a + b, a' + b', cmp)
  {
    forall x ensures ClassOf(a + b, x, cmp) == ClassOf(a' + b', x, cmp) {
      ClassConcat(a, b, x, cmp);
      ClassConcat(a', b', x, cmp);
    }
  }

  lemma MergedEquiv<T(!new)>(a: seq<T>, b: seq<T>, cmp: (T, T) -> int)
    requires Preorder(cmp) && Sorted(a, cmp) && Sorted(b, cmp)
    ensures Equiv(Merged(a, b, cmp), a + b, cmp) && Sorted(Merged(a, b, cmp), cmp) && |Merged(a, b, cmp)| == |a| + |b|
  {
    MergedBag(a, b, cmp);
    MergedSorted(a, b, cmp);
    forall x ensures ClassOf(Merged(a, b, cmp), x, cmp) == ClassOf(a + b, x, cmp) {
      MergedStable(a, b, x, cmp);
      ClassConcat(a, b, x, cmp);
    }
  }

  /** The runs one after the other, the last one first. */
  ghost function Back<T>(runs: seq<seq<T>>): seq<T> { if runs == [] then [] else Back(runs[1..]) + runs[0] }

  /** With the first i runs empty, run i comes last. */
  lemma {:induction false} BackSplit<T>(runs: seq<seq<T>>, i: nat)
    requires i < |runs| && forall j :: 0 <= j < i ==> runs[j] == []
    ensures Back(runs) == Back(runs[i + 1..]) + runs[i]
  {
    if i > 0 {
      BackSplit(runs[1..], i - 1);
      assert runs[1..][i..] == runs[i + 1..];
    }
  }

  lemma {:induction false} BackEmpty<T>(runs: seq<seq<T>>, i: nat)
    requires i <= |runs| && forall j :: 0 <= j < i ==> runs[j] == []
    ensures Back(runs) == Back(runs[i..])
  {
    if i > 0 {
      BackEmpty(runs[1..], i - 1);
      assert runs[1..][i - 1..] == runs[i..];
    } else {
      assert runs[i..] == runs;
    }
  }

  lemma {:induction false} BackHas<T>(runs: seq<seq<T>>, j: nat, x: T)
    requires j < |runs| && x in runs[j]
    ensures x in Back(runs)
  {
    if j > 0 { BackHas(runs[1..], j - 1, x); }
  }

  /** Setting run i, above empty runs. */
  lemma BackNothing<T>(runs: seq<seq<T>>)
    requires forall j :: 0 <= j < |runs| ==> runs[j] == []
    ensures Back(runs) == []
  {
    BackEmpty(runs, |runs|);
    assert runs[|runs|..] == [];
  }

  lemma BackUpdate<T>(runs: seq<seq<T>>, i: nat, r: seq<T>)
    requires i < |runs| && forall j :: 0 <= j < i ==> runs[j] == []
    ensures Back(runs[i := r]) == Back(runs[i + 1..]) + r
  {
    BackSplit(runs[i := r], i);
    assert runs[i := r][i + 1..] == runs[i + 1..];
  }

  lemma {:induction false} BackAppend<T>(runs: seq<seq<T>>, r: seq<T>)
    requires forall j :: 0 <= j < |runs| ==> runs[j] == []
    ensures Back(runs + [r]) == r
  {
    BackSplit(runs + [r], |runs|);
    assert (runs + [r])[|runs| + 1..] == [];
  }

  /** The runs with cur as run i. */
  ghost function WithRun<T>(runs: seq<seq<T>>, cur: seq<T>, i: nat): (r: seq<seq<T>>)
    requires i <= |runs|
    ensures |r| == (if i < |runs| then |runs| else i + 1) && r[i] == cur
    ensures forall j :: 0 <= j < |runs| && j != i ==> r[j] == runs[j]
  {
    if i < |runs| then runs[i := cur] else runs + [cur]
  }

  lemma BackWith<T>(runs: seq<seq<T>>, cur: seq<T>, i: nat)
    requires i <= |runs| && (forall j :: 0 <= j < i ==> runs[j] == []) && (i < |runs| ==> runs[i] == [])
    ensures Back(WithRun(runs, cur, i)) == Back(runs) + cur
  {
    if i < |runs| {
      BackInside(runs, cur, i);
    } else {
      BackBehind(runs, cur);
    }
  }

  lemma BackInside<T>(runs: seq<seq<T>>, cur: seq<T>, i: nat)
    requires i < |runs| && forall j :: 0 <= j <= i ==> runs[j] == []
    ensures Back(runs[i := cur]) == Back(runs) + cur
  {
    BackUpdate(runs, i, cur);
    BackEmpty(runs, i + 1);
  }

  lemma BackBehind<T>(runs: seq<seq<T>>, cur: seq<T>)
    requires forall j :: 0 <= j < |runs| ==> runs[j] == []
    ensures Back(runs + [cur]) == Back(runs) + cur
  {
    BackAppend(runs, cur);
    BackNothing(runs);
    assert [] + cur == cur;
  }
}

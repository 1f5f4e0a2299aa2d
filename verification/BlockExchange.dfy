/** Exchange of two adjacent blocks by rotation cycles, as permute_args in usual/getopt.c does it.

 With g the greatest common divisor of the block lengths p*g and q*g, position i + g*y (i < g,
 y < p + q) belongs to cycle i.  On the y coordinates one step of every cycle is Turn, which
 adds q modulo p + q; Bezout's identity makes the orbit of p run through all of them.
 */
module BlockExchange {

  ghost function GcdOf(a: nat, b: nat): nat
    requires b > 0
    decreases b
  {
    if a % b == 0 then b else GcdOf(b, a % b)
  }

  /** gcd. */
  method Gcd(a: nat, b: nat) returns (g: nat)
    requires b > 0
    ensures g == GcdOf(a, b)
  {
    var x, y := a, b;
    var c := x % y;
    while c != 0
      invariant y > 0 && c == x % y && GcdOf(x, y) == GcdOf(a, b)
      decreases y
    {
      x := y;
      y := c;
      c := x % y;
    }
    g := y;
  }

  /** The result divides both arguments, and the quotients satisfy Bezout's identity. */
  lemma {:induction false} GcdSplits(a: nat, b: nat) returns (p: nat, q: nat, u: int, v: int)
    requires b > 0
    ensures GcdOf(a, b) > 0 && a == p * GcdOf(a, b) && b == q * GcdOf(a, b) && q > 0
    ensures u * p + v * q == 1
    decreases b
  {
    if a % b == 0 {
      var d, r := Divide(a, b);
      p, q, u, v := d, 1, 0, 1;
    } else {
      p, q, u, v := GcdSplits(b, a % b);
      p, q, u, v := StepBack(a, b, GcdOf(a, b), p, q, u, v);
    }
  }

  lemma StepBack(a: nat, b: nat, g: nat, p: nat, q: nat, u: int, v: int) returns (p': nat, q': nat, u': int, v': int)
    requires b > 0 && b == p * g && a % b == q * g && u * p + v * q == 1
    ensures a == p' * g && b == q' * g && q' > 0 && u' * p' + v' * q' == 1
  {
    var d, r := Divide(a, b);
    StepBackSums(d, p, q, u, v, g);
    Sign(d, p);
    Sign(p, g);
    p', q', u', v' := d * p + q, p, v, u - d * v;
  }

  lemma StepBackSums(d: int, p: int, q: int, u: int, v: int, g: int)
    ensures d * (p * g) + q * g == (d * p + q) * g
    ensures v * (d * p + q) + (u - d * v) * p == u * p + v * q
  {}

  /** One step on the y coordinates. */
  function Turn(p: nat, q: nat, y: nat): (r: nat)
    requires y < p + q
    ensures r < p + q
  {
    if y >= p then y - p else y + q
  }

  /** The t-th position of the walk that starts at p. */
  function Orbit(p: nat, q: nat, t: nat): (r: nat)
    requires q > 0
    ensures r < p + q
  {
    if t == 0 then p else Turn(p, q, Orbit(p, q, t - 1))
  }

  lemma {:induction false} OrbitForm(p: nat, q: nat, t: nat) returns (w: int)
    requires q > 0
    ensures Orbit(p, q, t) == p + t * q - w * (p + q)
  {
    if t == 0 {
      w := 0;
    } else {
      w := OrbitForm(p, q, t - 1);
      assert t * q == (t - 1) * q + q;
      if Orbit(p, q, t - 1) >= p {
        assert (w + 1) * (p + q) == w * (p + q) + p + q;
        w := w + 1;
      }
    }
  }

  /** A multiple of n strictly between -n and n is zero. */
  lemma SmallMultiple(n: nat, z: int, x: int)
    requires x == z * n && 0 - n < x < n
    ensures x == 0
  {}

  /** v - u inverts q modulo p + q. */
  lemma Inverse(p: int, q: int, u: int, v: int)
    requires u * p + v * q == 1
    ensures (v - u) * q + u * (p + q) == 1
  {}

  lemma Solve(d: int, q: int, n: int, e: int, u: int, z: int)
    requires e * q + u * n == 1 && d * q == z * n
    ensures d == (e * z + d * u) * n
  {}

  lemma SolveFor(x: int, q: int, n: int, e: int, u: int, d: int, t: int)
    requires e * q + u * n == 1 && x * e == d * n + t
    ensures t * q == x - (x * u + d * q) * n
  {}

  lemma Difference(x: int, y: int, n: int)
    ensures (x - y) * n == x * n - y * n
  {}

  lemma OrbitInjective(p: nat, q: nat, u: int, v: int, s: nat, t: nat)
    requires q > 0 && u * p + v * q == 1
    requires s < p + q && t < p + q && Orbit(p, q, s) == Orbit(p, q, t)
    ensures s == t
  {
    var n := p + q;
    var ws := OrbitForm(p, q, s);
    var wt := OrbitForm(p, q, t);
    var d, z := t - s, wt - ws;
    Difference(t, s, q);
    Difference(wt, ws, n);
    Inverse(p, q, u, v);
    Solve(d, q, n, v - u, u, z);
    SmallMultiple(n, (v - u) * z + d * u, d);
  }

  lemma Divide(f: int, n: nat) returns (d: int, t: nat)
    requires n > 0
    ensures f == d * n + t && t < n && d == f / n && t == f % n && (f >= 0 ==> d >= 0)
  {
    d, t := f / n, f % n;
  }

  lemma OrbitReaches(p: nat, q: nat, u: int, v: int, y: nat) returns (t: nat)
    requires q > 0 && u * p + v * q == 1 && y < p + q
    ensures t < p + q && Orbit(p, q, t) == y
  {
    var n := p + q;
    var e := y - p;
    var d: int;
    d, t := Divide(e * (v - u), n);
    var w := OrbitForm(p, q, t);
    Inverse(p, q, u, v);
    SolveFor(e, q, n, v - u, u, d, t);
    var h := e * u + d * q;
    Difference(0, w, n);
    Difference(0 - w, h, n);
    var z := 0 - w - h;
    SmallMultiple(n, z, Orbit(p, q, t) - y);
  }

  /** After p + q steps, and not before, the walk is back. */
  lemma OrbitCloses(p: nat, q: nat, u: int, v: int)
    requires q > 0 && u * p + v * q == 1
    ensures Orbit(p, q, p + q) == p
  {
    var w := OrbitForm(p, q, p + q);
    assert (p + q) * q == q * (p + q);
    assert (q - w) * (p + q) == q * (p + q) - w * (p + q);
    SmallMultiple(p + q, q - w, Orbit(p, q, p + q) - p);
  }

  lemma CellBound(g: nat, n: nat, i: nat, y: nat)
    requires i < g && y < n
    ensures 0 <= y * g && i + y * g < n * g
  {
    Sign(y, g);
    Difference(n, y, g);
    Sign(n - y - 1, g);
    Difference(n - y, 1, g);
  }

  /** Position i + g*y of a range that begins at start. */
  function Cell(start: nat, g: nat, n: nat, i: nat, y: nat): (x: nat)
    requires i < g && y < n
    ensures start <= x < start + n * g
  {
    CellBound(g, n, i, y);
    start + i + y * g
  }

  lemma CellsApart(g: nat, i: nat, y: nat, j: nat, z: nat)
    requires i < g && j < g && i + y * g == j + z * g
    ensures i == j && y == z
  {
    Difference(y, z, g);
    SmallMultiple(g, y - z, j - i);
    assert y - z > 0 ==> (y - z) * g >= g;
    assert y - z < 0 ==> (y - z) * g <= 0 - g;
  }

  /** A closed walk over distinct positions by steps of permute_args. */
  ghost predicate Walk(orbit: seq<nat>, start: nat, mid: nat, end: nat) {
    start < mid < end && |orbit| > 1 && orbit[0] == orbit[|orbit| - 1] && mid <= orbit[0]
    && (forall t :: 0 <= t < |orbit| ==> start <= orbit[t] < end)
    && (forall t :: 1 <= t < |orbit| ==> orbit[t] == Moved(orbit[t - 1], start, mid, end))
    && (forall s, t :: 0 <= s < t < |orbit| - 1 ==> orbit[s] != orbit[t])
  }

  /** Where the element at x belongs after the exchange. */
  function Moved(x: int, start: int, mid: int, end: int): int {
    if x >= mid then x - (mid - start) else x + (end - mid)
  }

  /** The inner loop of permute_args: every element of the cycle moves one step along. */
  method RunCycle<T>(a: array<T>, start: nat, mid: nat, end: nat, cstart: nat, cyclelen: nat, ghost orbit: seq<nat>)
    requires end <= a.Length && Walk(orbit, start, mid, end) && cstart == orbit[0] && cyclelen == |orbit| - 1
    modifies a
    ensures forall x :: x in orbit ==>
      start <= x < end && start <= Moved(x, start, mid, end) < end && a[Moved(x, start, mid, end)] == old(a[x])
    ensures forall x: nat :: x < a.Length && x !in orbit ==> a[x] == old(a[x])
  {
    var pos := cstart;
    ghost var a0 := a[..];
    for j := 0 to cyclelen
      invariant pos == orbit[j]
      invariant forall t :: 1 <= t <= j ==> a[orbit[t]] == a0[orbit[t - 1]]
      invariant j < cyclelen ==> a[cstart] == a0[orbit[j]]
      invariant forall t :: j < t < cyclelen ==> a[orbit[t]] == a0[orbit[t]]
      invariant forall x: nat :: x < a.Length && x !in orbit ==> a[x] == a0[x]
    {
      assert orbit[j + 1] == Moved(orbit[j], start, mid, end);
      if pos >= mid {
        pos := pos - (mid - start);
      } else {
        pos := pos + (end - mid);
      }
      a[pos], a[cstart] := a[cstart], a[pos];
    }
    forall x | x in orbit
      ensures start <= x < end && start <= Moved(x, start, mid, end) < end && a[Moved(x, start, mid, end)] == a0[x]
    {
      var t := NotLast(orbit, x);
      assert a[orbit[t + 1]] == a0[orbit[t]] && orbit[t + 1] == Moved(orbit[t], start, mid, end);
    }
  }

  lemma NotLast(orbit: seq<nat>, x: nat) returns (t: nat)
    requires |orbit| > 1 && orbit[0] == orbit[|orbit| - 1] && x in orbit
    ensures t < |orbit| - 1 && orbit[t] == x
  {
    t :| t < |orbit| && orbit[t] == x;
    if t == |orbit| - 1 { t := 0; }
  }

  lemma WalkClosed(orbit: seq<nat>, start: nat, mid: nat, end: nat, x: nat)
    requires Walk(orbit, start, mid, end) && x in orbit
    ensures start <= x < end && Moved(x, start, mid, end) in orbit
  {
    var t := NotLast(orbit, x);
    assert orbit[t + 1] == Moved(orbit[t], start, mid, end);
  }

  /** The cells of cycle i, in the order of the walk. */
  ghost function Cells(p: nat, q: nat, start: nat, g: nat, i: nat): (orbit: seq<nat>)
    requires i < g && q > 0
    ensures |orbit| == p + q + 1
  {
    seq(p + q + 1, t requires 0 <= t <= p + q => Cell(start, g, p + q, i, Orbit(p, q, t)))
  }

  lemma CellsDistinct(p: nat, q: nat, u: int, v: int, start: nat, g: nat, i: nat)
    requires i < g && q > 0 && u * p + v * q == 1
    ensures var orbit := Cells(p, q, start, g, i);
            forall s, t :: 0 <= s < t < |orbit| - 1 ==> orbit[s] != orbit[t]
  {
    var orbit := Cells(p, q, start, g, i);
    forall s, t | 0 <= s < t < p + q ensures orbit[s] != orbit[t] {
      if orbit[s] == orbit[t] {
        CellsApart(g, i, Orbit(p, q, s), i, Orbit(p, q, t));
        OrbitInjective(p, q, u, v, s, t);
      }
    }
  }

  lemma Lengths(p: nat, q: nat, g: nat)
    requires p > 0 && q > 0 && g > 0
    ensures p * g >= g && q * g >= g && (p + q) * g == p * g + q * g
  {}

  lemma CellsWalk(p: nat, q: nat, u: int, v: int, start: nat, mid: nat, end: nat, g: nat, i: nat)
    requires i < g && p > 0 && q > 0 && u * p + v * q == 1
    requires mid == start + p * g && end == start + (p + q) * g
    ensures Walk(Cells(p, q, start, g, i), start, mid, end) && Cells(p, q, start, g, i)[0] == mid + i
  {
    OrbitCloses(p, q, u, v);
    Lengths(p, q, g);
    CellsEnds(p, q, start, g, i);
    CellsDistinct(p, q, u, v, start, g, i);
    CellsStep(start, mid, end, g, i, p, q);
    CellsInRange(p, q, start, g, i);
  }

  lemma CellsStep(start: nat, mid: nat, end: nat, g: nat, i: nat, p: nat, q: nat)
    requires i < g && q > 0 && mid == start + p * g && end == start + (p + q) * g
    ensures var orbit := Cells(p, q, start, g, i);
            forall t :: 1 <= t < |orbit| ==> orbit[t] == Moved(orbit[t - 1], start, mid, end)
  {
    var orbit := Cells(p, q, start, g, i);
    forall t | 1 <= t < |orbit| ensures orbit[t] == Moved(orbit[t - 1], start, mid, end) {
      CellMoves(start, mid, end, g, i, p, q, Orbit(p, q, t - 1));
    }
  }

  lemma CellsEnds(p: nat, q: nat, start: nat, g: nat, i: nat)
    requires i < g && q > 0 && Orbit(p, q, p + q) == p
    ensures var orbit := Cells(p, q, start, g, i);
            orbit[0] == orbit[|orbit| - 1] == start + i + p * g
  {}

  lemma CellsInRange(p: nat, q: nat, start: nat, g: nat, i: nat)
    requires i < g && q > 0
    ensures var orbit := Cells(p, q, start, g, i);
            forall t :: 0 <= t < |orbit| ==> start <= orbit[t] < start + (p + q) * g
  {}

  lemma CellMoves(start: nat, mid: nat, end: nat, g: nat, i: nat, p: nat, q: nat, y: nat)
    requires i < g && q > 0 && y < p + q
    requires mid == start + p * g && end == start + (p + q) * g
    ensures Cell(start, g, p + q, i, Turn(p, q, y)) == Moved(Cell(start, g, p + q, i, y), start, mid, end)
  {}

  lemma Sign(x: int, g: nat)
    ensures x >= 0 ==> x * g >= 0
    ensures x < 0 ==> x * g <= 0 - g
  {}

  /** Cycles cover the range, and no two share a position. */
  lemma CellsCover(p: nat, q: nat, u: int, v: int, start: nat, g: nat, x: nat) returns (i: nat)
    requires g > 0 && q > 0 && u * p + v * q == 1 && start <= x < start + (p + q) * g
    ensures i < g && x in Cells(p, q, start, g, i)
  {
    var y: int;
    y, i := Divide(x - start, g);
    Sign(y, g);
    Sign(y - (p + q), g);
    Difference(y, p + q, g);
    var t := OrbitReaches(p, q, u, v, y);
    assert Cells(p, q, start, g, i)[t] == x;
  }

  lemma CyclesApart(p: nat, q: nat, start: nat, g: nat, i: nat, j: nat, x: nat)
    requires i < g && j < g && i != j && q > 0 && x in Cells(p, q, start, g, i)
    ensures x !in Cells(p, q, start, g, j)
  {
    var t :| 0 <= t <= p + q && Cells(p, q, start, g, i)[t] == x;
    forall s | 0 <= s <= p + q ensures Cells(p, q, start, g, j)[s] != x {
      if Cells(p, q, start, g, j)[s] == x {
        CellsApart(g, i, Orbit(p, q, t), j, Orbit(p, q, s));
      }
    }
  }

  /** Closed walks of the same length from mid, mid + 1, ... that share nothing and cover the range. */
  ghost predicate Partition(cycles: seq<seq<nat>>, cyclelen: nat, start: nat, mid: nat, end: nat) {
    (forall c :: 0 <= c < |cycles| ==>
      Walk(cycles[c], start, mid, end) && cycles[c][0] == mid + c && |cycles[c]| == cyclelen + 1)
    && (forall c, d, x :: 0 <= c < |cycles| && 0 <= d < |cycles| && c != d && x in cycles[c] ==> x !in cycles[d])
    && (forall x: nat :: start <= x < end ==> Covered(cycles, x))
  }

  ghost predicate Covered(cycles: seq<seq<nat>>, x: nat) { exists c :: 0 <= c < |cycles| && x in cycles[c] }

  lemma ExactQuotient(n: nat, g: nat)
    requires g > 0
    ensures n * g / g == n
  {
    var d, r := Divide(n * g, g);
    Difference(n, d, g);
    Sign(n - d, g);
    Sign(n - d - 1, g);
    Difference(n - d, 1, g);
  }

  lemma GcdPartitions(start: nat, mid: nat, end: nat) returns (cycles: seq<seq<nat>>, n: nat)
    requires start < mid < end
    ensures |cycles| == GcdOf(mid - start, end - mid) > 0
    ensures (end - start) / |cycles| == n && Partition(cycles, n, start, mid, end)
  {
    var p, q, u, v := GcdSplits(mid - start, end - mid);
    var g := GcdOf(mid - start, end - mid);
    n := p + q;
    Lengths(p, q, g);
    ExactQuotient(n, g);
    assert end - start == n * g;
    assert p > 0 by { assert p == 0 ==> p * g == 0; }
    cycles := seq(g, c requires 0 <= c < g => Cells(p, q, start, g, c));
    forall c | 0 <= c < g ensures Walk(cycles[c], start, mid, end) && cycles[c][0] == mid + c {
      CellsWalk(p, q, u, v, start, mid, end, g, c);
    }
    forall c, d, x | 0 <= c < g && 0 <= d < g && c != d && x in cycles[c] ensures x !in cycles[d] {
      CyclesApart(p, q, start, g, c, d, x);
    }
    forall x: nat | start <= x < end ensures Covered(cycles, x) {
      var c := CellsCover(p, q, u, v, start, g, x);
      assert x in cycles[c];
    }
  }

  /** permute_args: the blocks A and B of start..mid and mid..end become B and A. */
  method PermuteArgs<T>(a: array<T>, start: nat, mid: nat, end: nat)
    requires start < mid < end <= a.Length
    modifies a
    ensures a[..] == old(a[..start] + a[mid..end] + a[start..mid] + a[end..])
  {
    var nnonopts := mid - start;
    var nopts := end - mid;
    ghost var cycles, n := GcdPartitions(start, mid, end);
    var ncycle := Gcd(nnonopts, nopts);
    var cyclelen := (end - start) / ncycle;
    ghost var a0 := a[..];
    for i := 0 to ncycle
      invariant forall c, x :: 0 <= c < i && x in cycles[c] ==>
        0 <= Moved(x, start, mid, end) < a.Length && x < a.Length && a[Moved(x, start, mid, end)] == a0[x]
      invariant forall c, x :: i <= c < ncycle && x in cycles[c] ==> x < a.Length && a[x] == a0[x]
      invariant forall x: nat :: x < start || end <= x < a.Length ==> a[x] == a0[x]
    {
      RunCycle(a, start, mid, end, mid + i, cyclelen, cycles[i]);
      forall c, x | 0 <= c < i && x in cycles[c] ensures Moved(x, start, mid, end) !in cycles[i] {
        WalkClosed(cycles[c], start, mid, end, x);
      }
    }
    forall x: nat | start <= x < end ensures a[Moved(x, start, mid, end)] == a0[x] {
      assert Covered(cycles, x);
    }
    Exchanged(a0, a[..], start, mid, end);
  }

  lemma Exchanged<T>(a: seq<T>, b: seq<T>, start: nat, mid: nat, end: nat)
    requires start < mid < end <= |a| == |b|
    requires forall x: nat :: x < start || end <= x < |a| ==> b[x] == a[x]
    requires forall x: nat :: start <= x < end ==> b[Moved(x, start, mid, end)] == a[x]
    ensures b == a[..start] + a[mid..end] + a[start..mid] + a[end..]
  {
    MovedParts(a, b, start, mid, end);
    FourParts(b, start, start + (end - mid), end);
  }

  lemma MovedParts<T>(a: seq<T>, b: seq<T>, start: nat, mid: nat, end: nat)
    requires start < mid < end <= |a| == |b|
    requires forall x: nat :: x < start || end <= x < |a| ==> b[x] == a[x]
    requires forall x: nat :: start <= x < end ==> b[Moved(x, start, mid, end)] == a[x]
    ensures var n := start + (end - mid);
            b[..start] == a[..start] && b[start..n] == a[mid..end] && b[n..end] == a[start..mid] && b[end..] == a[end..]
  {
    var n := start + (end - mid);
    forall k: nat | start <= k < n ensures b[k] == a[k - start + mid] {
      assert Moved(k - start + mid, start, mid, end) == k;
    }
    forall k: nat | n <= k < end ensures b[k] == a[k - n + start] {
      assert Moved(k - n + start, start, mid, end) == k;
    }
    SamePart(b, a, start, mid, end - mid);
    SamePart(b, a, n, start, mid - start);
    SamePart(b, a, 0, 0, start);
    SamePart(b, a, end, end, |a| - end);
    assert b[end..|a|] == b[end..] && a[end..|a|] == a[end..];
  }

  lemma SamePart<T>(b: seq<T>, a: seq<T>, i: nat, j: nat, len: nat)
    requires i + len <= |b| && j + len <= |a| && forall k: nat :: i <= k < i + len ==> b[k] == a[k - i + j]
    ensures b[i..i + len] == a[j..j + len]
  {}

  lemma FourParts<T>(b: seq<T>, i: nat, j: nat, k: nat)
    requires i <= j <= k <= |b|
    ensures b == b[..i] + b[i..j] + b[j..k] + b[k..]
  {}
}
/** The probe sequence pos -> (5 * pos + 1) mod 2^k of usual/hashtab-impl.h.

 The unsigned arithmetic of the source wraps at 2^32; since the table size is a power of two
 not above 2^32, reducing first by 2^32 and then by the size gives the same position.
 */
module ProbeSequence {
  import opened Prelude

  /** NEXT_POS. */
  function Next(pos: nat, size: nat): (r: nat)
    requires size > 0
    ensures r < size
  {
    (5 * pos + 1) % size
  }

  /** The n-th position after pos. */
  function Iter(pos: nat, n: nat, size: nat): (r: nat)
    requires pos < size
    ensures r < size
  {
    if n == 0 then pos else Next(Iter(pos, n - 1, size), size)
  }

  // ----- closed forms, without reduction

  /** n applications of x -> 5 * x + 1. */
  function Grow(x: nat, n: nat): nat { if n == 0 then x else 5 * Grow(x, n - 1) + 1 }

  lemma DivMod(x: nat, size: nat) returns (q: nat)
    requires size > 0
    ensures x == x % size + q * size
  {
    q := x / size;
  }

  lemma {:induction false} IterIsGrow(x: nat, n: nat, size: nat) returns (q: nat)
    requires x < size
    ensures Grow(x, n) == Iter(x, n, size) + q * size
  {
    if n == 0 {
      q := 0;
    } else {
      var p := IterIsGrow(x, n - 1, size);
      var r := DivMod(5 * Iter(x, n - 1, size) + 1, size);
      q := 5 * p + r;
      FiveAndOne(p, r, size);
    }
  }

  lemma FiveAndOne(p: int, r: int, size: int)
    ensures (5 * p + r) * size == 5 * (p * size) + r * size
  {}

  lemma {:induction false} GrowFactors(x: nat, n: nat)
    ensures Grow(x, n) == x + Grow(0, n) * (4 * x + 1)
  {
    if n > 0 {
      GrowFactors(x, n - 1);
      FactorsGrow(x, Grow(0, n - 1), Grow(x, n - 1));
    }
  }

  lemma FactorsGrow(x: nat, s: nat, g: nat)
    requires g == x + s * (4 * x + 1)
    ensures 5 * g + 1 == x + (5 * s + 1) * (4 * x + 1)
  {
    var m := 4 * x + 1;
    assert (5 * s + 1) * m == 5 * (s * m) + m;
  }

  lemma {:induction false} GrowAdds(x: nat, a: nat, b: nat)
    ensures Grow(x, a + b) == Grow(Grow(x, a), b)
    decreases b
  {
    if b > 0 {
      GrowAdds(x, a, b - 1);
    }
  }

  lemma GrowDoubles(m: nat)
    ensures Grow(0, 2 * m) == 2 * (Grow(0, m) * (2 * Grow(0, m) + 1))
  {
    GrowAdds(0, m, m);
    var s := Grow(0, m);
    GrowFactors(s, m);
    assert m + m == 2 * m;
    DoubleSum(s);
  }

  lemma DoubleSum(s: nat)
    ensures s + s * (4 * s + 1) == 2 * (s * (2 * s + 1))
  {}

  // ----- divisibility by powers of two

  /** 2^k divides x. */
  predicate Divides2(k: nat, x: nat) {
    k == 0 || (x % 2 == 0 && Divides2(k - 1, x / 2))
  }

  lemma TimesTwo(q: nat, h: nat)
    ensures q * (2 * h) == 2 * (q * h) && (2 * (q * h)) % 2 == 0 && (2 * (q * h)) / 2 == q * h
  {}

  lemma {:induction false} MultipleDivides(k: nat, q: nat)
    ensures Divides2(k, q * Pow2(k))
  {
    if k > 0 {
      MultipleDivides(k - 1, q);
      TimesTwo(q, Pow2(k - 1));
    }
  }

  lemma {:induction false} SmallMultiple(k: nat, x: nat)
    requires Divides2(k, x) && x < Pow2(k)
    ensures x == 0
  {
    if k > 0 {
      SmallMultiple(k - 1, x / 2);
    }
  }

  lemma {:induction false} OddFactor(k: nat, x: nat, odd: nat)
    requires odd % 2 == 1 && Divides2(k, x * odd)
    ensures Divides2(k, x)
    decreases k
  {
    if k > 0 {
      ProductParity(x, odd);
      var y := x / 2;
      assert x == 2 * y;
      assert (2 * y) * odd == 2 * (y * odd);
      OddFactor(k - 1, y, odd);
    }
  }

  lemma ProductParity(x: nat, odd: nat)
    requires odd % 2 == 1
    ensures (x * odd) % 2 == x % 2
  {
    var b := odd / 2;
    assert odd == 2 * b + 1;
    assert x * odd == 2 * (x * b) + x;
  }

  lemma FiveParity(s: nat, n: nat)
    requires s % 2 == n % 2
    ensures (5 * s + 1) % 2 == (n + 1) % 2
  {
    var a, b := s / 2, n / 2;
    if s % 2 == 0 {
      assert 5 * s + 1 == 2 * (5 * a) + 1 && n + 1 == 2 * b + 1;
    } else {
      assert 5 * s + 1 == 2 * (5 * a + 3) && n + 1 == 2 * (b + 1);
    }
  }

  lemma {:induction false} GrowParity(n: nat)
    ensures Grow(0, n) % 2 == n % 2
  {
    if n > 0 {
      GrowParity(n - 1);
      FiveParity(Grow(0, n - 1), n - 1);
    }
  }

  /** If 2^k divides 1 + 5 + ... + 5^(n-1), then it divides n. */
  lemma {:induction false} GrowValuation(k: nat, n: nat)
    requires Divides2(k, Grow(0, n))
    ensures Divides2(k, n)
    decreases k
  {
    if k > 0 {
      GrowParity(n);
      var m := n / 2;
      assert n == 2 * m;
      GrowDoubles(m);
      var s := Grow(0, m);
      OddFactor(k - 1, s, 2 * s + 1);
      GrowValuation(k - 1, m);
    }
  }

  // ----- full period

  lemma Difference(a: nat, b: nat, r: nat, qa: nat, qb: nat, size: nat)
    requires size > 0 && a <= b && a == r + qa * size && b == r + qb * size
    ensures qa <= qb && b - a == (qb - qa) * size
  {}

  /** Only a multiple of 2^k steps can bring y back to a number with the same remainder. */
  lemma GrowReturns(k: nat, y: nat, d: nat, q: nat)
    requires Grow(y, d) - y == q * Pow2(k)
    ensures Divides2(k, d)
  {
    GrowFactors(y, d);
    MultipleDivides(k, q);
    OddFactor(k, Grow(0, d), 4 * y + 1);
    GrowValuation(k, d);
  }

  lemma {:induction false} GrowIncreases(y: nat, d: nat)
    ensures Grow(y, d) >= y
  {
    if d > 0 {
      GrowIncreases(y, d - 1);
    }
  }

  /** Fewer than 2^k steps never lead back to a position already visited. */
  lemma IterInjective(k: nat, size: nat, x: nat, a: nat, b: nat)
    requires size == Pow2(k) && x < size && a < b < a + size
    ensures Iter(x, a, size) != Iter(x, b, size)
  {
    if Iter(x, a, size) == Iter(x, b, size) {
      var qa := IterIsGrow(x, a, size);
      var qb := IterIsGrow(x, b, size);
      var y, d := Grow(x, a), b - a;
      GrowAdds(x, a, d);
      GrowIncreases(y, d);
      Difference(y, Grow(x, b), Iter(x, a, size), qa, qb, size);
      GrowReturns(k, y, d, qb - qa);
      SmallMultiple(k, d);
    }
  }

  ghost predicate Reached(x: nat, n: nat, size: nat, p: nat)
    requires x < size
  {
    exists m: nat :: m < n && Iter(x, m, size) == p
  }

  lemma {:induction false} Visited(k: nat, size: nat, x: nat, n: nat) returns (s: set<nat>)
    requires size == Pow2(k) && x < size && n <= size
    ensures |s| == n
    ensures forall p :: p in s ==> p < size && Reached(x, n, size, p)
  {
    if n == 0 {
      s := {};
    } else {
      s := Visited(k, size, x, n - 1);
      var p := Iter(x, n - 1, size);
      if p in s {
        var m: nat :| m < n - 1 && Iter(x, m, size) == p;
        IterInjective(k, size, x, m, n - 1);
      }
      forall y | y in s ensures Reached(x, n, size, y) {
        var m: nat :| m < n - 1 && Iter(x, m, size) == y;
      }
      assert Reached(x, n, size, p);
      s := s + {p};
    }
  }

  lemma {:induction false} Below(n: nat) returns (s: set<nat>)
    ensures |s| == n && forall p: nat :: p in s <==> p < n
  {
    if n == 0 {
      s := {};
    } else {
      s := Below(n - 1);
      s := s + {n - 1};
    }
  }

  lemma SubsetOfSameSize(a: set<nat>, b: set<nat>)
    requires a <= b && |a| == |b|
    ensures a == b
  {
    assert |b - a| == |b| - |a|;
  }

  /** Every position of the table is reached, from every start, within 2^k steps. */
  lemma FullPeriod(k: nat, size: nat, x: nat, p: nat)
    requires size == Pow2(k) && x < size && p < size
    ensures Reached(x, size, size, p)
  {
    var s := Visited(k, size, x, size);
    var all := Below(size);
    SubsetOfSameSize(s, all);
    assert p in s;
  }

  /** After exactly 2^k steps the sequence is back at its start. */
  lemma ReturnsToStart(k: nat, size: nat, x: nat)
    requires size == Pow2(k) && x < size
    ensures Iter(x, size, size) == x
  {
    var y := Iter(x, size, size);
    FullPeriod(k, size, x, y);
    var n: nat :| n < size && Iter(x, n, size) == y;
    if n > 0 {
      IterInjective(k, size, x, n, size);
    }
  }

  lemma {:induction false} IterAdds(x: nat, a: nat, b: nat, size: nat)
    requires x < size
    ensures Iter(x, a + b, size) == Iter(Iter(x, a, size), b, size)
    decreases b
  {
    if b > 0 {
      IterAdds(x, a, b - 1, size);
    }
  }

  /** Number of steps from x to p. */
  ghost function Dist(k: nat, size: nat, x: nat, p: nat): (n: nat)
    requires size == Pow2(k) && x < size && p < size
    ensures n < size && Iter(x, n, size) == p
  {
    FullPeriod(k, size, x, p);
    var n: nat :| n < size && Iter(x, n, size) == p;
    n
  }

  lemma DistUnique(k: nat, size: nat, x: nat, p: nat, n: nat)
    requires size == Pow2(k) && x < size && p < size && n < size && Iter(x, n, size) == p
    ensures Dist(k, size, x, p) == n
  {
    var m := Dist(k, size, x, p);
    if m < n {
      IterInjective(k, size, x, m, n);
    } else if n < m {
      IterInjective(k, size, x, n, m);
    }
  }
}

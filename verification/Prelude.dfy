/** Definitions that several modules share. */
module Prelude {

  datatype Option<T> = None | Some(value: T)

  /** An octet. */
  type Byte = b: int | 0 <= b < 256

  function Pow2(n: nat): (r: nat)
    ensures r > 0
  {
    if n == 0 then 1 else 2 * Pow2(n - 1)
  }

  lemma {:induction false} Pow2Grows(m: nat, n: nat)
    ensures m <= n ==> Pow2(m) <= Pow2(n)
    decreases n
  {
    if m < n { Pow2Grows(m, n - 1); }
  }

  lemma Assoc<T>(a: seq<T>, b: seq<T>, c: seq<T>)
    ensures (a + b) + c == a + (b + c)
  {}

  lemma SliceOf<T>(a: seq<T>, lo: nat, hi: nat, i: nat, j: nat)
    requires lo <= hi <= |a| && i <= j <= hi - lo
    ensures a[lo..hi][i..j] == a[lo + i..lo + j]
  {
    forall k | 0 <= k < j - i ensures a[lo..hi][i..j][k] == a[lo + i..lo + j][k] {
      assert a[lo..hi][i..j][k] == a[lo..hi][i + k];
    }
  }

  lemma Halved<T>(s: seq<T>, n: nat)
    requires n <= |s|
    ensures s[..n] + s[n..] == s
  {}

  lemma HeadAndTail<T>(s: seq<T>)
    requires s != []
    ensures [s[0]] + s[1..] == s
  {}

  lemma TailOf<T>(x: T, s: seq<T>)
    ensures ([x] + s)[1..] == s && ([x] + s)[0] == x
  {}

  /** Cutting in two steps. */
  lemma CutTwice<T>(s: seq<T>, m: nat, k: nat)
    requires m + k <= |s|
    ensures s[..m + k][..m] == s[..m] && s[..m + k][m..] == s[m..][..k] && s[m..][k..] == s[m + k..]
  {}
}

/**
 The numbers by which uthash rates its chains: the ideal length, how many times over it a chain
 is, and how many items are beyond it.
 */
module Lengths {
  import opened Collections
  import opened Bits
  import opened Groups

  /** The least `r` for which `r` lots of `d` make at least `n`. */
  function CeilDiv(n: nat, d: nat): (r: nat)
    requires d >= 1
    ensures n <= r * d && (r >= 1 ==> (r - 1) * d < n)
  {
    CeilBounds(n, d);
    (n + d - 1) / d
  }

  lemma CeilBounds(n: nat, d: nat)
    requires d >= 1
    ensures var r := (n + d - 1) / d; n <= r * d && (r >= 1 ==> (r - 1) * d < n)
  {
    var m := n + d - 1;
    var r := m / d;
    assert m == r * d + m % d;
    assert (r - 1) * d == r * d - d;
  }

  /** `(n >> k) + ((n & (2^k - 1)) ? 1 : 0)` is the quotient rounded up. */
  lemma CeilDivision(n: nat, k: nat)
    requires n >= 1
    ensures Shr(n, k) + (if And(n, Pow2(k) - 1) != 0 then 1 else 0) == CeilDiv(n, Pow2(k)) >= 1
  {
    ShrIsDiv(n, k);
    MaskIsMod(n, k);
    CeilStep(n, Pow2(k), Shr(n, k), And(n, Pow2(k) - 1));
  }

  lemma CeilStep(n: nat, d: nat, q: nat, r: nat)
    requires n >= 1 && d >= 1 && q == n / d && r == n % d
    ensures q + (if r != 0 then 1 else 0) == (n + d - 1) / d >= 1
  {
    assert n == q * d + r;
    CeilOf(n, d, q, r);
  }

  lemma CeilOf(n: nat, d: nat, q: nat, r: nat)
    requires n >= 1 && d >= 1 && n == q * d + r && r < d
    ensures (n + d - 1) / d == q + (if r != 0 then 1 else 0) >= 1
  {
    if r == 0 {
      ModUnique(n + d - 1, d, q, d - 1);
    } else {
      assert (q + 1) * d == q * d + d;
      ModUnique(n + d - 1, d, q + 1, r - 1);
    }
  }

  /** `m` is how many times `ideal` goes into `count`. */
  ghost predicate TimesInto(m: nat, count: nat, ideal: nat) {
    m * ideal <= count < (m + 1) * ideal
  }

  /** `count / ideal` */
  function Multiple(count: nat, ideal: nat): (m: nat)
    requires ideal >= 1
    ensures TimesInto(m, count, ideal)
  {
    MultipleBounds(count, ideal);
    count / ideal
  }

  lemma MultipleBounds(count: nat, ideal: nat)
    requires ideal >= 1
    ensures TimesInto(count / ideal, count, ideal)
  {
    var m := count / ideal;
    assert count == m * ideal + count % ideal;
    assert (m + 1) * ideal == m * ideal + ideal;
  }

  // ---------------------------------------------------------------- items beyond the ideal

  /** Items beyond position `ideal` of their chain, over all chains. */
  ghost function Excess<T>(cs: seq<seq<T>>, ideal: nat): nat {
    if |cs| == 0 then 0
    else Excess(cs[..|cs| - 1], ideal) + Over(|cs[|cs| - 1]|, ideal)
  }

  function Over(count: nat, ideal: nat): nat {
    if count > ideal then count - ideal else 0
  }

  lemma {:induction false} ExcessUpdate<T>(cs: seq<seq<T>>, ideal: nat, b: nat, c: seq<T>)
    requires b < |cs|
    ensures Excess(cs[b := c], ideal) == Excess(cs, ideal) - Over(|cs[b]|, ideal) + Over(|c|, ideal)
  {
    var n := |cs| - 1;
    var ds := cs[b := c];
    if b == n {
      assert ds[..n] == cs[..n];
    } else {
      assert ds[..n] == cs[..n][b := c];
      ExcessUpdate(cs[..n], ideal, b, c);
    }
  }

  lemma {:induction false} ExcessEmpty<T>(n: nat, ideal: nat)
    ensures Excess(NoChains<T>(n), ideal) == 0
  {
    if n > 0 {
      ExcessEmpty<T>(n - 1, ideal);
      assert NoChains<T>(n)[..n - 1] == NoChains<T>(n - 1);
    }
  }

  /** The places of all items at position `ideal` or beyond in their chain. */
  ghost function Beyond<T>(cs: seq<seq<T>>, ideal: nat): set<(nat, nat)> {
    set b: nat, i: nat | b < |cs| && ideal <= i < |cs[b]| :: (b, i)
  }

  /** `Excess` counts these places. */
  lemma {:induction false} ExcessCounts<T>(cs: seq<seq<T>>, ideal: nat)
    ensures Excess(cs, ideal) == |Beyond(cs, ideal)|
  {
    if |cs| == 0 {
      assert Beyond(cs, ideal) == {};
    } else {
      var n := |cs| - 1;
      ExcessCounts(cs[..n], ideal);
      var last := Column(n, ideal, |cs[n]|);
      ColumnSize(n, ideal, |cs[n]|);
      assert Beyond(cs, ideal) == Beyond(cs[..n], ideal) + last;
      assert Beyond(cs[..n], ideal) !! last;
    }
  }

  ghost function Column(b: nat, lo: nat, hi: nat): set<(nat, nat)> {
    set i: nat | lo <= i < hi :: (b, i)
  }

  lemma {:induction false} ColumnSize(b: nat, lo: nat, hi: nat)
    ensures |Column(b, lo, hi)| == Over(hi, lo)
    decreases hi
  {
    if lo < hi {
      ColumnSize(b, lo, hi - 1);
      assert Column(b, lo, hi) == Column(b, lo, hi - 1) + {(b, hi - 1)};
      assert (b, hi - 1) !in Column(b, lo, hi - 1);
    } else {
      assert Column(b, lo, hi) == {};
    }
  }
}

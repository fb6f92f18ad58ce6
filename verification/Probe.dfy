/**
 The probe sequence of khash: bucket `(h + 1 + 2 + ... + s) mod n` at step `s`.
 */
module Probe {
  import opened Collections
  import opened Bits

  /** The triangular number 1 + 2 + ... + s. */
  function Tri(s: nat): nat {
    if s == 0 then 0 else Tri(s - 1) + s
  }

  lemma {:induction false} TriFormula(s: nat)
    ensures 2 * Tri(s) == s * (s + 1)
  {
    if s > 0 {
      TriFormula(s - 1);
      assert s * (s + 1) == (s - 1) * s + 2 * s;
    }
  }

  /** The bucket looked at in step `s`, for hash value `h` and `n` buckets. */
  function At(h: nat, s: nat, n: nat): (i: nat)
    requires n >= 1
    ensures i < n
  {
    (h + Tri(s)) % n
  }

  /** One turn of the C loop, `i = (i + (++step)) & mask`, follows the sequence. */
  lemma NextStep(h: nat, s: nat, n: nat)
    requires IsPow2(n)
    ensures n >= 1 && And(At(h, s, n) + (s + 1), n - 1) == At(h, s + 1, n)
  {
    MaskPow2(At(h, s, n) + (s + 1), n);
    AddMod(h + Tri(s), s + 1, n);
  }

  method FirstBucket(h: nat, n: nat) returns (i: nat)
    requires IsPow2(n)
    ensures n >= 1 && i == At(h, 0, n)
  {
    MaskPow2(h, n);
    i := And(h, n - 1);
  }

  /** The sum of two unsigned 32-bit numbers, cut to 32 bits. */
  function Wrapped(sum: nat): nat {
    if sum < 0x1_0000_0000 then sum else sum - 0x1_0000_0000
  }

  /** `i = (i + (++step)) & mask`, in which the sum is cut to 32 bits. */
  method NextBucket(i: u32, step: u32, n: nat, ghost h: nat) returns (i': nat)
    requires IsPow2(n) && 1 <= n <= 0x8000_0000 && step >= 1 && i == At(h, step - 1, n)
    ensures i' == At(h, step, n)
  {
    NextWrapped(h, i, step - 1, n, At(h, step, n));
    i' := And(Wrapped(i + step), n - 1);
  }

  lemma NextWrapped(h: nat, i: nat, s: nat, n: nat, next: nat)
    requires IsPow2(n) && 1 <= n <= 0x8000_0000 && i == At(h, s, n) && next == At(h, s + 1, n)
    ensures And(Wrapped(i + (s + 1)), n - 1) == next
  {
    NextStep(h, s, n);
    WrapUnderMask(i + (s + 1), n);
  }

  /** A mask of fewer than 32 digits does not see the wrap-around. */
  lemma WrapUnderMask(sum: nat, n: nat)
    requires IsPow2(n) && 1 <= n <= 0x8000_0000
    ensures And(Wrapped(sum), n - 1) == And(sum, n - 1)
  {
    MaskPow2(sum, n);
    if sum >= 0x1_0000_0000 {
      var m := Cofactor(n);
      MaskPow2(Wrapped(sum), n);
      MoreTurns(Wrapped(sum), m, n);
    }
  }

  lemma Cofactor(n: nat) returns (m: nat)
    requires IsPow2(n) && n <= 0x8000_0000
    ensures m * n == 0x1_0000_0000
  {
    var k: nat :| n == Pow2(k);
    Pow2Bounds(32);
    Pow2Order(32, k);
    m := Pow2(32 - k);
    Pow2Add(32 - k, k);
  }

  lemma AddMod(x: nat, y: nat, n: nat)
    requires n >= 1
    ensures (x % n + y) % n == (x + y) % n
  {
    var q := x / n;
    var z := x % n + y;
    var q', r' := z / n, z % n;
    assert x + y == q * n + z == q * n + (q' * n + r');
    assert x + y == r' + (q + q') * n;
    ModUnique(x + y, n, q + q', r');
  }

  // ---------------------------------------------------------------- divisibility

  ghost predicate Divides(d: nat, x: int) {
    exists q: int :: x == q * d
  }

  /** A power of two dividing a product with an odd factor divides the other factor. */
  lemma {:induction false} OddFactor(k: nat, a: int, b: int, q: int) returns (r: int)
    requires a % 2 == 1 && a * b == q * Pow2(k)
    ensures b == r * Pow2(k)
    decreases k
  {
    if k == 0 {
      r := b;
    } else {
      var c := HalveProduct(a, b, q, Pow2(k - 1));
      r := OddFactor(k - 1, a, c, q);
      DoubleProduct(r, k - 1);
    }
  }

  lemma HalveProduct(a: int, b: int, q: int, p: int) returns (c: int)
    requires a % 2 == 1 && a * b == q * (2 * p)
    ensures b == 2 * c && a * c == q * p
  {
    var m, d := a / 2, q * p;
    DoubleRight(q, p);
    c := d - m * b;
    OddTimes(m, b);
    assert b == 2 * c;
    DoubleRight(a, c);
  }

  lemma OddTimes(m: int, b: int)
    ensures (2 * m + 1) * b == 2 * (m * b) + b
  {
  }

  /** Of two factors of which one is odd, the other carries the whole power of two. */
  lemma OneFactor(k: nat, a: int, b: int, q: int)
    requires (a % 2 == 1 || b % 2 == 1) && a * b == q * Pow2(k)
    ensures Divides(Pow2(k), a) || Divides(Pow2(k), b)
  {
    if a % 2 == 1 {
      var r := OddFactor(k, a, b, q);
      DividesBy(Pow2(k), b, r);
    } else {
      Commute(a, b);
      var r := OddFactor(k, b, a, q);
      DividesBy(Pow2(k), a, r);
    }
  }

  lemma DividesBy(d: nat, x: int, q: int)
    requires x == q * d
    ensures Divides(d, x)
  {
  }

  lemma OneIsOdd(a: int, b: int)
    ensures (b - a) % 2 == 1 || (b + a + 1) % 2 == 1
  {
  }

  lemma Commute(a: int, b: int)
    ensures a * b == b * a
  {
  }

  lemma PositiveMultiple(d: nat, x: int)
    requires Divides(d, x) && x > 0
    ensures x >= d
  {
    var q :| x == q * d;
    if q >= 1 { MulAtLeast(q, d); }
  }

  lemma SameBucket(x: nat, y: nat, n: nat)
    requires n >= 1 && x % n == y % n
    ensures Divides(n, y - x)
  {
    assert y - x == (y / n - x / n) * n;
  }

  // ---------------------------------------------------------------- the probe sequence

  /** Two steps meeting in one bucket are the factors of a multiple of `2n`. */
  lemma MeetingSteps(h: nat, a: nat, b: nat, k: nat)
    requires a < b && At(h, a, Pow2(k)) == At(h, b, Pow2(k))
    ensures Divides(Pow2(k + 1), b - a) || Divides(Pow2(k + 1), b + a + 1)
  {
    SameBucket(h + Tri(a), h + Tri(b), Pow2(k));
    var q :| (h + Tri(b)) - (h + Tri(a)) == q * Pow2(k);
    TriDifference(a, b);
    DoubleProduct(q, k);
    OneIsOdd(a, b);
    OneFactor(k + 1, b - a, b + a + 1, q);
  }

  lemma {:induction false} TriDifference(a: nat, b: nat)
    requires a <= b
    ensures (b - a) * (b + a + 1) == 2 * (Tri(b) - Tri(a))
  {
    TriFormula(a);
    TriFormula(b);
    SquareDifference(a, b);
  }

  lemma SquareDifference(a: int, b: int)
    ensures (b - a) * (b + a + 1) == b * (b + 1) - a * (a + 1)
  {
  }

  lemma DoubleProduct(q: int, k: nat)
    ensures 2 * (q * Pow2(k)) == q * Pow2(k + 1)
  {
    DoubleRight(q, Pow2(k));
  }

  /** The first `n` steps visit different buckets. */
  lemma StepsDiffer(h: nat, a: nat, b: nat, n: nat)
    requires IsPow2(n) && a < b < n
    ensures At(h, a, n) != At(h, b, n)
  {
    if At(h, a, n) == At(h, b, n) {
      var k: nat :| n == Pow2(k);
      MeetingSteps(h, a, b, k);
      if Divides(Pow2(k + 1), b - a) {
        PositiveMultiple(Pow2(k + 1), b - a);
      } else {
        PositiveMultiple(Pow2(k + 1), b + a + 1);
      }
    }
  }

  lemma BackAtStart(h: nat, s: nat, n: nat)
    requires n >= 1 && s == 2 * n - 1
    ensures At(h, s, n) == At(h, 0, n)
  {
    TriFormula(s);
    DoubleRight(s, n);
    MoreTurns(h, s, n);
  }

  lemma MoreTurns(x: nat, y: nat, n: nat)
    requires n >= 1
    ensures (x + y * n) % n == x % n
  {
    assert x + y * n == x % n + (x / n + y) * n;
    ModUnique(x + y * n, n, x / n + y, x % n);
  }

  /** The sequence is back at its start at step `2n - 1` and not before. */
  lemma FirstReturn(h: nat, s: nat, n: nat)
    requires IsPow2(n) && 1 <= s < 2 * n
    ensures At(h, s, n) == At(h, 0, n) <==> s == 2 * n - 1
  {
    if s == 2 * n - 1 {
      BackAtStart(h, s, n);
    } else if At(h, s, n) == At(h, 0, n) {
      var k: nat :| n == Pow2(k);
      MeetingSteps(h, 0, s, k);
      if Divides(Pow2(k + 1), s) {
        PositiveMultiple(Pow2(k + 1), s);
      } else {
        PositiveMultiple(Pow2(k + 1), s + 1);
      }
    }
  }

  // ---------------------------------------------------------------- coverage

  /** The buckets seen in the first `s` steps. */
  ghost function Visited(h: nat, s: nat, n: nat): (v: set<nat>)
    requires n >= 1
    ensures forall i :: i in v ==> i < n
  {
    if s == 0 then {} else Visited(h, s - 1, n) + {At(h, s - 1, n)}
  }

  lemma {:induction false} StepTo(h: nat, s: nat, n: nat, i: nat) returns (t: nat)
    requires n >= 1 && i in Visited(h, s, n)
    ensures t < s && At(h, t, n) == i
  {
    if i == At(h, s - 1, n) { t := s - 1; } else { t := StepTo(h, s - 1, n, i); }
  }

  lemma {:induction false} VisitedSize(h: nat, s: nat, n: nat)
    requires IsPow2(n) && s <= n
    ensures |Visited(h, s, n)| == s
  {
    if s > 0 {
      VisitedSize(h, s - 1, n);
      if At(h, s - 1, n) in Visited(h, s - 1, n) {
        var t := StepTo(h, s - 1, n, At(h, s - 1, n));
        StepsDiffer(h, t, s - 1, n);
      }
    }
  }

  /** Every bucket is visited within the first `n` steps. */
  lemma Covers(h: nat, i: nat, n: nat)
    requires IsPow2(n) && i < n
    ensures exists s: nat :: s < n && At(h, s, n) == i
  {
    VisitedSize(h, n, n);
    SubsetOfRange(Visited(h, n, n), n);
    var s := StepTo(h, n, n, i);
  }

  /** The one step among the first `n` that looks at bucket `i`. */
  ghost function StepOf(h: nat, i: nat, n: nat): (s: nat)
    requires IsPow2(n) && i < n
    ensures s < n && At(h, s, n) == i
    ensures forall t: nat :: t < n && At(h, t, n) == i ==> t == s
  {
    Covers(h, i, n);
    var s: nat :| s < n && At(h, s, n) == i;
    assert forall t: nat :: t < n && At(h, t, n) == i ==> t == s by {
      forall t: nat | t < n && At(h, t, n) == i ensures t == s {
        if t < s { StepsDiffer(h, t, s, n); } else if s < t { StepsDiffer(h, s, t, n); }
      }
    }
    s
  }
}

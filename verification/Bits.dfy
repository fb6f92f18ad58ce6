/**
 Unsigned machine words as natural numbers.

 The bitwise operators of the C sources are defined one binary digit at a time, so
 that everything said about masks, shifts and flag words below is proved from the
 digits and not taken from a solver's bit-vector theory.
 */
module Bits {

  type u32 = x: int | 0 <= x < 0x1_0000_0000

  function Pow2(k: nat): (p: nat)
    ensures p >= 1
  {
    if k == 0 then 1 else 2 * Pow2(k - 1)
  }

  ghost predicate IsPow2(n: nat) {
    exists k: nat :: n == Pow2(k)
  }

  /** Digit `k` of `x`, counting from the least significant. */
  predicate Bit(x: nat, k: nat)
    decreases k
  {
    if k == 0 then x % 2 == 1 else Bit(x / 2, k - 1)
  }

  function Digit(b: bool): (d: nat) {
    if b then 1 else 0
  }

  /** `x & y` */
  function And(x: nat, y: nat): nat {
    if x == 0 || y == 0 then 0 else Digit(x % 2 == 1 && y % 2 == 1) + 2 * And(x / 2, y / 2)
  }

  /** `x | y` */
  function Or(x: nat, y: nat): nat
    decreases x + y
  {
    if x == 0 then y else if y == 0 then x else Digit(x % 2 == 1 || y % 2 == 1) + 2 * Or(x / 2, y / 2)
  }

  /** `x & ~y` */
  function AndNot(x: nat, y: nat): nat {
    if x == 0 then 0 else Digit(x % 2 == 1 && y % 2 == 0) + 2 * AndNot(x / 2, y / 2)
  }

  /** `x >> s` */
  function Shr(x: nat, s: nat): nat
    decreases s, x
  {
    if s == 0 then x else Shr(x / 2, s - 1)
  }

  lemma {:induction false} ZeroBits(k: nat)
    ensures !Bit(0, k)
  {
    if k > 0 { ZeroBits(k - 1); }
  }

  lemma {:induction false} AndBits(x: nat, y: nat, k: nat)
    ensures Bit(And(x, y), k) == (Bit(x, k) && Bit(y, k))
    decreases k
  {
    ZeroBits(k);
    if x != 0 && y != 0 && k > 0 { AndBits(x / 2, y / 2, k - 1); }
  }

  lemma {:induction false} OrBits(x: nat, y: nat, k: nat)
    ensures Bit(Or(x, y), k) == (Bit(x, k) || Bit(y, k))
    decreases k
  {
    ZeroBits(k);
    if x != 0 && y != 0 && k > 0 { OrBits(x / 2, y / 2, k - 1); }
  }

  lemma {:induction false} AndNotBits(x: nat, y: nat, k: nat)
    ensures Bit(AndNot(x, y), k) == (Bit(x, k) && !Bit(y, k))
    decreases k
  {
    ZeroBits(k);
    if x != 0 && k > 0 { AndNotBits(x / 2, y / 2, k - 1); }
  }

  lemma {:induction false} ShrBits(x: nat, s: nat, k: nat)
    ensures Bit(Shr(x, s), k) == Bit(x, s + k)
    decreases s
  {
    if s > 0 { ShrBits(x / 2, s - 1, k); }
  }

  /** Two words with the same digits are the same word. */
  lemma {:induction false} SameBits(x: nat, y: nat)
    requires forall k: nat :: Bit(x, k) == Bit(y, k)
    ensures x == y
    decreases x + y
  {
    assert Bit(x, 0) == Bit(y, 0);
    if x != 0 || y != 0 {
      forall k: nat ensures Bit(x / 2, k) == Bit(y / 2, k) {
        assert Bit(x, k + 1) == Bit(y, k + 1);
      }
      SameBits(x / 2, y / 2);
    }
  }

  /** `1 << s` has exactly one digit set. */
  lemma {:induction false} Pow2Bits(s: nat, k: nat)
    ensures Bit(Pow2(s), k) == (k == s)
    decreases s
  {
    if s == 0 {
      if k > 0 { ZeroBits(k - 1); }
    } else if k > 0 {
      Pow2Bits(s - 1, k - 1);
    }
  }

  lemma {:induction false} OnesBits(s: nat, k: nat)
    ensures Bit(Pow2(s) - 1, k) == (k < s)
    decreases s
  {
    if s == 0 {
      ZeroBits(k);
    } else {
      assert (Pow2(s) - 1) / 2 == Pow2(s - 1) - 1;
      if k > 0 { OnesBits(s - 1, k - 1); }
    }
  }

  lemma DoubleRight(x: int, y: int)
    ensures x * (2 * y) == 2 * (x * y)
  {
  }

  lemma {:induction false} ModUnique(x: int, d: int, q: int, r: int)
    requires 0 <= r < d && x == r + q * d
    ensures x % d == r && x / d == q
  {
    EuclidUnique(d, q, r, x / d, x % d);
  }

  lemma {:induction false} EuclidUnique(d: int, q: int, r: int, q': int, r': int)
    requires 0 <= r < d && 0 <= r' < d && q * d + r == q' * d + r'
    ensures q == q' && r == r'
  {
    var g := q - q';
    assert g * d == r' - r;
    if g >= 1 {
      MulAtLeast(g, d);
    } else if g <= -1 {
      MulAtLeast(-g, d);
    }
  }

  lemma MulAtLeast(g: int, d: int)
    requires g >= 1 && d >= 0
    ensures g * d >= d
  {
    assert g * d == d + (g - 1) * d;
  }

  /** The lowest `k` digits. */
  function LowDigits(x: nat, k: nat): nat {
    if k == 0 then 0 else x % 2 + 2 * LowDigits(x / 2, k - 1)
  }

  /** A word is its lowest `k` digits and the others shifted back. */
  lemma {:induction false} SplitDigits(x: nat, k: nat)
    ensures x == LowDigits(x, k) + Shr(x, k) * Pow2(k) && LowDigits(x, k) < Pow2(k)
    decreases k
  {
    if k > 0 {
      SplitDigits(x / 2, k - 1);
      DoubleRight(Shr(x, k), Pow2(k - 1));
    }
  }

  lemma {:induction false} MaskIsLowDigits(x: nat, k: nat)
    ensures And(x, Pow2(k) - 1) == LowDigits(x, k)
    decreases k
  {
    if k > 0 {
      MaskIsLowDigits(x / 2, k - 1);
      AndOdd(x, Pow2(k) - 1, Pow2(k - 1) - 1);
    } else {
      assert And(x, 0) == 0;
    }
  }

  lemma AndOdd(x: nat, y: nat, half: nat)
    requires y == 2 * half + 1
    ensures And(x, y) == x % 2 + 2 * And(x / 2, half)
  {
    assert y % 2 == 1 && y / 2 == half;
  }

  /** Masking with `n - 1` is the remainder modulo `n` when `n` is a power of two. */
  lemma MaskIsMod(x: nat, k: nat)
    ensures And(x, Pow2(k) - 1) == x % Pow2(k)
  {
    MaskIsLowDigits(x, k);
    SplitDigits(x, k);
    ModUnique(x, Pow2(k), Shr(x, k), LowDigits(x, k));
  }

  lemma MaskPow2(x: nat, n: nat)
    requires IsPow2(n)
    ensures n >= 1 && And(x, n - 1) == x % n
  {
    var k: nat :| n == Pow2(k);
    MaskIsMod(x, k);
  }

  /** Shifting right by `s` is division by `2^s`. */
  lemma ShrIsDiv(x: nat, s: nat)
    ensures Shr(x, s) == x / Pow2(s)
  {
    SplitDigits(x, s);
    ModUnique(x, Pow2(s), Shr(x, s), LowDigits(x, s));
  }

  lemma {:induction false} Pow2Monotone(a: nat, b: nat)
    requires a <= b
    ensures Pow2(a) <= Pow2(b)
  {
    if a < b { Pow2Monotone(a, b - 1); }
  }

  lemma {:induction false} Pow2Order(a: nat, b: nat)
    ensures Pow2(a) < Pow2(b) <==> a < b
  {
    if a < b {
      Pow2Monotone(a, b - 1);
    } else {
      Pow2Monotone(b, a);
    }
  }

  lemma {:induction false} Pow2Add(a: nat, b: nat)
    ensures Pow2(a + b) == Pow2(a) * Pow2(b)
  {
    if a > 0 {
      Pow2Add(a - 1, b);
      Double(Pow2(a - 1), Pow2(b));
    }
  }

  lemma Double(a: nat, b: nat)
    ensures 2 * (a * b) == (2 * a) * b
  {
  }

  lemma Pow2Values()
    ensures Pow2(2) == 4 && Pow2(5) == 32 && Pow2(16) == 65536
    ensures Pow2(30) == 0x4000_0000 && Pow2(31) == 0x8000_0000 && Pow2(32) == 0x1_0000_0000
  {
    assert Pow2(4) == 16;
    Pow2Add(4, 4);
    Pow2Add(8, 8);
    Pow2Add(16, 16);
  }

  // ---------------------------------------------------------------- kroundup32

  /** The macro `kroundup32` on an unsigned 32-bit word, wrap-around included. */
  function RoundUp32(x: u32): nat {
    Increment(Smeared(Decrement(x), 1))
  }

  /** `--x` on 32 bits. */
  function Decrement(x: u32): u32 {
    if x == 0 then 0xffff_ffff else x - 1
  }

  /** `++x` on 32 bits. */
  function Increment(y: nat): nat {
    if y == 0xffff_ffff then 0 else y + 1
  }

  /** The five `x |= x >> w` steps of the macro, for w = 1, 2, 4, 8, 16. */
  function Smeared(y: nat, w: nat): nat
    requires w >= 1
    decreases 32 - w, y
  {
    if w >= 32 then y else Smeared(Or(y, Shr(y, w)), 2 * w)
  }

  /** Some digit of `y` at position `k .. k + w - 1` is set. */
  ghost predicate AnyBit(y: nat, k: nat, w: nat) {
    exists j: nat :: k <= j < k + w && Bit(y, j)
  }

  ghost predicate SmearedBy(y: nat, z: nat, w: nat) {
    forall k: nat :: Bit(z, k) == AnyBit(y, k, w)
  }

  lemma SmearStep(y: nat, z: nat, w: nat)
    requires SmearedBy(y, z, w)
    ensures SmearedBy(y, Or(z, Shr(z, w)), 2 * w)
  {
    forall k: nat ensures Bit(Or(z, Shr(z, w)), k) == AnyBit(y, k, 2 * w) {
      OrBits(z, Shr(z, w), k);
      ShrBits(z, w, k);
      assert Bit(z, k) == AnyBit(y, k, w);
      assert Bit(z, w + k) == AnyBit(y, w + k, w);
    }
  }

  lemma {:induction false} SmearedBits(y: nat, z: nat, w: nat)
    requires w in {1, 2, 4, 8, 16, 32} && SmearedBy(y, z, w)
    ensures SmearedBy(y, Smeared(z, w), 32)
    decreases 32 - w
  {
    if w < 32 {
      SmearStep(y, z, w);
      SmearedBits(y, Or(z, Shr(z, w)), 2 * w);
    }
  }

  /** The number of digits of `y`: its top digit is set and nothing is above it. */
  ghost function Length(y: nat): (len: nat)
    ensures y < Pow2(len) && (len > 0 ==> Pow2(len - 1) <= y)
    ensures y == 0 <==> len == 0
  {
    if y == 0 then 0 else 1 + Length(y / 2)
  }

  lemma {:induction false} TopBit(y: nat, k: nat)
    ensures k >= Length(y) ==> !Bit(y, k)
    ensures k + 1 == Length(y) ==> Bit(y, k)
    decreases k
  {
    if y == 0 {
      ZeroBits(k);
    } else if k > 0 {
      TopBit(y / 2, k - 1);
    }
  }

  lemma AtMost32(y: nat)
    ensures y < 0x1_0000_0000 ==> Length(y) <= 32
  {
    var len := Length(y);
    if len > 32 {
      Pow2Monotone(32, len - 1);
      Pow2Bounds(32);
    }
  }

  /** Digits below the top one have a set digit at most 31 above them; the others have none. */
  lemma UnderTop(y: nat, k: nat)
    requires Length(y) <= 32
    ensures AnyBit(y, k, 32) == (k < Length(y))
  {
    var len := Length(y);
    if k < len {
      TopBit(y, len - 1);
    } else {
      forall j: nat | k <= j < k + 32 ensures !Bit(y, j) { TopBit(y, j); }
    }
  }

  lemma FilledIsOnes(y: nat, z: nat)
    requires SmearedBy(y, z, 32) && Length(y) <= 32
    ensures z == Pow2(Length(y)) - 1
  {
    var len := Length(y);
    forall k: nat ensures Bit(z, k) == Bit(Pow2(len) - 1, k) {
      OnesBits(len, k);
      UnderTop(y, k);
    }
    SameBits(z, Pow2(len) - 1);
  }

  lemma SmearedByOne(y: nat)
    ensures SmearedBy(y, y, 1)
  {
    forall k: nat ensures Bit(y, k) == AnyBit(y, k, 1) { }
  }

  /** Filling a word of at most 32 digits downwards gives all ones. */
  lemma SmearedIsOnes(y: nat)
    requires y < 0x1_0000_0000
    ensures Length(y) <= 32 && Smeared(y, 1) == Pow2(Length(y)) - 1
  {
    AtMost32(y);
    SmearedByOne(y);
    SmearedBits(y, y, 1);
    FilledIsOnes(y, Smeared(y, 1));
  }

  /** `r` is the least power of two that is no smaller than `x`. */
  ghost predicate LeastPow2(x: nat, r: nat) {
    IsPow2(r) && x <= r && forall k: nat :: x <= Pow2(k) ==> r <= Pow2(k)
  }

  /** `kroundup32` gives the least power of two that is no smaller than its argument;
      it wraps to 0 exactly when that power does not fit in 32 bits or the argument is 0. */
  lemma RoundUpIsLeastPow2(x: u32)
    ensures 1 <= x <= 0x8000_0000 ==> LeastPow2(x, RoundUp32(x)) && RoundUp32(x) <= 0x8000_0000
    ensures x == 0 || x > 0x8000_0000 ==> RoundUp32(x) == 0
  {
    if x == 0 {
      AllOnesStay(Decrement(x));
    } else {
      var len := RoundUpValue(x);
      Pow2Bounds(len);
      if x <= 0x8000_0000 {
        FitsIn31(x - 1, len);
        LeastAbove(x, len);
      }
    }
  }

  lemma RoundUpValue(x: u32) returns (len: nat)
    requires x >= 1
    ensures len <= 32 && RoundUp32(x) == if len == 32 then 0 else Pow2(len)
    ensures x <= Pow2(len) && (len > 0 ==> Pow2(len - 1) < x)
  {
    var y := Decrement(x);
    len := Length(y);
    AtMost32(y);
    RoundUpFrom(x, y);
  }

  lemma RoundUpFrom(x: u32, y: u32)
    requires x >= 1 && y == x - 1
    ensures Length(y) <= 32 && RoundUp32(x) == if Length(y) == 32 then 0 else Pow2(Length(y))
  {
    var z := Smeared(y, 1);
    SmearedIsOnes(y);
    assert RoundUp32(x) == Increment(z);
    IncrementOnes(Length(y));
  }

  lemma IncrementOnes(len: nat)
    requires len <= 32
    ensures Increment(Pow2(len) - 1) == if len == 32 then 0 else Pow2(len)
  {
    Pow2Bounds(len);
  }

  lemma AllOnesStay(y: nat)
    requires 0xffff_ffff <= y < 0x1_0000_0000
    ensures Smeared(y, 1) == y
  {
    SmearedIsOnes(y);
    Pow2Bounds(Length(y));
  }

  lemma FitsIn31(y: nat, len: nat)
    requires len <= 32 && y < 0x8000_0000 && (len > 0 ==> Pow2(len - 1) <= y)
    ensures len <= 31
  {
    if len == 32 { Pow2Bounds(31); }
  }

  lemma LeastAbove(x: nat, len: nat)
    requires len > 0 ==> Pow2(len - 1) < x
    requires x >= 1
    ensures forall k: nat :: x <= Pow2(k) ==> Pow2(len) <= Pow2(k)
  {
    forall k: nat | x <= Pow2(k) ensures Pow2(len) <= Pow2(k) {
      if k < len {
        Pow2Monotone(k, len - 1);
      } else {
        Pow2Monotone(len, k);
      }
    }
  }

  lemma Pow2Bounds(len: nat)
    requires len <= 32
    ensures len <= 31 ==> Pow2(len) <= 0x8000_0000
    ensures len >= 31 ==> Pow2(len) == if len == 31 then 0x8000_0000 else 0x1_0000_0000
  {
    Pow2Values();
    if len <= 31 { Pow2Monotone(len, 31); }
  }

  /** Distinct powers of two are at least a factor of two apart. */
  lemma Pow2Next(n: nat, m: nat)
    requires IsPow2(n) && IsPow2(m) && n < m
    ensures 2 * n <= m
  {
    var a: nat :| n == Pow2(a);
    var b: nat :| m == Pow2(b);
    Pow2Order(a, b);
    Pow2Monotone(a + 1, b);
  }
}

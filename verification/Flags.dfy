/**
 The packed bucket flags of khash: two bits a bucket, sixteen buckets a 32-bit word.

 The macros are modelled on the words. `Represents` ties the words to one three-state
 flag a bucket, and each macro is shown to act on its own bucket alone.
 */
module Flags {
  import opened Bits

  datatype Flag = Live | Deleted | Empty

  type Words = seq<u32>

  /** `__ac_fsize(n)`: the number of words for `n` buckets. */
  function WordCount(n: nat): (c: nat)
    ensures n < 16 || n % 16 == 0 ==> n <= 16 * c
  {
    if n < 16 then 1 else n / 16
  }

  /** The shift `(i & 0xf) << 1` that brings bucket `i` to the low end of its word. */
  function Lane(i: nat): (s: nat)
    ensures s <= 30
  {
    2 * (i % 16)
  }

  function Word(words: Words, i: nat): u32
    requires i / 16 < |words|
  {
    words[i / 16]
  }

  // The test macros.

  predicate IsEmpty(words: Words, i: nat)
    requires i / 16 < |words|
  {
    And(Shr(Word(words, i), Lane(i)), 2) != 0
  }

  predicate IsDel(words: Words, i: nat)
    requires i / 16 < |words|
  {
    And(Shr(Word(words, i), Lane(i)), 1) != 0
  }

  predicate IsEither(words: Words, i: nat)
    requires i / 16 < |words|
  {
    And(Shr(Word(words, i), Lane(i)), 3) != 0
  }

  // The words the update macros store back into `flag[i >> 4]`.

  function IsDelTrue(w: u32, i: nat): u32 {
    OrFits(w, Lane(i));
    Or(w, Pow2(Lane(i)))
  }

  function IsEmptyFalse(w: u32, i: nat): u32 {
    AndNotFits(w, 2 * Pow2(Lane(i)));
    AndNot(w, 2 * Pow2(Lane(i)))
  }

  function IsBothFalse(w: u32, i: nat): u32 {
    AndNotFits(w, 3 * Pow2(Lane(i)));
    AndNot(w, 3 * Pow2(Lane(i)))
  }

  lemma {:induction false} AndNotFits(w: nat, m: nat)
    ensures AndNot(w, m) <= w
  {
    if w != 0 { AndNotFits(w / 2, m / 2); }
  }

  lemma {:induction false} OrBelow(w: nat, m: nat, k: nat)
    requires w < Pow2(k) && m < Pow2(k)
    ensures Or(w, m) < Pow2(k)
    decreases k
  {
    if w != 0 && m != 0 { OrBelow(w / 2, m / 2, k - 1); }
  }

  lemma OrFits(w: u32, s: nat)
    requires s <= 30
    ensures Or(w, Pow2(s)) < 0x1_0000_0000
  {
    Pow2Values();
    Pow2Monotone(s, 30);
    OrBelow(w, Pow2(s), 32);
  }

  // ---------------------------------------------------------------- digits of a lane

  predicate High(words: Words, i: nat)
    requires i / 16 < |words|
  {
    Bit(Word(words, i), Lane(i) + 1)
  }

  predicate Low(words: Words, i: nat)
    requires i / 16 < |words|
  {
    Bit(Word(words, i), Lane(i))
  }

  lemma SmallMask(x: nat)
    ensures And(x, 1) != 0 <==> Bit(x, 0)
    ensures And(x, 2) != 0 <==> Bit(x, 1)
    ensures And(x, 3) != 0 <==> Bit(x, 0) || Bit(x, 1)
  {
    assert And(x / 2, 0) == 0;
    assert And(x / 2, 1) == if x / 2 == 0 then 0 else Digit((x / 2) % 2 == 1) + 2 * And(x / 4, 0);
    assert And(x / 4, 0) == 0;
  }

  lemma TestMacros(words: Words, i: nat)
    requires i / 16 < |words|
    ensures IsEmpty(words, i) == High(words, i)
    ensures IsDel(words, i) == Low(words, i)
    ensures IsEither(words, i) == (High(words, i) || Low(words, i))
  {
    var w, s := Word(words, i), Lane(i);
    SmallMask(Shr(w, s));
    ShrBits(w, s, 0);
    ShrBits(w, s, 1);
  }

  lemma {:induction false} ThreeBits(s: nat, k: nat)
    ensures Bit(3 * Pow2(s), k) == (k == s || k == s + 1)
    decreases s
  {
    if s == 0 {
      if k >= 2 { ZeroBits(k - 2); }
    } else {
      assert 3 * Pow2(s) == 2 * (3 * Pow2(s - 1));
      if k > 0 { ThreeBits(s - 1, k - 1); }
    }
  }

  /** What each update macro does to every digit of the word. */
  lemma UpdateMacros(w: u32, i: nat, k: nat)
    ensures Bit(IsDelTrue(w, i), k) == (Bit(w, k) || k == Lane(i))
    ensures Bit(IsEmptyFalse(w, i), k) == (Bit(w, k) && k != Lane(i) + 1)
    ensures Bit(IsBothFalse(w, i), k) == (Bit(w, k) && k != Lane(i) && k != Lane(i) + 1)
  {
    var s := Lane(i);
    OrBits(w, Pow2(s), k);
    Pow2Bits(s, k);
    assert 2 * Pow2(s) == Pow2(s + 1);
    AndNotBits(w, 2 * Pow2(s), k);
    Pow2Bits(s + 1, k);
    AndNotBits(w, 3 * Pow2(s), k);
    ThreeBits(s, k);
  }

  // ---------------------------------------------------------------- three-state view

  ghost predicate LaneHolds(words: Words, i: nat, f: Flag)
    requires i / 16 < |words|
  {
    High(words, i) == f.Empty? && Low(words, i) == f.Deleted?
  }

  /** The words hold exactly the flags `st`, one lane a bucket. */
  ghost predicate Represents(words: Words, st: seq<Flag>) {
    && |st| <= 16 * |words|
    && forall i: nat {:trigger LaneHolds(words, i, st[i])} :: i < |st| ==> LaneHolds(words, i, st[i])
  }

  /** The test macros read the three-state flag of their bucket. */
  lemma TestsReadFlag(words: Words, st: seq<Flag>, i: nat)
    requires Represents(words, st) && i < |st|
    ensures IsEmpty(words, i) == st[i].Empty?
    ensures IsDel(words, i) == st[i].Deleted?
    ensures IsEither(words, i) == !st[i].Live?
  {
    TestMacros(words, i);
    assert LaneHolds(words, i, st[i]);
  }

  /** A new word that differs from the old only in the two digits of bucket `i`. */
  ghost predicate OnlyLane(w: u32, w': u32, i: nat) {
    forall k: nat :: k != Lane(i) && k != Lane(i) + 1 ==> Bit(w', k) == Bit(w, k)
  }

  lemma StoreLane(words: Words, st: seq<Flag>, i: nat, w': u32, f: Flag)
    requires Represents(words, st) && i < |st|
    requires OnlyLane(Word(words, i), w', i)
    requires Bit(w', Lane(i) + 1) == f.Empty? && Bit(w', Lane(i)) == f.Deleted?
    ensures Represents(words[i / 16 := w'], st[i := f])
  {
    var words', st' := words[i / 16 := w'], st[i := f];
    forall j: nat | j < |st'| ensures LaneHolds(words', j, st'[j]) {
      assert LaneHolds(words, j, st[j]);
      if j != i && j / 16 == i / 16 {
        assert Lane(j) != Lane(i);
        assert Bit(w', Lane(j)) == Bit(Word(words, i), Lane(j));
        assert Bit(w', Lane(j) + 1) == Bit(Word(words, i), Lane(j) + 1);
      }
    }
  }

  /** `__ac_set_isdel_true` on a live bucket marks that bucket deleted and no other. */
  lemma MarkDeleted(words: Words, st: seq<Flag>, i: nat)
    requires Represents(words, st) && i < |st| && st[i].Live?
    ensures Represents(words[i / 16 := IsDelTrue(words[i / 16], i)], st[i := Deleted])
  {
    var w := Word(words, i);
    assert LaneHolds(words, i, st[i]);
    forall k: nat ensures Bit(IsDelTrue(w, i), k) == (Bit(w, k) || k == Lane(i)) { UpdateMacros(w, i, k); }
    StoreLane(words, st, i, IsDelTrue(w, i), Deleted);
  }

  /** `__ac_set_isempty_false` on an empty bucket makes that bucket live and no other. */
  lemma MarkUsed(words: Words, st: seq<Flag>, i: nat)
    requires Represents(words, st) && i < |st| && st[i].Empty?
    ensures Represents(words[i / 16 := IsEmptyFalse(words[i / 16], i)], st[i := Live])
  {
    var w := Word(words, i);
    assert LaneHolds(words, i, st[i]);
    forall k: nat ensures Bit(IsEmptyFalse(w, i), k) == (Bit(w, k) && k != Lane(i) + 1) { UpdateMacros(w, i, k); }
    StoreLane(words, st, i, IsEmptyFalse(w, i), Live);
  }

  /** `__ac_set_isboth_false` makes its bucket live, whatever it was, and no other. */
  lemma MarkLive(words: Words, st: seq<Flag>, i: nat)
    requires Represents(words, st) && i < |st|
    ensures Represents(words[i / 16 := IsBothFalse(words[i / 16], i)], st[i := Live])
  {
    var w := Word(words, i);
    forall k: nat
      ensures Bit(IsBothFalse(w, i), k) == (Bit(w, k) && k != Lane(i) && k != Lane(i) + 1)
    {
      UpdateMacros(w, i, k);
    }
    StoreLane(words, st, i, IsBothFalse(w, i), Live);
  }

  // ---------------------------------------------------------------- the 0xaa fill

  /** A word whose four bytes are 0xaa. */
  const FILLED: u32 := 0xaaaa_aaaa

  ghost predicate Fill(words: Words, n: nat) {
    && |words| == WordCount(n)
    && forall j: nat :: j < |words| ==> words[j] == FILLED
  }

  lemma {:induction false} AlternatingBits(m: nat, x: nat, k: nat)
    requires 3 * x == 2 * (Pow2(2 * m) - 1)
    ensures k < 2 * m ==> Bit(x, k) == (k % 2 == 1)
    decreases m
  {
    if m > 0 {
      var p := Pow2(2 * m - 2);
      assert Pow2(2 * m) == 2 * Pow2(2 * m - 1) == 4 * p;
      assert 3 * (x - 2) == 4 * (2 * (p - 1));
      assert x % 4 == 2 && 3 * (x / 4) == 2 * (p - 1);
      assert x / 2 / 2 == x / 4 && (x / 2) % 2 == 1;
      if k >= 2 {
        AlternatingBits(m - 1, x / 4, k - 2);
        assert Bit(x, k) == Bit(x / 2, k - 1) == Bit(x / 4, k - 2);
      }
    }
  }

  function AllEmpty(n: nat): (st: seq<Flag>)
    ensures |st| == n && forall i :: 0 <= i < n ==> st[i] == Empty
  {
    seq(n, _ => Empty)
  }

  /** After `memset(flags, 0xaa, ...)` every bucket reads as empty. */
  lemma FillIsAllEmpty(words: Words, n: nat)
    requires Fill(words, n) && (n < 16 || n % 16 == 0)
    ensures Represents(words, AllEmpty(n))
  {
    forall i: nat | i < n ensures i / 16 < |words| && LaneHolds(words, i, Empty) {
      Pow2Values();
      AlternatingBits(16, FILLED, Lane(i));
      AlternatingBits(16, FILLED, Lane(i) + 1);
    }
  }

  // ---------------------------------------------------------------- the macros on an array

  method ReadIsEmpty(words: array<u32>, i: nat, ghost st: seq<Flag>) returns (b: bool)
    requires Represents(words[..], st) && i < |st|
    ensures b == st[i].Empty?
  {
    TestsReadFlag(words[..], st, i);
    b := And(Shr(words[i / 16], Lane(i)), 2) != 0;
  }

  method ReadIsDel(words: array<u32>, i: nat, ghost st: seq<Flag>) returns (b: bool)
    requires Represents(words[..], st) && i < |st|
    ensures b == st[i].Deleted?
  {
    TestsReadFlag(words[..], st, i);
    b := And(Shr(words[i / 16], Lane(i)), 1) != 0;
  }

  method ReadIsEither(words: array<u32>, i: nat, ghost st: seq<Flag>) returns (b: bool)
    requires Represents(words[..], st) && i < |st|
    ensures b == !st[i].Live?
  {
    TestsReadFlag(words[..], st, i);
    b := And(Shr(words[i / 16], Lane(i)), 3) != 0;
  }

  method SetIsDelTrue(words: array<u32>, i: nat, ghost st: seq<Flag>)
    requires Represents(words[..], st) && i < |st| && st[i].Live?
    modifies words
    ensures Represents(words[..], st[i := Deleted])
  {
    MarkDeleted(words[..], st, i);
    ghost var before := words[..];
    words[i / 16] := IsDelTrue(words[i / 16], i);
    assert words[..] == before[i / 16 := IsDelTrue(before[i / 16], i)];
  }

  method SetIsEmptyFalse(words: array<u32>, i: nat, ghost st: seq<Flag>)
    requires Represents(words[..], st) && i < |st| && st[i].Empty?
    modifies words
    ensures Represents(words[..], st[i := Live])
  {
    MarkUsed(words[..], st, i);
    ghost var before := words[..];
    words[i / 16] := IsEmptyFalse(words[i / 16], i);
    assert words[..] == before[i / 16 := IsEmptyFalse(before[i / 16], i)];
  }

  method SetIsBothFalse(words: array<u32>, i: nat, ghost st: seq<Flag>)
    requires Represents(words[..], st) && i < |st|
    modifies words
    ensures Represents(words[..], st[i := Live])
  {
    MarkLive(words[..], st, i);
    ghost var before := words[..];
    words[i / 16] := IsBothFalse(words[i / 16], i);
    assert words[..] == before[i / 16 := IsBothFalse(before[i / 16], i)];
  }

  method SetAllEmpty(words: array<u32>, n: nat)
    requires words.Length == WordCount(n) && (n < 16 || n % 16 == 0)
    modifies words
    ensures Represents(words[..], AllEmpty(n))
  {
    forall j | 0 <= j < words.Length { words[j] := FILLED; }
    FillIsAllEmpty(words[..], n);
  }
}

/**
 `csum`, the Internet checksum of RFC 1071.

 Section 1 of the RFC defines the checksum through one's complement addition: 16-bit words
 are added with the carry brought around to the low end, and the complement of the sum is
 stored. `OnesSum` is that definition; `csum` instead adds in a wide register and folds it.
 */
module Checksum {
  import opened Bits

  type byte = x: int | 0 <= x < 256
  type word = x: int | 0 <= x < 65536

  // ---------------------------------------------------------------- RFC 1071

  /** 16-bit addition with end-around carry. */
  function OnesAdd(x: word, y: word): word {
    if x + y < 65536 then x + y else x + y - 65535
  }

  function OnesSum(ws: seq<word>): word {
    if ws == [] then 0 else OnesAdd(OnesSum(ws[..|ws| - 1]), ws[|ws| - 1])
  }

  /** One's complement of a word. */
  function Complement(x: word): word {
    65535 - x
  }

  /** The load `*ptr` of two bytes. */
  function LittleEndian(lo: byte, hi: byte): word {
    var w: int := 256 * (hi as int) + lo as int;
    w
  }

  /** The 16-bit words of a little-endian buffer, an odd last byte padded with zero. */
  function Words(data: seq<byte>): seq<word> {
    if |data| == 0 then []
    else if |data| == 1 then [LittleEndian(data[0], 0)]
    else [LittleEndian(data[0], data[1])] + Words(data[2..])
  }

  lemma {:induction false} WordCount(data: seq<byte>)
    ensures 2 * |Words(data)| == |data| + |data| % 2
  {
    if |data| >= 2 { WordCount(data[2..]); }
  }

  /** An odd last byte counts as if a zero byte followed it. */
  lemma {:induction false} OddByteIsPadded(data: seq<byte>)
    requires |data| % 2 == 1
    ensures Words(data) == Words(data + [0])
  {
    if |data| == 1 {
      assert (data + [0])[2..] == [];
    } else {
      OddByteIsPadded(data[2..]);
      assert (data + [0])[2..] == data[2..] + [0];
    }
  }

  /** The example of section 3 of RFC 1071, as a little-endian machine adds it up. */
  lemma RfcExample()
    ensures Words([0x00, 0x01, 0xf2, 0x03, 0xf4, 0xf5, 0xf6, 0xf7]) == [0x0100, 0x03f2, 0xf5f4, 0xf7f6]
    ensures OnesSum([0x0100, 0x03f2, 0xf5f4, 0xf7f6]) == 0xf2dd
  {
    var data: seq<byte> := [0x00, 0x01, 0xf2, 0x03, 0xf4, 0xf5, 0xf6, 0xf7];
    assert data[2..] == [0xf2, 0x03, 0xf4, 0xf5, 0xf6, 0xf7] && data[2..][2..] == [0xf4, 0xf5, 0xf6, 0xf7];
    assert data[2..][2..][2..] == [0xf6, 0xf7] && data[2..][2..][2..][2..] == [];
    var ws: seq<word> := [0x0100, 0x03f2, 0xf5f4, 0xf7f6];
    assert ws[..3] == [0x0100, 0x03f2, 0xf5f4] && ws[..3][..2] == [0x0100, 0x03f2] && ws[..3][..2][..1] == [0x0100];
    assert ws[..3][..2][..1][..0] == [];
    assert OnesSum(ws[..3][..2][..1]) == 0x0100;
    assert OnesSum(ws[..3][..2]) == 0x04f2;
    assert OnesSum(ws[..3]) == 0xfae6;
  }

  // ---------------------------------------------------------------- the wide sum

  function Total(ws: seq<word>): nat {
    if ws == [] then 0 else Total(ws[..|ws| - 1]) + ws[|ws| - 1]
  }

  /** The one's complement value of a number: 65535 is cast out until 16 bits remain. A
      positive multiple of 65535 comes out as 65535 and not as 0. */
  function Residue(t: nat): word {
    if t < 65536 then t else Residue(t - 65535)
  }

  lemma {:induction false} AddResidue(t: nat, y: word)
    ensures OnesAdd(Residue(t), y) == Residue(t + y)
    decreases t
  {
    if t >= 65536 {
      AddResidue(t - 65535, y);
    } else if t + y >= 65536 {
      assert t + y - 65535 < 65536;
    }
  }

  /** One's complement addition only sees the plain sum. */
  lemma {:induction false} OnesSumIsResidue(ws: seq<word>)
    ensures OnesSum(ws) == Residue(Total(ws))
  {
    if ws != [] {
      OnesSumIsResidue(ws[..|ws| - 1]);
      AddResidue(Total(ws[..|ws| - 1]), ws[|ws| - 1]);
    }
  }

  lemma {:induction false} TotalBound(ws: seq<word>)
    ensures Total(ws) <= 65535 * |ws|
  {
    if ws != [] { TotalBound(ws[..|ws| - 1]); }
  }

  lemma {:induction false} TotalConcat(a: seq<word>, b: seq<word>)
    ensures Total(a + b) == Total(a) + Total(b)
  {
    if b == [] {
      assert a + b == a;
    } else {
      var n := |b| - 1;
      TotalConcat(a, b[..n]);
      assert (a + b)[..|a + b| - 1] == a + b[..n];
    }
  }

  lemma TotalUpdate(ws: seq<word>, i: nat, x: word)
    requires i < |ws|
    ensures Total(ws[i := x]) == Total(ws) - ws[i] + x
  {
    var a, b := ws[..i], ws[i + 1..];
    assert ws == a + ([ws[i]] + b) && ws[i := x] == a + ([x] + b);
    SplitTotal(a, ws[i], b);
    SplitTotal(a, x, b);
  }

  // ---------------------------------------------------------------- folding

  /** `x >> 16` */
  function High(x: nat): nat {
    if x < 65536 then 0 else 1 + High(x - 65536)
  }

  /** `x & 0xffff` */
  function Low(x: nat): word {
    if x < 65536 then x else Low(x - 65536)
  }

  lemma {:induction false} Halves(x: nat)
    ensures x == 65536 * High(x) + Low(x)
  {
    if x >= 65536 { Halves(x - 65536); }
  }

  lemma {:induction false} HalvesAreBits(x: nat)
    ensures High(x) == x / 65536 && Low(x) == x % 65536
  {
    if x >= 65536 { HalvesAreBits(x - 65536); }
  }

  /** The first fold, `(sum >> 16) + (sum & 0xffff)`. */
  function Fold(sum: nat): nat {
    High(sum) + Low(sum)
  }

  /** The low 16 bits after the second, one-sided fold `sum + (sum >> 16)`. */
  function Folded(sum: nat): word {
    Low(Fold(sum) + High(Fold(sum)))
  }

  method ShiftFold(sum: nat) returns (s: nat)
    ensures s == Fold(sum)
  {
    var k := 16;
    Pow2Values();
    ShrIsDiv(sum, k);
    MaskIsMod(sum, k);
    HalvesAreBits(sum);
    s := Shr(sum, k) + And(sum, 0xffff);
  }

  method AddHigh(sum: nat) returns (s: nat)
    ensures s == sum + High(sum)
  {
    var k := 16;
    Pow2Values();
    ShrIsDiv(sum, k);
    HalvesAreBits(sum);
    s := sum + Shr(sum, k);
  }

  method TruncateComplement(sum: nat) returns (answer: word)
    ensures answer == Complement(Low(sum))
  {
    HalvesAreBits(sum);
    answer := Complement(sum % 65536);
  }

  lemma {:induction false} LowShift(r: nat, q: nat)
    ensures Low(r + 65536 * q) == Low(r)
    decreases q
  {
    if q > 0 { LowShift(r, q - 1); }
  }

  /** For any sum that fewer than 2^30 words can reach, two folds are enough exactly when the
      second one does not carry out of 16 bits. */
  lemma FoldedIsResidue(sum: nat)
    ensures sum < 0x4000_0000_0000 ==>
      (Folded(sum) == Residue(sum) <==> Low(Fold(sum)) + High(Fold(sum)) < 65536)
  {
    HighBound(sum, 0x4000_0000);
    FoldKeepsResidue(sum);
    SecondFold(Fold(sum));
  }

  lemma SecondFold(s: nat)
    ensures s < 0x1_0000_0000 ==>
      (Low(s + High(s)) == Residue(s) <==> Low(s) + High(s) < 65536)
  {
    FoldKeepsResidue(s);
    assert Low(s + High(s)) == Low(Low(s) + High(s)) by {
      Halves(s);
      LowShift(Low(s) + High(s), High(s));
    }
    HighBound(s, 65536);
    CarryLost(Low(s) + High(s));
  }

  lemma {:induction false} HighBound(x: nat, k: nat)
    ensures x < 65536 * k ==> High(x) < k
    decreases k
  {
    if x >= 65536 && k > 0 { HighBound(x - 65536, k - 1); }
  }

  lemma CarryLost(u: nat)
    ensures u < 131071 ==> (Low(u) == Residue(u) <==> u < 65536)
  {
  }

  /** Splitting at 16 bits does not change the one's complement value. */
  lemma FoldKeepsResidue(t: nat)
    ensures Residue(t) == Residue(Fold(t))
  {
    Halves(t);
    if t > 0 { SameResidue(Fold(t), High(t)); }
  }

  lemma {:induction false} SameResidue(r: nat, q: nat)
    requires r > 0
    ensures Residue(r + 65535 * q) == Residue(r)
    decreases q
  {
    if q > 0 { SameResidue(r, q - 1); }
  }

  /** Any sum up to that of 65538 words is folded completely, so a 32-bit one is. */
  lemma TwoFoldsSuffice(sum: nat)
    ensures sum <= 0x1_0000_fffe ==> Folded(sum) == Residue(sum)
  {
    if sum <= 0x1_0000_fffe {
      HalvesAreBits(sum);
      NoCarry(Fold(sum));
      FoldedIsResidue(sum);
    }
  }

  lemma NoCarry(s: nat)
    ensures s <= 131070 ==> Low(s) + High(s) < 65536
  {
  }

  /** The next larger sum is not. */
  lemma TooFew(sum: nat)
    requires sum == 0x1_0000_ffff
    ensures Folded(sum) != Residue(sum)
  {
    HalvesAreBits(sum);
    Carries(Fold(sum));
    FoldedIsResidue(sum);
  }

  lemma Carries(s: nat)
    requires s == 131071
    ensures Low(s) + High(s) == 65536
  {
  }

  // ---------------------------------------------------------------- the program

  /** What `csum` computes from the words of its buffer. */
  function Csum(data: seq<byte>): word {
    Complement(Folded(Total(Words(data))))
  }

  lemma {:induction false} WordsSnoc(data: seq<byte>, k: nat)
    requires k % 2 == 0 && k < |data|
    ensures k + 1 < |data| ==> Words(data[..k + 2]) == Words(data[..k]) + [LittleEndian(data[k], data[k + 1])]
    ensures Words(data[..k + 1]) == Words(data[..k]) + [LittleEndian(data[k], 0)]
    decreases k
  {
    if k == 0 {
      assert Words(data[..0]) == [] && data[..1][0] == data[0];
      if 1 < |data| { assert data[..2][2..] == []; }
    } else {
      WordsSnoc(data[2..], k - 2);
      assert data[..k][2..] == data[2..][..k - 2] && data[..k + 1][2..] == data[2..][..k - 1];
      if k + 1 < |data| { assert data[..k + 2][2..] == data[2..][..k]; }
    }
  }

  /** `csum` gives the checksum of RFC 1071. */
  ghost predicate Correct(data: seq<byte>) {
    Csum(data) == Complement(OnesSum(Words(data)))
  }

  /** The length alone guarantees a correct checksum up to 131076 bytes and no further. */
  lemma CorrectUpTo(n: nat)
    requires n <= 0x7fff_ffff
    ensures (forall data: seq<byte> {:trigger Correct(data)} :: |data| == n ==> Correct(data)) <==> n <= 131076
  {
    if n <= 131076 {
      forall data: seq<byte> | |data| == n ensures Correct(data) { ShortIsCorrect(data); }
    } else {
      CanFail(Worst(n));
    }
  }

  lemma ShortIsCorrect(data: seq<byte>)
    requires |data| <= 131076
    ensures Correct(data)
  {
    WordCount(data);
    FoldsToOnesSum(Words(data));
  }

  lemma FoldsToOnesSum(ws: seq<word>)
    ensures Total(ws) <= 0x1_0000_fffe ==> Folded(Total(ws)) == OnesSum(ws)
    ensures |ws| <= 65538 ==> Folded(Total(ws)) == OnesSum(ws)
  {
    TotalBound(ws);
    TwoFoldsSuffice(Total(ws));
    OnesSumIsResidue(ws);
  }

  // ---------------------------------------------------------------- buffers it gets wrong

  /** 131076 bytes 0xff, a byte 1, and zeros. */
  ghost predicate IsWorst(data: seq<byte>) {
    && |data| >= 131077
    && (forall i :: 0 <= i < 131076 ==> data[i] == 255)
    && data[131076] == 1
    && forall i :: 131077 <= i < |data| ==> data[i] == 0
  }

  function Worst(n: nat): (data: seq<byte>)
    requires n >= 131077
    ensures |data| == n && IsWorst(data)
  {
    seq(n, i => if i < 131076 then 255 else if i == 131076 then 1 else 0)
  }

  lemma {:induction false} FullPrefix(data: seq<byte>, k: nat)
    requires 2 * k <= |data| && forall i :: 0 <= i < 2 * k ==> data[i] == 255
    ensures Total(Words(data[..2 * k])) == 65535 * k
  {
    if k > 0 {
      FullPrefix(data, k - 1);
      WordsSnoc(data, 2 * k - 2);
    }
  }

  lemma {:induction false} ZerosAddNothing(data: seq<byte>, a: nat, b: nat)
    requires a <= b <= |data| && a % 2 == 0 && forall i :: a <= i < b ==> data[i] == 0
    ensures Total(Words(data[..b])) == Total(Words(data[..a]))
  {
    if b == a + 1 {
      ZeroWord(data, a);
    } else if a < b {
      var m := if b % 2 == 0 then b - 2 else b - 1;
      ZerosAddNothing(data, a, m);
      ZeroWord(data, m);
    }
  }

  lemma ZeroWord(data: seq<byte>, m: nat)
    requires m % 2 == 0 && m < |data| && data[m] == 0
    ensures Total(Words(data[..m + 1])) == Total(Words(data[..m]))
    ensures m + 1 < |data| && data[m + 1] == 0 ==> Total(Words(data[..m + 2])) == Total(Words(data[..m]))
  {
    WordsSnoc(data, m);
  }

  /** Such a buffer, of 131077 bytes or more, is summed wrongly. */
  lemma CanFail(data: seq<byte>)
    requires IsWorst(data)
    ensures !Correct(data)
  {
    var k := 131076;
    FullPrefix(data, 65538);
    WordsSnoc(data, k);
    OneMoreByte(data, k);
    assert data[..|data|] == data;
    OnesSumIsResidue(Words(data));
    TooFew(Total(Words(data)));
  }

  /** A byte 1 in an even place and zeros after it add 1 to the sum. */
  lemma OneMoreByte(data: seq<byte>, k: nat)
    requires k % 2 == 0 && k < |data| && data[k] == 1 && forall i :: k < i < |data| ==> data[i] == 0
    ensures Total(Words(data[..|data|])) == Total(Words(data[..k])) + 1
  {
    WordsSnoc(data, k);
    if k + 1 < |data| { ZerosAddNothing(data, k + 2, |data|); }
  }

  /** For every count that fits an `int`, `csum` is right exactly when the second fold does not carry. */
  lemma CorrectExactly(data: seq<byte>)
    requires |data| <= 0x7fff_ffff
    ensures Correct(data) <==> Low(Fold(Total(Words(data)))) + High(Fold(Total(Words(data)))) < 65536
  {
    SumFits(data);
    OnesSumIsResidue(Words(data));
    FoldedIsResidue(Total(Words(data)));
  }

  lemma SumFits(data: seq<byte>)
    ensures |data| <= 0x7fff_ffff ==> Total(Words(data)) < 0x4000_0000_0000
  {
    WordCount(data);
    TotalBound(Words(data));
  }

  // ---------------------------------------------------------------- the loop

  /** `csum` over the first `nbytes` bytes of a buffer; a negative count is an empty buffer. */
  method ComputeCsum(buf: array<byte>, nbytes: int) returns (answer: word)
    requires nbytes <= buf.Length
    ensures answer == Csum(buf[..if nbytes < 0 then 0 else nbytes])
    ensures nbytes <= 131076 ==> answer == Complement(OnesSum(Words(buf[..if nbytes < 0 then 0 else nbytes])))
  {
    var sum, ptr, left := 0, 0, nbytes;
    ghost var data := buf[..if nbytes < 0 then 0 else nbytes];
    while left > 1
      invariant ptr % 2 == 0 && 0 <= ptr <= |data| && left == nbytes - ptr
      invariant sum == Total(Words(data[..ptr]))
    {
      WordsSnoc(data, ptr);
      sum := sum + LittleEndian(buf[ptr], buf[ptr + 1]);
      ptr, left := ptr + 2, left - 2;
    }
    if left == 1 {
      WordsSnoc(data, ptr);
      sum := sum + LittleEndian(buf[ptr], 0);
      ptr := ptr + 1;
    }
    assert data[..ptr] == data;
    answer := FoldAndComplement(sum);
    if nbytes <= 131076 { ShortIsCorrect(data); }
  }

  /** The last three lines of `csum`. */
  method FoldAndComplement(sum: nat) returns (answer: word)
    ensures answer == Complement(Folded(sum))
  {
    var s := ShiftFold(sum);
    s := AddHigh(s);
    answer := TruncateComplement(s);
  }

  // ---------------------------------------------------------------- properties of the checksum

  /** The order of the words does not matter. */
  lemma {:induction false} OrderIndependent(a: seq<word>, b: seq<word>)
    requires multiset(a) == multiset(b)
    ensures Total(a) == Total(b) && OnesSum(a) == OnesSum(b)
  {
    TotalOfMultiset(a, b);
    OnesSumIsResidue(a);
    OnesSumIsResidue(b);
  }

  lemma {:induction false} TotalOfMultiset(a: seq<word>, b: seq<word>)
    requires multiset(a) == multiset(b)
    ensures Total(a) == Total(b)
    decreases |a|
  {
    if a == [] {
      assert |multiset(b)| == 0;
    } else {
      var n := |a| - 1;
      var i := IndexIn(a, b, n);
      var a', x, b1, b2 := a[..n], a[n], b[..i], b[i + 1..];
      assert a == a' + [x] && b == b1 + ([x] + b2);
      DropOne(a', b1, b2, x);
      SplitTotal(b1, x, b2);
      TotalOfMultiset(a', b1 + b2);
    }
  }

  lemma IndexIn<T>(a: seq<T>, b: seq<T>, n: nat) returns (i: nat)
    requires multiset(a) == multiset(b) && n < |a|
    ensures i < |b| && b[i] == a[n]
  {
    assert a[n] in multiset(a);
    i :| i < |b| && b[i] == a[n];
  }

  lemma DropOne<T>(a: seq<T>, b: seq<T>, d: seq<T>, x: T)
    requires multiset(a + [x]) == multiset(b + ([x] + d))
    ensures multiset(a) == multiset(b + d)
  {
    Cancel(multiset(a), multiset{}, multiset(b), multiset(d), multiset{x});
  }

  lemma Cancel<T>(a: multiset<T>, c: multiset<T>, b: multiset<T>, d: multiset<T>, x: multiset<T>)
    requires a + (x + c) == b + (x + d)
    ensures a + c == b + d
  {
    forall y ensures (a + c)[y] == (b + d)[y] { assert (a + (x + c))[y] == (b + (x + d))[y]; }
  }

  lemma SplitTotal(a: seq<word>, x: word, c: seq<word>)
    ensures Total(a + ([x] + c)) == Total(a + c) + x == Total(a) + x + Total(c)
  {
    TotalConcat(a, [x] + c);
    TotalConcat([x], c);
    TotalConcat(a, c);
    assert Total([x]) == x by { assert [x][..0] == []; }
  }

  /** Swapping the bytes of a word. */
  function Swap(w: word): word {
    LittleEndian(w / 256, w % 256)
  }

  function SwapAll(ws: seq<word>): (r: seq<word>)
    ensures |r| == |ws|
  {
    if ws == [] then [] else SwapAll(ws[..|ws| - 1]) + [Swap(ws[|ws| - 1])]
  }

  lemma {:induction false} SwapTotal(ws: seq<word>) returns (h: nat)
    ensures Total(SwapAll(ws)) + 65535 * h == 256 * Total(ws)
    ensures Total(SwapAll(ws)) == 0 <==> Total(ws) == 0
  {
    h := 0;
    if ws != [] {
      var n := |ws| - 1;
      var h' := SwapTotal(ws[..n]);
      h := h' + ws[n] / 256;
      assert SwapAll(ws)[..n] == SwapAll(ws[..n]);
    }
  }

  /** Section 2(B) of RFC 1071: in the other byte order the sum comes out byte-swapped. */
  lemma ByteOrderIndependent(ws: seq<word>)
    ensures OnesSum(SwapAll(ws)) == Swap(OnesSum(ws))
  {
    OnesSumIsResidue(ws);
    OnesSumIsResidue(SwapAll(ws));
    var h := SwapTotal(ws);
    SwapResidue(Total(ws), Total(SwapAll(ws)), h);
  }

  lemma SwapResidue(t: nat, u: nat, h: nat)
    requires u + 65535 * h == 256 * t && (u == 0 <==> t == 0)
    ensures Residue(u) == Swap(Residue(t))
  {
    if t > 0 {
      var r := Residue(t);
      var q := CastOut(t);
      var s := Swap(r);
      assert 256 * r == s + 65535 * (r / 256);
      var k := 256 * q + r / 256 - h;
      assert u == s + 65535 * k;
      if k >= 0 { SameResidue(s, k); }
    }
  }

  lemma {:induction false} CastOut(t: nat) returns (q: nat)
    ensures t == Residue(t) + 65535 * q && (t > 0 ==> Residue(t) > 0)
  {
    q := 0;
    if t >= 65536 {
      q := CastOut(t - 65535);
      q := q + 1;
    }
  }

  // ---------------------------------------------------------------- verifying

  /** The buffer with a 16-bit word stored at word index `i`. */
  function Store(data: seq<byte>, i: nat, w: word): (r: seq<byte>)
    requires 2 * i + 1 < |data|
    ensures |r| == |data|
  {
    data[2 * i := w % 256][2 * i + 1 := w / 256]
  }

  /** Word `j` is made of bytes `2j` and `2j + 1`. */
  lemma {:induction false} WordAt(data: seq<byte>, j: nat)
    requires 2 * j < |data|
    ensures j < |Words(data)|
    ensures Words(data)[j] == LittleEndian(data[2 * j], if 2 * j + 1 < |data| then data[2 * j + 1] else 0)
    decreases j
  {
    if j > 0 { WordAt(data[2..], j - 1); }
  }

  lemma StoreIsUpdate(data: seq<byte>, i: nat, w: word)
    requires 2 * i + 1 < |data|
    ensures i < |Words(data)| && Words(Store(data, i, w)) == Words(data)[i := w]
    ensures Words(data)[i] == LittleEndian(data[2 * i], data[2 * i + 1])
  {
    var data' := Store(data, i, w);
    WordAt(data, i);
    WordCount(data);
    WordCount(data');
    forall j | 0 <= j < |Words(data)| ensures Words(data')[j] == Words(data)[i := w][j] {
      WordAt(data, j);
      WordAt(data', j);
      StoreKeeps(data, i, w, j);
    }
  }

  lemma StoreKeeps(data: seq<byte>, i: nat, w: word, j: nat)
    requires 2 * i + 1 < |data| && 2 * j < |data|
    ensures i == j ==> LittleEndian(Store(data, i, w)[2 * j], Store(data, i, w)[2 * j + 1]) == w
    ensures i != j ==> Store(data, i, w)[2 * j] == data[2 * j]
    ensures i != j && 2 * j + 1 < |data| ==> Store(data, i, w)[2 * j + 1] == data[2 * j + 1]
  {
  }

  lemma FillsUp(t: nat)
    ensures Residue(t + (65535 - Residue(t))) == 65535
  {
    var q := CastOut(t);
    SameResidue(65535, q);
  }

  /** A checksum stored in an aligned zero word makes the checksum of the whole come out 0
      exactly when the stored checksum was correct. With at most 131078 bytes, two of them
      zero, it always is. */
  lemma StoredChecksumVerifies(data: seq<byte>, i: nat)
    requires 2 * i + 1 < |data| <= 0x7fff_ffff && data[2 * i] == data[2 * i + 1] == 0
    ensures Csum(Store(data, i, Csum(data))) == 0 <==> Correct(data)
    ensures |data| <= 131078 ==> Correct(data)
  {
    var t, t' := Total(Words(data)), Total(Words(Store(data, i, Csum(data))));
    StoredSum(data, i, Csum(data));
    SumFits(data);
    OnesSumIsResidue(Words(data));
    VerifiesWhen(t, t');
    if |data| <= 131078 { ZeroWordIsCorrect(data, i); }
  }

  /** Storing a word in place of zero adds it to the sum. */
  lemma StoredSum(data: seq<byte>, i: nat, c: word)
    requires 2 * i + 1 < |data| <= 0x7fff_ffff && data[2 * i] == data[2 * i + 1] == 0
    ensures Total(Words(Store(data, i, c))) == Total(Words(data)) + c < 0x4000_0000_0000
  {
    StoreIsUpdate(data, i, c);
    TotalUpdate(Words(data), i, c);
    SumFits(Store(data, i, c));
  }

  lemma VerifiesWhen(t: nat, t': nat)
    requires t' == t + Complement(Folded(t)) < 0x4000_0000_0000
    ensures Complement(Folded(t')) == 0 <==> Folded(t) == Residue(t)
  {
    FoldedOnes(t');
    FillsUpExactly(t);
  }

  lemma ZeroWordIsCorrect(data: seq<byte>, i: nat)
    requires 2 * i + 1 < |data| <= 131078 && data[2 * i] == data[2 * i + 1] == 0
    ensures Correct(data)
  {
    WordCount(data);
    StoreIsUpdate(data, i, 0);
    ZeroWordTotal(Words(data), i);
    FoldsToOnesSum(Words(data));
  }

  lemma ZeroWordTotal(ws: seq<word>, i: nat)
    requires i < |ws| && ws[i] == 0
    ensures Total(ws) <= 65535 * (|ws| - 1)
  {
    TotalUpdate(ws, i, 65535);
    TotalBound(ws[i := 65535]);
  }

  /** What the second fold leaves: the one's complement value, or one less if a carry is lost. */
  lemma FoldedUp(t: nat)
    ensures t < 0x4000_0000_0000 ==>
      var u := Low(Fold(t)) + High(Fold(t));
      && u < 131070 && Folded(t) == Low(u) && Residue(t) == Residue(u)
  {
    HighBound(t, 0x4000_0000);
    HighBound(Fold(t), 65535);
    FoldKeepsResidue(t);
    FoldKeepsResidue(Fold(t));
    Halves(Fold(t));
    LowShift(Low(Fold(t)) + High(Fold(t)), High(Fold(t)));
  }

  lemma LostCarry(u: nat)
    ensures u < 131070 ==> Low(u) == if u < 65536 then Residue(u) else Residue(u) - 1
    ensures u < 131070 ==> (Low(u) == 65535 <==> Residue(u) == 65535)
  {
  }

  lemma FoldedOnes(t: nat)
    ensures t < 0x4000_0000_0000 ==> (Folded(t) == 65535 <==> Residue(t) == 65535)
    ensures t < 0x4000_0000_0000 ==> Folded(t) == Residue(t) || Folded(t) == Residue(t) - 1
  {
    FoldedUp(t);
    LostCarry(Low(Fold(t)) + High(Fold(t)));
  }

  lemma FillsUpExactly(t: nat)
    ensures t < 0x4000_0000_0000 ==>
      (Residue(t + Complement(Folded(t))) == 65535 <==> Folded(t) == Residue(t))
  {
    FoldedOnes(t);
    FillsUp(t);
    var q := CastOut(t);
    SameResidue(65536, q);
  }
}

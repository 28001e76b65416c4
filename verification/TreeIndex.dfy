/** Which tree bin holds a size, computed by the portable bit trick, and what it means. */
module TreeIndex {
  import opened Words

  const NTREEBINS := 32

  /** One step of the search in compute_tree_index: mask if y is below c, told by the borrow of a 32-bit subtraction. */
  function Borrow(y: nat, c: nat, mask: nat): nat
    requires mask > 0
  {
    (((y - c) % 0x1_0000_0000) / 0x1_0000) / mask % 2 * mask
  }

  /** A left shift, for the amounts the search uses. */
  function Shift(y: nat, n: nat): nat {
    if n == 8 then y * 256 else if n == 4 then y * 16 else if n == 2 then y * 4 else y
  }

  /** The binary search of compute_tree_index for the top binary digit of a 16-bit number. */
  function TopDigit(x: nat): int {
    var n := Borrow(x, 0x100, 8);
    var y := Shift(x, n);
    var k := Borrow(y, 0x1000, 4);
    var y' := Shift(y, k);
    var k' := Borrow(y', 0x4000, 2);
    14 - (n + k + k') + Shift(y', k') / 0x8000
  }

  /** The tree bin of a chunk size. */
  function ComputeTreeIndex(s: nat): nat {
    var x := s / 256;
    if x == 0 then 0
    else if x > 0xFFFF then NTREEBINS - 1
    else
      TopDigitRange(x);
      IndexAt(s, TopDigit(x))
  }

  /** Two bins for each power of two, told apart by the next digit. */
  function IndexAt(s: nat, k: nat): nat {
    2 * k + s / Pow2(k + 7) % 2
  }

  /** The size of the smallest chunk held in bin i. */
  function MinSize(i: nat): nat {
    Pow2(i / 2 + 8) + if i % 2 == 1 then Pow2(i / 2 + 7) else 0
  }

  lemma BorrowTells(y: nat, c: nat, mask: nat)
    requires y <= 0xFFFF && 0 < c <= 0x4000 && mask in {2, 4, 8}
    ensures Borrow(y, c, mask) == if y < c then mask else 0
  {
  }

  lemma SmallPowers()
    ensures Pow2(0) == 1 && Pow2(1) == 2 && Pow2(2) == 4 && Pow2(3) == 8 && Pow2(4) == 16 && Pow2(5) == 32
    ensures Pow2(6) == 64 && Pow2(7) == 128 && Pow2(8) == 256 && Pow2(9) == 512 && Pow2(10) == 1024
    ensures Pow2(11) == 2048 && Pow2(12) == 4096 && Pow2(13) == 8192 && Pow2(14) == 0x4000
    ensures Pow2(15) == 0x8000 && Pow2(16) == 0x1_0000
  {
    Pow2Plus8(8);
  }

  /** The digit the search finds, range by range. */
  lemma TopDigitCases(x: nat)
    requires 0 < x <= 0xFFFF
    ensures TopDigit(x) ==
            if x < 2 then 0 else if x < 4 then 1 else if x < 8 then 2 else if x < 16 then 3
            else if x < 32 then 4 else if x < 64 then 5 else if x < 128 then 6 else if x < 256 then 7
            else if x < 512 then 8 else if x < 1024 then 9 else if x < 2048 then 10
            else if x < 4096 then 11 else if x < 8192 then 12 else if x < 0x4000 then 13
            else if x < 0x8000 then 14 else 15
  {
    var y := if x < 0x100 then x * 256 else x;
    var y' := if y < 0x1000 then y * 16 else y;
    BorrowTells(x, 0x100, 8);
    BorrowTells(y, 0x1000, 4);
    BorrowTells(y', 0x4000, 2);
  }

  lemma TopDigitRange(x: nat)
    requires 0 < x <= 0xFFFF
    ensures 0 <= TopDigit(x) < 16
    ensures Pow2(TopDigit(x)) <= x < Pow2(TopDigit(x) + 1)
  {
    hide TopDigit;
    TopDigitCases(x);
    SmallPowers();
  }

  /** Where the half-power digit puts a size: above or below one and a half powers of two. */
  lemma HalfDigit(s: nat, half: nat)
    requires half > 0 && 2 * half <= s < 4 * half
    ensures s / half % 2 == if s < 3 * half then 0 else 1
  {
    assert s / half == if s < 3 * half then 2 else 3 by {
      var q, r := s / half, s % half;
      assert s == q * half + r;
    }
  }

  lemma TwoSizes(k: nat)
    ensures MinSize(2 * k) == 2 * Pow2(k + 7)
    ensures MinSize(2 * k + 1) == 3 * Pow2(k + 7)
    ensures MinSize(2 * k + 2) == 4 * Pow2(k + 7)
  {
    assert Pow2(k + 9) == 2 * Pow2(k + 8);
  }

  lemma IndexAtRange(s: nat, k: nat)
    requires k < 16 && Pow2(k) <= s / 256 < Pow2(k + 1)
    ensures IndexAt(s, k) < NTREEBINS
    ensures MinSize(IndexAt(s, k)) <= s < MinSize(IndexAt(s, k) + 1)
  {
    var half := Pow2(k + 7);
    Pow2Plus8(k);
    Pow2Plus8(k + 1);
    assert 2 * half <= s < 4 * half by { assert Pow2(k + 9) == 4 * half; }
    HalfDigit(s, half);
    assert IndexAt(s, k) == if s < 3 * half then 2 * k else 2 * k + 1;
    TwoSizes(k);
  }

  /** The tree bins partition the large sizes into consecutive ranges. */
  lemma TreeIndexRange(s: nat)
    requires s >= MIN_LARGE_SIZE
    ensures ComputeTreeIndex(s) < NTREEBINS
    ensures MinSize(ComputeTreeIndex(s)) <= s
    ensures ComputeTreeIndex(s) < NTREEBINS - 1 ==> s < MinSize(ComputeTreeIndex(s) + 1)
  {
    hide TopDigit;
    var x := s / 256;
    if x > 0xFFFF {
      TwoSizes(15);
      SmallPowers();
      Pow2Plus8(14);
    } else {
      TopDigitRange(x);
      IndexAtRange(s, TopDigit(x));
    }
  }

  lemma {:induction false} MinSizeLess(i: nat, j: nat)
    requires i < j
    ensures MinSize(i) < MinSize(j)
    decreases j
  {
    TwoSizes((j - 1) / 2);
    hide MinSize;
    if i < j - 1 { MinSizeLess(i, j - 1); }
  }

  /** Bins come in size order: a chunk of an earlier bin is smaller than one of a later bin. */
  lemma IndexOrder(s: nat, s': nat)
    requires s >= MIN_LARGE_SIZE && s' >= MIN_LARGE_SIZE
    requires ComputeTreeIndex(s) < ComputeTreeIndex(s')
    ensures s < s'
  {
    hide ComputeTreeIndex;
    TreeIndexRange(s);
    TreeIndexRange(s');
    var i, j := ComputeTreeIndex(s), ComputeTreeIndex(s');
    if i + 1 < j { MinSizeLess(i + 1, j); }
  }

  // ---- the sizes of a bin and the digits that tell them apart

  /** Bin i covers the sizes BinLow(i) <= s < BinLow(i) + 2^BinDigits(i). */
  function BinLow(i: nat): nat { if i == NTREEBINS - 1 then 0 else MinSize(i) }

  function BinDigits(i: nat): nat { if i == NTREEBINS - 1 then 64 else i / 2 + 7 }

  /** leftshift_for_tree_index: puts the first digit of interest in the sign position. */
  function LeftShift(i: nat): nat
    requires i < NTREEBINS
  {
    if i == NTREEBINS - 1 then 0 else 63 - (i / 2 + 8 - 2)
  }

  lemma BinHolds(s: nat)
    requires MIN_LARGE_SIZE <= s < WORD
    ensures ComputeTreeIndex(s) < NTREEBINS
    ensures BinLow(ComputeTreeIndex(s)) <= s < BinLow(ComputeTreeIndex(s)) + Pow2(BinDigits(ComputeTreeIndex(s)))
  {
    hide ComputeTreeIndex;
    TreeIndexRange(s);
    var i := ComputeTreeIndex(s);
    if i == NTREEBINS - 1 {
      Pow2OfWord(BinDigits(i));
    } else {
      TwoSizes(i / 2);
      hide MinSize;
      assert i == 2 * (i / 2) || i == 2 * (i / 2) + 1;
    }
  }

  /** `bits` holds, left-aligned, the k low digits of s that are left to inspect. */
  ghost predicate Aligned(bits: nat, s: nat, lo: nat, k: nat) {
    lo <= s && k <= 64 && bits == (s - lo) * Pow2(64 - k)
  }

  /** The word `S << leftshift_for_tree_index(I)` lines up the digits of its bin. */
  lemma FirstDigits(s: nat)
    requires MIN_LARGE_SIZE <= s < WORD
    ensures var i := ComputeTreeIndex(s);
            i < NTREEBINS && Aligned(Wrap(s * Pow2(LeftShift(i))), s, BinLow(i), BinDigits(i))
  {
    hide ComputeTreeIndex;
    BinHolds(s);
    var i := ComputeTreeIndex(s);
    var k, lo, m := BinDigits(i), BinLow(i), Pow2(LeftShift(i));
    assert LeftShift(i) == 64 - k;
    Pow2OfWord(64);
    Pow2Add(64 - k, k);
    var q := if i == NTREEBINS - 1 then 0 else if i % 2 == 0 then 2 else 3;
    assert lo == q * Pow2(k) by { TwoSizes(i / 2); }
    WrapMultiple(s, lo, q, m, Pow2(k));
  }

  lemma WrapMultiple(s: nat, lo: nat, q: nat, m: nat, w: nat)
    requires m * w == WORD && lo == q * w && lo <= s < lo + w && m > 0
    ensures Wrap(s * m) == (s - lo) * m
  {
    assert s * m == (s - lo) * m + lo * m;
    assert lo * m == q * WORD;
    assert (s - lo) * m < w * m;
    RemainderIs(s * m, q, (s - lo) * m);
  }

  lemma RemainderIs(x: nat, q: nat, r: nat)
    requires r < WORD && x == q * WORD + r
    ensures x % WORD == r
  {
  }

  lemma MulMono(a: nat, b: nat, m: nat)
    requires a <= b
    ensures a * m <= b * m
  {
  }

  lemma TopHalf(x: nat, d: nat, m: nat, half: nat)
    requires x == d * m && m * half == WORD / 2 && d < 2 * half && m > 0
    ensures x < WORD && (WORD / 2 <= x <==> half <= d)
  {
    MulMono(d + 1, 2 * half, m);
    if half <= d { MulMono(half, d, m); } else { MulMono(d + 1, half, m); }
  }

  lemma ShiftOut(x: nat, d: nat, m: nat, half: nat)
    requires x == d * m && m * half == WORD / 2
    ensures d * (2 * m) == 2 * x
    ensures (d - half) * (2 * m) == 2 * x - WORD
  {
    assert (d - half) * (2 * m) == d * (2 * m) - half * (2 * m);
    assert half * (2 * m) == 2 * (m * half);
  }

  lemma SignDigit(x: nat)
    requires x < WORD
    ensures x / (WORD / 2) == 1 <==> WORD / 2 <= x
    ensures Wrap(2 * x) == if WORD / 2 <= x then 2 * x - WORD else 2 * x
  {
  }

  lemma HalfProduct(k: nat)
    requires 0 < k <= 64
    ensures Pow2(64 - k) * Pow2(k - 1) == WORD / 2
    ensures Pow2(64 - (k - 1)) == 2 * Pow2(64 - k)
    ensures Pow2(k) == 2 * Pow2(k - 1)
  {
    var bits := 64;
    Pow2OfWord(bits);
    Pow2Add(64 - k, k - 1);
  }

  /** The sign digit names the half of the range, and shifting it out leaves the digits of that half. */
  lemma NextDigit(bits: nat, s: nat, lo: nat, k: nat)
    requires Aligned(bits, s, lo, k) && 0 < k && s < lo + Pow2(k)
    ensures bits < WORD && (bits / (WORD / 2) == 1 <==> lo + Pow2(k - 1) <= s)
    ensures Aligned(Wrap(2 * bits), s, if lo + Pow2(k - 1) <= s then lo + Pow2(k - 1) else lo, k - 1)
  {
    var m, half, d := Pow2(64 - k), Pow2(k - 1), s - lo;
    HalfProduct(k);
    TopHalf(bits, d, m, half);
    ShiftOut(bits, d, m, half);
    SignDigit(bits);
    hide Wrap, Pow2;
  }

  // ---- the x86 form

  /** 31 - clz(x): the place of the top binary digit. */
  function TopBit(x: nat): nat {
    if x < 2 then 0 else 1 + TopBit(x / 2)
  }

  const TERABYTE := 0x100_0000_0000    // 2^40

  /** compute_tree_index as GNU compilers build it for x86, where the shifted size is cut to 32 bits. */
  function X86TreeIndex(s: nat): nat {
    var x := s / 256 % 0x1_0000_0000;
    if x == 0 then 0
    else if x > 0xFFFF then NTREEBINS - 1
    else IndexAt(s, TopBit(x))
  }

  lemma {:induction false} TopBitRange(x: nat)
    requires x > 0
    ensures Pow2(TopBit(x)) <= x < Pow2(TopBit(x) + 1)
  {
    if x >= 2 {
      TopBitRange(x / 2);
      assert Pow2(TopBit(x)) == 2 * Pow2(TopBit(x / 2)) && Pow2(TopBit(x) + 1) == 2 * Pow2(TopBit(x / 2) + 1);
    }
  }

  /** Both forms find the same digit. */
  lemma SameDigit(x: nat)
    requires 0 < x <= 0xFFFF
    ensures TopBit(x) == TopDigit(x)
  {
    hide TopDigit, Pow2;
    TopBitRange(x);
    TopDigitRange(x);
    if TopBit(x) + 1 < TopDigit(x) {
      Pow2Less(TopBit(x) + 1, TopDigit(x));
    }
    if TopDigit(x) + 1 < TopBit(x) {
      Pow2Less(TopDigit(x) + 1, TopBit(x));
    }
  }

  lemma PowForty()
    ensures Pow2(40) == TERABYTE
  {
    var bits := 32;
    Pow2OfWord(bits);
    Pow2Plus8(bits);
  }

  /** Multiples of an even number of p's do not change the digit at p. */
  lemma EvenMultiple(t: nat, h: nat, e: nat, p: nat)
    requires p > 0
    ensures (t + h * (2 * e * p)) / p % 2 == t / p % 2
  {
    var q, r := t / p, t % p;
    var n := q + 2 * (h * e);
    assert t + h * (2 * e * p) == n * p + r by {
      assert h * (2 * e * p) == 2 * (h * e) * p;
    }
    UniqueRemainder(t + h * (2 * e * p), n, r, p);
  }

  /** The digits that matter are below the cut. */
  lemma CutDigits(s: nat, k: nat)
    requires k < 16
    ensures IndexAt(s, k) == IndexAt(s % TERABYTE, k)
  {
    var p, e := Pow2(k + 7), Pow2(32 - k);
    PowForty();
    Pow2Add(33 - k, k + 7);
    assert Pow2(33 - k) == 2 * e;
    hide Pow2;
    var h, t := s / TERABYTE, s % TERABYTE;
    assert s == t + h * (2 * e * p);
    EvenMultiple(t, h, e, p);
  }

  lemma CutShift(s: nat)
    ensures s / 256 % 0x1_0000_0000 == s % TERABYTE / 256
  {
  }

  /** The x86 form gives the bin of the size without its digits from 2^40 on. So it agrees with the portable form just
      for sizes below that, and for those whose other digits belong to the last bin as well. */
  lemma X86Agrees(s: nat)
    ensures X86TreeIndex(s) == ComputeTreeIndex(s % TERABYTE)
    ensures X86TreeIndex(s) == ComputeTreeIndex(s) <==> s < TERABYTE || s % TERABYTE >= MinSize(NTREEBINS - 1)
  {
    hide TopDigit, TopBit, IndexAt, MinSize;
    var t := s % TERABYTE;
    var x := t / 256;
    CutShift(s);
    if 0 < x <= 0xFFFF {
      SameDigit(x);
      TopDigitRange(x);
      CutDigits(s, TopBit(x));
    }
    LastBin(t);
  }

  lemma LastBin(t: nat)
    ensures ComputeTreeIndex(t) == NTREEBINS - 1 <==> t >= MinSize(NTREEBINS - 1)
  {
    hide ComputeTreeIndex;
    SmallPowers();
    Pow2Plus8(14);
    TwoSizes(15);
    if t >= MIN_LARGE_SIZE {
      TreeIndexRange(t);
      if ComputeTreeIndex(t) < NTREEBINS - 2 {
        MinSizeLess(ComputeTreeIndex(t) + 1, NTREEBINS - 1);
      }
    } else {
      SmallIndex(t);
    }
  }

  lemma SmallIndex(t: nat)
    requires t < MIN_LARGE_SIZE
    ensures ComputeTreeIndex(t) == 0
  {
  }

  /** A chunk of 2^40 bytes: the x86 form files it with the smallest. */
  lemma X86Misfiles()
    ensures X86TreeIndex(TERABYTE) == 0 && ComputeTreeIndex(TERABYTE) == NTREEBINS - 1
  {
  }
}

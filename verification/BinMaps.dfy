/**
 The bin maps of malloc_state: 32-bit words with one bit per bin, read and written with
 word tricks. A word is a number below 2^32; the bitwise operators work on its binary digits,
 and negation and left shift wrap.
 */
module BinMaps {
  import opened Words

  const NBINS := 32
  const MAP_LIMIT := 0x1_0000_0000    // 2^32

  /** A bin map word. */
  type BinMap = m: nat | m < MAP_LIMIT

  predicate Bit(x: nat, i: nat) {
    if i == 0 then x % 2 == 1 else Bit(x / 2, i - 1)
  }

  function And(x: nat, y: nat): (r: nat)
    ensures r <= x
  {
    if x == 0 || y == 0 then 0 else (x % 2) * (y % 2) + 2 * And(x / 2, y / 2)
  }

  function Or(x: nat, y: nat): nat {
    if x == 0 then y else if y == 0 then x
    else (if x % 2 == 1 || y % 2 == 1 then 1 else 0) + 2 * Or(x / 2, y / 2)
  }

  function Not(x: BinMap): BinMap { MAP_LIMIT - 1 - x }

  function Neg(x: BinMap): BinMap { (MAP_LIMIT - x) % MAP_LIMIT }

  function Double(x: BinMap): BinMap { (2 * x) % MAP_LIMIT }

  function ShiftLeft(x: BinMap, n: nat): BinMap
    decreases n
  {
    if n == 0 then x else ShiftLeft(Double(x), n - 1)
  }

  function ShiftRight(x: nat, n: nat): (r: nat)
    ensures r <= x
    decreases n
  {
    if n == 0 then x else ShiftRight(x / 2, n - 1)
  }

  function IdxToBit(i: nat): BinMap
    requires i < NBINS
  {
    Pow2OfWord(NBINS);
    Pow2Less(i, NBINS);
    Pow2(i)
  }

  function Mark(m: BinMap, i: nat): nat
    requires i < NBINS
  {
    Or(m, IdxToBit(i))
  }

  function Clear(m: BinMap, i: nat): BinMap
    requires i < NBINS
  {
    And(m, Not(IdxToBit(i)))
  }

  /** Isolates the least set bit. */
  function LeastBit(x: BinMap): BinMap { And(x, Neg(x)) }

  /** All bits to the left of the least set bit. */
  function LeftBits(x: BinMap): nat {
    Or(Double(x), Neg(Double(x)))
  }

  /** Digit k of y, scaled to k: the step `Y >> (k - log k) & k` of compute_bit2idx. */
  function Step(y: nat, k: nat): nat {
    if Bit(y, k) then k else 0
  }

  function Search(y: nat, k: nat): nat
    decreases k
  {
    if k == 0 then y else Step(y, k) + Search(ShiftRight(y, Step(y, k)), k / 2)
  }

  /** The portable form of compute_bit2idx: a binary search over a one-bit word. */
  function BitToIdx(x: BinMap): nat {
    Search((x - 1) % MAP_LIMIT, NBINS / 2)
  }

  /** The bins a map marks as non-empty. */
  ghost function Bits(m: nat): set<nat> {
    set i: nat | i < NBINS && Bit(m, i)
  }

  // ---- bitwise operators, digit by digit

  lemma {:induction false} BitZero(i: nat)
    ensures !Bit(0, i)
  {
    if i > 0 { BitZero(i - 1); }
  }

  lemma {:induction false} BitAnd(x: nat, y: nat, i: nat)
    ensures Bit(And(x, y), i) <==> Bit(x, i) && Bit(y, i)
    decreases i
  {
    BitZero(i);
    if x > 0 && y > 0 && i > 0 { BitAnd(x / 2, y / 2, i - 1); }
  }

  lemma {:induction false} BitOr(x: nat, y: nat, i: nat)
    ensures Bit(Or(x, y), i) <==> Bit(x, i) || Bit(y, i)
    decreases i
  {
    BitZero(i);
    if x > 0 && y > 0 && i > 0 { BitOr(x / 2, y / 2, i - 1); }
  }

  lemma {:induction false} BitPow2(i: nat, j: nat)
    ensures Bit(Pow2(i), j) <==> i == j
  {
    if i == 0 && j > 0 {
      BitZero(j - 1);
    } else if i > 0 && j > 0 {
      assert Pow2(i) / 2 == Pow2(i - 1);
      BitPow2(i - 1, j - 1);
    }
  }

  lemma {:induction false} BitNot(w: nat, x: nat, i: nat)
    requires x < Pow2(w) && i < w
    ensures Bit(Pow2(w) - 1 - x, i) <==> !Bit(x, i)
    decreases w
  {
    if i > 0 {
      assert (Pow2(w) - 1 - x) / 2 == Pow2(w - 1) - 1 - x / 2;
      BitNot(w - 1, x / 2, i - 1);
    }
  }

  lemma {:induction false} BitRun(w: nat, k: nat, i: nat)
    requires k <= w && i < w
    ensures Pow2(k) <= Pow2(w)
    ensures Bit(Pow2(w) - Pow2(k), i) <==> k <= i
    decreases w
  {
    if k < w { Pow2Less(k, w); }
    if k == 0 {
      BitZero(i);
      BitNot(w, 0, i);
    } else if i > 0 {
      assert (Pow2(w) - Pow2(k)) / 2 == Pow2(w - 1) - Pow2(k - 1);
      BitRun(w - 1, k - 1, i - 1);
    }
  }

  lemma {:induction false} AndNot(w: nat, x: nat)
    requires x < Pow2(w)
    ensures And(x, Pow2(w) - 1 - x) == 0
    decreases w
  {
    if w > 0 {
      assert (Pow2(w) - 1 - x) / 2 == Pow2(w - 1) - 1 - x / 2;
      AndNot(w - 1, x / 2);
    }
  }

  lemma {:induction false} OrBound(w: nat, x: nat, y: nat)
    requires x < Pow2(w) && y < Pow2(w)
    ensures Or(x, y) < Pow2(w)
    decreases w
  {
    if x > 0 && y > 0 { OrBound(w - 1, x / 2, y / 2); }
  }

  // ---- what the map macros do to the set of marked bins

  /** Marking and clearing bin i change its bit and no other. */
  lemma MarkBits(m: BinMap, i: nat)
    requires i < NBINS
    ensures Mark(m, i) < MAP_LIMIT
    ensures Bits(Mark(m, i)) == Bits(m) + {i}
    ensures Bits(Clear(m, i)) == Bits(m) - {i}
  {
    Pow2OfWord(NBINS);
    Pow2Less(i, NBINS);
    OrBound(NBINS, m, Pow2(i));
    forall j: nat | j < NBINS
      ensures Bit(Mark(m, i), j) <==> Bit(m, j) || j == i
      ensures Bit(Clear(m, i), j) <==> Bit(m, j) && j != i
    {
      BitPow2(i, j);
      BitOr(m, Pow2(i), j);
      BitNot(NBINS, Pow2(i), j);
      BitAnd(m, Not(Pow2(i)), j);
    }
  }

  /** x & -x is the power of two at the lowest set digit. */
  lemma {:induction false} LowestDigit(w: nat, x: nat) returns (i: nat)
    requires 0 < x < Pow2(w)
    ensures i < w && Bit(x, i) && And(x, Pow2(w) - x) == Pow2(i)
    ensures forall j: nat :: j < i ==> !Bit(x, j)
    decreases w
  {
    if x % 2 == 1 {
      i := 0;
      assert (Pow2(w) - x) / 2 == Pow2(w - 1) - 1 - x / 2;
      AndNot(w - 1, x / 2);
    } else {
      i := LowestDigit(w - 1, x / 2);
      assert (Pow2(w) - x) / 2 == Pow2(w - 1) - x / 2;
      i := i + 1;
    }
  }

  lemma {:induction false} ShiftRun(i: nat, k: nat)
    requires k <= i
    ensures ShiftRight(Pow2(i) - 1, k) == Pow2(i - k) - 1
    decreases k
  {
    if k > 0 {
      assert (Pow2(i) - 1) / 2 == Pow2(i - 1) - 1;
      ShiftRun(i - 1, k - 1);
    }
  }

  lemma {:induction false} BitOfRun(i: nat, k: nat)
    ensures Bit(Pow2(i) - 1, k) <==> k < i
  {
    if i == 0 {
      BitZero(k);
    } else if k > 0 {
      assert (Pow2(i) - 1) / 2 == Pow2(i - 1) - 1;
      BitOfRun(i - 1, k - 1);
    }
  }

  lemma {:induction false} SearchRun(i: nat, k: nat)
    requires i <= 2 * k && k in {1, 2, 4, 8, 16}
    ensures Search(Pow2(i) - 1, k) == i
    decreases k
  {
    BitOfRun(i, k);
    if k < i { ShiftRun(i, k); }
    var rest := if k < i then i - k else i;
    if k > 1 { SearchRun(rest, k / 2); }
  }

  lemma BitToIdxOfBit(i: nat)
    requires i < NBINS
    ensures BitToIdx(IdxToBit(i)) == i
  {
    var half := NBINS / 2;
    assert IdxToBit(i) - 1 == (IdxToBit(i) - 1) % MAP_LIMIT;
    SearchRun(i, half);
  }

  /** compute_bit2idx of least_bit is the lowest non-empty bin. */
  lemma LeastIndex(m: BinMap)
    requires m != 0
    ensures BitToIdx(LeastBit(m)) in Bits(m)
    ensures forall j :: j in Bits(m) ==> BitToIdx(LeastBit(m)) <= j
  {
    hide BitToIdx;
    Pow2OfWord(NBINS);
    var i := LowestDigit(NBINS, m);
    assert LeastBit(m) == IdxToBit(i);
    BitToIdxOfBit(i);
  }

  lemma NoBits(m: BinMap)
    ensures m == 0 <==> Bits(m) == {}
  {
    if m != 0 {
      LeastIndex(m);
    } else {
      forall j: nat { BitZero(j); }
    }
  }

  lemma DoubleBit(i: nat)
    requires i < NBINS
    ensures Pow2(i + 1) <= Pow2(NBINS)
    ensures Double(IdxToBit(i)) == if i == 31 then 0 else Pow2(i + 1)
    ensures Neg(Double(IdxToBit(i))) == if i == 31 then 0 else Pow2(NBINS) - Pow2(i + 1)
  {
    Pow2OfWord(NBINS);
    if i < 31 { Pow2Less(i + 1, NBINS); }
  }

  lemma BitLeft(i: nat, j: nat)
    requires i < NBINS && j < NBINS
    ensures Bit(LeftBits(IdxToBit(i)), j) <==> i < j
  {
    var x := Double(IdxToBit(i));
    DoubleBit(i);
    BitOr(x, Neg(x), j);
    BitZero(j);
    BitPow2(i + 1, j);
    BitRun(NBINS, i + 1, j);
  }

  /** left_bits selects exactly the bins after i. */
  lemma BitsLeftOf(m: BinMap, i: nat)
    requires i < NBINS
    ensures Bits(And(m, LeftBits(IdxToBit(i)))) == set j | j in Bits(m) && i < j
  {
    forall j: nat | j < NBINS
      ensures Bit(And(m, LeftBits(IdxToBit(i))), j) <==> Bit(m, j) && i < j
    {
      BitAnd(m, LeftBits(IdxToBit(i)), j);
      BitLeft(i, j);
    }
  }

  // ---- tests on a map

  /** smallmap_is_marked and treemap_is_marked. */
  predicate IsMarked(m: BinMap, i: nat)
    requires i < NBINS
  {
    And(m, IdxToBit(i)) != 0
  }

  lemma {:induction false} AndPow2(x: nat, i: nat)
    ensures And(x, Pow2(i)) == if Bit(x, i) then Pow2(i) else 0
  {
    if i == 0 {
      AndZero(x / 2);
    } else {
      if x > 0 { AndPow2(x / 2, i - 1); } else { BitZero(i); }
    }
  }

  lemma AndZero(x: nat)
    ensures And(x, 0) == 0
  {
  }

  lemma IsMarkedBit(m: BinMap, i: nat)
    requires i < NBINS
    ensures IsMarked(m, i) <==> i in Bits(m)
  {
    AndPow2(m, i);
  }

  lemma {:induction false} BitShiftRight(x: nat, n: nat, i: nat)
    ensures Bit(ShiftRight(x, n), i) <==> Bit(x, n + i)
    decreases n
  {
    if n > 0 { BitShiftRight(x / 2, n - 1, i); }
  }

  lemma {:induction false} BitDouble(x: BinMap, i: nat)
    requires i < NBINS
    ensures Bit(Double(x), i) <==> i > 0 && Bit(x, i - 1)
  {
    if i > 0 {
      Pow2OfWord(NBINS);
      var bits := NBINS - 1;
      BitModulo(bits, x, i - 1);
      assert Double(x) / 2 == x % Pow2(bits);
    }
  }

  lemma {:induction false} BitModulo(w: nat, x: nat, i: nat)
    requires i < w
    ensures Bit(x % Pow2(w), i) <==> Bit(x, i)
    decreases w
  {
    var p := Pow2(w - 1);
    ModuloHalf(x, p);
    if i > 0 { BitModulo(w - 1, x / 2, i - 1); }
  }

  lemma ModuloHalf(x: nat, p: nat)
    requires p > 0
    ensures (x % (2 * p)) % 2 == x % 2 && (x % (2 * p)) / 2 == (x / 2) % p
  {
    var q, r := x / (2 * p), x % (2 * p);
    assert x == (2 * p) * q + r;
    assert x == 2 * (p * q) + r;
    assert x / 2 == p * q + r / 2;
    RemainderUnique(x / 2, p, q, r / 2);
  }

  lemma RemainderUnique(x: nat, p: nat, q: nat, r: nat)
    requires p > 0 && r < p && x == p * q + r
    ensures x % p == r
  {
    var d := x / p - q;
    assert x == p * (x / p) + x % p;
    assert d * p == r - x % p;
    assert d > 0 ==> d * p >= p;
    assert d < 0 ==> d * p + p <= 0;
  }

  lemma {:induction false} BitShiftLeft(x: BinMap, n: nat, i: nat)
    requires i < NBINS
    ensures Bit(ShiftLeft(x, n), i) <==> n <= i && Bit(x, i - n)
    decreases n
  {
    if n > 0 {
      BitShiftLeft(Double(x), n - 1, i);
      if n - 1 <= i { BitDouble(x, i - (n - 1)); }
    }
  }

  lemma {:induction false} BitHigh(w: nat, x: nat, i: nat)
    requires x < Pow2(w) && w <= i
    ensures !Bit(x, i)
    decreases w
  {
    if w == 0 { BitZero(i); } else { BitHigh(w - 1, x / 2, i - 1); }
  }

  /** The two low bits of the shifted map tell whether bin i or the next one is non-empty, and the lowest which. */
  lemma LowPair(m: BinMap, i: nat)
    requires i + 1 < NBINS
    ensures And(ShiftRight(m, i), 3) != 0 <==> i in Bits(m) || i + 1 in Bits(m)
    ensures ShiftRight(m, i) % 2 == 1 <==> i in Bits(m)
  {
    var x := ShiftRight(m, i);
    BitShiftRight(m, i, 0);
    BitShiftRight(m, i, 1);
    assert Bit(x, 0) <==> x % 2 == 1;
    assert Bit(x, 1) <==> x / 2 % 2 == 1;
    LowTwo(x);
  }

  lemma LowTwo(x: nat)
    ensures And(x, 3) == x % 4
  {
    if x > 0 {
      assert And(x / 2, 1) == (x / 2) % 2 by { if x / 2 > 0 { AndZero(x / 4); } }
    }
  }

  /** The bits left in `(smallbits << i) & left_bits` are the bins after i. */
  lemma ShiftedLeft(m: BinMap, i: nat)
    requires i < NBINS
    ensures Bits(And(ShiftLeft(ShiftRight(m, i), i), LeftBits(IdxToBit(i)))) == set j | j in Bits(m) && i < j
  {
    hide Bit, ShiftLeft, ShiftRight, And, LeftBits, IdxToBit;
    var y := ShiftLeft(ShiftRight(m, i), i);
    BitsLeftOf(y, i);
    forall j: nat | i <= j < NBINS ensures Bit(y, j) <==> Bit(m, j) {
      BitShiftLeft(ShiftRight(m, i), i, j);
      BitShiftRight(m, i, j - i);
    }
  }

  lemma ShiftedNonzero(m: BinMap, i: nat)
    requires i < NBINS
    ensures ShiftRight(m, i) != 0 <==> exists j :: j in Bits(m) && i <= j
  {
    var x := ShiftRight(m, i);
    if x != 0 {
      Pow2OfWord(NBINS);
      var d := LowestDigit(NBINS, x);
      BitShiftRight(m, i, d);
      if i + d >= NBINS { BitHigh(NBINS, m, i + d); }
      assert i + d in Bits(m);
    } else {
      forall j | j in Bits(m) && i <= j ensures false {
        BitShiftRight(m, i, j - i);
        BitZero(j - i);
      }
    }
  }
}

/** The arithmetic of memalign and calloc. */
module Alignments {
  import opened Words
  import opened Heaps

  const MAX_REQUEST := WORD - 128

  // ---- memalign: rounding an alignment up to a power of two

  /** What the bit test of internal_memalign tells of a positive number. */
  predicate PowerOfTwo(a: nat) {
    a > 0 && (a == 1 || (a % 2 == 0 && PowerOfTwo(a / 2)))
  }

  lemma {:induction false} Exponent(a: nat) returns (k: nat)
    requires PowerOfTwo(a)
    ensures a == Pow2(k)
  {
    if a == 1 {
      k := 0;
    } else {
      k := Exponent(a / 2);
      k := k + 1;
    }
  }

  /** The alignment memalign works with: the least power of two that is 32 or more and not below the one asked for. */
  method RoundAlignment(alignment: nat) returns (a: nat, ghost k: nat)
    requires alignment <= WORD / 2
    ensures a == Pow2(k) && 5 <= k <= 63 && alignment <= a && (a == 32 || a / 2 < alignment)
  {
    hide Wrap;
    HalfWord();
    k := 5;
    a := 32;
    assert a == Pow2(k);
    if alignment > 32 {
      if PowerOfTwo(alignment) {
        a := alignment;
        k := Exponent(alignment);
        ExponentRange(k);
      } else {
        while a < alignment
          invariant a == Pow2(k) && 5 <= k <= 63 && (a == 32 || a / 2 < alignment)
          decreases alignment - a
        {
          if k == 63 {
            assert false;
          }
          WrapOnce(2 * a);
          a := Wrap(2 * a);
          k := k + 1;
          PowBelow(k);
        }
      }
    }
  }

  lemma ExponentRange(k: nat)
    requires 32 < Pow2(k) <= WORD / 2
    ensures 5 <= k <= 63
  {
    HalfWord();
    var half, five := 63, 5;
    if k > half {
      Pow2Less(half, k);
    }
    if k < five {
      Pow2Less(k, five);
    }
  }

  lemma HalfWord()
    ensures Pow2(63) == WORD / 2
  {
    var bits := 64;
    Pow2OfWord(bits);
    var half := bits - 1;
    assert Pow2(bits) == 2 * Pow2(half);
  }

  lemma PowBelow(k: nat)
    requires k <= 63
    ensures Pow2(k) <= WORD / 2
  {
    HalfWord();
    var half := 63;
    if k < half {
      Pow2Less(k, half);
    }
  }

  /** The value of `a` after n rounds of `a <<= 1`. */
  function Shifted(n: nat): nat {
    if n == 0 then 32 else Wrap(2 * Shifted(n - 1))
  }

  lemma {:induction false} ShiftedOut(n: nat)
    ensures Shifted(n) == if n <= 58 then Pow2(n + 5) else 0
  {
    if n > 0 {
      ShiftedOut(n - 1);
      var half := 63;
      HalfWord();
      if n <= 58 {
        PowBelow(n + 5);
      }
      hide Pow2;
      assert n == 59 ==> n - 1 + 5 == half;
    } else {
      assert Pow2(5) == 32;
    }
  }

  /** For an alignment above half the address space the loop never ends: after any number of rounds the value is still
      below the alignment. */
  lemma RoundingNeverEnds(alignment: nat, n: nat)
    requires WORD / 2 < alignment < WORD
    ensures Shifted(n) < alignment
  {
    hide Shifted, Pow2;
    ShiftedOut(n);
    if n <= 58 {
      PowBelow(n + 5);
    }
  }

  // ---- memalign: an aligned place inside a chunk

  predicate AlignedTo(m: nat, a: nat)
    requires a > 0
  {
    m % a == 0
  }

  /** br or br + alignment: the first aligned payload address with a leader of 0 or at least MIN_CHUNK bytes. */
  function AlignedMem(mem: nat, a: nat): nat
    requires a > 0
  {
    var up := RoundUp(mem, a);
    if up - mem >= MIN_CHUNK then up else up + a
  }

  /** Where memalign puts the block when malloc gave it one at mem. */
  function AlignedPlace(mem: nat, a: nat): nat
    requires a > 0
  {
    if AlignedTo(mem, a) then mem else AlignedMem(mem, a)
  }

  lemma RoundsUp(mem: nat, a: nat)
    requires a > 0 && mem % a != 0
    ensures RoundUp(mem, a) % a == 0 && mem < RoundUp(mem, a) < mem + a
  {
    var x := mem + a - 1;
    var q := x / a;
    assert x == q * a + x % a;
    ZeroRemainder(q, a);
    assert x - x % a <= mem ==> q * a == mem;
  }

  lemma ZeroRemainder(q: nat, a: nat)
    requires a > 0
    ensures q * a % a == 0
    decreases q
  {
    if q > 0 {
      ZeroRemainder(q - 1, a);
      assert q * a == (q - 1) * a + a;
      AddModulus((q - 1) * a, a);
    }
  }

  lemma AddModulus(x: nat, a: nat)
    requires a > 0
    ensures (x + a) % a == x % a
  {
    var q := x / a;
    assert x == q * a + x % a;
    assert x + a == (q + 1) * a + x % a;
    UniqueRemainder(x + a, q + 1, x % a, a);
  }

  /** mem rounded up to a multiple of a */
  function RoundUp(mem: nat, a: nat): nat
    requires a > 0
  {
    mem + a - 1 - (mem + a - 1) % a
  }

  /** The leader fits, is a whole chunk, and leaves the request with room; the payload is aligned. */
  lemma LeaderFits(p: nat, size: nat, nb: nat, a: nat, k: nat)
    requires a == Pow2(k) && k >= 5 && Aligned(p) && Aligned(size) && size >= nb + a + MIN_CHUNK
      && !AlignedTo(p + 16, a)
    ensures var mem' := AlignedMem(p + 16, a);
            && AlignedTo(mem', a) && p + 16 + MIN_CHUNK <= mem' && Aligned(mem' - p - 16)
            && mem' - 16 - p + nb <= size && Aligned(size - (mem' - p - 16))
  {
    hide Aligned, AlignedTo, RoundUp, Pow2;
    var mem := p + 16;
    UpFacts(mem, a);
    UpWhole(p, a, k);
    AlignedDiff(size, AlignedMem(mem, a) - mem);
  }

  lemma UpFacts(mem: nat, a: nat)
    requires a > 0 && !AlignedTo(mem, a)
    ensures mem < RoundUp(mem, a) < mem + a && AlignedTo(RoundUp(mem, a), a) && AlignedTo(RoundUp(mem, a) + a, a)
  {
    RoundsUp(mem, a);
    AddModulus(RoundUp(mem, a), a);
  }

  lemma UpWhole(p: nat, a: nat, k: nat)
    requires a == Pow2(k) && k >= 5 && Aligned(p) && AlignedTo(RoundUp(p + 16, a), a) && p + 16 < RoundUp(p + 16, a)
    ensures var d := RoundUp(p + 16, a) - (p + 16); Aligned(d) && Aligned(d + a) && d >= 16 && a >= 32
  {
    hide RoundUp;
    Pow2Add(k - 5, 5);
    assert Pow2(5) == 32;
    WholeLeader(p + 16, RoundUp(p + 16, a), a, Pow2(k - 5));
  }

  lemma WholeLeader(mem: nat, up: nat, a: nat, r: nat)
    requires a == r * 32 && a > 0 && up % a == 0 && mem < up && mem % 16 == 0
    ensures Aligned(up - mem) && Aligned(up - mem + a) && up - mem >= 16 && a >= 32
  {
    var q := up / a;
    assert up == q * a;
    assert q * (r * 32) == q * r * 32;
    Thirtytwos(q * r, up);
    Thirtytwos(r, a);
  }

  lemma Thirtytwos(q: nat, x: nat)
    requires x == q * 32
    ensures x % 16 == 0
  {
  }

  /** An aligned place with no leader, or one of 32 bytes or more. */
  ghost predicate Suitable(mem: nat, a: nat, m: nat) {
    a > 0 && m % a == 0 && (m == mem || m >= mem + 32)
  }

  /** memalign takes the first one. */
  lemma FirstPlace(mem: nat, a: nat)
    requires a >= 32
    ensures Suitable(mem, a, AlignedPlace(mem, a))
    ensures forall m: nat :: Suitable(mem, a, m) ==> AlignedPlace(mem, a) <= m
  {
    hide RoundUp;
    if !AlignedTo(mem, a) {
      UpFacts(mem, a);
      forall m: nat | Suitable(mem, a, m)
        ensures AlignedPlace(mem, a) <= m
      {
        MultiplesApart(RoundUp(mem, a), m, a);
      }
    }
  }

  lemma MultiplesApart(x: nat, y: nat, a: nat)
    requires a > 0 && x % a == 0 && y % a == 0
    ensures x == y || x + a <= y || y + a <= x
  {
    var q, t := Parts(x, a);
    var q', t' := Parts(y, a);
    if q < q' {
      MoreMultiples(q, q', a);
    } else if q' < q {
      MoreMultiples(q', q, a);
    }
  }

  /** What memalign leaves of a chunk of `size` bytes for a padded request of nb bytes. */
  function Left(mem: nat, a: nat, size: nat, nb: nat): int
    requires a > 0
  {
    var rest := size - (AlignedPlace(mem, a) - mem);
    if rest > nb + MIN_CHUNK then nb else rest
  }

  lemma Gap(mem: nat, a: nat)
    requires a > 0 && !AlignedTo(mem, a)
    ensures RoundUp(mem, a) == mem + a - mem % a
  {
    var q, r := mem / a, mem % a;
    assert mem == q * a + r;
    assert mem + a - 1 == (q + 1) * a + (r - 1);
    UniqueRemainder(mem + a - 1, q + 1, r - 1, a);
  }

  lemma StepRemainder(mem: nat, a: nat, r: nat)
    requires a == r * 32 && a > 0 && Aligned(mem)
    ensures Aligned(mem % a)
  {
    hide Aligned;
    var q, t := Parts(mem, a);
    ProductAligned(q, r, a);
    AlignedSum(q * a, t);
  }

  lemma Parts(mem: nat, a: nat) returns (q: nat, t: nat)
    requires a > 0
    ensures mem == q * a + t && t == mem % a
  {
    q, t := mem / a, mem % a;
  }

  lemma ProductAligned(q: nat, r: nat, a: nat)
    requires a == r * 32
    ensures Aligned(q * a)
  {
    assert q * (r * 32) == q * r * 32;
    Thirtytwos(q * r, q * a);
  }

  lemma PowerOfThirtytwo(a: nat, k: nat) returns (r: nat)
    requires a == Pow2(k) && k >= 5
    ensures a == r * 32 && r > 0
  {
    r := Pow2(k - 5);
    Pow2Add(k - 5, 5);
    assert Pow2(5) == 32;
  }

  /** memalign leaves a block with exactly a minimal chunk to spare just when the chunk malloc gave was 16 bytes longer
      than asked for and its payload 16 bytes short of alignment. */
  lemma SpareBytes(mem: nat, a: nat, k: nat, size: nat, nb: nat)
    requires a == Pow2(k) && k >= 5 && Aligned(mem) && (size == nb + a + MIN_CHUNK || size == nb + a + MIN_CHUNK + 16)
    ensures nb <= Left(mem, a, size, nb) <= nb + MIN_CHUNK
    ensures Left(mem, a, size, nb) == nb + MIN_CHUNK <==> size == nb + a + MIN_CHUNK + 16 && mem % a == a - 16
  {
    hide Pow2, RoundUp;
    var r := PowerOfThirtytwo(a, k);
    if !AlignedTo(mem, a) {
      Gap(mem, a);
      StepRemainder(mem, a, r);
      Sixteens(mem % a);
      Thirtytwos(r, a);
      Below(mem % a, a);
    }
  }

  lemma Sixteens(n: nat)
    requires Aligned(n) && n > 0
    ensures n >= 16
  {
  }

  /** Multiples of 16 that are not the same are 16 apart. */
  lemma Below(n: nat, a: nat)
    requires Aligned(n) && Aligned(a) && n < a
    ensures n == a - 16 || n <= a - 32
  {
  }

  // ---- calloc

  /** The request calloc makes: the product, or a size no request can have when it overflows. */
  function CallocSize(n: nat, elem: nat): nat
    requires n < WORD && elem < WORD
  {
    if n == 0 then 0
    else
      var req := Wrap(n * elem);
      if (n > 0xffff || elem > 0xffff) && req / n != elem then MAX_SIZE_T else req
  }

  /** The overflow test is exact. */
  lemma CallocExact(n: nat, elem: nat)
    requires n < WORD && elem < WORD
    ensures CallocSize(n, elem) == if n * elem < WORD then n * elem else MAX_SIZE_T
  {
    hide Wrap;
    var p := n * elem;
    if n > 0 {
      if p < WORD {
        WrapOnce(p);
        Quotient(n, elem);
      } else {
        WrapLess(p);
        SmallerQuotient(n, elem, Wrap(p));
        if n <= 0xffff && elem <= 0xffff {
          SmallProduct(n, elem);
        }
      }
    }
  }

  lemma WrapLess(p: nat)
    requires p >= WORD
    ensures Wrap(p) < p
  {
  }

  lemma Quotient(n: nat, elem: nat)
    requires n > 0
    ensures n * elem / n == elem
  {
    var p := n * elem;
    var q := p / n;
    assert p == q * n + p % n;
    if q != elem {
      MoreMultiples(if q < elem then q else elem, if q < elem then elem else q, n);
    }
  }

  lemma SmallProduct(n: nat, elem: nat)
    requires n <= 0xffff && elem <= 0xffff
    ensures n * elem < WORD
  {
    if n < 0xffff {
      MoreMultiples(n, 0xffff, elem);
    }
  }

  lemma SmallerQuotient(n: nat, elem: nat, req: nat)
    requires n > 0 && req < n * elem
    ensures req / n != elem
  {
    var q := req / n;
    assert req == n * q + req % n;
  }
}

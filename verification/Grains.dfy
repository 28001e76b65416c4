/** The size of a request to the system: padded for the top chunk's overhead, rounded to the granularity, mod 2^64. */
module Grains {
  import opened Words
  import opened Heaps

  const SYS_ALLOC_PADDING := 96     // TOP_FOOT_SIZE + MALLOC_ALIGNMENT

  type Granularity = g: nat | 0 < g < WORD witness 16

  /** y & ~(g - 1) for a power of two g */
  function Down(y: nat, g: Granularity): nat
  {
    y - y % g
  }

  /** granularity_align for a granularity that is a power of two */
  function GranularityAlign(x: nat, g: Granularity): nat
  {
    Down(Wrap(x + g - 1), g)
  }

  function SystemSize(nb: nat, g: Granularity): nat
  {
    GranularityAlign(Wrap(nb + SYS_ALLOC_PADDING), g)
  }

  /** A granularity: a power of two between the alignment of chunks and half the address space. */
  ghost predicate Grain(g: nat, k: nat) {
    4 <= k <= 63 && g == Pow2(k)
  }

  lemma GrainBounds(g: nat, k: nat)
    requires Grain(g, k)
    ensures 0 < g <= WORD / 2 && Aligned(g)
  {
    var bits := 64;
    Pow2OfWord(bits);
    var half := bits - 1;
    assert Pow2(bits) == 2 * Pow2(half);
    if k < half {
      Pow2Less(k, half);
    }
    Pow2Add(k - 4, 4);
    assert Pow2(4) == 16;
    Sixteens(Pow2(k - 4), g);
  }

  lemma Sixteens(q: nat, g: nat)
    requires g == q * 16
    ensures Aligned(g)
  {
  }

  lemma RoundUp(y: nat, g: Granularity)
    ensures y - g < Down(y, g) <= y
    ensures y < g ==> Down(y, g) == 0
    ensures y >= g ==> g <= Down(y, g)
  {
    var q, r := Parts(y, g);
    if q >= 1 {
      Times(q, g);
    }
  }

  lemma DownTimes(y: nat, g: Granularity)
    ensures Down(y, g) == y / g * g
  {
    var q, r := Parts(y, g);
  }

  lemma Parts(y: nat, g: Granularity) returns (q: nat, r: nat)
    ensures q == y / g && r == y % g && y == q * g + r && r < g && (q == 0 ==> y == r)
  {
    q, r := y / g, y % g;
  }

  lemma Times(q: nat, g: nat)
    requires q >= 1
    ensures g <= q * g
  {
  }

  /** Either the request wraps around, which the test `asize <= nb` always catches, or there is room to spare. */
  lemma SystemSizeEnough(nb: nat, g: Granularity, k: nat)
    requires Grain(g, k) && nb < WORD
    ensures SystemSize(nb, g) > nb <==> nb + SYS_ALLOC_PADDING + g <= WORD
    ensures SystemSize(nb, g) > nb ==> SystemSize(nb, g) >= nb + SYS_ALLOC_PADDING && SystemSize(nb, g) >= g
  {
    hide Grain, Aligned, Down, Wrap;
    GrainBounds(g, k);
    var x := Wrap(nb + SYS_ALLOC_PADDING);
    WrapOnce(nb + SYS_ALLOC_PADDING);
    var y := Wrap(x + g - 1);
    WrapOnce(x + g - 1);
    RoundUp(y, g);
  }

  lemma SystemSizeAligned(nb: nat, g: Granularity, k: nat)
    requires Grain(g, k)
    ensures Aligned(SystemSize(nb, g))
  {
    hide Wrap, Aligned, Down;
    Pow2Add(k - 4, 4);
    assert Pow2(4) == 16;
    DownAligned(Wrap(Wrap(nb + SYS_ALLOC_PADDING) + g - 1), Pow2(k - 4), g);
  }

  lemma DownAligned(y: nat, r: nat, g: Granularity)
    requires g == r * 16
    ensures Aligned(Down(y, g))
  {
    hide Aligned;
    DownTimes(y, g);
    Regroup(y / g, r);
    Sixteens(y / g * r, Down(y, g));
  }

  lemma Regroup(q: nat, r: nat)
    ensures q * (r * 16) == q * r * 16
  {
  }

  /** fake_mmap doubles the granularity; a region that fits below half the address space keeps it a granularity. */
  lemma GrainDoubles(g: nat, k: nat)
    requires Grain(g, k) && g < WORD / 2
    ensures Grain(2 * g, k + 1)
  {
    var bits := 64;
    Pow2OfWord(bits);
    assert Pow2(bits) == 2 * Pow2(bits - 1);
  }
}

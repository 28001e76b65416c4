/**
 Requests in plain numbers: the chunk a request needs, the region the system is asked for, and when a request fails. The
 predicates of this module use none of the functions that the allocator computes with.
 */
module Requests {
  import opened Words
  import opened Heaps
  import opened Segments
  import opened Arenas
  import opened Moves
  import opened Grains
  import Alignments

  // ---- sizes

  /** The chunk for a request: the least multiple of 16 that is 32 or more and has 8 bytes besides those asked for. */
  ghost predicate ChunkFor(bytes: nat, nb: nat) {
    nb % 16 == 0 && nb >= 32 && nb >= bytes + 8 && (nb == 32 || nb < bytes + 24)
  }

  lemma PadLeast(bytes: nat)
    ensures ChunkFor(bytes, Pad(bytes)) && forall nb: nat :: ChunkFor(bytes, nb) ==> nb == Pad(bytes)
  {
  }

  /** The region for a chunk: the least multiple of the granularity that holds the chunk and 96 bytes more. */
  ghost predicate RegionFor(nb: nat, g: nat, size: nat) {
    g > 0 && size % g == 0 && nb + 96 <= size < nb + 96 + g
  }

  lemma Multiple(a: nat, g: nat) returns (i: nat)
    requires g > 0 && a % g == 0
    ensures a == i * g
  {
    i := a / g;
  }

  lemma OneRegion(nb: nat, g: nat, a: nat, b: nat)
    requires RegionFor(nb, g, a) && RegionFor(nb, g, b)
    ensures a == b
  {
    var i := Multiple(a, g);
    var j := Multiple(b, g);
    if i < j {
      MoreMultiples(i, j, g);
    } else if j < i {
      MoreMultiples(j, i, g);
    }
  }

  lemma DownMultiple(y: nat, g: Granularity)
    ensures Down(y, g) % g == 0 && y - g < Down(y, g) <= y
  {
    hide Down;
    DownTimes(y, g);
    Grains.RoundUp(y, g);
    Alignments.ZeroRemainder(y / g, g);
  }

  /** That is what the system is asked for. */
  lemma SystemSizeLeast(nb: nat, g: Granularity)
    requires nb + 96 + g <= WORD
    ensures RegionFor(nb, g, SystemSize(nb, g))
    ensures forall m: nat :: RegionFor(nb, g, m) ==> m == SystemSize(nb, g)
  {
    hide Wrap, Down;
    WrapOnce(nb + SYS_ALLOC_PADDING);
    WrapOnce(nb + 96 + g - 1);
    DownMultiple(nb + 96 + g - 1, g);
    forall m: nat | RegionFor(nb, g, m)
      ensures m == SystemSize(nb, g)
    {
      OneRegion(nb, g, m, SystemSize(nb, g));
    }
  }

  // ---- failure

  /** There is no region for a chunk of nb bytes: its size is not a word, or over the footprint limit, or refused. */
  ghost predicate Refused(nb: nat, grain: nat, footprint: nat, limit: nat, system: nat -> nat) {
    || nb + 96 + grain > 0x1_0000_0000_0000_0000
    || forall size: nat :: RegionFor(nb, grain, size) ==> RegionRefused(size, footprint, limit, system)
  }

  ghost predicate RegionRefused(size: nat, footprint: nat, limit: nat, system: nat -> nat) {
    || system(size) == 0
    || (limit != 0 && (footprint + size > limit || footprint + size >= 0x1_0000_0000_0000_0000))
  }

  /** Every free chunk is shorter than nb bytes, and the top chunk no longer, and there is no region. */
  ghost predicate Starved(s: Arena, nb: nat, grain: nat, footprint: nat, limit: nat, system: nat -> nat) {
    && (forall a :: a in s.h.chunks && !s.h.chunks[a].inuse && a != s.h.top ==> s.h.chunks[a].size < nb)
    && s.topsize <= nb && Refused(nb, grain, footprint, limit, system)
  }

  /** A request of so many bytes fails. */
  ghost predicate OutOfMemory(s: Arena, bytes: nat, grain: nat, footprint: nat, limit: nat, system: nat -> nat) {
    || bytes >= 0xFFFF_FFFF_FFFF_FF80
    || forall nb: nat :: ChunkFor(bytes, nb) ==> Starved(s, nb, grain, footprint, limit, system)
  }

  /** The tests of sys_alloc on the sum, which may wrap around. */
  lemma SumTest(footprint: nat, size: nat, limit: nat)
    requires footprint < WORD && 0 < size < WORD
    ensures Wrap(footprint + size) <= footprint || Wrap(footprint + size) > limit <==>
      footprint + size > limit || footprint + size >= 0x1_0000_0000_0000_0000
  {
  }

  /** The tests of sys_alloc, together. */
  lemma RefusedMeans(nb: nat, g: Granularity, k: nat, footprint: nat, limit: nat, system: nat -> nat)
    requires Grain(g, k) && nb < WORD && footprint < WORD
    ensures var size := SystemSize(nb, g);
      Refused(nb, g, footprint, limit, system) <==>
        || size <= nb
        || (limit != 0 && (Wrap(footprint + size) <= footprint || Wrap(footprint + size) > limit))
        || system(size) == 0
  {
    hide Grain, SystemSize, Wrap, RegionFor;
    SystemSizeEnough(nb, g, k);
    if nb + 96 + g <= WORD {
      SystemSizeLeast(nb, g);
      RegionWord(nb, g, SystemSize(nb, g));
      SumTest(footprint, SystemSize(nb, g), limit);
    }
  }

  lemma RegionWord(nb: nat, g: nat, size: nat)
    requires RegionFor(nb, g, size) && nb + 96 + g <= WORD
    ensures 0 < size < WORD
  {
  }

  /** The books tell which free chunks there are. */
  lemma FreeSizes(s: Arena, nb: nat)
    requires Ready(s, 0, 0, 0) || (s.h.chunks == map[] && s.items == map[] && s.dvsize == 0)
    requires nb > 0
    ensures NothingFits(s, nb) <==>
      forall a :: a in s.h.chunks && !s.h.chunks[a].inuse && a != s.h.top ==> s.h.chunks[a].size < nb
  {
    hide Heap.Ok, Arena.Owned;
    if Ready(s, 0, 0, 0) {
      forall a | a in s.h.chunks
        ensures s.Filed(a, 0)
      {
      }
      assert forall a :: a in s.items ==> a in s.h.chunks && s.Filed(a, 0);
    }
  }

  lemma OutMeans(s: Arena, bytes: nat, grain: nat, footprint: nat, limit: nat, system: nat -> nat)
    requires Ready(s, 0, 0, 0) || (s.h.chunks == map[] && s.items == map[] && s.dvsize == 0)
    requires bytes < 0xFFFF_FFFF_FFFF_FF80
    ensures OutOfMemory(s, bytes, grain, footprint, limit, system) <==>
      NothingFits(s, Pad(bytes)) && s.topsize <= Pad(bytes) && Refused(Pad(bytes), grain, footprint, limit, system)
  {
    hide Ready, Pad, ChunkFor, Refused, NothingFits;
    PadFacts(bytes);
    PadLeast(bytes);
    FreeSizes(s, Pad(bytes));
  }

  lemma TooLarge(s: Arena, bytes: nat, grain: nat, footprint: nat, limit: nat, system: nat -> nat)
    requires 0xFFFF_FFFF_FFFF_FF80 <= bytes
    ensures OutOfMemory(s, bytes, grain, footprint, limit, system)
    ensures Refused(MAX_SIZE_T, grain, footprint, limit, system)
  {
  }

  lemma FootprintBound(s: Arena)
    requires Ready(s, 0, 0, 0)
    ensures Total(s.h.segs) < WORD
  {
    hide Heap.Ok, Arena.Books, Heap.Tiled, Packed;
    IsTiled(s.h, 0);
    HeapPacked(s.h);
    TotalBound(s.h.segs, ADDRESS_LIMIT);
  }
}

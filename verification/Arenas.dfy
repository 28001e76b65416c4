/**
 The allocator's books: which free chunks are binned, which is the designated victim, and who holds each chunk in
 use. `hole` is a chunk in use that no caller holds yet; `loose` is a free chunk not yet filed anywhere.
 */
module Arenas {
  import opened Heaps
  import opened Steps
  import opened Segments

  const CHUNK_OVERHEAD := 8

  /** request2size */
  function Pad(bytes: nat): nat {
    if bytes < 23 then MIN_CHUNK else (bytes + 23) / 16 * 16
  }

  ghost predicate Fits(bytes: nat, size: nat) {
    Pad(bytes) <= size <= Pad(bytes) + MIN_CHUNK
  }

  /** Every block but those in `slack` has less than a minimal chunk to spare. */
  ghost predicate Snug(live: map<nat, nat>, chunks: map<nat, Chunk>, slack: set<nat>) {
    forall m :: m in live && m !in slack ==>
      m > 16 && m - 16 in chunks && chunks[m - 16].size < Pad(live[m]) + MIN_CHUNK
  }

  datatype Arena = Arena(h: Heap, dv: nat, dvsize: nat, topsize: nat, items: map<nat, nat>, live: map<nat, nat>) {
    ghost predicate Free(a: nat) {
      a in h.chunks && !h.chunks[a].inuse && a != h.top
    }

    ghost predicate Filed(a: nat, loose: nat)
      requires a in h.chunks
    {
      && a > 0 && (a in items <==> Free(a) && a != dv && a != loose)
      && (a in items ==> items[a] == h.chunks[a].size)
    }

    /** The bins hold every free chunk but the top chunk, the designated victim and the loose one, and nothing else. */
    ghost predicate Binned(loose: nat) {
      && (forall a :: a in items ==> a in h.chunks)
      && (forall a :: a in h.chunks ==> Filed(a, loose))
    }

    ghost predicate VictimOk(loose: nat) {
      (dv == 0 <==> dvsize == 0) && (dv != 0 ==> Free(dv) && h.chunks[dv].size == dvsize && dv != loose)
    }

    ghost predicate Held(m: nat, hole: nat)
      requires m in live
    {
      && m >= 16 && m - 16 in h.chunks && h.chunks[m - 16].inuse && m - 16 !in h.records && m - 16 != hole
      && Fits(live[m], h.chunks[m - 16].size)
    }

    ghost predicate Claimed(a: nat, hole: nat)
      requires a in h.chunks
    {
      a > 0 && (h.chunks[a].inuse ==> a + 16 in live || a in h.records || a == hole)
    }

    /** A chunk is in use exactly when a caller holds it, or it is a segment record, or it is the hole. */
    ghost predicate Owned(hole: nat) {
      && (forall a :: a in h.chunks ==> Claimed(a, hole))
      && (forall m :: m in live ==> Held(m, hole))
    }

    ghost predicate HoleOk(hole: nat) {
      hole != 0 ==> hole in h.chunks && h.chunks[hole].inuse && hole !in h.records && hole != h.top
    }

    ghost predicate LooseOk(loose: nat) {
      loose != 0 ==> Free(loose)
    }

    ghost predicate TopSized() {
      h.top in h.chunks && !h.chunks[h.top].inuse && h.chunks[h.top].size == topsize
    }

    ghost predicate Books(hole: nat, loose: nat) {
      Binned(loose) && VictimOk(loose) && Owned(hole) && HoleOk(hole) && LooseOk(loose) && TopSized()
    }

    ghost predicate Ok() {
      h.Ok(0) && Books(0, 0)
    }
  }

  /** a, a filed free chunk, is taken from its bin, or is no longer the designated victim. */
  ghost predicate Unfiled(s: Arena, s': Arena, a: nat) {
    || (a in s.items && s'.items == s.items - {a} && s'.dv == s.dv && s'.dvsize == s.dvsize)
    || (a == s.dv != 0 && s'.items == s.items && s'.dv == 0 && s'.dvsize == 0)
  }

  ghost predicate SameFiles(s: Arena, s': Arena) {
    s'.items == s.items && s'.dv == s.dv && s'.dvsize == s.dvsize
  }

  lemma Unfile(s: Arena, s': Arena, hole: nat, a: nat)
    requires s.Books(hole, 0) && a > 0 && Unfiled(s, s', a) && s'.h == s.h && s'.topsize == s.topsize
      && s'.live == s.live
    ensures s'.Books(hole, a)
  {
    hide Pad, Fits;
  }

  // ---- allocating

  lemma UseWholeBinned(s: Arena, s': Arena, p: nat)
    requires s.Books(0, p) && Flags(s.h, s'.h, p, true) && p > 0 && !s.h.chunks[p].inuse && SameFiles(s, s')
    requires s'.topsize == s.topsize && s'.live == s.live
    ensures s'.Binned(0) && s'.VictimOk(0) && s'.LooseOk(0)
  {
    hide Pad, Arena.Owned;
  }

  lemma UseWholeOwned(s: Arena, s': Arena, p: nat)
    requires s.Books(0, p) && Flags(s.h, s'.h, p, true) && p > 0 && !s.h.chunks[p].inuse && SameFiles(s, s')
    requires s'.topsize == s.topsize && s'.live == s.live
    ensures s'.Owned(p) && s'.HoleOk(p)
  {
    hide Pad;
  }

  lemma UseWhole(s: Arena, s': Arena, p: nat)
    requires s.Books(0, p) && Flags(s.h, s'.h, p, true) && p > 0 && !s.h.chunks[p].inuse && SameFiles(s, s')
    requires s'.topsize == s.topsize && s'.live == s.live
    ensures s'.Books(p, 0)
  {
    hide Pad, Arena.Binned, Arena.VictimOk, Arena.Owned, Arena.HoleOk, Arena.LooseOk;
    UseWholeBinned(s, s', p);
    UseWholeOwned(s, s', p);
  }

  lemma UsePartBinned(s: Arena, s': Arena, p: nat, nb: nat)
    requires s.Books(0, p) && Splits(s.h, s'.h, p, nb, true, false) && 0 < p != s.h.top && !s.h.chunks[p].inuse
      && p + nb !in s.h.chunks && SameFiles(s, s')
    requires s'.topsize == s.topsize && s'.live == s.live
    ensures s'.Binned(p + nb) && s'.VictimOk(p + nb) && s'.LooseOk(p + nb)
  {
    hide Pad, Aligned, Arena.Owned;
  }

  lemma UsePartOwned(s: Arena, s': Arena, p: nat, nb: nat)
    requires s.Books(0, p) && Splits(s.h, s'.h, p, nb, true, false) && 0 < p != s.h.top && !s.h.chunks[p].inuse
      && p + nb !in s.h.chunks && SameFiles(s, s')
    requires s'.topsize == s.topsize && s'.live == s.live
    ensures s'.Owned(p) && s'.HoleOk(p)
  {
    hide Pad, Aligned;
  }

  lemma UsePart(s: Arena, s': Arena, p: nat, nb: nat)
    requires s.Books(0, p) && Splits(s.h, s'.h, p, nb, true, false) && 0 < p != s.h.top && !s.h.chunks[p].inuse
      && p + nb !in s.h.chunks && SameFiles(s, s')
    requires s'.topsize == s.topsize && s'.live == s.live
    ensures s'.Books(p, p + nb)
  {
    hide Pad, Aligned, Arena.Binned, Arena.VictimOk, Arena.Owned, Arena.HoleOk, Arena.LooseOk;
    UsePartBinned(s, s', p, nb);
    UsePartOwned(s, s', p, nb);
  }

  lemma UseTopBinned(s: Arena, s': Arena, nb: nat)
    requires s.Books(0, 0) && Splits(s.h, s'.h, s.h.top, nb, true, false) && s.h.top > 0 && s.h.top + nb !in s.h.chunks
      && SameFiles(s, s')
    requires s'.topsize == s.topsize - nb && s'.live == s.live
    ensures s'.Binned(0) && s'.VictimOk(0) && s'.LooseOk(0)
  {
    hide Pad, Aligned, Arena.Owned;
  }

  lemma UseTopOwned(s: Arena, s': Arena, nb: nat)
    requires s.Books(0, 0) && Splits(s.h, s'.h, s.h.top, nb, true, false) && s.h.top > 0 && s.h.top + nb !in s.h.chunks
      && SameFiles(s, s')
    requires s'.topsize == s.topsize - nb && s'.live == s.live
    ensures s'.Owned(s.h.top) && s'.HoleOk(s.h.top)
  {
    hide Pad, Aligned;
  }

  lemma UseTop(s: Arena, s': Arena, nb: nat)
    requires s.Books(0, 0) && Splits(s.h, s'.h, s.h.top, nb, true, false) && s.h.top > 0 && s.h.top + nb !in s.h.chunks
      && SameFiles(s, s')
    requires s'.topsize == s.topsize - nb && s'.live == s.live
    ensures s'.Books(s.h.top, 0)
  {
    hide Pad, Aligned, Arena.Binned, Arena.VictimOk, Arena.Owned, Arena.HoleOk, Arena.LooseOk;
    UseTopBinned(s, s', nb);
    UseTopOwned(s, s', nb);
  }

  // ---- filing

  lemma FileVictim(s: Arena, s': Arena, hole: nat, r: nat)
    requires s.Books(hole, r) && r != 0 && s.dv == 0 && s.h.chunks[r].size > 0
    requires s' == s.(dv := r, dvsize := s.h.chunks[r].size)
    ensures s'.Books(hole, 0)
  {
    hide Pad;
  }

  lemma FileBin(s: Arena, s': Arena, hole: nat, r: nat)
    requires s.Books(hole, r) && r != 0 && s' == s.(items := s.items[r := s.h.chunks[r].size])
    ensures s'.Books(hole, 0)
  {
    hide Pad;
  }

  /** replace_dv: the old designated victim, if any, is binned. */
  lemma ReplaceVictim(s: Arena, s': Arena, hole: nat, r: nat)
    requires s.Books(hole, r) && r != 0 && s.h.chunks[r].size > 0
    requires s' == s.(items := if s.dvsize != 0 then s.items[s.dv := s.dvsize] else s.items,
                      dv := r, dvsize := s.h.chunks[r].size)
    ensures s'.Books(hole, 0)
  {
    hide Pad;
  }

  // ---- freeing

  lemma UseBeforeBinned(s: Arena, s': Arena, p: nat, b: nat)
    requires s.Books(p, b) && Joins(s.h, s'.h, b, true) && b > 0 && s.h.Next(b) == p != b && SameFiles(s, s')
    requires s'.topsize == s.topsize && s'.live == s.live
    ensures s'.Binned(0) && s'.VictimOk(0) && s'.LooseOk(0)
  {
    hide Pad, Arena.Owned;
  }

  lemma UseBeforeOwned(s: Arena, s': Arena, p: nat, b: nat)
    requires s.Books(p, b) && Joins(s.h, s'.h, b, true) && b > 0 && s.h.Next(b) == p != b && SameFiles(s, s')
    requires s'.topsize == s.topsize && s'.live == s.live
    ensures s'.Owned(b) && s'.HoleOk(b)
  {
    hide Pad;
  }

  lemma UseBefore(s: Arena, s': Arena, p: nat, b: nat)
    requires s.Books(p, b) && Joins(s.h, s'.h, b, true) && b > 0 && s.h.Next(b) == p != b && SameFiles(s, s')
    requires s'.topsize == s.topsize && s'.live == s.live
    ensures s'.Books(b, 0)
  {
    hide Pad, Arena.Binned, Arena.VictimOk, Arena.Owned, Arena.HoleOk, Arena.LooseOk;
    UseBeforeBinned(s, s', p, b);
    UseBeforeOwned(s, s', p, b);
  }

  lemma LoseHere(s: Arena, s': Arena, p: nat)
    requires s.Books(p, 0) && Flags(s.h, s'.h, p, false) && p > 0 && SameFiles(s, s')
    requires s'.topsize == s.topsize && s'.live == s.live
    ensures s'.Books(0, p)
  {
    hide Pad;
  }

  lemma LoseIntoTopBinned(s: Arena, s': Arena, p: nat)
    requires s.Books(p, 0) && Joins(s.h, s'.h, p, false) && p > 0 && p != s.h.Next(p) == s.h.top && SameFiles(s, s')
    requires s'.topsize == s.topsize + s.h.chunks[p].size && s'.live == s.live
    ensures s'.Binned(0) && s'.VictimOk(0) && s'.LooseOk(0)
  {
    hide Pad, Arena.Owned;
  }

  lemma LoseIntoTopOwned(s: Arena, s': Arena, p: nat)
    requires s.Books(p, 0) && Joins(s.h, s'.h, p, false) && p > 0 && p != s.h.Next(p) == s.h.top && SameFiles(s, s')
    requires s'.topsize == s.topsize + s.h.chunks[p].size && s'.live == s.live
    ensures s'.Owned(0) && s'.HoleOk(0)
  {
    hide Pad;
  }

  lemma LoseIntoTop(s: Arena, s': Arena, p: nat)
    requires s.Books(p, 0) && Joins(s.h, s'.h, p, false) && p > 0 && p != s.h.Next(p) == s.h.top && SameFiles(s, s')
    requires s'.topsize == s.topsize + s.h.chunks[p].size && s'.live == s.live
    ensures s'.Books(0, 0)
  {
    hide Pad, Arena.Binned, Arena.VictimOk, Arena.Owned, Arena.HoleOk, Arena.LooseOk;
    LoseIntoTopBinned(s, s', p);
    LoseIntoTopOwned(s, s', p);
  }

  lemma LoseIntoNextBinned(s: Arena, s': Arena, p: nat)
    requires Joins(s.h, s'.h, p, false) && s.Books(p, s.h.Next(p)) && p > 0 && p != s.h.Next(p)
      && s.h.Next(p) != s.h.top && SameFiles(s, s')
    requires s'.topsize == s.topsize && s'.live == s.live
    ensures s'.Binned(p) && s'.VictimOk(p) && s'.LooseOk(p)
  {
    hide Pad, Arena.Owned;
  }

  lemma LoseIntoNextOwned(s: Arena, s': Arena, p: nat)
    requires Joins(s.h, s'.h, p, false) && s.Books(p, s.h.Next(p)) && p > 0 && p != s.h.Next(p)
      && s.h.Next(p) != s.h.top && SameFiles(s, s')
    requires s'.topsize == s.topsize && s'.live == s.live
    ensures s'.Owned(0) && s'.HoleOk(0)
  {
    hide Pad;
  }

  lemma LoseIntoNext(s: Arena, s': Arena, p: nat)
    requires Joins(s.h, s'.h, p, false) && s.Books(p, s.h.Next(p)) && p > 0 && p != s.h.Next(p)
      && s.h.Next(p) != s.h.top && SameFiles(s, s')
    requires s'.topsize == s.topsize && s'.live == s.live
    ensures s'.Books(0, p)
  {
    hide Pad, Arena.Binned, Arena.VictimOk, Arena.Owned, Arena.HoleOk, Arena.LooseOk;
    LoseIntoNextBinned(s, s', p);
    LoseIntoNextOwned(s, s', p);
  }

  // ---- holding

  /** A caller gives up a chunk. */
  lemma GiveUp(s: Arena, s': Arena, p: nat, loose: nat)
    requires s.Books(0, loose) && p > 0 && p + 16 in s.live && s' == s.(live := s.live - {p + 16})
    ensures s'.Books(p, loose)
  {
    hide Pad;
  }

  /** A caller receives the hole. */
  lemma Receive(s: Arena, s': Arena, p: nat, bytes: nat)
    requires s.Books(p, 0) && p > 0 && Fits(bytes, s.h.chunks[p].size) && s' == s.(live := s.live[p + 16 := bytes])
    ensures s'.Books(0, 0)
  {
    hide Pad, Fits;
  }

  // ---- resizing

  lemma CutUsedBinned(s: Arena, s': Arena, p: nat, nb: nat, x: nat, bytes: nat)
    requires s.Books(p, 0) && Splits(s.h, s'.h, p, nb, true, true) && p > 0 && p + nb !in s.h.chunks && SameFiles(s, s')
    requires p + nb !in s.h.records
    requires (x == p || x == p + nb) && Fits(bytes, s'.h.chunks[x].size)
    requires s'.topsize == s.topsize && s'.live == s.live[x + 16 := bytes]
    ensures s'.Binned(0) && s'.VictimOk(0) && s'.LooseOk(0)
  {
    hide Pad, Fits, Aligned, Arena.Owned;
  }

  lemma CutUsedOwned(s: Arena, s': Arena, p: nat, nb: nat, x: nat, bytes: nat)
    requires s.Books(p, 0) && Splits(s.h, s'.h, p, nb, true, true) && p > 0 && p + nb !in s.h.chunks && SameFiles(s, s')
    requires p + nb !in s.h.records
    requires (x == p || x == p + nb) && Fits(bytes, s'.h.chunks[x].size)
    requires s'.topsize == s.topsize && s'.live == s.live[x + 16 := bytes]
    ensures s'.Owned(if x == p then p + nb else p) && s'.HoleOk(if x == p then p + nb else p)
  {
    hide Pad, Fits, Aligned;
  }

  lemma CutUsed(s: Arena, s': Arena, p: nat, nb: nat, x: nat, bytes: nat)
    requires s.Books(p, 0) && Splits(s.h, s'.h, p, nb, true, true) && p > 0 && p + nb !in s.h.chunks && SameFiles(s, s')
    requires p + nb !in s.h.records
    requires (x == p || x == p + nb) && Fits(bytes, s'.h.chunks[x].size)
    requires s'.topsize == s.topsize && s'.live == s.live[x + 16 := bytes]
    ensures s'.Books(if x == p then p + nb else p, 0)
  {
    hide Pad, Fits, Aligned, Arena.Binned, Arena.VictimOk, Arena.Owned, Arena.HoleOk, Arena.LooseOk;
    CutUsedBinned(s, s', p, nb, x, bytes);
    CutUsedOwned(s, s', p, nb, x, bytes);
  }

  lemma UseNextBinned(s: Arena, s': Arena, p: nat)
    requires Joins(s.h, s'.h, p, true) && s.Books(p, s.h.Next(p)) && p > 0 && p != s.h.Next(p) && SameFiles(s, s')
    requires s'.topsize == s.topsize && s'.live == s.live
    ensures s'.Binned(0) && s'.VictimOk(0) && s'.LooseOk(0)
  {
    hide Pad, Arena.Owned;
  }

  lemma UseNextOwned(s: Arena, s': Arena, p: nat)
    requires Joins(s.h, s'.h, p, true) && s.Books(p, s.h.Next(p)) && p > 0 && p != s.h.Next(p) && SameFiles(s, s')
    requires s'.topsize == s.topsize && s'.live == s.live
    ensures s'.Owned(p) && s'.HoleOk(p)
  {
    hide Pad;
  }

  lemma UseNext(s: Arena, s': Arena, p: nat)
    requires Joins(s.h, s'.h, p, true) && s.Books(p, s.h.Next(p)) && p > 0 && p != s.h.Next(p) && SameFiles(s, s')
    requires s'.topsize == s.topsize && s'.live == s.live
    ensures s'.Books(p, 0)
  {
    hide Pad, Arena.Binned, Arena.VictimOk, Arena.Owned, Arena.HoleOk, Arena.LooseOk;
    UseNextBinned(s, s', p);
    UseNextOwned(s, s', p);
  }

  lemma UseSomeVictimBinned(s: Arena, s': Arena, p: nat, nb: nat)
    requires s.Books(p, 0) && Rebounds(s.h, s'.h, p, nb) && p > 0 && p != s.h.Next(p) == s.dv && s.dv != s.h.top
    requires p + nb in s.h.chunks ==> p + nb == s.h.Next(p)
    requires s'.items == s.items && s'.dv == p + nb && s'.dvsize == s.h.chunks[p].size + s.dvsize - nb
    requires s'.topsize == s.topsize && s'.live == s.live
    ensures s'.Binned(0) && s'.VictimOk(0) && s'.LooseOk(0)
  {
    hide Pad, Aligned, Arena.Owned;
  }

  lemma UseSomeVictimOwned(s: Arena, s': Arena, p: nat, nb: nat)
    requires s.Books(p, 0) && Rebounds(s.h, s'.h, p, nb) && p > 0 && p != s.h.Next(p) == s.dv && s.dv != s.h.top
    requires p + nb in s.h.chunks ==> p + nb == s.h.Next(p)
    requires s'.items == s.items && s'.dv == p + nb && s'.dvsize == s.h.chunks[p].size + s.dvsize - nb
    requires s'.topsize == s.topsize && s'.live == s.live
    ensures s'.Owned(p) && s'.HoleOk(p)
  {
    hide Pad, Aligned;
  }

  lemma UseSomeVictim(s: Arena, s': Arena, p: nat, nb: nat)
    requires s.Books(p, 0) && Rebounds(s.h, s'.h, p, nb) && p > 0 && p != s.h.Next(p) == s.dv && s.dv != s.h.top
    requires p + nb in s.h.chunks ==> p + nb == s.h.Next(p)
    requires s'.items == s.items && s'.dv == p + nb && s'.dvsize == s.h.chunks[p].size + s.dvsize - nb
    requires s'.topsize == s.topsize && s'.live == s.live
    ensures s'.Books(p, 0)
  {
    hide Pad, Aligned, Arena.Binned, Arena.VictimOk, Arena.Owned, Arena.HoleOk, Arena.LooseOk;
    UseSomeVictimBinned(s, s', p, nb);
    UseSomeVictimOwned(s, s', p, nb);
  }

  lemma UseSomeTopBinned(s: Arena, s': Arena, p: nat, nb: nat)
    requires s.Books(p, 0) && Rebounds(s.h, s'.h, p, nb) && p > 0 && p != s.h.Next(p) == s.h.top
    requires p + nb in s.h.chunks ==> p + nb == s.h.Next(p)
    requires SameFiles(s, s') && s'.topsize == s.h.chunks[p].size + s.topsize - nb && s'.live == s.live
    ensures s'.Binned(0) && s'.VictimOk(0) && s'.LooseOk(0)
  {
    hide Pad, Aligned, Arena.Owned;
  }

  lemma UseSomeTopOwned(s: Arena, s': Arena, p: nat, nb: nat)
    requires s.Books(p, 0) && Rebounds(s.h, s'.h, p, nb) && p > 0 && p != s.h.Next(p) == s.h.top
    requires p + nb in s.h.chunks ==> p + nb == s.h.Next(p)
    requires SameFiles(s, s') && s'.topsize == s.h.chunks[p].size + s.topsize - nb && s'.live == s.live
    ensures s'.Owned(p) && s'.HoleOk(p)
  {
    hide Pad, Aligned;
  }

  lemma UseSomeTop(s: Arena, s': Arena, p: nat, nb: nat)
    requires s.Books(p, 0) && Rebounds(s.h, s'.h, p, nb) && p > 0 && p != s.h.Next(p) == s.h.top
    requires p + nb in s.h.chunks ==> p + nb == s.h.Next(p)
    requires SameFiles(s, s') && s'.topsize == s.h.chunks[p].size + s.topsize - nb && s'.live == s.live
    ensures s'.Books(p, 0)
  {
    hide Pad, Aligned, Arena.Binned, Arena.VictimOk, Arena.Owned, Arena.HoleOk, Arena.LooseOk;
    UseSomeTopBinned(s, s', p, nb);
    UseSomeTopOwned(s, s', p, nb);
  }

  // ---- memory from the system

  lemma StartBooks(s: Arena, r: Segment, t: map<nat, Tag>)
    requires Starts(s.h, r, t) && s.h.top > 0 && s.items == map[] && s.live == map[] && s.dv == 0 == s.dvsize
    requires s.topsize == TopSize(r)
    ensures s.Books(0, 0)
  {
    hide Pad, Aligned, WordSized, Segment.First;
  }

  lemma GrowTop(s: Arena, s': Arena, r: Segment)
    requires s.Books(0, 0) && Appends(s.h, s'.h, r) && SameFiles(s, s') && s'.live == s.live
    requires s'.topsize == s.topsize + r.size
    ensures s'.Books(0, 0)
  {
    hide Pad, Aligned, WordSized, Segment.First;
  }

  lemma GrowFront(s: Arena, s': Arena, i: nat, r: Segment)
    requires s.Books(0, 0) && Prepends(s.h, s'.h, i, r) && SameFiles(s, s') && s'.live == s.live
      && s'.topsize == s.topsize
    requires r.First() !in s.h.chunks && r.First() !in s.h.records && r.First() > 0
    ensures s'.Books(r.First(), 0)
  {
    hide Pad, Aligned, WordSized, Segment.First;
  }

  lemma ChangeTopBinned(s: Arena, s': Arena, r: Segment, c: nat)
    requires s.Books(0, 0) && Adds(s.h, s'.h, r, c) && SameFiles(s, s') && s'.live == s.live && s'.topsize == TopSize(r)
    requires r.First() !in s.h.chunks && r.First() != c && r.First() > 0 && (c in s.h.chunks ==> c == s.h.top)
    ensures s'.Binned(if c == s.h.top then 0 else s.h.top) && s'.VictimOk(if c == s.h.top then 0 else s.h.top)
  {
    hide Pad, Aligned, WordSized, Segment.First, Fenced, Arena.Owned;
  }

  lemma ChangeTopOwned(s: Arena, s': Arena, r: Segment, c: nat)
    requires s.Books(0, 0) && Adds(s.h, s'.h, r, c) && SameFiles(s, s') && s'.live == s.live && s'.topsize == TopSize(r)
    requires r.First() !in s.h.chunks && r.First() != c && r.First() > 0 && (c in s.h.chunks ==> c == s.h.top)
    ensures s'.Owned(0)
  {
    hide Pad, Aligned, WordSized, Segment.First, Fenced, Arena.Binned;
  }

  lemma ChangeTop(s: Arena, s': Arena, r: Segment, c: nat)
    requires s.Books(0, 0) && Adds(s.h, s'.h, r, c) && SameFiles(s, s') && s'.live == s.live && s'.topsize == TopSize(r)
    requires r.First() !in s.h.chunks && r.First() != c && r.First() > 0 && (c in s.h.chunks ==> c == s.h.top)
    ensures s'.Books(0, if c == s.h.top then 0 else s.h.top)
  {
    hide Pad, Aligned, WordSized, Segment.First, Fenced, Arena.Binned, Arena.Owned, Arena.VictimOk;
    ChangeTopBinned(s, s', r, c);
    ChangeTopOwned(s, s', r, c);
  }
}

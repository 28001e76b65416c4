/**
 Where free bytes are filed. Operations on the heap are described here by what they do to the designated victim, the
 binned chunks and the top chunk, in terms of the state before and in plain numbers.
 */
module Filings {
  import opened Heaps
  import opened Segments
  import opened Arenas
  import opened Moves

  // ---- freeing

  /** Bytes up to p that are free: the start of the free chunk that ends there, if there is one. */
  ghost function BackStart(c: map<nat, Chunk>, p: nat): nat {
    if exists q: nat :: EndsAt(c, q, p) then var q: nat :| EndsAt(c, q, p); q else p
  }

  ghost predicate EndsAt(c: map<nat, Chunk>, q: nat, p: nat) {
    q in c && !c[q].inuse && q + c[q].size == p
  }

  /** Bytes from q on that are free: the end of the free chunk that starts there, if there is one. */
  ghost function FrontEnd(c: map<nat, Chunk>, q: nat): nat {
    if q in c && !c[q].inuse then q + c[q].size else q
  }

  ghost predicate TopStays(s: Arena, s': Arena) {
    s'.h.top == s.h.top && s'.topsize == s.topsize
  }

  ghost predicate VictimStays(s: Arena, s': Arena) {
    s'.dv == s.dv && s'.dvsize == s.dvsize
  }

  ghost predicate FilesStay(s: Arena, s': Arena) {
    TopStays(s, s') && VictimStays(s, s') && s'.items == s.items
  }

  /** The bytes from p to q get free and with the free chunks around them make up those from lo to hi. If the top chunk
      is among these, all of it is top chunk now; or else the designated victim; or else it is binned. */
  ghost predicate FreedInto(s: Arena, s': Arena, q: nat, lo: nat, hi: nat) {
    if q == s.h.top then
      && s'.h.top == lo && s'.topsize == hi - lo && s'.items == s.items - {lo}
      && if s.dv == lo then s'.dv == 0 && s'.dvsize == 0 else VictimStays(s, s')
    else if s.dv == lo || s.dv == q then
      TopStays(s, s') && s'.items == s.items - {lo, q} && s'.dv == lo && s'.dvsize == hi - lo
    else
      TopStays(s, s') && VictimStays(s, s') && s'.items == (s.items - {lo, q})[lo := hi - lo]
  }

  /** What freeing the n bytes at p, in use before, does to top chunk, designated victim and bins. */
  ghost predicate FreedFiled(s: Arena, s': Arena, p: nat, n: nat) {
    FreedInto(s, s', p + n, BackStart(s.h.chunks, p), FrontEnd(s.h.chunks, p + n))
  }

  /** No two chunks end at the same place. */
  lemma OneEnd(s: Arena, stale: nat, hole: nat, loose: nat, a: nat, b: nat)
    requires Ready(s, stale, hole, loose) && a in s.h.chunks && b in s.h.chunks && s.h.Next(a) == s.h.Next(b)
    ensures a == b
  {
    hide Arena.Books, Heap.AllTagged, Heap.Coalesced, Heap.FirstsOk, Heap.FencesOk, Heap.Segmented, Heap.Placed,
      Heap.TopOk, Heap.RecordsOk;
    if a < b {
      assert s.h.Next(a) <= b;
      ChunkFacts(s.h, b, stale);
    } else if b < a {
      assert s.h.Next(b) <= a;
      ChunkFacts(s.h, a, stale);
    }
  }

  lemma StartsBack(s: Arena, stale: nat, hole: nat, loose: nat, q: nat, p: nat)
    requires Ready(s, stale, hole, loose) && EndsAt(s.h.chunks, q, p)
    ensures BackStart(s.h.chunks, p) == q
  {
    hide Ready;
    var b := BackStart(s.h.chunks, p);
    assert EndsAt(s.h.chunks, b, p);
    OneEnd(s, stale, hole, loose, b, q);
  }

  /** Right behind a chunk in use there is nothing to join. */
  lemma StartsHere(s: Arena, stale: nat, hole: nat, loose: nat, a: nat, p: nat)
    requires Ready(s, stale, hole, loose) && a in s.h.chunks && s.h.chunks[a].inuse && s.h.Next(a) == p
    ensures BackStart(s.h.chunks, p) == p
  {
    hide Ready;
    forall q: nat | EndsAt(s.h.chunks, q, p) ensures false {
      OneEnd(s, stale, hole, loose, a, q);
    }
  }

  lemma StartsWhereSet(s: Arena, hole: nat, p: nat)
    requires Ready(s, 0, hole, 0) && p in s.h.tags && s.h.tags[p].pinuse
    ensures BackStart(s.h.chunks, p) == p
  {
    hide Ready;
    forall q: nat | EndsAt(s.h.chunks, q, p) ensures false {
      PinuseTold(s, hole, q);
    }
  }

  lemma PinuseTold(s: Arena, hole: nat, q: nat)
    requires Ready(s, 0, hole, 0) && q in s.h.chunks
    ensures s.h.Next(q) in s.h.tags && s.h.tags[s.h.Next(q)].pinuse == s.h.chunks[q].inuse
  {
    hide Arena.Books;
    ChunkFacts(s.h, q, 0);
  }

  /** No chunk ends inside another. */
  lemma StartsInside(s: Arena, stale: nat, hole: nat, loose: nat, a: nat, p: nat)
    requires Ready(s, stale, hole, loose) && a in s.h.chunks && a < p < s.h.Next(a)
    ensures BackStart(s.h.chunks, p) == p
  {
    hide Arena.Books, Heap.AllTagged, Heap.Coalesced, Heap.FirstsOk, Heap.FencesOk, Heap.Segmented, Heap.Placed,
      Heap.TopOk, Heap.RecordsOk;
    forall q: nat | q in s.h.chunks ensures q + s.h.chunks[q].size != p {
      assert q < a ==> s.h.Next(q) <= a;
      assert a < q ==> s.h.Next(a) <= q;
    }
  }

  /** The branches of dispose_chunk after p is joined with its predecessor; `victim` if that was the designated one. */
  ghost predicate Forward(s: Arena, s': Arena, p: nat, n: nat, victim: bool)
    requires p + n in s.h.chunks
  {
    var q := p + n;
    if q == s.h.top then
      && s'.items == s.items && s'.h.top == p && s'.topsize == s.topsize + n
      && if victim then s'.dv == 0 && s'.dvsize == 0 else VictimStays(s, s')
    else if q == s.dv then
      TopStays(s, s') && s'.items == s.items && s'.dv == p && s'.dvsize == s.dvsize + n
    else if !s.h.chunks[q].inuse then
      && q in s.items && TopStays(s, s') && s'.dv == s.dv
      && if victim then s'.dvsize == n + s.items[q] && s'.items == s.items - {q}
         else s'.dvsize == s.dvsize && s'.items == (s.items - {q})[p := n + s.items[q]]
    else if victim then TopStays(s, s') && s'.items == s.items && s'.dv == p && s'.dvsize == n
    else TopStays(s, s') && VictimStays(s, s') && s'.items == s.items[p := n]
  }

  lemma ForwardFiled(s: Arena, s': Arena, p: nat, n: nat, victim: bool)
    requires Ready(Standing(s, victim), p, p, 0) && p > 0 && p in s.h.chunks && s.h.Next(p) == p + n
    requires p + n in s.h.chunks
    requires (s.dv == p <==> victim) && Forward(s, s', p, n, victim)
    ensures FreedInto(s, s', p + n, p, FrontEnd(s.h.chunks, p + n))
  {
    hide Heap.Ok, Arena.Owned;
    var q, r := p + n, Standing(s, victim);
    UsedFacts(r, p, p);
    TopFacts(r, p, p, 0);
    assert r.Filed(p, 0) && r.Filed(q, 0);
    assert q !in s.items ==> s.items - {p, q} == s.items;
    assert p !in s.items ==> s.items - {p} == s.items;
    assert p !in s.items ==> s.items - {p, q} == s.items - {q};
  }

  /** Joining p0 with its free predecessor p first, as dispose_chunk does. */
  lemma BackFirst(s: Arena, mid: Arena, s': Arena, p0: nat, n0: nat, p: nat)
    requires Ready(s, 0, p0, 0) && p0 in s.h.chunks && s.h.Next(p0) == p0 + n0 && EndsAt(s.h.chunks, p, p0)
    requires mid.h.chunks == (s.h.chunks - {p0})[p := Chunk(p0 + n0 - p, true)] && n0 > 0 && p < p0
    requires TopStays(s, mid) && VictimStays(s, mid) && mid.items == s.items - {p}
    requires FreedInto(mid, s', p0 + n0, p, FrontEnd(mid.h.chunks, p0 + n0))
    ensures FreedFiled(s, s', p0, n0)
  {
    hide Ready;
    StartsBack(s, 0, p0, 0, p, p0);
    assert s.items - {p} - {p, p0 + n0} == s.items - {p, p0 + n0};
    assert s.items - {p} - {p} == s.items - {p};
  }

  /** Who holds what plays no part in where bytes are filed. */
  lemma FreedLater(s: Arena, s1: Arena, s2: Arena, s': Arena, p: nat, n: nat)
    requires s1 == s.(live := s1.live) && s' == s2.(live := s'.live) && FreedFiled(s1, s2, p, n)
    ensures FreedFiled(s, s', p, n)
  {
    hide BackStart, FrontEnd;
  }

  /** Freeing the tail of a chunk in use that was cut there before. */
  lemma TailFreed(s: Arena, mid: Arena, s': Arena, p: nat, nb: nat)
    requires Ready(s, 0, p, 0) && Ready(mid, 0, p + nb, 0) && p in s.h.chunks && 0 < nb < s.h.chunks[p].size
    requires mid.h.chunks == s.h.chunks[p := Chunk(nb, true)][p + nb := Chunk(s.h.chunks[p].size - nb, true)]
    requires TopStays(s, mid) && VictimStays(s, mid) && mid.items == s.items
    requires FreedFiled(mid, s', p + nb, s.h.chunks[p].size - nb)
    ensures FreedFiled(s, s', p + nb, s.h.chunks[p].size - nb)
  {
    hide Ready, FreedInto;
    StartsInside(s, 0, p, 0, p, p + nb);
    StartsHere(mid, 0, p + nb, 0, p, p + nb);
    SameInto(s, mid, s', s.h.Next(p), p + nb, FrontEnd(s.h.chunks, s.h.Next(p)));
  }

  lemma SameInto(s: Arena, mid: Arena, s': Arena, q: nat, lo: nat, hi: nat)
    requires TopStays(s, mid) && VictimStays(s, mid) && mid.items == s.items && FreedInto(mid, s', q, lo, hi)
    ensures FreedInto(s, s', q, lo, hi)
  {
  }

  /** Freeing the front of a chunk in use that was cut there before. */
  lemma FrontFreed(s: Arena, mid: Arena, s': Arena, p: nat, lead: nat)
    requires Ready(s, 0, p, 0) && Ready(mid, 0, p, 0) && p in s.h.chunks && 0 < lead < s.h.chunks[p].size
    requires s.h.chunks[p].inuse && p + lead !in s.h.chunks
    requires mid.h.chunks == s.h.chunks[p := Chunk(lead, true)][p + lead := Chunk(s.h.chunks[p].size - lead, true)]
    requires TopStays(s, mid) && VictimStays(s, mid) && mid.items == s.items
    requires FreedFiled(mid, s', p, lead)
    ensures FreedFiled(s, s', p, lead)
  {
    hide Ready, FreedInto;
    if q: nat :| EndsAt(s.h.chunks, q, p) {
      assert EndsAt(mid.h.chunks, q, p);
      StartsBack(s, 0, p, 0, q, p);
      StartsBack(mid, 0, p, 0, q, p);
    } else {
      assert forall q: nat :: EndsAt(mid.h.chunks, q, p) ==> EndsAt(s.h.chunks, q, p);
    }
    SameInto(s, mid, s', p + lead, BackStart(s.h.chunks, p), FrontEnd(s.h.chunks, p + lead));
  }

  // ---- resizing in place

  /** What try_realloc_chunk does with the chunk p and what follows it when there is room for nb bytes. */
  ghost predicate Resized(s: Arena, s': Arena, p: nat, nb: nat)
    requires p in s.h.chunks
  {
    var size := s.h.chunks[p].size;
    var n := p + size;
    && p in s'.h.chunks
    && if size >= nb then
         if size < nb + 32 then
           s'.h.chunks[p].size == size && TopStays(s, s') && VictimStays(s, s') && s'.items == s.items
         else
           s'.h.chunks[p].size == nb && FreedFiled(s, s', p + nb, size - nb)
       else if n == s.h.top then
         && s'.h.chunks[p].size == nb && VictimStays(s, s') && s'.items == s.items
         && s'.h.top == p + nb && s'.topsize == size + s.topsize - nb
       else if n == s.dv then
         && TopStays(s, s') && s'.items == s.items
         && if size + s.dvsize < nb + 32 then
              s'.h.chunks[p].size == size + s.dvsize && s'.dv == 0 && s'.dvsize == 0
            else
              s'.h.chunks[p].size == nb && s'.dv == p + nb && s'.dvsize == size + s.dvsize - nb
       else
         && n in s.items && TopStays(s, s') && VictimStays(s, s')
         && if size + s.items[n] < nb + 32 then
              s'.h.chunks[p].size == size + s.items[n] && s'.items == s.items - {n}
            else
              s'.h.chunks[p].size == nb && s'.items == (s.items - {n})[p + nb := size + s.items[n] - nb]
  }

  lemma ResizedLater(s: Arena, s1: Arena, s': Arena, p: nat, nb: nat)
    requires s1 == s.(live := s1.live) && p in s.h.chunks && Resized(s1, s', p, nb)
    ensures Resized(s, s', p, nb)
  {
    hide FreedInto, BackStart, FrontEnd;
    if nb + 32 <= s.h.chunks[p].size {
      FreedLater(s, s1, s', s', p + nb, s.h.chunks[p].size - nb);
    }
  }

  /** A chunk in use follows a free one. */
  lemma UsedBehind(s: Arena, hole: nat, n: nat)
    requires Ready(s, 0, hole, n) && n > 0
    ensures n in s.h.chunks && s.h.Next(n) in s.h.chunks && s.h.chunks[s.h.Next(n)].inuse && s.h.Next(n) != n
  {
    hide Arena.Owned, Aligned;
    FreeFacts(s, 0, hole, n, n);
    hide Heap.Tiled, Heap.AllTagged, Heap.FirstsOk, Heap.FencesOk;
  }

  /** What is cut off again from a chunk that swallowed the binned chunk n is binned. */
  lemma RestBinned(mid: Arena, s': Arena, p: nat, r: nat, rsize: nat)
    requires Ready(mid, 0, r, 0) && r > 0 && r in mid.h.chunks && mid.h.chunks[r] == Chunk(rsize, true)
    requires p in mid.h.chunks && mid.h.chunks[p].inuse && mid.h.Next(p) == r
    requires r + rsize in mid.h.chunks && mid.h.chunks[r + rsize].inuse
    requires FreedFiled(mid, s', r, rsize)
    ensures TopStays(mid, s') && VictimStays(mid, s') && s'.items == mid.items[r := rsize]
  {
    hide Ready;
    StartsHere(mid, 0, r, 0, p, r);
    UsedUnfiled(mid, r, r);
    UsedUnfiled(mid, r, r + rsize);
    assert mid.items - {r, r + rsize} == mid.items;
  }

  lemma UsedUnfiled(s: Arena, hole: nat, a: nat)
    requires Ready(s, 0, hole, 0) && a in s.h.chunks && s.h.chunks[a].inuse
    ensures a !in s.items && a != s.dv && a != s.h.top
  {
    hide Heap.Ok, Arena.Owned;
    TopFacts(s, 0, hole, 0);
    assert s.Filed(a, 0);
  }

  // ---- taking in a region

  /** Where the record of a segment goes that ends at `end` with a top chunk at `top`: as far back as it must for itself
      and two fenceposts, or to the start of the top chunk if too little would be left of that. */
  ghost predicate RecordSpot(top: nat, end: nat, c: nat) {
    if end < top + 112 then c == top else c % 16 == 0 && c + 80 <= end < c + 96
  }

  lemma RecordIsThere(top: nat, end: nat)
    requires Aligned(top) && top + TOP_FOOT < end && end >= RECORD_SIZE + 32 + 15
    ensures RecordSpot(top, end, RecordPlace(top, end))
    ensures forall c: nat :: RecordSpot(top, end, c) ==> c == RecordPlace(top, end)
  {
  }

  ghost predicate Extending(s: Arena, r: Segment) {
    |s.h.segs| > 0 && s.h.segs[0].End() == r.base
  }

  ghost predicate Precedes(s: Arena, r: Segment, i: nat) {
    i < |s.h.segs| && s.h.segs[i].base == r.End()
  }

  /** The region is put before a segment: not if it can extend the newest one. */
  ghost predicate Prepended(s: Arena, r: Segment) {
    !Extending(s, r) && exists i: nat :: Precedes(s, r, i)
  }

  /** The top chunk once the region is taken in, unless it is put before a segment. */
  ghost function TopThen(s: Arena, r: Segment): nat {
    if Extending(s, r) then s.h.top else r.First()
  }

  ghost function TopSizeThen(s: Arena, r: Segment): int {
    if Extending(s, r) then s.topsize + r.size else r.base + r.size - 80 - r.First()
  }

  /** The bins then: a new segment leaves the old top chunk, up to the record, as a binned chunk. */
  ghost predicate BinsThen(s: Arena, s': Arena, r: Segment) {
    if s.h.segs == [] || Extending(s, r) then s'.items == s.items
    else forall c: nat :: RecordSpot(s.h.top, s.h.segs[0].End(), c) ==>
      s'.items == if c == s.h.top then s.items else s.items[s.h.top := c - s.h.top]
  }

  /** The first nb bytes of a region put before segment i are chunk p; the rest is filed like freed bytes. */
  ghost predicate PrependFiled(s: Arena, s': Arena, r: Segment, nb: nat, i: nat)
    requires i < |s.h.segs|
  {
    var q := s.h.segs[i].First();
    FreedInto(s, s', q, r.First() + nb, FrontEnd(s.h.chunks, q))
  }

  /** The rest of a region from q on, and the chunk at f behind it if that is free, are one chunk, filed nowhere yet. */
  ghost predicate RestLoose(s: Arena, s': Arena, q: nat, f: nat) {
    && f in s.h.chunks && q in s'.h.chunks
    && if s.h.chunks[f].inuse then s'.items == s.items && q + s'.h.chunks[q].size == f
       else f in s.items && s'.items == s.items - {f} && q + s'.h.chunks[q].size == f + s.items[f]
  }

  ghost predicate RestJoined(s: Arena, s': Arena, q: nat, f: nat) {
    if f == s.h.top then
      s'.items == s.items && VictimStays(s, s') && s'.h.top == q && q + s'.topsize == f + s.topsize
    else if f == s.dv then
      TopStays(s, s') && s'.items == s.items && s'.dv == q && q + s'.dvsize == f + s.dvsize
    else
      && TopStays(s, s') && VictimStays(s, s')
      && exists mid: Arena :: RestLoose(s, mid, q, f) && s'.items == mid.items[q := mid.h.chunks[q].size]
  }

  lemma PrependIs(s: Arena, s': Arena, r: Segment, nb: nat, i: nat)
    requires Ready(s, 0, 0, 0) && FirstFound(s, i, r, nb) && RestJoined(s, s', r.First() + nb, r.First() + r.size)
    ensures PrependFiled(s, s', r, nb, i)
  {
    hide Heap.Ok, Arena.Owned, Segment.First;
    var f, q := r.First() + r.size, r.First() + nb;
    TopFacts(s, 0, 0, 0);
    assert s.Filed(f, 0);
    assert q !in s.items;
    assert f !in s.items ==> s.items - {q, f} == s.items;
    assert s.items - {q, f} == s.items - {f} && s.items - {q} == s.items;
    assert f == s.dv ==> s.dvsize == s.h.chunks[f].size;
  }

  /** A region is taken in: p is a chunk of nb bytes in it, or 0 if it is all top chunk. */
  ghost predicate RegionFiled(s: Arena, s': Arena, r: Segment, nb: nat, p: nat) {
    if Prepended(s, r) then
      p == r.First() && exists i: nat :: Precedes(s, r, i) && PrependFiled(s, s', r, nb, i)
    else
      p == 0 && s'.h.top == TopThen(s, r) && s'.topsize == TopSizeThen(s, r) && VictimStays(s, s') && BinsThen(s, s', r)
  }

  /** A request of nb bytes is served, as chunk p, from a region that the system gave. */
  ghost predicate Served(s: Arena, s': Arena, r: Segment, nb: nat, p: nat) {
    if Prepended(s, r) then
      p == r.First() && exists i: nat :: Precedes(s, r, i) && PrependFiled(s, s', r, nb, i)
    else
      && p == TopThen(s, r) && s'.h.top == p + nb && s'.topsize == TopSizeThen(s, r) - nb
      && VictimStays(s, s') && BinsThen(s, s', r)
  }

  lemma ServedFromTop(s: Arena, mid: Arena, s': Arena, r: Segment, nb: nat, p: nat)
    requires RegionFiled(s, mid, r, nb, 0) && r.First() > 0 && p == mid.h.top
    requires s'.h.top == p + nb && s'.topsize == mid.topsize - nb && s'.items == mid.items && VictimStays(mid, s')
    ensures Served(s, s', r, nb, p)
  {
    hide RecordSpot, PrependFiled;
  }

  lemma FirstFiled(s: Arena, s': Arena, r: Segment, nb: nat)
    requires s.h.segs == [] && s'.h.top == r.First() && s'.topsize == TopSize(r) && VictimStays(s, s')
    requires s'.items == s.items
    ensures RegionFiled(s, s', r, nb, 0)
  {
  }

  lemma AppendFiled(s: Arena, s': Arena, r: Segment, nb: nat)
    requires Extending(s, r) && s'.h.top == s.h.top && s'.topsize == s.topsize + r.size && VictimStays(s, s')
    requires s'.items == s.items
    ensures RegionFiled(s, s', r, nb, 0)
  {
  }

  lemma PrependedFiled(s: Arena, s': Arena, r: Segment, nb: nat, i: nat)
    requires !Extending(s, r) && Precedes(s, r, i) && PrependFiled(s, s', r, nb, i)
    ensures RegionFiled(s, s', r, nb, r.First())
  {
    hide PrependFiled;
  }

  lemma AddedFiled(s: Arena, s': Arena, r: Segment, nb: nat)
    requires Ready(s, 0, 0, 0) && |s.h.segs| > 0 && !Extending(s, r) && s.h.segs[0].End() >= RECORD_SIZE + 32 + 15
    requires forall i :: 0 <= i < |s.h.segs| ==> s.h.segs[i].base != r.End()
    requires s'.h.top == r.First() && s'.topsize == TopSize(r) && VictimStays(s, s')
    requires s.h.top <= RecordPlace(s.h.top, s.h.segs[0].End())
    requires var c := RecordPlace(s.h.top, s.h.segs[0].End());
      s'.items == if c == s.h.top then s.items else s.items[s.h.top := c - s.h.top]
    ensures RegionFiled(s, s', r, nb, 0)
  {
    hide Ready, RecordPlace, RecordSpot, Segment.First;
    TopFacts(s, 0, 0, 0);
    TopSegment(s, 0);
    RecordIsThere(s.h.top, s.h.segs[0].End());
  }

  lemma TookMerged(segs: seq<Segment>, segs': seq<Segment>, records: set<nat>, r: Segment, i: nat)
    requires Merged(segs, segs', i, r)
    ensures Took(segs, segs', records, records, r)
  {
  }

  lemma TookNew(segs: seq<Segment>, records: set<nat>, records': set<nat>, r: Segment, c: nat)
    requires |segs| > 0 && records' == records + {c} && segs[0].base <= c < segs[0].End()
    ensures Took(segs, [r] + segs, records, records', r)
  {
    assert OneMore(records, records', c);
  }

  lemma FirstTook(records: set<nat>, r: Segment)
    ensures Took([], [r], records, records, r)
  {
    assert [r] + [] == [r];
  }

  lemma NothingThere(c: map<nat, Chunk>, p: nat)
    requires c == map[]
    ensures WasFree(c, p)
  {
  }

  lemma RegionPlace(r: Segment)
    requires RegionOk(r)
    ensures r.First() > 0
  {
  }

  lemma ServedDirectly(s: Arena, s': Arena, r: Segment, nb: nat, p: nat)
    requires RegionFiled(s, s', r, nb, p) && p > 0
    ensures Served(s, s', r, nb, p)
  {
    hide PrependFiled;
  }

  // ---- what the allocator owes the system

  datatype Account = Account(footprint: nat, peak: nat, grain: nat, least: nat)

  /** The account once region r is taken in. */
  ghost function Charged(a: Account, r: Segment): Account {
    Account(a.footprint + r.size, if a.footprint + r.size > a.peak then a.footprint + r.size else a.peak, a.grain,
            if a.least == 0 || r.base < a.least then r.base else a.least)
  }

  /** The account after a request of nb bytes: region r is charged, and doubles the granularity, if it was needed. */
  ghost function Settled(s: Arena, a: Account, nb: nat, r: Segment): Account {
    if NothingFits(s, nb) && s.topsize <= nb then Charged(a, r).(grain := 2 * a.grain) else a
  }

  /** Where malloc leaves what it does not give away of the chunk or region that serves a request. */
  ghost predicate Leftover(s: Arena, s': Arena, p: nat, nb: nat, small: bool, r: Segment) {
    if NothingFits(s, nb) && s.topsize <= nb then Served(s, s', r, nb, p) else RestFiled(s, s', p, nb, small)
  }

  lemma SameLeftover(s: Arena, mid: Arena, s': Arena, p: nat, nb: nat, small: bool, r: Segment)
    requires Leftover(s, mid, p, nb, small, r) && s' == mid.(live := s'.live)
    ensures Leftover(s, s', p, nb, small, r)
  {
    hide NothingFits, RecordSpot, FrontEnd;
    if Prepended(s, r) && Served(s, mid, r, nb, p) {
      var i: nat :| Precedes(s, r, i) && PrependFiled(s, mid, r, nb, i);
      assert PrependFiled(s, s', r, nb, i);
    }
  }
}

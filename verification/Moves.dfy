/** The moves of the allocator on heap and books together. */
module Moves {
  import opened Words
  import opened Heaps
  import opened Steps
  import opened Segments
  import opened Arenas

  ghost predicate Ready(s: Arena, stale: nat, hole: nat, loose: nat) {
    s.h.Ok(stale) && s.Books(hole, loose)
  }

  /** What holds of a free chunk that is binned or is the designated victim. */
  ghost predicate FreeChunk(s: Arena, p: nat) {
    && p in s.h.chunks && 0 < p != s.h.top && !s.h.chunks[p].inuse && p !in s.h.records
    && p in s.h.tags && s.h.tags[p].pinuse && s.h.tags[p].size == s.h.chunks[p].size && !s.h.tags[p].cinuse
    && s.h.Next(p) in s.h.chunks && s.h.Next(p) in s.h.tags && Aligned(s.h.chunks[p].size)
    && s.h.chunks[p].size >= MIN_CHUNK
  }

  /** What holds of a chunk in use that is no segment record. */
  ghost predicate UsedChunk(s: Arena, p: nat) {
    && p in s.h.chunks && 0 < p != s.h.top && s.h.chunks[p].inuse && p !in s.h.records
    && p in s.h.tags && s.h.Next(p) in s.h.chunks && s.h.Next(p) in s.h.tags && s.h.tags[s.h.Next(p)].pinuse
    && Aligned(s.h.chunks[p].size) && s.h.chunks[p].size >= MIN_CHUNK && Aligned(p)
  }

  /** What holds of the top chunk. */
  ghost predicate TopChunk(s: Arena) {
    && 0 < s.h.top && s.h.top in s.h.chunks && !s.h.chunks[s.h.top].inuse && s.h.top !in s.h.records && Aligned(s.h.top)
    && s.topsize == s.h.chunks[s.h.top].size > 0
  }

  lemma ChunkFacts(h: Heap, p: nat, stale: nat)
    requires h.Ok(stale) && p in h.chunks
    ensures p > 0 && Aligned(p) && h.chunks[p].size > 0 && p in h.tags && h.Next(p) in h.tags
    ensures p != h.top ==> Aligned(h.chunks[p].size) && h.chunks[p].size >= MIN_CHUNK
    ensures p != stale ==> h.tags[p].size == h.chunks[p].size && h.tags[p].cinuse == h.chunks[p].inuse
    ensures h.tags[h.Next(p)].pinuse == h.chunks[p].inuse
    ensures p in h.records ==> h.chunks[p].inuse
    ensures p != h.top && p !in h.records ==> h.Next(p) in h.chunks
  {
    hide Segment.First, Heap.Inside, Heap.Segmented, Heap.Ordered, Heap.Coalesced, Aligned, WordSized, Heap.FirstsOk,
      Heap.RecordsOk, Heap.FencesOk;
    assert h.Placed(p) && h.TagOk(p, stale);
    if p in h.records {
      RecordIsChunk(h, p);
    }
  }

  lemma ChunkBound(h: Heap, p: nat, stale: nat)
    requires h.Ok(stale) && p in h.chunks
    ensures h.Next(p) < ADDRESS_LIMIT
  {
    hide Segment.First, Heap.Ordered, Heap.Coalesced, Aligned, WordSized, Heap.FirstsOk, Heap.AllTagged;
    assert h.Placed(p);
    var i :| 0 <= i < |h.segs| && h.segs[i].First() <= p && h.Next(p) <= h.lims[i];
    assert h.SegmentOk(i);
  }

  lemma FreeFacts(s: Arena, stale: nat, hole: nat, loose: nat, p: nat)
    requires Ready(s, stale, hole, loose) && (stale == 0 || stale == hole)
    requires p in s.items || (p == s.dv && p != 0) || (p == loose && p != 0)
    ensures FreeChunk(s, p) && (p in s.items ==> s.items[p] == s.h.chunks[p].size && p != s.dv)
    ensures p == s.dv ==> s.dvsize == s.h.chunks[p].size
  {
    hide Heap.Ok, Arena.Owned, Aligned;
    assert p in s.items ==> s.Filed(p, loose);
    ChunkFacts(s.h, p, stale);
    FreePreceded(s.h, p, stale);
  }

  /** No chunk starts inside another. */
  lemma NoneInside(s: Arena, stale: nat, hole: nat, loose: nat, p: nat, r: nat)
    requires Ready(s, stale, hole, loose) && p in s.h.chunks && p < r < s.h.Next(p)
    ensures r !in s.h.chunks
  {
    hide Arena.Books, Heap.AllTagged, Heap.Coalesced, Heap.FirstsOk, Heap.Segmented, Heap.AllPlaced, Heap.TopOk,
      Heap.RecordsOk;
  }

  lemma UsedFacts(s: Arena, stale: nat, p: nat)
    requires Ready(s, stale, p, 0) && p > 0
    ensures UsedChunk(s, p)
  {
    hide Heap.Ok, Arena.Owned, Arena.Binned, Aligned;
    ChunkFacts(s.h, p, stale);
  }

  lemma HeldFacts(s: Arena, m: nat)
    requires Ready(s, 0, 0, 0) && m in s.live
    ensures m > 16 && UsedChunk(s, m - 16) && Fits(s.live[m], s.h.chunks[m - 16].size)
    ensures s.h.tags[m - 16].size == s.h.chunks[m - 16].size && s.h.tags[m - 16].cinuse
  {
    hide Heap.Ok, Arena.Binned, Aligned, Pad, Fits;
    assert s.Held(m, 0);
    ChunkFacts(s.h, m - 16, 0);
  }

  lemma TopFacts(s: Arena, stale: nat, hole: nat, loose: nat)
    requires Ready(s, stale, hole, loose)
    ensures TopChunk(s)
  {
    hide Heap.Ok, Arena.Owned, Arena.Binned, Aligned;
    ChunkFacts(s.h, s.h.top, stale);
  }

  /** A chunk leaves its bin, or stops being the designated victim, and is loose. */
  lemma Loosen(s: Arena, s': Arena, stale: nat, hole: nat, a: nat)
    requires Ready(s, stale, hole, 0) && a > 0 && Unfiled(s, s', a)
    requires s'.h == s.h && s'.topsize == s.topsize && s'.live == s.live
    ensures Ready(s', stale, hole, a)
  {
    hide Heap.Ok, Arena.Books, Unfiled;
    Unfile(s, s', hole, a);
  }

  // ---- allocating

  lemma AllocWhole(s: Arena, s': Arena, p: nat)
    requires Ready(s, 0, 0, p) && Takes(s.h, s'.h, p) && p > 0 && SameFiles(s, s')
    requires s'.topsize == s.topsize && s'.live == s.live
    ensures Ready(s', 0, p, 0) && Kept(s.h.chunks, s'.h.chunks, 0)
  {
    hide Heap.Ok, Arena.Books;
    FreeFacts(s, 0, 0, p, p);
    FreeKept(s.h.chunks, s'.h.chunks, p, p, p);
    TakeOk(s.h, s'.h, p);
    UseWhole(s, s', p);
  }

  lemma AllocPart(s: Arena, s': Arena, p: nat, nb: nat)
    requires Ready(s, 0, 0, p) && TakesSplit(s.h, s'.h, p, nb) && p > 0 && SameFiles(s, s')
    requires s'.topsize == s.topsize && s'.live == s.live
    ensures Ready(s', 0, p, p + nb) && Kept(s.h.chunks, s'.h.chunks, 0)
  {
    hide Heap.Ok, Heap.Tiled, Arena.Books, Aligned;
    IsTiled(s.h, 0);
    TakeSplitOk(s.h, s'.h, p, nb);
    SplitFresh(s.h, s'.h, p, nb, true, false);
    FreeFacts(s, 0, 0, p, p);
    FreeKept(s.h.chunks, s'.h.chunks, p, p + nb, p);
    UsePart(s, s', p, nb);
  }

  lemma AllocTop(s: Arena, s': Arena, nb: nat)
    requires Ready(s, 0, 0, 0) && TakesTop(s.h, s'.h, nb) && s.h.top > 0 && SameFiles(s, s')
    requires s'.topsize == s.topsize - nb && s'.live == s.live
    ensures Ready(s', 0, s.h.top, 0) && Kept(s.h.chunks, s'.h.chunks, 0)
  {
    hide Heap.Ok, Heap.Tiled, Arena.Books, Aligned;
    IsTiled(s.h, 0);
    TakeTopOk(s.h, s'.h, nb);
    SplitFresh(s.h, s'.h, s.h.top, nb, true, false);
    TopFacts(s, 0, 0, 0);
    FreeKept(s.h.chunks, s'.h.chunks, s.h.top, s.h.top + nb, s.h.top);
    UseTop(s, s', nb);
  }

  lemma IsTiled(h: Heap, stale: nat)
    requires h.Ok(stale)
    ensures h.Tiled()
  {
    hide Heap.Tiled;
  }

  // ---- freeing

  lemma MergeBack(s: Arena, s': Arena, p: nat, b: nat)
    requires Ready(s, 0, p, b) && MergesPrev(s.h, s'.h, p, b) && b > 0 && SameFiles(s, s')
    requires s'.topsize == s.topsize && s'.live == s.live
    ensures Ready(s', b, b, 0) && b in s'.h.tags && s'.h.tags[b].pinuse
  {
    hide Heap.Ok, Arena.Books, Aligned;
    StaleOk(s.h, p);
    ChunkFacts(s.h, b, 0);
    MergePrevOk(s.h, s'.h, p, b);
    UseBefore(s, s', p, b);
  }

  lemma StaleOk(h: Heap, p: nat)
    requires h.Ok(0)
    ensures h.Ok(p)
  {
    hide Heap.Tiled, Heap.Coalesced, Heap.FirstsOk, Heap.FootOk;
    ChunksPositive(h);
    forall a | a in h.chunks ensures h.TagOk(a, p) { assert h.TagOk(a, 0); }
  }

  lemma ChunksPositive(h: Heap)
    requires h.Tiled()
    ensures forall a :: a in h.chunks ==> a > 0
  {
    hide Heap.Tiled;
    forall a | a in h.chunks ensures a > 0 { Elsewhere(h, a, a); }
  }

  lemma FreeAlone(s: Arena, s': Arena, p: nat)
    requires Ready(s, p, p, 0) && FreesHere(s.h, s'.h, p) && p > 0 && SameFiles(s, s')
    requires s'.topsize == s.topsize && s'.live == s.live
    ensures Ready(s', 0, 0, p)
  {
    hide Heap.Ok, Arena.Books;
    FreeHereOk(s.h, s'.h, p);
    LoseHere(s, s', p);
  }

  lemma FreeToTop(s: Arena, s': Arena, p: nat)
    requires Ready(s, p, p, 0) && FreesIntoTop(s.h, s'.h, p) && p > 0 && SameFiles(s, s')
    requires s'.topsize == s.topsize + s.h.chunks[p].size && s'.live == s.live
    ensures Ready(s', 0, 0, 0)
  {
    hide Heap.Ok, Arena.Books, Aligned;
    ChunkFacts(s.h, p, p);
    FreeIntoTopOk(s.h, s'.h, p);
    LoseIntoTop(s, s', p);
  }

  lemma FreeToNext(s: Arena, s': Arena, p: nat)
    requires FreesIntoNext(s.h, s'.h, p) && p > 0 && SameFiles(s, s') && Ready(s, p, p, s.h.Next(p))
    requires s'.topsize == s.topsize && s'.live == s.live
    ensures Ready(s', 0, 0, p)
  {
    hide Heap.Ok, Arena.Books, Aligned;
    ChunkFacts(s.h, p, p);
    FreeIntoNextOk(s.h, s'.h, p);
    LoseIntoNext(s, s', p);
  }

  // ---- resizing

  lemma Cut(s: Arena, s': Arena, p: nat, nb: nat, x: nat, bytes: nat, stale: nat)
    requires SplitsUsed(s.h, s'.h, p, nb) && p > 0 && SameFiles(s, s')
    requires (x == p || x == p + nb) && Fits(bytes, s'.h.chunks[x].size)
    requires s'.topsize == s.topsize && s'.live == s.live[x + 16 := bytes]
    requires Ready(s, stale, p, 0) && (stale == 0 || stale == p)
    ensures Ready(s', 0, if x == p then p + nb else p, 0) && p + nb in s'.h.tags && s'.h.tags[p + nb].pinuse
  {
    hide Heap.Ok, Heap.Tiled, Arena.Books, Aligned, Fits;
    IsTiled(s.h, stale);
    RecordHasChunk(s.h, p + nb);
    SplitUsedOk(s.h, s'.h, p, nb, stale);
    SplitFresh(s.h, s'.h, p, nb, true, true);
    CutUsed(s, s', p, nb, x, bytes);
  }

  lemma RecordHasChunk(h: Heap, a: nat)
    requires h.Tiled()
    ensures a in h.records ==> a in h.chunks
  {
    hide Heap.Segmented, Heap.AllPlaced, Heap.Ordered, Heap.RecordsOk;
    if a in h.records {
      RecordIsChunk(h, a);
    }
  }

  lemma Extend(s: Arena, s': Arena, p: nat)
    requires Absorbs(s.h, s'.h, p) && p > 0 && SameFiles(s, s') && Ready(s, 0, p, s.h.Next(p))
    requires s'.topsize == s.topsize && s'.live == s.live
    ensures Ready(s', 0, p, 0)
  {
    hide Heap.Ok, Arena.Books, Aligned;
    ChunkFacts(s.h, p, 0);
    AbsorbOk(s.h, s'.h, p);
    UseNext(s, s', p);
  }

  lemma BoundaryFresh(h: Heap, h': Heap, p: nat, nb: nat)
    requires h.Tiled() && Rebounds(h, h', p, nb)
    ensures p + nb in h.chunks ==> p + nb == h.Next(p)
    ensures p != h.Next(p)
  {
    hide Heap.Tiled, Aligned;
    Elsewhere(h, p, h.Next(p));
    if p + nb in h.chunks {
      Elsewhere(h, h.Next(p), p + nb);
      Elsewhere(h, p, p + nb);
    }
  }

  lemma ExtendIntoVictim(s: Arena, s': Arena, p: nat, nb: nat)
    requires Ready(s, 0, p, 0) && AbsorbsSome(s.h, s'.h, p, nb) && p > 0 && s.h.Next(p) == s.dv
    requires s'.items == s.items && s'.dv == p + nb && s'.dvsize == s.h.chunks[p].size + s.dvsize - nb
    requires s'.topsize == s.topsize && s'.live == s.live
    ensures Ready(s', 0, p, 0)
  {
    hide Heap.Ok, Heap.Tiled, Arena.Books, Aligned;
    IsTiled(s.h, 0);
    BoundaryFresh(s.h, s'.h, p, nb);
    AbsorbSomeOk(s.h, s'.h, p, nb);
    UseSomeVictim(s, s', p, nb);
  }

  lemma ExtendIntoTop(s: Arena, s': Arena, p: nat, nb: nat)
    requires Ready(s, 0, p, 0) && AbsorbsTop(s.h, s'.h, p, nb) && p > 0
    requires SameFiles(s, s') && s'.topsize == s.h.chunks[p].size + s.topsize - nb && s'.live == s.live
    ensures Ready(s', 0, p, 0)
  {
    hide Heap.Ok, Heap.Tiled, Arena.Books, Aligned;
    IsTiled(s.h, 0);
    BoundaryFresh(s.h, s'.h, p, nb);
    AbsorbSomeOk(s.h, s'.h, p, nb);
    UseSomeTop(s, s', p, nb);
  }

  // ---- memory from the system

  lemma GrantOk(base: nat, size: nat)
    requires base > 0 && WordSized(base) && Aligned(size) && size > 8 + TOP_FOOT && base + size < ADDRESS_LIMIT
    ensures RegionOk(Segment(base, size))
  {
  }

  /** What the system promises of a region it grants: word aligned, in the lower half of the address space, unused. */
  ghost predicate Granted(s: Arena, base: nat, size: nat) {
    base > 0 && WordSized(base) && base + size < ADDRESS_LIMIT && Unused(s.h, Segment(base, size))
  }

  /** The system, as a function from the size asked for to the base of the region granted, or 0 for a refusal. */
  ghost predicate Trusted(s: Arena, system: nat -> nat) {
    forall size :: system(size) != 0 ==> Granted(s, system(size), size)
  }

  lemma Start(s: Arena, r: Segment, t: map<nat, Tag>)
    requires Starts(s.h, r, t) && s.items == map[] && s.live == map[] && s.dv == 0 == s.dvsize
      && s.topsize == TopSize(r)
    ensures Ready(s, 0, 0, 0)
  {
    hide Heap.Ok, Arena.Books, Aligned, WordSized, Segment.First;
    StartOk(s.h, r, t);
    StartBooks(s, r, t);
  }

  lemma Append(s: Arena, s': Arena, r: Segment)
    requires Ready(s, 0, 0, 0) && Appends(s.h, s'.h, r) && SameFiles(s, s') && s'.live == s.live
    requires s'.topsize == s.topsize + r.size
    ensures Ready(s', 0, 0, 0)
  {
    hide Heap.Ok, Arena.Books, Aligned, WordSized, Segment.First;
    TopFacts(s, 0, 0, 0);
    AppendOk(s.h, s'.h, r);
    GrowTop(s, s', r);
  }

  lemma Prepend(s: Arena, s': Arena, i: nat, r: Segment)
    requires Ready(s, 0, 0, 0) && Prepends(s.h, s'.h, i, r) && SameFiles(s, s') && s'.live == s.live
      && s'.topsize == s.topsize
    ensures Ready(s', r.First(), r.First(), 0)
  {
    hide Heap.Ok, Heap.Tiled, Arena.Books, Aligned, WordSized, Segment.First;
    IsTiled(s.h, 0);
    RecordHasChunk(s.h, r.First());
    PrependTiled(s.h, s'.h, i, r);
    PrependOk(s.h, s'.h, i, r);
    GrowFront(s, s', i, r);
  }

  lemma NowClosed(h: Heap, h': Heap, r: Segment, c: nat)
    requires Adds(h, h', r, c) && r.First() != c
    ensures Closed(h', c, h.segs[0].End())
  {
    hide Aligned, WordSized, Segment.First, Retagged;
  }

  lemma AddRegion(s: Arena, s': Arena, r: Segment, c: nat)
    requires Ready(s, 0, 0, 0) && Adds(s.h, s'.h, r, c) && SameFiles(s, s') && s'.live == s.live
      && s'.topsize == TopSize(r)
    ensures Ready(s', 0, 0, if c == s.h.top then 0 else s.h.top)
    ensures c != s.h.top ==> s.h.top > 0 && s.h.top in s'.h.chunks && s'.h.chunks[s.h.top].size == c - s.h.top
    ensures Closed(s'.h, c, s.h.segs[0].End())
    ensures r.First() !in s.h.chunks && Kept(s.h.chunks, s'.h.chunks, 0)
  {
    hide Heap.Ok, Heap.Tiled, Arena.Books, Aligned, WordSized, Segment.First, Fenced;
    TopFacts(s, 0, 0, 0);
    IsTiled(s.h, 0);
    AddFresh(s.h, s'.h, r, c);
    AddOk(s.h, s'.h, r, c);
    FreeKept(s.h.chunks, s'.h.chunks, s.h.top, c, r.First());
    NowClosed(s.h, s'.h, r, c);
    ChangeTop(s, s', r, c);
  }

  /** align_as_chunk */
  function AlignUp(a: nat): nat { (a + 15) / 16 * 16 }

  /** A region joined to segment i, at its end or before it. */
  ghost predicate Merged(segs: seq<Segment>, segs': seq<Segment>, i: nat, r: Segment) {
    && i < |segs|
    && (|| (segs[i].End() == r.base && segs' == segs[i := Segment(segs[i].base, segs[i].size + r.size)])
        || (r.End() == segs[i].base && segs' == segs[i := Segment(r.base, r.size + segs[i].size)]))
  }

  ghost predicate OneMore(a: set<nat>, b: set<nat>, c: nat) {
    b == a + {c}
  }

  /** A region becomes the newest segment, with one more record in the one before it, or part of a segment. */
  ghost predicate Took(segs: seq<Segment>, segs': seq<Segment>, records: set<nat>, records': set<nat>, r: Segment) {
    || (segs' == [r] + segs && if segs == [] then records' == records
                               else exists c: nat :: OneMore(records, records', c) && segs[0].base <= c < segs[0].End())
    || (records' == records && exists i :: Merged(segs, segs', i, r))
  }

  /** Memory from the system, as segment r, is taken in just when nothing free holds nb bytes. */
  ghost predicate Expanded(s: Arena, s': Arena, nb: nat, r: Segment) {
    if NothingFits(s, nb) && s.topsize <= nb then Took(s.h.segs, s'.h.segs, s.h.records, s'.h.records, r)
    else s'.h.segs == s.h.segs && s'.h.records == s.h.records
  }

  /** Where add_segment puts the record of the old segment. */
  function RecordPlace(oldTop: nat, oldEnd: nat): nat
    requires oldEnd >= RECORD_SIZE + 32 + 15
  {
    var asp := AlignUp(oldEnd - (RECORD_SIZE + 32 + 15));
    if asp < oldTop + MIN_CHUNK then oldTop else asp
  }

  /** The record fits with room for two fenceposts, and leaves a whole chunk or nothing of the old top chunk. */
  lemma RecordFits(oldTop: nat, oldEnd: nat)
    requires oldEnd >= RECORD_SIZE + 32 + 15 && Aligned(oldTop) && oldTop + TOP_FOOT < oldEnd
    ensures var c := RecordPlace(oldTop, oldEnd);
            && Aligned(c) && (c == oldTop || oldTop + MIN_CHUNK <= c)
            && c + RECORD_SIZE + 32 <= oldEnd <= c + RECORD_SIZE + TOP_FOOT
  {
  }

  lemma FarEnd(s: Arena)
    requires TopChunk(s)
    ensures s.h.top >= 16
  {
  }

  lemma RetagFenced(t: map<nat, Tag>, t1: map<nat, Tag>, t2: map<nat, Tag>, top: nat, c: nat, hi: nat)
    requires top <= c && Fenced(t[c := Tag(RECORD_SIZE, true, true)], t1, c + RECORD_SIZE, hi)
    requires t2 == if c == top then t1 else SetPinuse(t1, c, false)[top := Tag(c - top, true, false)]
    ensures Fenced(Retagged(t, top, c), t2, c + RECORD_SIZE, hi)
  {
  }

  /** A segment ends in a record at c, followed by fenceposts. */
  ghost predicate Closed(h: Heap, c: nat, end: nat) {
    && c in h.chunks && h.chunks[c] == Chunk(RECORD_SIZE, true)
    && c + RECORD_SIZE + 16 < end && Fences(h.tags, c + RECORD_SIZE, end)
  }

  /** The place add_segment computes for the record is a good one. */
  lemma RecordFound(s: Arena)
    requires Ready(s, 0, 0, 0)
    ensures |s.h.lims| == |s.h.segs| > 0 && s.h.segs[0].End() >= RECORD_SIZE + 32 + 15
    ensures RecordAt(s.h, RecordPlace(s.h.top, s.h.segs[0].End()))
    ensures RecordPlace(s.h.top, s.h.segs[0].End()) + RECORD_SIZE + 16 < s.h.segs[0].End()
    ensures s.h.segs[0].base <= s.h.segs[0].First() <= s.h.top <= RecordPlace(s.h.top, s.h.segs[0].End())
  {
    hide Heap.Ok, Arena.Books, Aligned, Segment.First, RecordPlace, Heap.Tiled;
    IsTiled(s.h, 0);
    LimitsMatch(s.h);
    TopFacts(s, 0, 0, 0);
    TopSegment(s, 0);
    FarEnd(s);
    RecordFits(s.h.top, s.h.segs[0].End());
  }

  lemma AddRegionAt(s: Arena, s': Arena, r: Segment, c: nat)
    requires |s.h.lims| == |s.h.segs| > 0 && s.h.segs[0].End() >= RECORD_SIZE + 32 + 15 && RegionOk(r) && Unused(s.h, r)
    requires c == RecordPlace(s.h.top, s.h.segs[0].End()) >= s.h.top
    requires s'.h.segs == [r] + s.h.segs && s'.h.lims == [r.End() - TOP_FOOT, c + RECORD_SIZE] + s.h.lims[1..]
    requires s'.h.records == s.h.records + {c} && s'.h.top == r.First()
    requires s'.h.chunks == Relaid(s.h.chunks, s.h.top, c)[r.First() := Chunk(TopSize(r), false)]
    requires Fenced(Retagged(InitTop(s.h.tags, r.First(), TopSize(r)), s.h.top, c), s'.h.tags, c + RECORD_SIZE,
                    s.h.segs[0].End())
    requires s'.h.feet == if c == s.h.top then s.h.feet else s.h.feet[c := c - s.h.top]
    requires SameFiles(s, s') && s'.live == s.live && s'.topsize == TopSize(r)
    requires Ready(s, 0, 0, 0)
    ensures Ready(s', 0, 0, if c == s.h.top then 0 else s.h.top)
    ensures c != s.h.top ==> s.h.top > 0 && s.h.top in s'.h.chunks && s'.h.chunks[s.h.top].size == c - s.h.top
    ensures Closed(s'.h, c, s.h.segs[0].End())
    ensures r.First() !in s.h.chunks && Kept(s.h.chunks, s'.h.chunks, 0)
  {
    hide Ready, Aligned, WordSized, Segment.First, RecordPlace, Fenced, Relaid, Retagged, InitTop;
    RecordFound(s);
    AddRegion(s, s', r, c);
  }

  /** The top chunk is in the newest segment and in no other. */
  lemma TopSegment(s: Arena, i: nat)
    requires Ready(s, 0, 0, 0) && i < |s.h.segs|
    ensures s.h.segs[0].base <= s.h.segs[0].First() <= s.h.top
    ensures s.h.segs[i].base <= s.h.top < s.h.segs[i].End() <==> i == 0
    ensures s.h.top + s.topsize + TOP_FOOT == s.h.segs[0].End() == s.h.lims[0] + TOP_FOOT && |s.h.lims| == |s.h.segs|
  {
    hide Heap.Ok, Heap.Tiled, Arena.Books, Aligned, WordSized, Segment.First;
    TopFacts(s, 0, 0, 0);
    IsTiled(s.h, 0);
    TopInNewest(s.h);
    NewestEnd(s.h);
    TwoSegments(s.h, 0, i);
    LimitsMatch(s.h);
  }

  // ---- filing and searching

  lemma BinSize(n: nat)
    requires Aligned(n)
    ensures n % 8 == 0
  {
  }

  ghost predicate BestFit(items: map<nat, nat>, p: nat, nb: nat) {
    p in items && nb <= items[p] && forall a :: a in items && nb <= items[a] ==> items[p] <= items[a]
  }

  ghost function Standing(s: Arena, wasDv: bool): Arena {
    if wasDv then s.(dv := 0, dvsize := 0) else s
  }

  lemma StandingFacts(s: Arena, wasDv: bool)
    ensures var r := Standing(s, wasDv);
            r == Arena(s.h, if wasDv then 0 else s.dv, if wasDv then 0 else s.dvsize, s.topsize, s.items, s.live)
  {
  }

  lemma Swap(t: map<nat, Tag>, a: nat, x: Tag, b: nat, y: Tag)
    requires a != b
    ensures t[a := x][b := y] == t[b := y][a := x]
  {
  }

  lemma VictimPart(s: Arena, s': Arena, nb: nat, rsize: nat)
    requires Aligned(nb) && MIN_CHUNK <= nb && MIN_CHUNK <= rsize && s.dvsize == nb + rsize && s'.dv == s.dv + nb
    requires s' == s.(h := s'.h, dv := s'.dv, dvsize := rsize)
    requires s'.h == s.h.(chunks := s.h.chunks[s.dv := Chunk(nb, true)][s'.dv := Chunk(rsize, false)],
                          tags := s.h.tags[s'.dv := Tag(rsize, true, false)][s.dv := Tag(nb, true, true)],
                          feet := s.h.feet[s'.dv + rsize := rsize])
    requires Ready(s, 0, 0, 0)
    ensures Ready(s', 0, s.dv, 0) && Kept(s.h.chunks, s'.h.chunks, 0)
  {
    hide Ready, Aligned;
    VictimThere(s, 0, 0);
    FreeFacts(s, 0, 0, 0, s.dv);
    Swap(s.h.tags, s'.dv, Tag(rsize, true, false), s.dv, Tag(nb, true, true));
    var off := s.(dv := 0, dvsize := 0);
    Loosen(s, off, 0, 0, s.dv);
    var mid := off.(h := s'.h);
    AllocPart(off, mid, s.dv, nb);
    MakeVictim(mid, s', s.dv, s'.dv);
  }

  lemma MakeVictim(s: Arena, s': Arena, hole: nat, r: nat)
    requires Ready(s, 0, hole, r) && r > 0 && s.dv == 0 && r in s.h.chunks && s.h.chunks[r].size > 0
    requires s' == s.(dv := r, dvsize := s.h.chunks[r].size)
    ensures Ready(s', 0, hole, 0)
  {
    hide Heap.Ok, Arena.Books;
    FileVictim(s, s', hole, r);
  }

  ghost predicate NothingFits(s: Arena, nb: nat) {
    s.dvsize < nb && forall a :: a in s.items ==> s.items[a] < nb
  }

  /** Which chunk an allocation of nb bytes comes from. */
  ghost predicate Policy(s: Arena, p: nat, nb: nat, small: bool) {
    if p in s.items then
      && BestFit(s.items, p, nb)
      && (nb <= s.dvsize ==> if small then s.items[p] <= nb + 8 else s.items[p] < s.dvsize)
    else if p == s.dv then
      && nb <= s.dvsize
      && forall a :: a in s.items && nb <= s.items[a] ==> if small then nb + 8 < s.items[a] else s.dvsize <= s.items[a]
    else
      NothingFits(s, nb) && (nb < s.topsize ==> p == s.h.top)
  }

  /** What is given away of a free chunk of `size` bytes: all of it if too little would be left. */
  function Given(size: nat, nb: nat): nat {
    if size < nb + MIN_CHUNK then size else nb
  }

  /** The size of the chunk that a request of nb bytes gets at p. */
  ghost function GivenSize(s: Arena, p: nat, nb: nat): nat {
    if p in s.items then Given(s.items[p], nb) else if p == s.dv then Given(s.dvsize, nb) else nb
  }

  /** The bins once the designated victim, if there is one, is in one of them. */
  ghost function WithVictim(items: map<nat, nat>, dv: nat, dvsize: nat): map<nat, nat> {
    if dvsize == 0 then items else items[dv := dvsize]
  }

  /** Where a small request leaves the rest of binned chunk p: it is the new designated victim, if worth keeping. */
  ghost predicate RestToVictim(s: Arena, s': Arena, p: nat, nb: nat)
    requires p in s.items
  {
    if s.items[p] < nb + MIN_CHUNK then
      s'.items == s.items - {p} && s'.dv == s.dv && s'.dvsize == s.dvsize
    else
      && s'.items == WithVictim(s.items - {p}, s.dv, s.dvsize)
      && s'.dv == p + nb && s'.dvsize == s.items[p] - nb
  }

  /** Where a large request leaves the rest of binned chunk p: it goes to a bin, if worth keeping. */
  ghost predicate RestToBins(s: Arena, s': Arena, p: nat, nb: nat)
    requires p in s.items
  {
    && s'.dv == s.dv && s'.dvsize == s.dvsize
    && s'.items == if s.items[p] < nb + MIN_CHUNK then s.items - {p} else (s.items - {p})[p + nb := s.items[p] - nb]
  }

  /** Where a request of nb bytes leaves the rest of the free chunk p that serves it. */
  ghost predicate RestFiled(s: Arena, s': Arena, p: nat, nb: nat, small: bool) {
    if p in s.items then
      && s'.h.top == s.h.top && s'.topsize == s.topsize
      && if small then RestToVictim(s, s', p, nb) else RestToBins(s, s', p, nb)
    else if p == s.dv then
      && s'.h.top == s.h.top && s'.topsize == s.topsize && s'.items == s.items
      && if s.dvsize < nb + MIN_CHUNK then s'.dv == 0 && s'.dvsize == 0
        else s'.dv == p + nb && s'.dvsize == s.dvsize - nb
    else
      && s'.items == s.items && s'.dv == s.dv && s'.dvsize == s.dvsize
      && s'.h.top == p + nb && s'.topsize == s.topsize - nb
  }

  /** The unsigned comparison with the designated victim's remainder. */
  lemma Slack(rsize: nat, dvsize: nat, nb: nat)
    requires rsize + nb < WORD / 2 && dvsize < WORD / 2 && 0 < nb < WORD
    ensures rsize < Wrap(dvsize - nb) <==> !(nb <= dvsize <= rsize + nb)
  {
  }

  lemma VictimBound(s: Arena, v: nat)
    requires Ready(s, 0, 0, 0) && v in s.h.chunks
    ensures s.dvsize < WORD / 2 && s.h.chunks[v].size < WORD / 2
  {
    hide Heap.Ok, Arena.Binned, Arena.Owned;
    ChunkBound(s.h, v, 0);
    if s.dv != 0 {
      ChunkBound(s.h, s.dv, 0);
    }
  }

  lemma ItemMultiple(s: Arena, a: nat)
    requires Ready(s, 0, 0, 0) && a in s.items
    ensures a > 0 && a in s.h.chunks && s.h.chunks[a].size == s.items[a] && s.items[a] % 8 == 0
  {
    FreeFacts(s, 0, 0, 0, a);
    BinSize(s.items[a]);
  }

  lemma Multiples(m: nat, n: nat)
    requires m % 8 == 0 && n % 8 == 0 && m < n
    ensures m + 8 <= n
  {
  }

  /** A chunk of size nb, or of the next size when there is none, is a best fit. */
  lemma ExactFit(s: Arena, p: nat, nb: nat)
    requires Ready(s, 0, 0, 0) && p in s.items && s.items[p] in {nb, nb + 8} && nb % 8 == 0
    requires s.items[p] != nb ==> forall a :: a in s.items ==> s.items[a] != nb
    ensures p > 0 && p in s.h.chunks && s.h.chunks[p].size == s.items[p] && BestFit(s.items, p, nb)
  {
    hide Ready;
    ItemMultiple(s, p);
    forall a | a in s.items && nb <= s.items[a] ensures s.items[p] <= s.items[a] {
      ItemMultiple(s, a);
      if nb < s.items[a] {
        Multiples(nb, s.items[a]);
      }
    }
  }

  lemma NoExactFit(s: Arena, nb: nat)
    requires Ready(s, 0, 0, 0) && nb % 8 == 0 && forall a :: a in s.items ==> s.items[a] != nb && s.items[a] != nb + 8
    ensures forall a :: a in s.items && nb <= s.items[a] ==> nb + 8 < s.items[a]
  {
    hide Ready;
    forall a | a in s.items && nb <= s.items[a] ensures nb + 8 < s.items[a] {
      ItemMultiple(s, a);
      Multiples(nb, s.items[a]);
    }
  }

  lemma VictimThere(s: Arena, hole: nat, r: nat)
    requires Ready(s, 0, hole, r) && s.dvsize != 0
    ensures s.dv > 0
  {
    hide Heap.Ok, Arena.Binned, Arena.Owned;
  }

  lemma VictimFacts(s: Arena, hole: nat, r: nat)
    requires Ready(s, 0, hole, r) && s.dvsize != 0
    ensures s.dv > 0 && s.dv !in s.items && s.dvsize % 8 == 0
  {
    FreeFacts(s, 0, hole, r, s.dv);
    BinSize(s.dvsize);
  }

  lemma LooseFacts(s: Arena, stale: nat, hole: nat, r: nat)
    requires Ready(s, stale, hole, r) && r > 0 && (stale == 0 || stale == hole)
    ensures r in s.h.chunks && r !in s.items && s.h.chunks[r].size % 8 == 0 && 0 < s.h.chunks[r].size < WORD
  {
    hide Heap.Ok;
    FreeFacts(s, stale, hole, r, r);
    BinSize(s.h.chunks[r].size);
    ChunkBound(s.h, r, stale);
    assert s.Filed(r, r);
  }

  lemma RefileVictim(s: Arena, s': Arena, hole: nat, r: nat)
    requires Ready(s, 0, hole, r) && r > 0 && r in s.h.chunks && s.h.chunks[r].size > 0
    requires s' == s.(items := if s.dvsize != 0 then s.items[s.dv := s.dvsize] else s.items,
                      dv := r, dvsize := s.h.chunks[r].size)
    ensures Ready(s', 0, hole, 0)
  {
    hide Heap.Ok, Arena.Books;
    ReplaceVictim(s, s', hole, r);
  }

  lemma FileLoose(s: Arena, s': Arena, hole: nat, r: nat)
    requires Ready(s, 0, hole, r) && r > 0 && r in s.h.chunks && s' == s.(items := s.items[r := s.h.chunks[r].size])
    ensures Ready(s', 0, hole, 0)
  {
    hide Heap.Ok, Arena.Books;
    FileBin(s, s', hole, r);
  }

  // ---- the ends of dispose_chunk

  /** What dispose_chunk finds in the chunk after p. */
  ghost predicate NextChunk(s: Arena, p: nat)
    requires p in s.h.chunks
  {
    var n := s.h.Next(p);
    && n in s.h.chunks && n > p && n in s.h.tags && s.h.tags[n].cinuse == s.h.chunks[n].inuse && s.h.tags[n].pinuse
    && (!s.h.chunks[n].inuse ==> n !in s.h.records)
    && (!s.h.chunks[n].inuse && n != s.h.top && n != s.dv ==>
          n in s.items && s.items[n] == s.h.chunks[n].size == s.h.tags[n].size)
    && (n == s.dv ==> n != s.h.top && !s.h.chunks[n].inuse && s.h.chunks[n].size == s.dvsize)
    && (n == s.h.top ==> !s.h.chunks[n].inuse && s.h.chunks[n].size == s.topsize)
  }

  lemma NextFacts(s: Arena, p: nat)
    requires Ready(s, p, p, 0) && UsedChunk(s, p)
    ensures NextChunk(s, p)
  {
    var n := s.h.Next(p);
    hide Heap.Ok, Arena.Owned, Aligned;
    ChunkFacts(s.h, n, p);
    assert s.Filed(n, 0);
  }

  lemma EndAlone(s: Arena, s': Arena, p: nat)
    requires UsedChunk(s, p) && s.h.tags[p].pinuse && NextChunk(s, p) && s.h.chunks[s.h.Next(p)].inuse
    requires s' == s.(h := s.h.(chunks := s.h.chunks[p := Chunk(s.h.chunks[p].size, false)],
                                tags := SetPinuse(s.h.tags, s.h.Next(p),
                                                  false)[p := Tag(s.h.chunks[p].size, true, false)],
                                feet := s.h.feet[s.h.Next(p) := s.h.chunks[p].size]))
    requires Ready(s, p, p, 0)
    ensures Ready(s', 0, 0, p)
  {
    hide Ready, Aligned, SetPinuse;
    FreeAlone(s, s', p);
  }

  ghost predicate Absorbed(s: Arena, s': Arena, p: nat, size: nat)
    requires p in s.h.chunks
  {
    && s'.h == s.h.(chunks := (s.h.chunks - {s.h.Next(p)})[p := Chunk(size, false)],
                    tags := s.h.tags[p := Tag(size, true, false)],
                    feet := s'.h.feet, top := s'.h.top)
  }

  lemma EndInTop(s: Arena, s': Arena, p: nat)
    requires UsedChunk(s, p) && s.h.tags[p].pinuse && NextChunk(s, p) && s.h.Next(p) == s.h.top
    requires s'.topsize == s.topsize + s.h.chunks[p].size && Absorbed(s, s', p, s'.topsize)
    requires s'.h.feet == s.h.feet && s'.h.top == p && s' == s.(h := s'.h, topsize := s'.topsize)
    requires Ready(s, p, p, 0)
    ensures Ready(s', 0, 0, 0)
  {
    hide Ready, Aligned;
    FreeToTop(s, s', p);
  }

  /** The same with the successor in a bin until now. */
  lemma EndInBinned(s: Arena, s': Arena, p: nat, nsize: nat)
    requires UsedChunk(s, p) && s.h.tags[p].pinuse && NextChunk(s, p)
    requires s.h.Next(p) != s.h.top && s.h.Next(p) != s.dv && !s.h.chunks[s.h.Next(p)].inuse
    requires s.h.tags[s.h.Next(p)].size == nsize && Absorbed(s, s', p, s.h.chunks[p].size + nsize)
      && s'.h.top == s.h.top
    requires s'.h.feet == s.h.feet[s.h.Next(p) + nsize := s.h.chunks[p].size + nsize]
    requires s' == s.(h := s'.h, items := s.items - {s.h.Next(p)})
    requires Ready(s, p, p, 0)
    ensures Ready(s', 0, 0, p) && p in s'.h.chunks && s'.h.chunks[p].size == s.h.chunks[p].size + nsize > 0
  {
    hide Ready, Aligned;
    var off := s.(items := s.items - {s.h.Next(p)});
    Loosen(s, off, p, p, s.h.Next(p));
    EndInNext(off, s', p, s.h.chunks[p].size + nsize);
  }

  /** p, with its free successor n out of every bin, becomes one free chunk. */
  lemma EndInNext(s: Arena, s': Arena, p: nat, whole: nat)
    requires UsedChunk(s, p) && s.h.tags[p].pinuse && s.h.Next(p) != s.h.top
    requires !s.h.chunks[s.h.Next(p)].inuse && s.h.Next(p) !in s.h.records && p != s.h.Next(p)
    requires s.h.chunks[p].size + s.h.chunks[s.h.Next(p)].size == whole && Absorbed(s, s', p, whole)
      && s'.h.top == s.h.top
    requires s'.h.feet == s.h.feet[p + whole := whole] && s' == s.(h := s'.h)
    requires Ready(s, p, p, s.h.Next(p))
    ensures Ready(s', 0, 0, p)
  {
    hide Ready, Aligned;
    FreeToNext(s, s', p);
  }

  lemma EndInVictim(s: Arena, s': Arena, p: nat)
    requires UsedChunk(s, p) && s.h.tags[p].pinuse && NextChunk(s, p) && s.h.Next(p) == s.dv && s.dv != p
    requires s'.dvsize == s.dvsize + s.h.chunks[p].size && Absorbed(s, s', p, s'.dvsize) && s'.h.top == s.h.top
    requires s'.h.feet == s.h.feet[p + s'.dvsize := s'.dvsize] && s' == s.(h := s'.h, dv := p, dvsize := s'.dvsize)
    requires Ready(s, p, p, 0)
    ensures Ready(s', 0, 0, 0)
  {
    hide Ready, Aligned;
    var off := s.(dv := 0, dvsize := 0);
    Loosen(s, off, p, p, s.dv);
    var mid := off.(h := s'.h);
    EndInNext(off, mid, p, s'.dvsize);
    MakeVictim(mid, s', 0, p);
  }

  /** What dispose_chunk finds in p and before it. */
  ghost predicate Disposable(s: Arena, p: nat) {
    && UsedChunk(s, p) && s.h.tags[p].cinuse && s.h.tags[p].size == s.h.chunks[p].size && p != s.dv
    && (!s.h.tags[p].pinuse ==>
          && p in s.h.feet && 0 < s.h.feet[p] < p && p - s.h.feet[p] in s.h.chunks && PrevChunk(s, p, p - s.h.feet[p]))
  }

  ghost predicate FootFound(h: Heap, p: nat) {
    && p in h.chunks && p in h.tags
    && (!h.tags[p].pinuse ==>
          && p in h.feet && 0 < h.feet[p] < p && p - h.feet[p] in h.chunks && p - h.feet[p] != h.top
          && p - h.feet[p] !in h.records && h.chunks[p - h.feet[p]] == Chunk(h.feet[p], false))
  }

  lemma FootAt(h: Heap, p: nat)
    requires h.Ok(0) && p in h.chunks
    ensures h.FootOk(p) && h.Tiled()
  {
    hide Heap.Tiled, Heap.Coalesced, Heap.FirstsOk, Heap.TagOk, Heap.FootOk;
  }

  lemma FootFacts(h: Heap, p: nat)
    requires h.Ok(0) && p in h.chunks
    ensures FootFound(h, p)
  {
    hide Heap.Ok, Heap.Tiled, Aligned;
    FootAt(h, p);
    TopLast(h);
    if !h.tags[p].pinuse {
      ChunkFacts(h, p - h.feet[p], 0);
    }
  }

  lemma PrevFacts(s: Arena, p: nat)
    requires Ready(s, 0, p, 0) && p > 0
    ensures Disposable(s, p)
  {
    hide Heap.Ok, Arena.Owned, Aligned;
    UsedFacts(s, 0, p);
    ChunkFacts(s.h, p, 0);
    FootFacts(s.h, p);
    assert !s.h.tags[p].pinuse ==> s.Filed(p - s.h.feet[p], 0);
  }

  ghost predicate PrevChunk(s: Arena, p: nat, b: nat)
    requires b in s.h.chunks && p in s.h.feet
  {
    && 0 < b < p && s.h.Next(b) == p && !s.h.chunks[b].inuse && b != s.h.top && b !in s.h.records
    && s.h.chunks[b].size == s.h.feet[p]
    && (b != s.dv ==> b in s.items && s.items[b] == s.h.feet[p])
  }

  lemma AboveLeast(s: Arena, hole: nat, a: nat, least: nat)
    requires Ready(s, 0, hole, 0) && a in s.h.chunks && forall i :: 0 <= i < |s.h.segs| ==> least <= s.h.segs[i].base
    ensures least <= a
  {
    hide Heap.Ok, Arena.Books, Segment.First, Heap.Ordered, Aligned, WordSized;
    IsTiled(s.h, 0);
    assert s.h.Placed(a);
    var i :| 0 <= i < |s.h.segs| && s.h.segs[i].First() <= a && s.h.Next(a) <= s.h.lims[i];
    assert s.h.SegmentOk(i);
  }

  lemma StaleReady(s: Arena, p: nat)
    requires Ready(s, 0, p, 0)
    ensures Ready(s, p, p, 0)
  {
    hide Arena.Books;
    StaleOk(s.h, p);
  }

  /** p is joined with its free predecessor b, which leaves its bin or stops being the designated victim. */
  lemma JoinBack(s: Arena, s': Arena, p: nat, b: nat)
    requires UsedChunk(s, p) && !s.h.tags[p].pinuse && p in s.h.feet && b in s.h.chunks && PrevChunk(s, p, b)
    requires s'.h == s.h.(chunks := (s.h.chunks - {p})[b := Chunk(s.h.chunks[b].size + s.h.chunks[p].size, true)])
    requires Unfiled(s, s', b) && s'.topsize == s.topsize && s'.live == s.live
    requires Ready(s, 0, p, 0)
    ensures Ready(s', b, b, 0) && b in s'.h.tags && s'.h.tags[b].pinuse
  {
    hide Ready, Aligned, Unfiled;
    var off := s'.(h := s.h);
    Unlist(s, s', off, b);
    Loosen(s, off, 0, p, b);
    MergeBack(off, s', p, b);
  }

  lemma Unlist(s: Arena, s': Arena, off: Arena, b: nat)
    requires Unfiled(s, s', b) && off == s'.(h := s.h)
    ensures Unfiled(s, off, b)
  {
  }

  // ---- prepend_alloc

  /** The heap with the region r before segment i divided into a chunk of nb bytes and the rest, both in use. */
  ghost function Divided(s: Arena, i: nat, r: Segment, nb: nat): Arena
    requires i < |s.h.segs| && nb < r.size && nb >= MIN_CHUNK
  {
    var p := r.First();
    s.(h := s.h.(segs := s.h.segs[i := Segment(r.base, r.size + s.h.segs[i].size)],
                 chunks := s.h.chunks[p := Chunk(nb, true)][p + nb := Chunk(r.size - nb, true)],
                 tags := s.h.tags[p := Tag(nb, true, true)][p + nb := Tag(r.size - nb, true, true)]),
       live := s.live[p + 16 := nb - 8])
  }

  lemma DividedTags(t: map<nat, Tag>, p: nat, nb: nat, qsize: nat)
    requires nb > 0 && qsize > 0 && p in t && t[p] == Tag(nb, true, true)
    requires p + nb + qsize in t && t[p + nb + qsize].pinuse
    ensures SetInuse(SetInuse(t, p, nb), p + nb, qsize) == t[p + nb := Tag(qsize, true, true)]
  {
    var t1 := SetInuse(t, p, nb);
    assert t1 == t[p + nb := HeadAt(t, p + nb).(pinuse := true)];
  }

  lemma FirstTagged(s: Arena, i: nat)
    requires Ready(s, 0, 0, 0) && i < |s.h.segs|
    ensures s.h.segs[i].First() in s.h.tags && s.h.tags[s.h.segs[i].First()].pinuse && |s.h.lims| == |s.h.segs|
  {
    hide Heap.AllTagged, Heap.Coalesced, Arena.Books, Segment.First, Heap.Segmented, Heap.AllPlaced, Heap.Ordered;
  }

  lemma ExactPad(n: nat)
    requires Aligned(n) && n >= MIN_CHUNK
    ensures Pad(n - 8) == n && Fits(n - 8, n)
  {
  }

  ghost function Widened(s: Arena, i: nat, r: Segment, nb: nat): Arena
    requires i < |s.h.segs|
  {
    s.(h := s.h.(segs := s.h.segs[i := Segment(r.base, r.size + s.h.segs[i].size)],
                 chunks := s.h.chunks[r.First() := Chunk(r.size, true)],
                 tags := s.h.tags[r.First() := Tag(nb, true, true)]))
  }

  lemma WidenRegion(s: Arena, i: nat, r: Segment, nb: nat)
    requires i < |s.h.segs| && r.End() == s.h.segs[i].base && Unused(s.h, r) && RegionOk(r)
    requires Ready(s, 0, 0, 0)
    ensures Ready(Widened(s, i, r, nb), r.First(), r.First(), 0) && s.h.segs[i].First() == r.First() + r.size
  {
    hide Ready, Aligned, WordSized, Segment.First;
    FirstMoves(s.h.segs[i], r);
    FirstTagged(s, i);
    Prepend(s, Widened(s, i, r, nb), i, r);
  }

  lemma CutRegion(s: Arena, s': Arena, p: nat, nb: nat, qsize: nat)
    requires p > 0 && p in s.h.chunks && s.h.chunks[p] == Chunk(nb + qsize, true)
    requires p in s.h.tags && s.h.tags[p] == Tag(nb, true, true)
    requires p + nb + qsize in s.h.tags && s.h.tags[p + nb + qsize].pinuse
    requires Aligned(nb) && MIN_CHUNK <= nb && MIN_CHUNK <= qsize
    requires s'.h.chunks == s.h.chunks[p := Chunk(nb, true)][p + nb := Chunk(qsize, true)]
    requires s'.h.tags == s.h.tags[p + nb := Tag(qsize, true, true)] && s'.h.feet == s.h.feet && s'.h.top == s.h.top
    requires Same(s.h, s'.h) && SameFiles(s, s') && s'.topsize == s.topsize && s'.live == s.live[p + 16 := nb - 8]
    requires Ready(s, p, p, 0)
    ensures Ready(s', p + nb, p + nb, 0)
  {
    hide Ready, Aligned, WordSized, Pad, Fits, SetInuse;
    ExactPad(nb);
    UsedFacts(s, p, p);
    DividedTags(s.h.tags, p, nb, qsize);
    Cut(s, s', p, nb, p, nb - 8, p);
    StaleReady(s', p + nb);
  }

  lemma DivideRegion(s: Arena, i: nat, r: Segment, nb: nat)
    requires i < |s.h.segs| && r.End() == s.h.segs[i].base && Unused(s.h, r) && RegionOk(r)
    requires Aligned(nb) && MIN_CHUNK <= nb && nb + MIN_CHUNK <= r.size
    requires Ready(s, 0, 0, 0)
    ensures Ready(Divided(s, i, r, nb), r.First() + nb, r.First() + nb, 0) && r.First() + 16 !in s.live
    ensures s.h.segs[i].First() == r.First() + r.size && r.First() > 0
  {
    hide Ready, Aligned, WordSized, Segment.First;
    FirstTagged(s, i);
    WidenRegion(s, i, r, nb);
    NewRegion(s, Widened(s, i, r, nb), i, r, nb);
    CutRegion(Widened(s, i, r, nb), Divided(s, i, r, nb), r.First(), nb, r.size - nb);
  }

  lemma NewRegion(s: Arena, s': Arena, i: nat, r: Segment, nb: nat)
    requires i < |s.h.segs| && s' == Widened(s, i, r, nb) && Ready(s', r.First(), r.First(), 0)
    ensures r.First() + 16 !in s.live
  {
    hide Heap.Ok, Arena.Binned, Segment.First, Pad, Fits;
    assert r.First() + 16 in s'.live ==> s'.Held(r.First() + 16, r.First());
  }

  lemma GiveBack(s: Arena, s': Arena, p: nat, bytes: nat, loose: nat)
    requires Ready(s, 0, 0, loose) && p > 0 && p + 16 !in s'.live && s == s'.(live := s'.live[p + 16 := bytes])
    ensures Ready(s', 0, p, loose)
  {
    hide Heap.Ok, Arena.Books;
    assert s'.live == s.live - {p + 16};
    GiveUp(s, s', p, loose);
  }

  ghost predicate Divisible(s: Arena, i: nat, r: Segment, nb: nat) {
    && i < |s.h.segs| && r.End() == s.h.segs[i].base && Unused(s.h, r) && RegionOk(r)
    && Aligned(nb) && MIN_CHUNK <= nb && nb + MIN_CHUNK <= r.size
  }

  /** What prepend_alloc finds at the old start of the segment. */
  ghost predicate FirstFound(s: Arena, i: nat, r: Segment, nb: nat) {
    var n := r.First() + r.size;
    && i < |s.h.segs| && s.h.segs[i].First() == n && r.First() + nb !in s.h.chunks && r.First() !in s.h.chunks
    && r.First() > 0
    && n in s.h.chunks && n in s.h.tags && s.h.tags[n].cinuse == s.h.chunks[n].inuse
    && (!s.h.chunks[n].inuse ==> EndFound(s, n))
    && (!s.h.chunks[n].inuse && n != s.h.top && n != s.dv ==>
          n in s.items && s.items[n] == s.h.chunks[n].size == s.h.tags[n].size)
    && (n == s.h.top || n == s.dv ==> !s.h.chunks[n].inuse) && (n == s.dv ==> n != s.h.top)
  }

  lemma OldFirst(s: Arena, i: nat, r: Segment, nb: nat)
    requires Divisible(s, i, r, nb) && Ready(s, 0, 0, 0)
    ensures FirstFound(s, i, r, nb)
  {
    hide Ready, Aligned, WordSized, Segment.First, RegionOk, Unused;
    var q := r.First() + nb;
    DivideRegion(s, i, r, nb);
    var s2 := Divided(s, i, r, nb);
    UsedFacts(s2, q, q);
    NextFacts(s2, q);
    BeforeRegion(s, i, r, nb);
    if !s.h.chunks[r.First() + r.size].inuse {
      AfterFree(s, r.First() + r.size);
    }
  }

  ghost predicate EndFound(s: Arena, n: nat)
    requires n in s.h.chunks
  {
    s.h.Next(n) in s.h.tags && !s.h.tags[s.h.Next(n)].pinuse
  }

  lemma AfterFree(s: Arena, n: nat)
    requires Ready(s, 0, 0, 0) && n in s.h.chunks && !s.h.chunks[n].inuse
    ensures EndFound(s, n)
  {
    hide Heap.Ok, Arena.Books;
    ChunkFacts(s.h, n, 0);
  }

  /** No chunk lies in the new region. */
  lemma BeforeRegion(s: Arena, i: nat, r: Segment, nb: nat)
    requires Divisible(s, i, r, nb) && Ready(s, 0, 0, 0) && s.h.segs[i].First() == r.First() + r.size
    ensures r.First() + nb !in s.h.chunks && r.First() !in s.h.chunks && r.First() + r.size in s.h.chunks
  {
    hide Heap.Ok, Heap.Tiled, Arena.Books, Aligned, WordSized, Segment.First;
    IsTiled(s.h, 0);
    FirstIsChunk(s.h, i);
    if r.First() in s.h.chunks {
      var j := ChunkPlace(s.h, r, r.First());
    }
    if r.First() + nb in s.h.chunks {
      var j := ChunkPlace(s.h, r, r.First() + nb);
    }
  }

  lemma RestInTop(s: Arena, s': Arena, i: nat, r: Segment, nb: nat)
    requires Divisible(s, i, r, nb) && Same(Divided(s, i, r, nb).h, s'.h) && r.First() + r.size == s.h.top
    requires s'.topsize == s.topsize + (r.size - nb) && s'.h.top == r.First() + nb && s'.h.feet == s.h.feet
    requires s'.h.chunks == (s.h.chunks[r.First() := Chunk(nb, true)] - {s.h.top})[s'.h.top := Chunk(s'.topsize, false)]
    requires s'.h.tags == s.h.tags[r.First() := Tag(nb, true, true)][s'.h.top := Tag(s'.topsize, true, false)]
    requires s'.live == s.live && SameFiles(s, s') && Ready(s, 0, 0, 0)
    ensures Ready(s', 0, r.First(), 0) && Kept(s.h.chunks, s'.h.chunks, 0)
  {
    hide Ready, Aligned, WordSized, Segment.First, RegionOk, Unused;
    var p, q := r.First(), r.First() + nb;
    OldFirst(s, i, r, nb);
    FreeKept(s.h.chunks, s'.h.chunks, p, q, s.h.top);
    DivideRegion(s, i, r, nb);
    var s2, s3 := Divided(s, i, r, nb), s'.(live := s.live[p + 16 := nb - 8]);
    UsedFacts(s2, q, q);
    NextFacts(s2, q);
    EndInTop(s2, s3, q);
    GiveBack(s3, s', p, nb - 8, 0);
  }

  lemma RestInVictim(s: Arena, s': Arena, i: nat, r: Segment, nb: nat)
    requires Divisible(s, i, r, nb) && Same(Divided(s, i, r, nb).h, s'.h) && r.First() + r.size == s.dv
      && s'.h.top == s.h.top
    requires s'.dvsize == s.dvsize + (r.size - nb) && s'.dv == r.First() + nb
    requires s'.h.feet == s.h.feet[s'.dv + s'.dvsize := s'.dvsize]
    requires s'.h.chunks == (s.h.chunks[r.First() := Chunk(nb, true)] - {s.dv})[s'.dv := Chunk(s'.dvsize, false)]
    requires s'.h.tags == s.h.tags[r.First() := Tag(nb, true, true)][s'.dv := Tag(s'.dvsize, true, false)]
    requires s'.live == s.live && s'.items == s.items && s'.topsize == s.topsize && Ready(s, 0, 0, 0)
    ensures Ready(s', 0, r.First(), 0) && Kept(s.h.chunks, s'.h.chunks, 0)
  {
    hide Ready, Aligned, WordSized, Segment.First, RegionOk, Unused;
    var p, q := r.First(), r.First() + nb;
    OldFirst(s, i, r, nb);
    FreeKept(s.h.chunks, s'.h.chunks, p, q, s.dv);
    DivideRegion(s, i, r, nb);
    var s2, s3 := Divided(s, i, r, nb), s'.(live := s.live[p + 16 := nb - 8]);
    UsedFacts(s2, q, q);
    NextFacts(s2, q);
    EndInVictim(s2, s3, q);
    GiveBack(s3, s', p, nb - 8, 0);
  }

  lemma RestInBinned(s: Arena, s': Arena, i: nat, r: Segment, nb: nat, nsize: nat)
    requires Divisible(s, i, r, nb) && Same(Divided(s, i, r, nb).h, s'.h) && s'.h.top == s.h.top && SameVictim(s, s')
    requires var n, q := r.First() + r.size, r.First() + nb;
             && n in s.h.chunks && !s.h.chunks[n].inuse && n != s.h.top && n != s.dv && n in s.h.tags
             && s.h.tags[n].size == nsize
             && s'.h.feet == s.h.feet[n + nsize := r.size - nb + nsize] && s'.items == s.items - {n}
             && s'.h.chunks == (s.h.chunks[r.First() := Chunk(nb, true)] - {n})[q := Chunk(r.size - nb + nsize, false)]
             && s'.h.tags == s.h.tags[r.First() := Tag(nb, true, true)][q := Tag(r.size - nb + nsize, true, false)]
    requires s'.live == s.live && s'.topsize == s.topsize && Ready(s, 0, 0, 0)
    ensures Ready(s', 0, r.First(), r.First() + nb) && Kept(s.h.chunks, s'.h.chunks, 0)
  {
    hide Ready, Aligned, WordSized, Segment.First, RegionOk, Unused;
    var p, q := r.First(), r.First() + nb;
    OldFirst(s, i, r, nb);
    FreeKept(s.h.chunks, s'.h.chunks, p, q, p + r.size);
    DivideRegion(s, i, r, nb);
    var s2, s3 := Divided(s, i, r, nb), s'.(live := s.live[p + 16 := nb - 8]);
    UsedFacts(s2, q, q);
    NextFacts(s2, q);
    EndInBinned(s2, s3, q, nsize);
    GiveBack(s3, s', p, nb - 8, q);
  }

  lemma RestAlone(s: Arena, s': Arena, i: nat, r: Segment, nb: nat)
    requires Divisible(s, i, r, nb) && Same(Divided(s, i, r, nb).h, s'.h) && s'.h.top == s.h.top && SameFiles(s, s')
    requires var n, q := r.First() + r.size, r.First() + nb;
             && n in s.h.chunks && s.h.chunks[n].inuse && s'.h.feet == s.h.feet[n := r.size - nb]
             && s'.h.chunks == s.h.chunks[r.First() := Chunk(nb, true)][q := Chunk(r.size - nb, false)]
             && s'.h.tags == SetPinuse(s.h.tags[r.First() := Tag(nb, true, true)], n,
                                       false)[q := Tag(r.size - nb, true, false)]
    requires s'.live == s.live && s'.topsize == s.topsize && Ready(s, 0, 0, 0)
    ensures Ready(s', 0, r.First(), r.First() + nb) && Kept(s.h.chunks, s'.h.chunks, 0)
  {
    hide Ready, Aligned, WordSized, Segment.First, RegionOk, Unused;
    var p, q := r.First(), r.First() + nb;
    OldFirst(s, i, r, nb);
    FreeKept(s.h.chunks, s'.h.chunks, p, q, q);
    DivideRegion(s, i, r, nb);
    var s2, s3 := Divided(s, i, r, nb), s'.(live := s.live[p + 16 := nb - 8]);
    UsedFacts(s2, q, q);
    NextFacts(s2, q);
    EndAlone(s2, s3, q);
    GiveBack(s3, s', p, nb - 8, q);
  }

  ghost predicate SameVictim(s: Arena, s': Arena) {
    s'.dv == s.dv && s'.dvsize == s.dvsize
  }

  lemma LooseTagged(s: Arena, hole: nat, q: nat)
    requires Ready(s, 0, hole, q) && q > 0
    ensures q in s.h.chunks && q in s.h.tags && s.h.tags[q].size == s.h.chunks[q].size
  {
    hide Heap.Ok, Arena.Binned, Arena.Owned;
    ChunkFacts(s.h, q, 0);
  }

  /** The footprint is the size of all segments; it never wraps around. */
  lemma FootprintExact(s: Arena, stale: nat, hole: nat, loose: nat, before: nat, size: nat)
    requires Ready(s, stale, hole, loose) && Total(s.h.segs) == before + size
    ensures Wrap(before + size) == Total(s.h.segs)
  {
    hide Heap.Ok, Arena.Books, Heap.Tiled, Packed;
    IsTiled(s.h, stale);
    HeapPacked(s.h);
    TotalBound(s.h.segs, ADDRESS_LIMIT);
  }

  lemma GrownTotal(segs: seq<Segment>, i: nat, s: Segment, n: nat)
    requires i < |segs| && s.size == segs[i].size + n
    ensures Total(segs[i := s]) == Total(segs) + n
  {
    TotalUpdate(segs, i, s);
  }

  lemma AddedTotal(segs: seq<Segment>, r: Segment)
    ensures Total([r] + segs) == Total(segs) + r.size
  {
    assert ([r] + segs)[1..] == segs;
  }

  lemma TopSegmentThere(s: Arena, hole: nat, loose: nat)
    requires Ready(s, 0, hole, loose)
    ensures |s.h.segs| > 0
  {
    hide Heap.Ok, Arena.Books, Heap.Tiled;
    IsTiled(s.h, 0);
    LimitsMatch(s.h);
  }

  lemma FiledIsChunk(s: Arena, p: nat)
    requires Ready(s, 0, 0, 0) && (p == s.h.top || p !in s.h.chunks) && p > 0
    ensures p !in s.items && p != s.dv
  {
    hide Heap.Ok, Arena.Owned;
    assert p in s.h.chunks ==> s.Filed(p, 0);
  }

  /** What is given away was not in use. */
  lemma SourceFree(s: Arena, p: nat)
    requires Ready(s, 0, 0, 0) && (p in s.items || (p == s.dv && p > 0) || p == s.h.top || p !in s.h.chunks)
    ensures WasFree(s.h.chunks, p)
  {
    hide Ready;
    if p in s.items || (p == s.dv && p > 0) {
      FreeFacts(s, 0, 0, 0, p);
    } else {
      TopFacts(s, 0, 0, 0);
    }
  }

  lemma Deliver(s: Arena, s': Arena, p: nat, bytes: nat)
    requires Ready(s, 0, p, 0) && p > 0 && p in s.h.chunks && Fits(bytes, s.h.chunks[p].size)
    requires s' == s.(live := s.live[p + 16 := bytes])
    ensures Ready(s', 0, 0, 0) && p + 16 !in s.live
  {
    hide Heap.Ok, Arena.Binned, Pad, Fits;
    assert p + 16 in s.live ==> s.Held(p + 16, p);
    hide Arena.Books;
    Receive(s, s', p, bytes);
  }

  lemma PadFacts(bytes: nat)
    ensures Aligned(Pad(bytes)) && MIN_CHUNK <= Pad(bytes) && bytes + 8 <= Pad(bytes) <= bytes + 32
    ensures bytes <= 232 ==> Pad(bytes) + 8 < 256
    ensures bytes > 232 ==> Pad(bytes) >= 256
    ensures bytes < WORD - 128 ==> Pad(bytes) < WORD
  {
  }

  lemma VictimUnbinned(s: Arena)
    requires Ready(s, 0, 0, 0) && s.dvsize != 0
    ensures s.dv > 0 && s.dv !in s.items
  {
    hide Heap.Ok, Arena.Owned;
    assert s.Filed(s.dv, 0);
  }

  /** No chunk is as long as the whole address space. */
  lemma TooBigToFit(s: Arena)
    requires Ready(s, 0, 0, 0)
    ensures NothingFits(s, MAX_SIZE_T) && s.topsize < MAX_SIZE_T
  {
    hide Ready;
    TopFacts(s, 0, 0, 0);
    TopBound(s);
    forall a | a in s.items ensures s.items[a] < MAX_SIZE_T {
      ItemMultiple(s, a);
      VictimBound(s, a);
    }
  }

  lemma TopBound(s: Arena)
    requires Ready(s, 0, 0, 0) && TopChunk(s)
    ensures s.dvsize < WORD / 2 && s.topsize < WORD / 2
  {
    hide Ready, Aligned;
    VictimBound(s, s.h.top);
  }

  // ---- realloc

  /** A caller gives up the chunk p. */
  lemma Release(s: Arena, s': Arena, p: nat)
    requires Ready(s, 0, 0, 0) && p > 0 && p + 16 in s.live && s' == s.(live := s.live - {p + 16})
    ensures Ready(s', 0, p, 0)
  {
    hide Heap.Ok, Arena.Books;
    GiveUp(s, s', p, 0);
  }

  /** The tail of p becomes a chunk in use that no caller holds. */
  lemma CutTail(s: Arena, s': Arena, p: nat, nb: nat, bytes: nat)
    requires p > 0 && p in s.h.chunks && Aligned(nb) && MIN_CHUNK <= nb && nb + MIN_CHUNK <= s.h.chunks[p].size
      && Fits(bytes, nb)
    requires s'.h == s.h.(chunks := s.h.chunks[p := Chunk(nb, true)][p + nb := Chunk(s.h.chunks[p].size - nb, true)],
                          tags := SetInuse(SetInuse(s.h.tags, p, nb), p + nb, s.h.chunks[p].size - nb))
    requires s' == s.(h := s'.h, live := s.live[p + 16 := bytes])
    requires Ready(s, 0, p, 0)
    ensures Ready(s', 0, p + nb, 0) && p + nb !in s.h.chunks
  {
    hide Ready, Aligned, Fits, SetInuse;
    UsedFacts(s, 0, p);
    NoneInside(s, 0, p, 0, p, p + nb);
    Cut(s, s', p, nb, p, bytes, 0);
  }

  /** The leader of p becomes a chunk in use that no caller holds, and the rest is the caller's. */
  lemma CutLeader(s: Arena, s': Arena, p: nat, lead: nat, bytes: nat)
    requires p > 0 && p in s.h.chunks && Aligned(lead) && MIN_CHUNK <= lead && lead + MIN_CHUNK <= s.h.chunks[p].size
    requires Fits(bytes, s.h.chunks[p].size - lead)
    requires s'.h == s.h.(chunks := s.h.chunks[p := Chunk(lead, true)]
                                              [p + lead := Chunk(s.h.chunks[p].size - lead, true)],
                          tags := SetInuse(SetInuse(s.h.tags, p, lead), p + lead, s.h.chunks[p].size - lead))
    requires s' == s.(h := s'.h, live := s.live[p + lead + 16 := bytes])
    requires Ready(s, 0, p, 0)
    ensures Ready(s', 0, p, 0) && p + lead !in s.h.chunks
  {
    hide Ready, Aligned, Fits, SetInuse;
    UsedFacts(s, 0, p);
    NoneInside(s, 0, p, 0, p, p + lead);
    Cut(s, s', p, lead, p + lead, bytes, 0);
  }

  lemma GrowToTop(s: Arena, s': Arena, p: nat, nb: nat)
    requires p > 0 && p in s.h.chunks && p + s.h.chunks[p].size == s.h.top && Aligned(nb) && MIN_CHUNK <= nb
    requires s.h.chunks[p].size <= nb < s.h.chunks[p].size + s.topsize
    requires s'.topsize == s.h.chunks[p].size + s.topsize - nb && s'.h.top == p + nb
    requires s'.h == s.h.(chunks := (s.h.chunks - {s.h.top})[p := Chunk(nb, true)][p + nb := Chunk(s'.topsize, false)],
                          tags := SetInuse(s.h.tags, p, nb)[p + nb := Tag(s'.topsize, true, false)], top := s'.h.top)
    requires s' == s.(h := s'.h, topsize := s'.topsize)
    requires Ready(s, 0, p, 0)
    ensures Ready(s', 0, p, 0) && Kept(s.h.chunks, s'.h.chunks, p)
  {
    hide Ready, Aligned, SetInuse;
    UsedFacts(s, 0, p);
    TopFacts(s, 0, p, 0);
    if p + nb > s.h.top {
      NoneInside(s, 0, p, 0, s.h.top, p + nb);
    }
    GrownKept(s.h.chunks, s'.h.chunks, p, s.h.top, p + nb);
    ExtendIntoTop(s, s', p, nb);
  }

  lemma GrowToVictim(s: Arena, s': Arena, p: nat, nb: nat)
    requires p > 0 && p in s.h.chunks && p + s.h.chunks[p].size == s.dv && Aligned(nb) && MIN_CHUNK <= nb
      && s.dvsize > 0
    requires s.h.chunks[p].size <= nb && nb + MIN_CHUNK <= s.h.chunks[p].size + s.dvsize
    requires s'.dvsize == s.h.chunks[p].size + s.dvsize - nb && s'.dv == p + nb
    requires s'.h == s.h.(chunks := (s.h.chunks - {s.dv})[p := Chunk(nb, true)][p + nb := Chunk(s'.dvsize, false)],
                          tags := SetPinuse(SetInuse(s.h.tags, p, nb)[p + nb := Tag(s'.dvsize, true, false)],
                                            p + nb + s'.dvsize, false),
                          feet := s.h.feet[p + nb + s'.dvsize := s'.dvsize])
    requires s' == s.(h := s'.h, dv := s'.dv, dvsize := s'.dvsize)
    requires Ready(s, 0, p, 0)
    ensures Ready(s', 0, p, 0) && Kept(s.h.chunks, s'.h.chunks, p)
  {
    hide Ready, Aligned, SetInuse, SetPinuse;
    UsedFacts(s, 0, p);
    VictimThere(s, p, 0);
    FreeFacts(s, 0, p, 0, s.dv);
    if p + nb > s.dv {
      NoneInside(s, 0, p, 0, s.dv, p + nb);
    }
    GrownKept(s.h.chunks, s'.h.chunks, p, s.dv, p + nb);
    ExtendIntoVictim(s, s', p, nb);
  }

  /** p takes all of its free successor, which is filed nowhere. */
  lemma GrowWhole(s: Arena, s': Arena, p: nat, n: nat)
    requires p > 0 && n > 0 && p in s.h.chunks && n == s.h.Next(p) && n in s.h.chunks
    requires s'.h == s.h.(chunks := (s.h.chunks - {n})[p := Chunk(s.h.chunks[p].size + s.h.chunks[n].size, true)],
                          tags := SetInuse(s.h.tags, p, s.h.chunks[p].size + s.h.chunks[n].size))
    requires s' == s.(h := s'.h)
    requires Ready(s, 0, p, n)
    ensures Ready(s', 0, p, 0) && !s.h.chunks[n].inuse && Kept(s.h.chunks, s'.h.chunks, p)
  {
    hide Ready, Aligned, SetInuse;
    HoleFacts(s, p, n);
    FreeFacts(s, 0, p, n, n);
    GrownKept(s.h.chunks, s'.h.chunks, p, n, p);
    Extend(s, s', p);
  }

  lemma HoleFacts(s: Arena, p: nat, loose: nat)
    requires Ready(s, 0, p, loose) && p > 0
    ensures UsedChunk(s, p)
  {
    hide Heap.Ok, Arena.Owned, Arena.Binned, Aligned;
    ChunkFacts(s.h, p, 0);
  }

  lemma ComposedTags(t: map<nat, Tag>, p: nat, nb: nat, rsize: nat)
    requires p in t && 0 < nb && 0 < rsize
    ensures SetInuse(SetInuse(SetInuse(t, p, nb + rsize), p, nb), p + nb, rsize)
      == SetInuse(SetInuse(t, p, nb), p + nb, rsize)
  {
  }

  /** p takes its free successor n, filed nowhere, and gives the part beyond nb bytes up again. */
  lemma GrowAndCut(s: Arena, s': Arena, p: nat, n: nat, nb: nat, rsize: nat, bytes: nat)
    requires p > 0 && n > 0 && p in s.h.chunks && n == s.h.Next(p) && n in s.h.chunks
    requires nb + rsize == s.h.chunks[p].size + s.h.chunks[n].size
    requires Aligned(nb) && MIN_CHUNK <= nb && MIN_CHUNK <= rsize && Fits(bytes, nb)
    requires s'.h == s.h.(chunks := (s.h.chunks - {n})[p := Chunk(nb, true)][p + nb := Chunk(rsize, true)],
                          tags := SetInuse(SetInuse(s.h.tags, p, nb), p + nb, rsize))
    requires s' == s.(h := s'.h, live := s.live[p + 16 := bytes])
    requires Ready(s, 0, p, n)
    ensures Ready(s', 0, p + nb, 0) && !s.h.chunks[n].inuse && p + nb !in s.h.chunks - {n}
  {
    hide Ready, Aligned, Fits, SetInuse;
    HoleFacts(s, p, n);
    var h1 := s.h.(chunks := (s.h.chunks - {n})[p := Chunk(nb + rsize, true)],
                   tags := SetInuse(s.h.tags, p, nb + rsize));
    var s1 := s.(h := h1);
    GrowWhole(s, s1, p, n);
    ComposedTags(s.h.tags, p, nb, rsize);
    assert s'.h.chunks == h1.chunks[p := Chunk(nb, true)][p + nb := Chunk(rsize, true)];
    CutTail(s1, s', p, nb, bytes);
  }

  /** Whether try_realloc_chunk can resize p in place. */
  ghost predicate Room(s: Arena, p: nat, nb: nat)
    requires p in s.h.chunks
  {
    var n := s.h.Next(p);
    || s.h.chunks[p].size >= nb
    || (n == s.h.top && s.h.chunks[p].size + s.topsize > nb)
    || (n != s.h.top && n in s.h.chunks && !s.h.chunks[n].inuse && s.h.chunks[p].size + s.h.chunks[n].size >= nb)
  }

  /** What try_realloc_chunk finds in and after the chunk p that a caller holds. */
  ghost predicate Resizable(s: Arena, p: nat) {
    && UsedChunk(s, p) && NextChunk(s, p)
    && s.h.tags[p].size == s.h.chunks[p].size && (s.h.Next(p) == s.dv ==> s.dvsize > 0)
  }

  lemma ResizeFacts(s: Arena, p: nat)
    requires Ready(s, 0, p, 0) && p > 0
    ensures Resizable(s, p)
  {
    hide Ready, Aligned;
    PrevFacts(s, p);
    StaleReady(s, p);
    NextFacts(s, p);
    VictimSize(s, p);
  }

  lemma VictimSize(s: Arena, p: nat)
    requires Ready(s, 0, p, 0)
    ensures s.dv != 0 ==> s.dvsize > 0
  {
    hide Heap.Ok, Arena.Binned, Arena.Owned;
  }

  lemma HeadThere(s: Arena, p: nat)
    requires UsedChunk(s, p)
    ensures p in s.h.chunks && p in s.h.tags && s.h.Next(p) in s.h.tags && s.h.Next(p) in s.h.chunks
  {
  }

  // ---- memalign

  /** In whichever order the two parts of a chunk in use are marked, the words come out the same. */
  lemma SwappedTags(t: map<nat, Tag>, p: nat, lead: nat, rest: nat)
    requires p in t && 0 < lead && 0 < rest
    ensures SetInuse(SetInuse(t, p + lead, rest), p, lead) == SetInuse(SetInuse(t, p, lead), p + lead, rest)
  {
  }

  /** A caller's chunk has room for what the caller asked for. */
  lemma HeldRoom(s: Arena, m: nat)
    requires Ready(s, 0, 0, 0) && m in s.live
    ensures m >= 16 && m - 16 in s.h.chunks && s.live[m] + 8 <= s.h.chunks[m - 16].size
  {
    hide Heap.Ok, Arena.Binned;
    assert s.Held(m, 0);
    PadFacts(s.live[m]);
  }

  lemma LongEnough(s: Arena, m: nat, bytes: nat)
    requires Ready(s, 0, 0, 0) && m in s.live && s.live[m] == bytes
    ensures m > 16 && UsedChunk(s, m - 16) && s.h.tags[m - 16].size == s.h.chunks[m - 16].size >= bytes + 8
  {
    hide Ready, Aligned, Fits, Pad;
    HeldFacts(s, m);
    HeldRoom(s, m);
  }

  /** Blocks whose chunks stay as they are stay snug. */
  lemma SnugKept(s: Arena, slack: set<nat>, live': map<nat, nat>, c': map<nat, Chunk>, slack': set<nat>, p: nat, n: nat)
    requires (Ready(s, 0, 0, 0) || s.live == map[]) && Snug(s.live, s.h.chunks, slack) && Kept(s.h.chunks, c', p)
    requires forall m :: m in live' && m != n ==> m in s.live && live'[m] == s.live[m] && (p == 0 || m != p + 16)
    requires forall m :: m in slack && m in live' && m != n ==> m in slack'
    requires n in live' && n !in slack' ==> n > 16 && n - 16 in c' && c'[n - 16].size < Pad(live'[n]) + MIN_CHUNK
    ensures Snug(live', c', slack')
  {
    hide Ready, Pad;
    forall m | m in live' && m !in slack' && m != n
      ensures m > 16 && m - 16 in c' && c'[m - 16].size < Pad(live'[m]) + MIN_CHUNK
    {
      HeldFacts(s, m);
    }
  }

  /** No caller holds the chunk that is in use by the allocator itself. */
  lemma HoleUnheld(s: Arena, p: nat)
    requires Ready(s, 0, p, 0) && p > 0
    ensures p + 16 !in s.live
  {
    hide Heap.Ok, Arena.Binned, Pad, Fits;
    assert p + 16 in s.live ==> s.Held(p + 16, p);
  }

  /** No caller holds a block where no chunk in use is. */
  lemma NotHeld(s: Arena, m: nat)
    requires Ready(s, 0, 0, 0) && m > 16 && WasFree(s.h.chunks, m - 16)
    ensures m !in s.live
  {
    hide Ready;
    if m in s.live {
      HeldFacts(s, m);
    }
  }

  /** The chunk that memalign asks malloc for: the request, the alignment and a minimal chunk. */
  lemma PadSum(nb: nat, a: nat)
    requires Aligned(nb) && Aligned(a) && nb >= MIN_CHUNK
    ensures Pad(nb + a + MIN_CHUNK - 8) == nb + a + MIN_CHUNK
  {
    AlignedSum(nb, a);
    Sixteenth(nb + a);
  }

  lemma Sixteenth(n: nat)
    requires Aligned(n)
    ensures (n + 47) / 16 * 16 == n + 32
  {
  }

  lemma FitsExactly(bytes: nat)
    ensures forall size :: Pad(bytes) <= size <= Pad(bytes) + MIN_CHUNK ==> Fits(bytes, size)
  {
  }
}

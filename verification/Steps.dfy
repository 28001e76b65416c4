/**
 What each way of allocating, freeing or resizing does to the chunks and to their words, as a relation between
 two heaps, and that each keeps the heap invariant.
 */
module Steps {
  import opened Heaps

  // ---- the macros that write head words

  function HeadAt(t: map<nat, Tag>, a: nat): Tag {
    if a in t then t[a] else Tag(0, false, false)
  }

  function SetPinuse(t: map<nat, Tag>, a: nat, b: bool): map<nat, Tag> {
    t[a := HeadAt(t, a).(pinuse := b)]
  }

  /** set_inuse_and_pinuse */
  function InuseAndPinuse(t: map<nat, Tag>, p: nat, s: nat): map<nat, Tag> {
    SetPinuse(t[p := Tag(s, true, true)], p + s, true)
  }

  /** set_inuse: keeps the chunk's own pinuse bit */
  function SetInuse(t: map<nat, Tag>, p: nat, s: nat): map<nat, Tag> {
    SetPinuse(t[p := Tag(s, HeadAt(t, p).pinuse, true)], p + s, true)
  }

  ghost predicate Same(h: Heap, h': Heap) {
    h'.segs == h.segs && h'.lims == h.lims && h'.records == h.records
  }

  // ---- facts about one heap

  ghost predicate Apart(h: Heap, p: nat, a: nat)
    requires p in h.chunks && a in h.chunks
  {
    && h.chunks[a].size > 0 && h.chunks[p].size > 0 && a > 0
    && (a != p ==> h.Next(a) <= p || h.Next(p) <= a)
  }

  /** Different chunks do not overlap. */
  lemma Elsewhere(h: Heap, p: nat, a: nat)
    requires h.Tiled() && p in h.chunks && a in h.chunks
    ensures Apart(h, p, a)
  {
    hide Aligned, WordSized, Segment.First, Heap.Inside, Heap.Followed, Heap.Segmented;
    assert h.Placed(a) && h.Placed(p);
    assert h.Ordered();
  }

  /** A chunk that is neither the top chunk nor a segment record has a successor. */
  lemma HasNext(h: Heap, p: nat)
    requires h.Tiled() && p in h.chunks && p != h.top && p !in h.records
    ensures h.Next(p) in h.chunks
  {
    hide Aligned, WordSized, Segment.First, Heap.Inside, Heap.Segmented, Heap.Ordered, Heap.Sized, Heap.RecordsOk;
    assert h.Placed(p);
  }

  /** No chunk starts behind the limit of a segment. */
  lemma NotInFence(h: Heap, i: nat, a: nat)
    requires h.Tiled() && i < |h.segs| && h.lims[i] <= a < h.segs[i].End()
    ensures a !in h.chunks
  {
    hide Aligned, WordSized, Segment.First, Heap.Ordered, Heap.RecordsOk;
    if a in h.chunks {
      assert h.Placed(a);
      var j :| 0 <= j < |h.segs| && h.segs[j].First() <= a && h.Next(a) <= h.lims[j];
      assert h.SegmentOk(i) && h.SegmentOk(j);
      SamePlace(h, i, j, a);
    }
  }

  /** Words written at chunks only. */
  ghost predicate AtChunks(h: Heap, h': Heap) {
    forall a :: a in h.tags && a !in h.chunks && a !in h'.chunks ==> a in h'.tags && h'.tags[a] == h.tags[a]
  }

  /** Words written at chunks leave the fenceposts alone. */
  lemma FencesKept(h: Heap, h': Heap)
    requires h.Tiled() && h'.Tiled() && h.FencesOk() && Same(h, h') && AtChunks(h, h')
    ensures h'.FencesOk()
  {
    hide Heap.Tiled, Heap.RecordsOk, Heap.AllPlaced;
    LimitsMatch(h);
    forall i, k: nat | 0 < i < |h.segs| && FenceAt(h.lims[i], k) + 8 < h.segs[i].End()
      ensures FenceAt(h.lims[i], k) in h'.tags && h'.tags[FenceAt(h.lims[i], k)] == FENCEPOST
    {
      assert Fences(h.tags, h.lims[i], h.segs[i].End());
      NotInFence(h, i, FenceAt(h.lims[i], k));
      NotInFence(h', i, FenceAt(h.lims[i], k));
    }
  }

  lemma LimitsMatch(h: Heap)
    requires h.Tiled()
    ensures |h.lims| == |h.segs| > 0
  {
  }

  /** A free chunk's predecessor is in use. */
  lemma FreePreceded(h: Heap, p: nat, hole: nat)
    requires h.Ok(hole) && p in h.chunks && !h.chunks[p].inuse
    ensures p in h.tags && h.tags[p].pinuse
  {
    hide Heap.Tiled;
    assert h.TagOk(p, hole) && h.FootOk(p);
    var b := if h.tags[p].pinuse then p else p - h.feet[p];
    assert b in h.chunks && !h.chunks[b].inuse && (h.Next(b) in h.chunks ==> h.chunks[h.Next(b)].inuse);
  }

  /** Nothing follows the top chunk. */
  lemma TopLast(h: Heap)
    requires h.Tiled()
    ensures h.Next(h.top) !in h.chunks
  {
    hide Aligned, WordSized, Segment.First, Heap.Ordered;
    var n := h.Next(h.top);
    if n in h.chunks {
      assert h.Placed(n);
      var i :| 0 <= i < |h.segs| && h.segs[i].First() <= n && h.Next(n) <= h.lims[i];
      assert h.SegmentOk(i) && h.SegmentOk(0);
      SamePlace(h, 0, i, n);
    }
  }

  // ---- malloc: a whole free chunk, part of one, part of the top chunk

  ghost predicate Takes(h: Heap, h': Heap, p: nat) {
    && p in h.chunks && p != h.top && !h.chunks[p].inuse && p !in h.records
    && h'.chunks == h.chunks[p := Chunk(h.chunks[p].size, true)] && h'.top == h.top && Same(h, h')
    && h'.tags == InuseAndPinuse(h.tags, p, h.chunks[p].size) && h'.feet == h.feet
  }

  lemma TakeTag(h: Heap, h': Heap, p: nat, a: nat)
    requires Takes(h, h', p) && a in h.chunks && h.TagOk(a, 0) && h.FootOk(a) && h.TagOk(p, 0) && h.tags[p].pinuse
    requires Apart(h, p, a)
    ensures h'.TagOk(a, 0) && h'.FootOk(a)
  {
  }

  lemma TakeTagged(h: Heap, h': Heap, p: nat)
    requires h.Tiled() && h.AllTagged(0) && Takes(h, h', p) && p in h.tags && h.tags[p].pinuse
    ensures h'.AllTagged(0)
  {
    hide Heap.Tiled, Heap.TagOk, Heap.FootOk, Apart;
    forall a | a in h'.chunks ensures h'.TagOk(a, 0) && h'.FootOk(a) {
      Elsewhere(h, p, a);
      TakeTag(h, h', p, a);
    }
  }

  lemma TakeOk(h: Heap, h': Heap, p: nat)
    requires h.Ok(0) && Takes(h, h', p)
    ensures h'.Ok(0)
  {
    hide Heap.FencesOk, Heap.Tiled, Heap.AllTagged, Segment.First;
    FlagTiled(h, h', p, true);
    FreePreceded(h, p, 0);
    TakeTagged(h, h', p);
    HasNext(h, p);
    FencesKept(h, h');
    forall a | a in h'.chunks && !h'.chunks[a].inuse && h'.Next(a) in h'.chunks ensures h'.chunks[h'.Next(a)].inuse {
      assert h'.Next(a) == h.Next(a);
    }
  }

  lemma SplitFresh(h: Heap, h': Heap, p: nat, nb: nat, inuse1: bool, inuse2: bool)
    requires h.Tiled() && Splits(h, h', p, nb, inuse1, inuse2)
    ensures p + nb !in h.chunks
  {
    hide Aligned, WordSized, Segment.First, Heap.AllPlaced, Heap.Segmented;
    SplitOrdered(h, h', p, nb, inuse1, inuse2);
  }

  ghost predicate TakesSplit(h: Heap, h': Heap, p: nat, nb: nat) {
    && h.chunks.Keys >= {p} && p != h.top && !h.chunks[p].inuse && Splits(h, h', p, nb, true, false)
    && h'.tags == h.tags[p := Tag(nb, true, true)][p + nb := Tag(h.chunks[p].size - nb, true, false)]
    && h'.feet == h.feet[h.Next(p) := h.chunks[p].size - nb]
  }

  lemma TakeSplitTag(h: Heap, h': Heap, p: nat, nb: nat, a: nat)
    requires TakesSplit(h, h', p, nb) && a in h'.chunks
      && (a in h.chunks ==> h.TagOk(a, 0) && h.FootOk(a) && Apart(h, p, a))
    requires h.TagOk(p, 0) && h.tags[p].pinuse && p + nb !in h.chunks
    ensures h'.TagOk(a, 0) && h'.FootOk(a)
  {
    hide Aligned;
  }

  lemma TakeSplitTagged(h: Heap, h': Heap, p: nat, nb: nat)
    requires h.Tiled() && h.AllTagged(0) && TakesSplit(h, h', p, nb) && p in h.tags && h.tags[p].pinuse
    ensures h'.AllTagged(0)
  {
    hide Heap.Tiled, Heap.TagOk, Heap.FootOk, Apart, Aligned;
    SplitFresh(h, h', p, nb, true, false);
    forall a | a in h'.chunks ensures h'.TagOk(a, 0) && h'.FootOk(a) {
      if a in h.chunks {
        Elsewhere(h, p, a);
      }
      TakeSplitTag(h, h', p, nb, a);
    }
  }

  /** Splitting keeps free chunks apart when the first part is in use. */
  lemma SplitCoalesced(h: Heap, h': Heap, p: nat, nb: nat, inuse2: bool)
    requires h.Tiled() && h.Coalesced() && Splits(h, h', p, nb, true, inuse2) && (h.chunks[p].inuse ==> inuse2)
    ensures h'.Coalesced()
  {
    hide Heap.Tiled, Aligned;
    forall a | a in h'.chunks && !h'.chunks[a].inuse && h'.Next(a) in h'.chunks ensures h'.chunks[h'.Next(a)].inuse {
      if a == p + nb {
        assert h'.Next(a) == h.Next(p);
        Elsewhere(h, p, p);
      } else {
        Elsewhere(h, p, a);
        assert h'.Next(a) == h.Next(a);
      }
    }
  }

  lemma TakeSplitOk(h: Heap, h': Heap, p: nat, nb: nat)
    requires h.Ok(0) && TakesSplit(h, h', p, nb)
    ensures h'.Ok(0)
  {
    hide Heap.FencesOk, Heap.Tiled, Heap.AllTagged, Segment.First, Aligned, Heap.Coalesced;
    SplitTiled(h, h', p, nb, true, false);
    FreePreceded(h, p, 0);
    TakeSplitTagged(h, h', p, nb);
    SplitCoalesced(h, h', p, nb, false);
    FencesKept(h, h');
  }

  ghost predicate TakesTop(h: Heap, h': Heap, nb: nat) {
    && h.top in h.chunks && !h.chunks[h.top].inuse && Splits(h, h', h.top, nb, true, false)
    && h'.tags == h.tags[h.top + nb := Tag(h.chunks[h.top].size - nb, true, false)][h.top := Tag(nb, true, true)]
    && h'.feet == h.feet
  }

  lemma TakeTopTag(h: Heap, h': Heap, nb: nat, a: nat)
    requires TakesTop(h, h', nb) && a in h'.chunks
    requires a in h.chunks ==> h.TagOk(a, 0) && h.FootOk(a) && Apart(h, h.top, a)
    requires h.TagOk(h.top, 0) && h.tags[h.top].pinuse && h.top + nb !in h.chunks && h.Next(h.top) !in h.chunks
    ensures h'.TagOk(a, 0) && h'.FootOk(a)
  {
    hide Aligned;
  }

  lemma TakeTopTagged(h: Heap, h': Heap, nb: nat)
    requires h.Tiled() && h.AllTagged(0) && TakesTop(h, h', nb) && h.top in h.tags && h.tags[h.top].pinuse
    ensures h'.AllTagged(0)
  {
    hide Heap.Tiled, Heap.TagOk, Heap.FootOk, Apart, Aligned;
    SplitFresh(h, h', h.top, nb, true, false);
    TopLast(h);
    forall a | a in h'.chunks ensures h'.TagOk(a, 0) && h'.FootOk(a) {
      if a in h.chunks {
        Elsewhere(h, h.top, a);
      }
      TakeTopTag(h, h', nb, a);
    }
  }

  lemma TakeTopOk(h: Heap, h': Heap, nb: nat)
    requires h.Ok(0) && TakesTop(h, h', nb)
    ensures h'.Ok(0)
  {
    hide Heap.FencesOk, Heap.Tiled, Heap.AllTagged, Segment.First, Aligned, Heap.Coalesced;
    SplitTiled(h, h', h.top, nb, true, false);
    FreePreceded(h, h.top, 0);
    TakeTopTagged(h, h', nb);
    SplitCoalesced(h, h', h.top, nb, false);
    FencesKept(h, h');
  }

  // ---- free: next to chunks in use, into the top chunk, into a free successor, into a free predecessor

  ghost predicate Used(h: Heap, p: nat) {
    && p in h.chunks && h.chunks[p].inuse && p != h.top && p !in h.records && p in h.tags && h.tags[p].pinuse
    && h.Next(p) in h.chunks
  }

  ghost predicate FreesHere(h: Heap, h': Heap, p: nat) {
    && Used(h, p) && h.chunks[h.Next(p)].inuse && Flags(h, h', p, false)
    && h'.tags == SetPinuse(h.tags, h.Next(p), false)[p := Tag(h.chunks[p].size, true, false)]
    && h'.feet == h.feet[h.Next(p) := h.chunks[p].size]
  }

  lemma FreeHereTag(h: Heap, h': Heap, p: nat, a: nat)
    requires FreesHere(h, h', p) && a in h.chunks && h.TagOk(a, p) && h.FootOk(a) && h.TagOk(p, p)
    requires Apart(h, p, a) && Apart(h, h.Next(p), a)
    ensures h'.TagOk(a, 0) && h'.FootOk(a)
  {
  }

  lemma FreeHereTagged(h: Heap, h': Heap, p: nat)
    requires h.Tiled() && h.AllTagged(p) && FreesHere(h, h', p)
    ensures h'.AllTagged(0)
  {
    hide Heap.Tiled, Heap.TagOk, Heap.FootOk, Apart;
    forall a | a in h'.chunks ensures h'.TagOk(a, 0) && h'.FootOk(a) {
      Elsewhere(h, p, a);
      Elsewhere(h, h.Next(p), a);
      FreeHereTag(h, h', p, a);
    }
  }

  /** The predecessor of a chunk whose pinuse bit is set is in use. */
  lemma PrecededByUsed(h: Heap, p: nat, hole: nat, a: nat)
    requires h.AllTagged(hole) && p in h.tags && h.tags[p].pinuse && a in h.chunks && h.Next(a) == p
    ensures h.chunks[a].inuse
  {
    assert h.TagOk(a, hole);
  }

  lemma FreeHereCoalesced(h: Heap, h': Heap, p: nat)
    requires h.Tiled() && h.Coalesced() && h.AllTagged(p) && FreesHere(h, h', p)
    ensures h'.Coalesced()
  {
    hide Heap.Tiled, Heap.AllTagged;
    forall a | a in h'.chunks && !h'.chunks[a].inuse && h'.Next(a) in h'.chunks ensures h'.chunks[h'.Next(a)].inuse {
      assert h'.Next(a) == h.Next(a);
      Elsewhere(h, p, p);
      if h.Next(a) == p {
        PrecededByUsed(h, p, p, a);
      }
    }
  }

  lemma FreeHereOk(h: Heap, h': Heap, p: nat)
    requires h.Ok(p) && FreesHere(h, h', p)
    ensures h'.Ok(0)
  {
    hide Heap.FencesOk, Heap.Tiled, Heap.AllTagged, Segment.First, Heap.Coalesced;
    FlagTiled(h, h', p, false);
    FreeHereTagged(h, h', p);
    FreeHereCoalesced(h, h', p);
    FencesKept(h, h');
    var i := NextInside(h, p);
  }

  ghost predicate FreesIntoTop(h: Heap, h': Heap, p: nat) {
    && Used(h, p) && h.Next(p) == h.top && !h.chunks[h.top].inuse && Joins(h, h', p, false)
    && h'.tags == h.tags[p := Tag(h.chunks[p].size + h.chunks[h.top].size, true, false)]
    && h'.feet == h.feet
  }

  lemma FreeIntoTopTag(h: Heap, h': Heap, p: nat, a: nat)
    requires FreesIntoTop(h, h', p) && a in h'.chunks && h.TagOk(a, p) && h.FootOk(a) && h.TagOk(h.top, p)
    requires Apart(h, p, a) && Apart(h, h.top, a) && h.Next(h.top) !in h.chunks
    ensures h'.TagOk(a, 0) && h'.FootOk(a)
  {
  }

  lemma FreeIntoTopTagged(h: Heap, h': Heap, p: nat)
    requires h.Tiled() && h.AllTagged(p) && FreesIntoTop(h, h', p)
    ensures h'.AllTagged(0)
  {
    hide Heap.Tiled, Heap.TagOk, Heap.FootOk, Apart;
    TopLast(h);
    forall a | a in h'.chunks ensures h'.TagOk(a, 0) && h'.FootOk(a) {
      Elsewhere(h, p, a);
      Elsewhere(h, h.top, a);
      FreeIntoTopTag(h, h', p, a);
    }
  }

  /** Joining a chunk with a free successor, when its predecessor is in use, keeps free chunks apart. */
  lemma JoinCoalesced(h: Heap, h': Heap, p: nat, hole: nat, inuse: bool)
    requires h.Tiled() && h.Coalesced() && h.AllTagged(hole) && Joins(h, h', p, inuse)
    requires inuse || (p in h.tags && h.tags[p].pinuse)
    requires h.chunks[h.Next(p)].inuse ==> inuse
    ensures h'.Coalesced()
  {
    hide Heap.Tiled, Heap.AllTagged;
    var n := h.Next(p);
    Elsewhere(h, p, n);
    forall a | a in h'.chunks && !h'.chunks[a].inuse && h'.Next(a) in h'.chunks ensures h'.chunks[h'.Next(a)].inuse {
      Elsewhere(h, n, n);
      if a == p {
        assert h'.Next(a) == h.Next(n);
      } else {
        Elsewhere(h, p, a);
        assert h'.Next(a) == h.Next(a);
        if h.Next(a) == p && !inuse {
          PrecededByUsed(h, p, hole, a);
        }
      }
    }
  }

  lemma FreeIntoTopOk(h: Heap, h': Heap, p: nat)
    requires h.Ok(p) && FreesIntoTop(h, h', p)
    ensures h'.Ok(0)
  {
    hide Heap.FencesOk, Heap.Tiled, Heap.AllTagged, Segment.First, Heap.Coalesced;
    JoinTiled(h, h', p, false);
    FreeIntoTopTagged(h, h', p);
    JoinCoalesced(h, h', p, p, false);
    FencesKept(h, h');
  }

  ghost predicate FreesIntoNext(h: Heap, h': Heap, p: nat) {
    && Used(h, p) && h.Next(p) != h.top && !h.chunks[h.Next(p)].inuse && Joins(h, h', p, false)
    && h'.tags == h.tags[p := Tag(h'.chunks[p].size, true, false)]
    && h'.feet == h.feet[h'.Next(p) := h'.chunks[p].size]
  }

  lemma FreeIntoNextTag(h: Heap, h': Heap, p: nat, a: nat)
    requires FreesIntoNext(h, h', p) && a in h'.chunks && h.TagOk(a, p) && h.FootOk(a) && h.TagOk(h.Next(p), p)
    requires Apart(h, p, a) && Apart(h, h.Next(p), a)
    ensures h'.TagOk(a, 0) && h'.FootOk(a)
  {
  }

  lemma FreeIntoNextTagged(h: Heap, h': Heap, p: nat)
    requires h.Tiled() && h.AllTagged(p) && FreesIntoNext(h, h', p)
    ensures h'.AllTagged(0)
  {
    hide Heap.Tiled, Heap.TagOk, Heap.FootOk, Apart;
    var n := h.Next(p);
    forall a | a in h'.chunks ensures h'.TagOk(a, 0) && h'.FootOk(a) {
      Elsewhere(h, p, a);
      Elsewhere(h, n, a);
      FreeIntoNextTag(h, h', p, a);
    }
  }

  lemma FreeIntoNextOk(h: Heap, h': Heap, p: nat)
    requires h.Ok(p) && FreesIntoNext(h, h', p)
    ensures h'.Ok(0)
  {
    hide Heap.FencesOk, Heap.Tiled, Heap.AllTagged, Segment.First, Heap.Coalesced;
    JoinTiled(h, h', p, false);
    FreeIntoNextTagged(h, h', p);
    JoinCoalesced(h, h', p, p, false);
    FencesKept(h, h');
  }

  /** Before p is freed it is joined, as a chunk in use, with its free predecessor. */
  ghost predicate MergesPrev(h: Heap, h': Heap, p: nat, b: nat) {
    && p in h.chunks && h.chunks[p].inuse && p in h.tags && !h.tags[p].pinuse
    && p in h.feet && b + h.feet[p] == p && b in h.chunks && Joins(h, h', b, true)
    && h.Next(b) == p && !h.chunks[b].inuse
    && h'.tags == h.tags && h'.feet == h.feet
  }

  lemma MergePrevTag(h: Heap, h': Heap, p: nat, b: nat, a: nat)
    requires MergesPrev(h, h', p, b) && a in h'.chunks && h.TagOk(a, p) && h.FootOk(a) && h.TagOk(p, p)
    requires Apart(h, p, a) && Apart(h, b, a) && b in h.tags && h.tags[b].pinuse
    ensures h'.TagOk(a, b) && h'.FootOk(a)
  {
  }

  lemma MergePrevTagged(h: Heap, h': Heap, p: nat, b: nat)
    requires h.Tiled() && h.AllTagged(p) && MergesPrev(h, h', p, b) && b in h.tags && h.tags[b].pinuse
    ensures h'.AllTagged(b)
  {
    hide Heap.Tiled, Heap.TagOk, Heap.FootOk, Apart;
    forall a | a in h'.chunks ensures h'.TagOk(a, b) && h'.FootOk(a) {
      Elsewhere(h, p, a);
      Elsewhere(h, b, a);
      MergePrevTag(h, h', p, b, a);
    }
  }

  lemma MergePrevOk(h: Heap, h': Heap, p: nat, b: nat)
    requires h.Ok(p) && MergesPrev(h, h', p, b)
    ensures h'.Ok(b) && b in h'.tags && h'.tags[b].pinuse
  {
    hide Heap.FencesOk, Heap.Tiled, Heap.AllTagged, Segment.First, Heap.Coalesced;
    FreePreceded(h, b, p);
    JoinTiled(h, h', b, true);
    MergePrevTagged(h, h', p, b);
    JoinCoalesced(h, h', b, p, true);
    FencesKept(h, h');
  }

  // ---- realloc and memalign: cutting a chunk in use, growing one into its free successor

  ghost predicate SplitsUsed(h: Heap, h': Heap, p: nat, nb: nat) {
    && p in h.chunks && h.chunks[p].inuse && p != h.top && p in h.tags && Splits(h, h', p, nb, true, true)
    && h'.tags == SetInuse(SetInuse(h.tags, p, nb), p + nb, h.chunks[p].size - nb)
    && h'.feet == h.feet
  }

  lemma SplitUsedTag(h: Heap, h': Heap, p: nat, nb: nat, hole: nat, a: nat)
    requires SplitsUsed(h, h', p, nb) && a in h'.chunks && p + nb !in h.chunks
    requires a in h.chunks ==> h.TagOk(a, hole) && h.FootOk(a) && Apart(h, p, a)
    requires h.TagOk(p, hole) && h.FootOk(p) && (hole == 0 || hole == p)
    ensures h'.TagOk(a, 0) && h'.FootOk(a)
  {
    hide Aligned;
  }

  lemma SplitUsedTagged(h: Heap, h': Heap, p: nat, nb: nat, hole: nat)
    requires h.Tiled() && h.AllTagged(hole) && SplitsUsed(h, h', p, nb) && (hole == 0 || hole == p)
    ensures h'.AllTagged(0)
  {
    hide Heap.Tiled, Heap.TagOk, Heap.FootOk, Apart, Aligned;
    SplitFresh(h, h', p, nb, true, true);
    forall a | a in h'.chunks ensures h'.TagOk(a, 0) && h'.FootOk(a) {
      if a in h.chunks {
        Elsewhere(h, p, a);
      }
      SplitUsedTag(h, h', p, nb, hole, a);
    }
  }

  lemma SplitUsedOk(h: Heap, h': Heap, p: nat, nb: nat, hole: nat)
    requires h.Ok(hole) && SplitsUsed(h, h', p, nb) && (hole == 0 || hole == p)
    ensures h'.Ok(0) && p + nb in h'.tags && h'.tags[p + nb].pinuse
  {
    hide Heap.FencesOk, Heap.Tiled, Heap.AllTagged, Segment.First, Aligned, Heap.Coalesced;
    SplitTiled(h, h', p, nb, true, true);
    SplitUsedTagged(h, h', p, nb, hole);
    SplitCoalesced(h, h', p, nb, true);
    HasNext(h, p);
    FencesKept(h, h');
  }

  /** p takes all of its free successor. */
  ghost predicate Absorbs(h: Heap, h': Heap, p: nat) {
    && p in h.chunks && h.chunks[p].inuse && p in h.tags && Joins(h, h', p, true)
    && h.Next(p) != h.top && !h.chunks[h.Next(p)].inuse
    && h'.tags == SetInuse(h.tags, p, h'.chunks[p].size)
    && h'.feet == h.feet
  }

  lemma AbsorbTag(h: Heap, h': Heap, p: nat, a: nat)
    requires Absorbs(h, h', p) && a in h'.chunks && h.TagOk(a, 0) && h.FootOk(a) && h.TagOk(h.Next(p), 0)
    requires Apart(h, p, a) && Apart(h, h.Next(p), a)
    ensures h'.TagOk(a, 0) && h'.FootOk(a)
  {
  }

  lemma AbsorbTagged(h: Heap, h': Heap, p: nat)
    requires h.Tiled() && h.AllTagged(0) && Absorbs(h, h', p)
    ensures h'.AllTagged(0)
  {
    hide Heap.Tiled, Heap.TagOk, Heap.FootOk, Apart;
    var n := h.Next(p);
    forall a | a in h'.chunks ensures h'.TagOk(a, 0) && h'.FootOk(a) {
      Elsewhere(h, p, a);
      Elsewhere(h, n, a);
      AbsorbTag(h, h', p, a);
    }
  }

  lemma AbsorbOk(h: Heap, h': Heap, p: nat)
    requires h.Ok(0) && Absorbs(h, h', p)
    ensures h'.Ok(0)
  {
    hide Heap.FencesOk, Heap.Tiled, Heap.AllTagged, Segment.First, Heap.Coalesced;
    JoinTiled(h, h', p, true);
    AbsorbTagged(h, h', p);
    JoinCoalesced(h, h', p, 0, true);
    HasNext(h, h.Next(p));
    FencesKept(h, h');
  }

  /** The boundary between p and its free successor moves up, to leave p with nb bytes. */
  ghost predicate Rebounds(h: Heap, h': Heap, p: nat, nb: nat) {
    && p in h.chunks && h.chunks[p].inuse && p in h.tags && p !in h.records && p != h.top
    && h.Next(p) in h.chunks && !h.chunks[h.Next(p)].inuse && h.Next(p) !in h.records
    && h.chunks[p].size <= nb < h.chunks[p].size + h.chunks[h.Next(p)].size && Aligned(nb) && MIN_CHUNK <= nb
    && (var rest := h.chunks[p].size + h.chunks[h.Next(p)].size - nb;
        h'.chunks == (h.chunks - {h.Next(p)})[p := Chunk(nb, true)][p + nb := Chunk(rest, false)])
    && h'.top == (if h.Next(p) == h.top then p + nb else h.top) && Same(h, h')
    && (h.Next(p) != h.top ==> nb + MIN_CHUNK <= h.chunks[p].size + h.chunks[h.Next(p)].size)
  }

  lemma ReboundTiled(h: Heap, h': Heap, p: nat, nb: nat)
    requires h.Tiled() && Rebounds(h, h', p, nb)
    ensures h'.Tiled()
  {
    hide Heap.Tiled, Aligned;
    var n := h.Next(p);
    var c := Chunk(h.chunks[p].size + h.chunks[n].size, false);
    var h1 := h.(chunks := (h.chunks - {n})[p := c], top := if n == h.top then p else h.top);
    JoinTiled(h, h1, p, false);
    assert h'.chunks == h1.chunks[p := Chunk(nb, true)][p + nb := Chunk(c.size - nb, false)];
    SplitTiled(h1, h', p, nb, true, false);
  }

  lemma ReboundCoalesced(h: Heap, h': Heap, p: nat, nb: nat)
    requires h.Tiled() && h.Coalesced() && Rebounds(h, h', p, nb)
    ensures h'.Coalesced()
  {
    hide Heap.Tiled, Aligned;
    var n := h.Next(p);
    Elsewhere(h, p, n);
    forall a | a in h'.chunks && !h'.chunks[a].inuse && h'.Next(a) in h'.chunks ensures h'.chunks[h'.Next(a)].inuse {
      if a == p + nb {
        assert h'.Next(a) == h.Next(n);
      } else {
        Elsewhere(h, p, a);
        Elsewhere(h, n, a);
        assert h'.Next(a) == h.Next(a);
      }
    }
  }

  /** p grows into the designated victim. */
  ghost predicate AbsorbsSome(h: Heap, h': Heap, p: nat, nb: nat) {
    && Rebounds(h, h', p, nb) && h.Next(p) != h.top
    && h'.tags == SetPinuse(SetInuse(h.tags, p, nb)[p + nb := Tag(h'.chunks[p + nb].size, true, false)],
                            h'.Next(p + nb), false)
    && h'.feet == h.feet[h'.Next(p + nb) := h'.chunks[p + nb].size]
  }

  /** p grows into the top chunk. */
  ghost predicate AbsorbsTop(h: Heap, h': Heap, p: nat, nb: nat) {
    && Rebounds(h, h', p, nb) && h.Next(p) == h.top
    && h'.tags == SetInuse(h.tags, p, nb)[p + nb := Tag(h'.chunks[p + nb].size, true, false)]
    && h'.feet == h.feet
  }

  lemma AbsorbSomeTag(h: Heap, h': Heap, p: nat, nb: nat, a: nat)
    requires AbsorbsSome(h, h', p, nb) || (AbsorbsTop(h, h', p, nb) && h.Next(h.top) !in h.chunks)
    requires a in h'.chunks
      && (a in h.chunks ==> h.TagOk(a, 0) && h.FootOk(a) && Apart(h, p, a) && Apart(h, h.Next(p), a))
    requires h.TagOk(p, 0) && h.FootOk(p) && h.TagOk(h.Next(p), 0) && Apart(h, p, h.Next(p))
    requires p + nb in h.chunks ==> p + nb == h.Next(p)
    ensures h'.TagOk(a, 0) && h'.FootOk(a)
  {
    hide Aligned;
  }

  lemma AbsorbSomeTagged(h: Heap, h': Heap, p: nat, nb: nat)
    requires h.Tiled() && h.AllTagged(0) && (AbsorbsSome(h, h', p, nb) || AbsorbsTop(h, h', p, nb))
    ensures h'.AllTagged(0)
  {
    hide Heap.Tiled, Heap.TagOk, Heap.FootOk, Aligned;
    var n := h.Next(p);
    TopLast(h);
    Elsewhere(h, p, n);
    if p + nb in h.chunks {
      Elsewhere(h, n, p + nb);
    }
    forall a | a in h'.chunks ensures h'.TagOk(a, 0) && h'.FootOk(a) {
      if a in h.chunks {
        Elsewhere(h, p, a);
        Elsewhere(h, n, a);
      }
      hide Apart;
      AbsorbSomeTag(h, h', p, nb, a);
    }
  }

  lemma AbsorbSomeWords(h: Heap, h': Heap, p: nat, nb: nat)
    requires h.Tiled() && (AbsorbsSome(h, h', p, nb) || AbsorbsTop(h, h', p, nb))
    ensures AtChunks(h, h')
  {
    hide Heap.Tiled, Aligned;
    if h.Next(p) != h.top {
      HasNext(h, h.Next(p));
    }
  }

  lemma AbsorbSomeOk(h: Heap, h': Heap, p: nat, nb: nat)
    requires h.Ok(0) && (AbsorbsSome(h, h', p, nb) || AbsorbsTop(h, h', p, nb))
    ensures h'.Ok(0)
  {
    hide Heap.FencesOk, Heap.Tiled, Segment.First, Heap.Coalesced, Aligned;
    assert h.TagOk(h.Next(p), 0);
    hide Heap.AllTagged;
    ReboundTiled(h, h', p, nb);
    AbsorbSomeTagged(h, h', p, nb);
    ReboundCoalesced(h, h', p, nb);
    assert h'.FirstsOk();
    AbsorbSomeWords(h, h', p, nb);
    FencesKept(h, h');
  }
}

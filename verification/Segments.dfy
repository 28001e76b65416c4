/** How memory from the system enters the heap: the first region, a region after or before a segment, a new segment. */
module Segments {
  import opened Heaps
  import opened Steps

  /** A region the system may hand out: word aligned, whole in the lower half of the address space, not too small. */
  ghost predicate RegionOk(s: Segment) {
    && s.base > 0 && WordSized(s.base) && Aligned(s.size) && s.End() < ADDRESS_LIMIT
    && s.base <= s.First() <= s.base + 8 && s.base + 8 + TOP_FOOT < s.End()
  }

  ghost predicate Disjoint(s: Segment, r: Segment) {
    s.End() <= r.base || r.End() <= s.base
  }

  ghost predicate Unused(h: Heap, r: Segment) {
    forall i :: 0 <= i < |h.segs| ==> Disjoint(h.segs[i], r)
  }

  lemma FirstAligned(s: Segment)
    requires RegionOk(s)
    ensures Aligned(s.First()) && WordSized(s.End() - TOP_FOOT - s.First())
  {
  }

  lemma FirstMoves(s: Segment, r: Segment)
    requires Aligned(r.size) && r.End() == s.base
    ensures s.First() == r.First() + r.size
  {
  }

  /** init_top */
  function InitTop(t: map<nat, Tag>, p: nat, psize: nat): map<nat, Tag> {
    t[p := Tag(psize, true, false)][p + psize := Tag(TOP_FOOT, false, false)]
  }

  function TopSize(s: Segment): int { s.End() - TOP_FOOT - s.First() }

  // ---- the first region

  ghost predicate Starts(h': Heap, r: Segment, t: map<nat, Tag>) {
    && RegionOk(r) && h'.segs == [r] && h'.lims == [r.End() - TOP_FOOT] && h'.records == {}
    && h'.top == r.First() && h'.chunks == map[h'.top := Chunk(TopSize(r), false)]
    && h'.tags == InitTop(t, h'.top, TopSize(r))
  }

  lemma StartOk(h': Heap, r: Segment, t: map<nat, Tag>)
    requires Starts(h', r, t)
    ensures h'.Ok(0)
  {
    hide Aligned, WordSized, Segment.First;
    FirstAligned(r);
    assert h'.SegmentOk(0);
    assert h'.Placed(h'.top) by {
      assert h'.segs[0].First() <= h'.top && h'.Next(h'.top) <= h'.lims[0];
    }
    assert h'.TagOk(h'.top, 0) && h'.FootOk(h'.top);
  }

  // ---- a region that follows the newest segment: the top chunk grows

  ghost predicate Appends(h: Heap, h': Heap, r: Segment) {
    && |h.segs| == |h.lims| > 0 && Aligned(r.size) && r.size > 0 && r.End() < ADDRESS_LIMIT
    && h.segs[0].End() == r.base && Unused(h, r) && h.top in h.chunks
    && h'.segs == h.segs[0 := Segment(h.segs[0].base, h.segs[0].size + r.size)]
    && h'.lims == h.lims[0 := h.lims[0] + r.size] && h'.records == h.records && h'.top == h.top
    && h'.chunks == h.chunks[h.top := Chunk(h.chunks[h.top].size + r.size, false)]
    && h'.tags == InitTop(h.tags, h.top, h.chunks[h.top].size + r.size) && h'.feet == h.feet
  }

  lemma FirstSame(s: Segment, n: nat)
    ensures Segment(s.base, s.size + n).First() == s.First()
  {
  }

  lemma AppendAligned(h: Heap, r: Segment)
    requires h.Tiled() && Aligned(r.size)
    ensures Aligned(h.segs[0].size + r.size) && WordSized(h.chunks[h.top].size + r.size)
  {
    hide Heap.Ordered, Segment.First, Heap.Followed, Heap.Inside;
    assert h.SegmentOk(0) && h.Placed(h.top);
    JoinSized(r.size, h.segs[0].size);
    JoinSized(r.size, h.chunks[h.top].size);
  }

  lemma AppendSegment(h: Heap, h': Heap, r: Segment, i: nat)
    requires Appends(h, h', r) && i < |h.segs| && h.SegmentOk(i) && Aligned(h.segs[0].size + r.size)
    ensures h'.SegmentOk(i)
  {
    hide Aligned, WordSized, Segment.First;
    FirstSame(h.segs[0], r.size);
  }

  lemma AppendApart(h: Heap, h': Heap, r: Segment, i: nat, j: nat)
    requires Appends(h, h', r) && i < j < |h.segs| && h.Apart(i, j) && h.SegmentOk(j) && Disjoint(h.segs[j], r)
    ensures h'.Apart(i, j)
  {
    hide Aligned, WordSized, Segment.First;
  }

  lemma AppendSegmented(h: Heap, h': Heap, r: Segment)
    requires h.Tiled() && Appends(h, h', r)
    ensures h'.Segmented()
  {
    hide Aligned, WordSized, Heap.AllPlaced, Heap.Ordered, Heap.SegmentOk, Heap.Apart, Segment.First, Disjoint;
    AppendAligned(h, r);
    forall i | 0 <= i < |h.segs| ensures h'.SegmentOk(i) { AppendSegment(h, h', r, i); }
    forall i, j | 0 <= i < j < |h.segs| ensures h'.Apart(i, j) { AppendApart(h, h', r, i, j); }
  }

  /** The top chunk lies in the newest segment. */
  lemma TopInNewest(h: Heap)
    requires h.Tiled()
    ensures h.segs[0].First() <= h.top
  {
    hide Aligned, WordSized, Segment.First, Heap.Ordered;
    assert h.Placed(h.top);
    var i :| 0 <= i < |h.segs| && h.segs[i].First() <= h.top && h.Next(h.top) <= h.lims[i];
    assert h.SegmentOk(0) && h.SegmentOk(i);
    SamePlace(h, 0, i, h.Next(h.top));
  }

  lemma AppendPlaced(h: Heap, h': Heap, r: Segment, a: nat)
    requires Appends(h, h', r) && WordSized(h.chunks[h.top].size + r.size) && h.segs[0].First() <= h.top && h.TopOk()
    requires a in h.chunks && h.Placed(a) && (a != h.top ==> h.Next(a) != h.lims[0])
    ensures h'.Placed(a)
  {
    hide Aligned, WordSized, Segment.First;
    FirstSame(h.segs[0], r.size);
    if a == h.top {
      assert h'.segs[0].First() <= a && h'.Next(a) <= h'.lims[0];
    } else {
      var i :| 0 <= i < |h.segs| && h.segs[i].First() <= a && h.Next(a) <= h.lims[i];
      assert h'.segs[i].First() <= a && h'.Next(a) <= h'.lims[i];
      if h.Next(a) in h.lims {
        var k :| 0 <= k < |h.lims| && h.lims[k] == h.Next(a);
        assert h'.lims[k] == h.Next(a);
      }
    }
  }

  lemma AppendAfter(h: Heap, h': Heap, r: Segment, b: nat)
    requires h.Tiled() && Appends(h, h', r) && b in h.chunks && h.top < b
    ensures h'.Next(h.top) <= b
  {
    hide Aligned, WordSized, Segment.First;
    assert h.Next(h.top) <= b && h.Placed(b);
    hide Heap.Ordered;
    var i :| 0 <= i < |h.segs| && h.segs[i].First() <= b && h.Next(b) <= h.lims[i];
    assert h.SegmentOk(0) && h.SegmentOk(i) && Disjoint(h.segs[i], r);
    hide Heap.AllPlaced, Heap.Followed;
    assert 0 < i ==> h.Apart(0, i);
  }

  lemma AppendOrdered(h: Heap, h': Heap, r: Segment)
    requires h.Tiled() && Appends(h, h', r)
    ensures h'.Ordered()
  {
    forall a, b | a in h'.chunks && b in h'.chunks && a < b ensures h'.Next(a) <= b {
      if a == h.top {
        AppendAfter(h, h', r, b);
      } else {
        hide Heap.AllPlaced, Heap.Segmented;
        assert h.Ordered() && h.Next(a) <= b;
      }
    }
  }

  lemma NextDiffers(h: Heap, a: nat)
    requires h.Tiled() && a in h.chunks && a != h.top
    ensures h.Next(a) != h.lims[0]
  {
    hide Heap.AllPlaced, Heap.Segmented, Heap.Ordered;
    Elsewhere(h, h.top, a);
  }

  lemma AppendPlacedAt(h: Heap, h': Heap, r: Segment, a: nat)
    requires h.Tiled() && Appends(h, h', r) && a in h.chunks
    ensures h'.Placed(a)
  {
    hide Heap.Placed, Heap.Ordered, Heap.Segmented, Aligned, WordSized, Segment.First;
    if a != h.top {
      NextDiffers(h, a);
    }
    TopInNewest(h);
    AppendAligned(h, r);
    AppendPlaced(h, h', r, a);
  }

  lemma AppendRecords(h: Heap, h': Heap, r: Segment)
    requires h.Tiled() && Appends(h, h', r)
    ensures h'.RecordsOk()
  {
    hide Heap.AllPlaced, Heap.Ordered, Heap.Segmented, Aligned, Segment.First, InitTop;
    assert h'.lims[1..] == h.lims[1..];
    forall i | 0 < i < |h.lims| ensures h'.RecordOk(i) { assert h.RecordOk(i); }
  }

  lemma AppendTiled(h: Heap, h': Heap, r: Segment)
    requires h.Tiled() && Appends(h, h', r)
    ensures h'.Tiled()
  {
    hide Heap.RecordsOk, Heap.Placed, Heap.Ordered, Heap.Segmented, Aligned, WordSized, Segment.First;
    AppendSegmented(h, h', r);
    AppendOrdered(h, h', r);
    AppendRecords(h, h', r);
    forall a | a in h'.chunks ensures h'.Placed(a) { AppendPlacedAt(h, h', r, a); }
  }

  lemma AppendTag(h: Heap, h': Heap, r: Segment, a: nat)
    requires Appends(h, h', r) && a in h.chunks && h.TagOk(a, 0) && h.FootOk(a) && h.top in h.tags
      && h.tags[h.top].pinuse
    requires Apart(h, h.top, a) && Apart(h', h.top, a) && h'.Next(h.top) !in h.chunks && h.Next(h.top) !in h.chunks
    ensures h'.TagOk(a, 0) && h'.FootOk(a)
  {
    hide Aligned;
  }

  lemma AppendTagged(h: Heap, h': Heap, r: Segment)
    requires h.Tiled() && h'.Tiled() && h.AllTagged(0) && Appends(h, h', r) && h.top in h.tags && h.tags[h.top].pinuse
    ensures h'.AllTagged(0)
  {
    hide Heap.Tiled, Heap.TagOk, Heap.FootOk, Apart, Aligned;
    TopLast(h);
    TopLast(h');
    forall a | a in h'.chunks ensures h'.TagOk(a, 0) && h'.FootOk(a) {
      Elsewhere(h, h.top, a);
      Elsewhere(h', h.top, a);
      AppendTag(h, h', r, a);
    }
  }

  lemma AppendCoalesced(h: Heap, h': Heap, r: Segment)
    requires h.Tiled() && h'.Tiled() && h.Coalesced() && !h.chunks[h.top].inuse && Appends(h, h', r)
    ensures h'.Coalesced()
  {
    hide Heap.Tiled, Aligned;
    TopLast(h');
    forall a | a in h'.chunks && !h'.chunks[a].inuse && h'.Next(a) in h'.chunks ensures h'.chunks[h'.Next(a)].inuse {
      assert h'.Next(a) == h.Next(a);
    }
  }

  lemma FirstIsChunk(h: Heap, i: nat)
    requires h.Tiled() && i < |h.segs|
    ensures h.segs[i].First() in h.chunks
  {
    hide Heap.AllPlaced, Heap.Ordered, Heap.TopOk, Heap.RecordsOk, Aligned, WordSized, Segment.First;
    assert h.SegmentOk(i);
  }

  lemma AppendFirsts(h: Heap, h': Heap, r: Segment)
    requires h.Tiled() && h'.Tiled() && h.FirstsOk() && Appends(h, h', r)
    ensures h'.FirstsOk()
  {
    hide Heap.Tiled, Aligned, WordSized, Segment.First;
    FirstSame(h.segs[0], r.size);
    TopLast(h');
    forall i | 0 <= i < |h'.segs| ensures h'.segs[i].First() in h'.tags && h'.tags[h'.segs[i].First()].pinuse {
      FirstIsChunk(h', i);
      assert h'.segs[i].First() == h.segs[i].First();
    }
  }

  /** An address in one segment is no fencepost of another. */
  lemma FenceElsewhere(h: Heap, i: nat, j: nat, k: nat, a: nat)
    requires h.Tiled() && i < |h.segs| && j < |h.segs| && i != j && h.segs[j].base <= a < h.segs[j].End()
    requires FenceAt(h.lims[i], k) + 8 < h.segs[i].End()
    ensures FenceAt(h.lims[i], k) != a
  {
    hide Heap.Tiled;
    TwoSegments(h, i, j);
  }

  lemma AppendFences(h: Heap, h': Heap, r: Segment)
    requires h.Tiled() && h'.Tiled() && h.FencesOk() && Appends(h, h', r)
    ensures h'.FencesOk()
  {
    hide Heap.Tiled, Aligned, Segment.First;
    TopInNewest(h');
    NewestEnd(h');
    TwoSegments(h', 0, 0);
    forall i, k: nat | 0 < i < |h'.segs| && FenceAt(h'.lims[i], k) + 8 < h'.segs[i].End()
      ensures FenceAt(h'.lims[i], k) in h'.tags && h'.tags[FenceAt(h'.lims[i], k)] == FENCEPOST
    {
      assert Fences(h.tags, h.lims[i], h.segs[i].End());
      FenceElsewhere(h', i, 0, k, h.top);
      FenceElsewhere(h', i, 0, k, h'.lims[0]);
    }
  }

  /** Memory after the newest segment only makes the top chunk longer. */
  lemma AppendOk(h: Heap, h': Heap, r: Segment)
    requires h.Ok(0) && Appends(h, h', r) && !h.chunks[h.top].inuse
    ensures h'.Ok(0)
  {
    hide Heap.FencesOk, Heap.Tiled, Heap.AllTagged, Heap.Coalesced, Heap.FirstsOk, Aligned;
    AppendTiled(h, h', r);
    FreePreceded(h, h.top, 0);
    AppendTagged(h, h', r);
    AppendCoalesced(h, h', r);
    AppendFirsts(h, h', r);
    AppendFences(h, h', r);
  }

  // ---- a region before a segment: one more chunk, in use until it is divided

  ghost predicate Prepends(h: Heap, h': Heap, i: nat, r: Segment) {
    && i < |h.segs| == |h.lims| && r.End() == h.segs[i].base && Unused(h, r) && RegionOk(r)
    && h.segs[i].First() == r.First() + r.size
    && h'.segs == h.segs[i := Segment(r.base, r.size + h.segs[i].size)]
    && h'.lims == h.lims && h'.records == h.records && h'.top == h.top
    && h'.chunks == h.chunks[r.First() := Chunk(r.size, true)]
    && r.First() in h'.tags && h'.tags[r.First()].pinuse && h'.tags == h.tags[r.First() := h'.tags[r.First()]]
    && h'.feet == h.feet
  }

  /** Where chunks lie: in one segment, clear of any region the heap does not have. */
  lemma ChunkPlace(h: Heap, r: Segment, a: nat) returns (j: nat)
    requires h.Tiled() && Unused(h, r) && a in h.chunks
    ensures j < |h.segs| && h.segs[j].base <= h.segs[j].First() <= a < h.Next(a) <= h.lims[j] < h.segs[j].End()
    ensures Disjoint(h.segs[j], r)
  {
    hide Aligned, WordSized, Segment.First, Heap.Ordered, Heap.TopOk, Heap.RecordsOk;
    assert h.Placed(a);
    j :| 0 <= j < |h.segs| && h.segs[j].First() <= a && h.Next(a) <= h.lims[j];
    assert h.SegmentOk(j) && Disjoint(h.segs[j], r);
  }

  lemma TwoSegments(h: Heap, i: nat, j: nat)
    requires h.Tiled() && i < |h.segs| && j < |h.segs|
    ensures i == j || h.segs[i].End() <= h.segs[j].base || h.segs[j].End() <= h.segs[i].base
    ensures h.segs[i].base <= h.segs[i].First() < h.lims[i] < h.segs[i].End()
  {
    hide Aligned, WordSized, Segment.First, Heap.Ordered, Heap.AllPlaced, Heap.TopOk, Heap.RecordsOk;
    assert h.SegmentOk(i);
    assert i < j ==> h.Apart(i, j);
    assert j < i ==> h.Apart(j, i);
  }

  lemma FrontClear(h: Heap, h': Heap, i: nat, r: Segment, a: nat)
    requires h.Tiled() && Prepends(h, h', i, r) && a in h.chunks
    ensures h.Next(a) < r.First() || r.First() + r.size <= a
  {
    hide Heap.Tiled, Aligned, WordSized, Segment.First;
    var j := ChunkPlace(h, r, a);
    TwoSegments(h, i, j);
  }

  lemma PrependOrdered(h: Heap, h': Heap, i: nat, r: Segment)
    requires h.Tiled() && Prepends(h, h', i, r)
    ensures h'.Ordered() && r.First() !in h.chunks
  {
    assert h.Ordered();
    hide Heap.Tiled, Aligned, WordSized, Segment.First;
    if r.First() in h.chunks {
      FrontClear(h, h', i, r, r.First());
    }
    forall a, b | a in h'.chunks && b in h'.chunks && a < b ensures h'.Next(a) <= b {
      if a == r.First() {
        FrontClear(h, h', i, r, b);
      } else if b == r.First() {
        FrontClear(h, h', i, r, a);
      } else {
        assert h.Next(a) <= b;
      }
    }
  }

  lemma FirstOfBase(s: Segment, n: nat)
    ensures Segment(s.base, n).First() == s.First()
  {
  }

  lemma PrependSegment(h: Heap, h': Heap, i: nat, r: Segment, j: nat)
    requires Prepends(h, h', i, r) && j < |h.segs| && h.SegmentOk(j)
    ensures h'.SegmentOk(j)
  {
    hide Aligned, WordSized, Segment.First;
    JoinSized(r.size, h.segs[i].size);
    FirstOfBase(r, r.size + h.segs[i].size);
  }

  lemma PrependApart(h: Heap, h': Heap, i: nat, r: Segment, j: nat, k: nat)
    requires Prepends(h, h', i, r) && j < k < |h.segs| && h.Apart(j, k) && h.SegmentOk(j) && h.SegmentOk(k)
    requires Disjoint(h.segs[j], r) && Disjoint(h.segs[k], r)
    ensures h'.Apart(j, k)
  {
    hide Aligned, WordSized, Segment.First;
  }

  lemma PrependSegmented(h: Heap, h': Heap, i: nat, r: Segment)
    requires h.Tiled() && Prepends(h, h', i, r)
    ensures h'.Segmented()
  {
    hide Aligned, WordSized, Heap.AllPlaced, Heap.Ordered, Heap.SegmentOk, Heap.Apart, Segment.First, Disjoint;
    forall j | 0 <= j < |h.segs| ensures h'.SegmentOk(j) { PrependSegment(h, h', i, r, j); }
    forall j, k | 0 <= j < k < |h.segs| ensures h'.Apart(j, k) { PrependApart(h, h', i, r, j, k); }
  }

  lemma PrependPlaced(h: Heap, h': Heap, i: nat, r: Segment, a: nat)
    requires Prepends(h, h', i, r) && a in h.chunks && a != r.First() && h.Placed(a)
    ensures h'.Placed(a)
  {
    hide Aligned, WordSized, Segment.First;
    FirstOfBase(r, r.size + h.segs[i].size);
    var j :| 0 <= j < |h.segs| && h.segs[j].First() <= a && h.Next(a) <= h.lims[j];
    assert h'.segs[j].First() <= a && h'.Next(a) <= h'.lims[j];
  }

  lemma PrependNew(h: Heap, h': Heap, i: nat, r: Segment)
    requires Prepends(h, h', i, r) && h.SegmentOk(i) && r.First() != h.top
    ensures h'.Placed(r.First())
  {
    hide Aligned, WordSized, Segment.First;
    FirstAligned(r);
    SizeWhole(r.size);
    FirstOfBase(r, r.size + h.segs[i].size);
    assert h'.segs[i].First() <= r.First() && h'.Next(r.First()) <= h'.lims[i];
  }

  lemma PrependTiled(h: Heap, h': Heap, i: nat, r: Segment)
    requires h.Tiled() && Prepends(h, h', i, r)
    ensures h'.Tiled() && r.First() !in h.chunks
  {
    hide Heap.RecordsOk, Heap.Placed, Heap.Ordered, Heap.Segmented, Aligned, WordSized, Segment.First;
    PrependOrdered(h, h', i, r);
    PrependSegmented(h, h', i, r);
    RecordsKept(h, h');
    assert h.SegmentOk(i) by { SegmentAt(h, i); }
    PrependNew(h, h', i, r);
    forall a | a in h.chunks ensures h'.Placed(a) { PrependPlaced(h, h', i, r, a); }
  }

  lemma SegmentAt(h: Heap, i: nat)
    requires h.Tiled() && i < |h.segs|
    ensures h.SegmentOk(i)
  {
    hide Heap.AllPlaced, Heap.Ordered, Heap.TopOk, Heap.RecordsOk, Heap.SegmentOk;
  }

  lemma PrependTag(h: Heap, h': Heap, i: nat, r: Segment, a: nat)
    requires Prepends(h, h', i, r) && a in h.chunks && h.TagOk(a, 0) && h.FootOk(a) && r.First() !in h.chunks
    requires (h.Next(a) < r.First() || r.First() + r.size <= a) && Apart(h, a, a)
    ensures h'.TagOk(a, r.First()) && h'.FootOk(a)
  {
    hide Aligned, WordSized, Segment.First;
  }

  lemma PrependTagged(h: Heap, h': Heap, i: nat, r: Segment)
    requires h.Tiled() && h.AllTagged(0) && h.FirstsOk() && Prepends(h, h', i, r) && r.First() !in h.chunks
    ensures h'.AllTagged(r.First())
  {
    hide Heap.Tiled, Heap.TagOk, Heap.FootOk, Aligned, WordSized, Segment.First;
    forall a | a in h.chunks ensures h'.TagOk(a, r.First()) && h'.FootOk(a) {
      FrontClear(h, h', i, r, a);
      Elsewhere(h, a, a);
      PrependTag(h, h', i, r, a);
    }
    PrependNewTag(h, h', i, r);
  }

  lemma PrependNewTag(h: Heap, h': Heap, i: nat, r: Segment)
    requires h.FirstsOk() && Prepends(h, h', i, r)
    ensures h'.TagOk(r.First(), r.First()) && h'.FootOk(r.First())
  {
    hide Aligned, WordSized, Segment.First;
  }

  lemma PrependFirsts(h: Heap, h': Heap, i: nat, r: Segment)
    requires h.FirstsOk() && Prepends(h, h', i, r)
    ensures h'.FirstsOk()
  {
    hide Aligned, WordSized, Segment.First;
    FirstOfBase(r, r.size + h.segs[i].size);
  }

  lemma PrependCoalesced(h: Heap, h': Heap, i: nat, r: Segment)
    requires h.Coalesced() && Prepends(h, h', i, r) && r.First() !in h.chunks
    ensures h'.Coalesced()
  {
    hide Aligned, WordSized, Segment.First;
    forall a | a in h'.chunks && !h'.chunks[a].inuse && h'.Next(a) in h'.chunks ensures h'.chunks[h'.Next(a)].inuse {
      assert h'.Next(a) == h.Next(a);
    }
  }

  lemma PrependFences(h: Heap, h': Heap, i: nat, r: Segment)
    requires h.Tiled() && h.FencesOk() && Prepends(h, h', i, r)
    ensures h'.FencesOk()
  {
    hide Heap.Tiled, Aligned, WordSized, Segment.First;
    forall j, k: nat | 0 < j < |h'.segs| && FenceAt(h'.lims[j], k) + 8 < h'.segs[j].End()
      ensures FenceAt(h'.lims[j], k) in h'.tags && h'.tags[FenceAt(h'.lims[j], k)] == FENCEPOST
    {
      assert h'.segs[j].End() == h.segs[j].End();
      assert Fences(h.tags, h.lims[j], h.segs[j].End()) && Disjoint(h.segs[j], r);
      TwoSegments(h, j, j);
    }
  }

  /** Memory before a segment becomes its new first chunk. */
  lemma PrependOk(h: Heap, h': Heap, i: nat, r: Segment)
    requires h.Ok(0) && Prepends(h, h', i, r)
    ensures h'.Ok(r.First())
  {
    hide Heap.FencesOk, Heap.Tiled, Heap.AllTagged, Heap.Coalesced, Heap.FirstsOk, Aligned, WordSized, Segment.First;
    PrependTiled(h, h', i, r);
    PrependTagged(h, h', i, r);
    PrependCoalesced(h, h', i, r);
    PrependFirsts(h, h', i, r);
    PrependFences(h, h', i, r);
  }

  // ---- a region of its own: the old top chunk ends in a record of the old segment, followed by fenceposts

  ghost function Relaid(chunks: map<nat, Chunk>, top: nat, c: nat): map<nat, Chunk>
    requires top <= c
  {
    if c == top then chunks[c := Chunk(RECORD_SIZE, true)]
    else chunks[top := Chunk(c - top, false)][c := Chunk(RECORD_SIZE, true)]
  }

  ghost function Retagged(t: map<nat, Tag>, top: nat, c: nat): map<nat, Tag>
    requires top <= c
  {
    if c == top then t[c := Tag(RECORD_SIZE, true, true)]
    else t[c := Tag(RECORD_SIZE, false, true)][top := Tag(c - top, true, false)]
  }

  /** t' is t but for fenceposts at every word from lo up to hi. */
  ghost predicate Fenced(t: map<nat, Tag>, t': map<nat, Tag>, lo: nat, hi: nat) {
    && Fences(t', lo, hi)
    && (forall a :: a in t && !(lo <= a < hi) ==> a in t' && t'[a] == t[a])
  }

  /** The record is in the old top chunk and near the end of its segment, with room for two fenceposts behind it. */
  ghost predicate RecordAt(h: Heap, c: nat)
    requires |h.segs| > 0
  {
    && Aligned(c) && (c == h.top || h.top + MIN_CHUNK <= c)
    && c + RECORD_SIZE + 32 <= h.segs[0].End() <= c + RECORD_SIZE + TOP_FOOT
  }

  ghost predicate Adds(h: Heap, h': Heap, r: Segment, c: nat) {
    && |h.segs| == |h.lims| > 0 && RegionOk(r) && Unused(h, r) && RecordAt(h, c)
    && h.segs[0].base <= h.segs[0].First() <= h.top
    && h'.segs == [r] + h.segs && h'.lims == [r.End() - TOP_FOOT, c + RECORD_SIZE] + h.lims[1..]
    && h'.records == h.records + {c} && h'.top == r.First()
    && h'.chunks == Relaid(h.chunks, h.top, c)[r.First() := Chunk(TopSize(r), false)]
    && Fenced(Retagged(InitTop(h.tags, r.First(), TopSize(r)), h.top, c), h'.tags, c + RECORD_SIZE, h.segs[0].End())
    && h'.feet == (if c == h.top then h.feet else h.feet[c := c - h.top])
  }

  /** Every chunk but the top one lies below it or beyond its segment, and clear of the new region. */
  ghost predicate Outside(h: Heap, r: Segment, a: nat)
    requires |h.segs| > 0 && a in h.chunks
  {
    && a > 0 && h.chunks[a].size > 0
    && (h.Next(a) <= h.top || h.segs[0].End() <= a) && (h.Next(a) < r.base || r.End() <= a)
  }

  lemma OldOutside(h: Heap, r: Segment, a: nat)
    requires h.Tiled() && RegionOk(r) && Unused(h, r) && a in h.chunks && a != h.top
    ensures Outside(h, r, a)
  {
    hide Heap.Tiled, Aligned, WordSized, Segment.First;
    TopInNewest(h);
    NewestEnd(h);
    Elsewhere(h, h.top, a);
    var j := ChunkPlace(h, r, a);
    TwoSegments(h, 0, j);
  }

  lemma NewestEnd(h: Heap)
    requires h.Tiled()
    ensures h.top in h.chunks && h.Next(h.top) == h.lims[0] == h.segs[0].End() - TOP_FOOT && !h.chunks[h.top].inuse
  {
  }

  /** The room of the old top chunk and its record lies in the old segment. */
  ghost predicate Inner(h: Heap, r: Segment, c: nat)
    requires |h.segs| > 0
  {
    && h.segs[0].base <= h.top <= c && c + RECORD_SIZE + 16 <= h.segs[0].End() && Disjoint(h.segs[0], r)
    && r.base <= r.First() && r.First() + TopSize(r) == r.End() - TOP_FOOT && 0 < TopSize(r)
  }

  lemma AddOrder(h: Heap, h': Heap, r: Segment, c: nat, a: nat, b: nat)
    requires Adds(h, h', r, c) && Inner(h, r, c) && a in h'.chunks && b in h'.chunks && a < b
    requires a in h.chunks && a != h.top ==> Outside(h, r, a)
    requires b in h.chunks && b != h.top ==> Outside(h, r, b)
    requires a in h.chunks && b in h.chunks ==> h.Next(a) <= b
    ensures h'.Next(a) <= b
  {
    hide Aligned, WordSized, Segment.First, Fenced;
  }

  lemma IsInner(h: Heap, r: Segment, c: nat)
    requires h.Tiled() && RegionOk(r) && Unused(h, r) && RecordAt(h, c)
    ensures Inner(h, r, c) && h.segs[0].First() <= h.top
  {
    hide Heap.Tiled, Aligned, WordSized, Segment.First;
    TopInNewest(h);
    LimitsMatch(h);
    TwoSegments(h, 0, 0);
    assert Disjoint(h.segs[0], r);
  }

  lemma AddOrdered(h: Heap, h': Heap, r: Segment, c: nat)
    requires h.Tiled() && Adds(h, h', r, c)
    ensures h'.Ordered()
  {
    assert h.Ordered();
    hide Heap.Tiled, Aligned, WordSized, Segment.First, Fenced, Inner, Outside;
    IsInner(h, r, c);
    forall a, b | a in h'.chunks && b in h'.chunks && a < b ensures h'.Next(a) <= b {
      if a in h.chunks && a != h.top {
        OldOutside(h, r, a);
      }
      if b in h.chunks && b != h.top {
        OldOutside(h, r, b);
      }
      AddOrder(h, h', r, c, a, b);
    }
  }

  /** The record and the new top chunk are new. */
  lemma AddFresh(h: Heap, h': Heap, r: Segment, c: nat)
    requires h.Tiled() && Adds(h, h', r, c)
    ensures r.First() !in h.chunks && r.First() != c && (c in h.chunks ==> c == h.top)
    ensures c + RECORD_SIZE !in h.chunks
  {
    hide Heap.Tiled, Aligned, WordSized, Segment.First, Fenced;
    IsInner(h, r, c);
    NewestEnd(h);
    if r.First() in h.chunks && r.First() != h.top { OldOutside(h, r, r.First()); }
    if c in h.chunks && c != h.top { OldOutside(h, r, c); }
    if c + RECORD_SIZE in h.chunks { OldOutside(h, r, c + RECORD_SIZE); }
  }

  lemma AddSegment(h: Heap, h': Heap, r: Segment, c: nat, i: nat)
    requires Adds(h, h', r, c) && i <= |h.segs| && (i > 0 ==> h.SegmentOk(i - 1))
    ensures h'.SegmentOk(i)
  {
    hide Aligned, WordSized, Segment.First, Fenced;
  }

  lemma AddSegmented(h: Heap, h': Heap, r: Segment, c: nat)
    requires h.Tiled() && Adds(h, h', r, c)
    ensures h'.Segmented()
  {
    hide Aligned, WordSized, Heap.AllPlaced, Heap.Ordered, Heap.SegmentOk, Segment.First, Fenced, Relaid, Retagged;
    forall i | 0 <= i < |h'.segs| ensures h'.SegmentOk(i) { AddSegment(h, h', r, c, i); }
    forall i, j | 0 <= i < j < |h'.segs| ensures h'.Apart(i, j) {
      assert Disjoint(h.segs[j - 1], r);
      if i > 0 {
        assert h.Apart(i - 1, j - 1);
      }
    }
  }

  lemma AddOldPlaced(h: Heap, h': Heap, r: Segment, c: nat, a: nat)
    requires Adds(h, h', r, c) && a in h.chunks && a != h.top && h.Placed(a) && Outside(h, r, a) && Inner(h, r, c)
    requires h.Next(a) != h.lims[0] <= h.segs[0].End() && r.First() !in h.chunks && a != c
    ensures h'.Placed(a)
  {
    hide Aligned, WordSized, Segment.First, Fenced;
    var i :| 0 <= i < |h.segs| && h.segs[i].First() <= a && h.Next(a) <= h.lims[i];
    assert h'.segs[i + 1].First() <= a && h'.Next(a) <= h'.lims[i + 1];
    if h.Next(a) in h.lims {
      var k :| 0 <= k < |h.lims| && h.lims[k] == h.Next(a);
      assert h'.lims[k + 1] == h.Next(a);
    }
  }

  lemma RecordAligned()
    ensures Aligned(RECORD_SIZE) && WordSized(RECORD_SIZE)
  {
  }

  lemma AddNewPlaced(h: Heap, h': Heap, r: Segment, c: nat)
    requires Adds(h, h', r, c) && Inner(h, r, c) && h.top in h.chunks && h.Placed(h.top) && r.First() !in h.chunks
      && r.First() != c
    ensures h'.Placed(r.First()) && h'.Placed(c) && h'.Placed(h.top)
  {
    hide Aligned, WordSized, Segment.First, Fenced;
    FirstAligned(r);
    AlignedDiff(c, h.top);
    SizeWhole(c - h.top);
    RecordAligned();
    assert h'.segs[0].First() <= r.First() && h'.Next(r.First()) <= h'.lims[0];
    assert h'.segs[1].First() <= h.top <= c && h'.Next(c) <= h'.lims[1];
    assert h'.Next(h.top) <= h'.lims[1];
  }

  lemma AddRecords(h: Heap, h': Heap, r: Segment, c: nat)
    requires h.Tiled() && Adds(h, h', r, c) && r.First() !in h.chunks && r.First() != c
      && (c in h.chunks ==> c == h.top)
    ensures h'.RecordsOk()
  {
    hide Heap.AllPlaced, Heap.Ordered, Heap.Segmented, Aligned, WordSized, Segment.First, Fenced, Retagged, Fences;
    var n := |h.lims|;
    assert h'.lims[1..] == [c + RECORD_SIZE] + h.lims[1..];
    forall i | 0 < i < |h'.lims| ensures h'.RecordOk(i) {
      if i > 1 {
        assert h.RecordOk(i - 1);
        assert h'.lims[i] == h.lims[i - 1];
      }
    }
    assert h'.lims[1] == c + RECORD_SIZE;
  }

  lemma AddTiled(h: Heap, h': Heap, r: Segment, c: nat)
    requires h.Tiled() && Adds(h, h', r, c)
    ensures h'.Tiled()
  {
    hide Heap.RecordsOk, Heap.Placed, Heap.Ordered, Heap.Segmented, Aligned, WordSized, Segment.First, Fenced, Inner,
      Outside, Retagged;
    IsInner(h, r, c);
    AddFresh(h, h', r, c);
    NewestEnd(h);
    AddOrdered(h, h', r, c);
    AddSegmented(h, h', r, c);
    AddRecords(h, h', r, c);
    AddNewPlaced(h, h', r, c);
    forall a | a in h'.chunks ensures h'.Placed(a) {
      if a in h.chunks && a != h.top {
        OldOutside(h, r, a);
        NextDiffers(h, a);
        AddOldPlaced(h, h', r, c, a);
      }
    }
  }

  lemma AddOldTag(h: Heap, h': Heap, r: Segment, c: nat, a: nat)
    requires Adds(h, h', r, c) && a in h.chunks && a != h.top && Outside(h, r, a) && Inner(h, r, c)
    requires h.TagOk(a, 0) && h.FootOk(a) && h.top in h.chunks && h.top in h.tags && h.tags[h.top].pinuse
    requires h.Next(h.top) !in h.chunks && r.First() !in h.chunks && (c in h.chunks ==> c == h.top)
    ensures h'.TagOk(a, 0) && h'.FootOk(a)
  {
    hide Aligned, WordSized, Segment.First;
  }

  lemma AddNewTag(h: Heap, h': Heap, r: Segment, c: nat)
    requires Adds(h, h', r, c) && Inner(h, r, c) && r.First() !in h.chunks && r.First() != c
      && c + RECORD_SIZE != r.First()
    ensures h'.TagOk(r.First(), 0) && h'.FootOk(r.First()) && h'.TagOk(c, 0) && h'.FootOk(c)
    ensures c != h.top ==> h.top in h'.chunks && h'.TagOk(h.top, 0) && h'.FootOk(h.top)
  {
    hide Aligned, WordSized, Segment.First;
    assert FenceAt(c + RECORD_SIZE, 0) in h'.tags && FenceAt(c + RECORD_SIZE, 0) == c + RECORD_SIZE;
  }

  lemma AddTagged(h: Heap, h': Heap, r: Segment, c: nat)
    requires h.Tiled() && h.AllTagged(0) && Adds(h, h', r, c) && h.top in h.tags && h.tags[h.top].pinuse
    ensures h'.AllTagged(0)
  {
    hide Heap.Tiled, Heap.TagOk, Heap.FootOk, Aligned, WordSized, Segment.First, Fenced, Inner, Outside, Retagged;
    IsInner(h, r, c);
    AddFresh(h, h', r, c);
    NewestEnd(h);
    TopLast(h);
    RecordBeforeTop(h, r, c);
    AddNewTag(h, h', r, c);
    forall a | a in h'.chunks ensures h'.TagOk(a, 0) && h'.FootOk(a) {
      if a in h.chunks && a != h.top {
        OldOutside(h, r, a);
        AddOldTag(h, h', r, c, a);
      }
    }
  }

  lemma RecordBeforeTop(h: Heap, r: Segment, c: nat)
    requires |h.segs| > 0 && Inner(h, r, c)
    ensures c + RECORD_SIZE != r.First()
  {
    hide Segment.First;
  }

  lemma AddCoalesced(h: Heap, h': Heap, r: Segment, c: nat)
    requires h.Tiled() && h'.Tiled() && h.Coalesced() && Adds(h, h', r, c)
    ensures h'.Coalesced()
  {
    hide Heap.Tiled, Aligned, WordSized, Segment.First, Fenced, Retagged;
    AddFresh(h, h', r, c);
    TopLast(h');
    NewestEnd(h);
    forall a | a in h'.chunks && !h'.chunks[a].inuse && h'.Next(a) in h'.chunks ensures h'.chunks[h'.Next(a)].inuse {
      if a in h.chunks && a != h.top {
        assert h'.Next(a) == h.Next(a);
        OldOutside(h, r, a);
        IsInner(h, r, c);
      }
    }
  }

  lemma AddFirsts(h: Heap, h': Heap, r: Segment, c: nat)
    requires h.Tiled() && h.FirstsOk() && Adds(h, h', r, c) && h.top in h.tags && h.tags[h.top].pinuse
    ensures h'.FirstsOk()
  {
    hide Heap.Tiled, Aligned, WordSized, Segment.First;
    forall i | 0 <= i < |h'.segs| ensures h'.segs[i].First() in h'.tags && h'.tags[h'.segs[i].First()].pinuse {
      AddFirst(h, h', r, c, i);
    }
  }

  lemma AddFirst(h: Heap, h': Heap, r: Segment, c: nat, i: nat)
    requires h.Tiled() && h.FirstsOk() && Adds(h, h', r, c) && h.top in h.tags && h.tags[h.top].pinuse && i <= |h.segs|
    ensures h'.segs[i].First() in h'.tags && h'.tags[h'.segs[i].First()].pinuse
  {
    hide Heap.Tiled, Aligned, WordSized, Segment.First;
    IsInner(h, r, c);
    if i > 0 {
      var f := h.segs[i - 1].First();
      FirstIsChunk(h, i - 1);
      AddFresh(h, h', r, c);
      if f != h.top {
        OldOutside(h, r, f);
      }
    }
  }

  lemma AddFences(h: Heap, h': Heap, r: Segment, c: nat)
    requires h.Tiled() && h'.Tiled() && h.FencesOk() && Adds(h, h', r, c)
    ensures h'.FencesOk()
  {
    hide Heap.Tiled, Aligned, WordSized, Segment.First;
    IsInner(h, r, c);
    NewestEnd(h');
    forall i, k: nat | 0 < i < |h'.segs| && FenceAt(h'.lims[i], k) + 8 < h'.segs[i].End()
      ensures FenceAt(h'.lims[i], k) in h'.tags && h'.tags[FenceAt(h'.lims[i], k)] == FENCEPOST
    {
      if i > 1 {
        assert h'.lims[i] == h.lims[i - 1] && h'.segs[i] == h.segs[i - 1];
        assert Fences(h.tags, h.lims[i - 1], h.segs[i - 1].End());
        TwoSegments(h', i, 1);
        TwoSegments(h', i, 0);
      }
    }
  }

  /** A region of its own becomes the newest segment; the old top chunk becomes a free chunk and a record. */
  lemma AddOk(h: Heap, h': Heap, r: Segment, c: nat)
    requires h.Ok(0) && Adds(h, h', r, c)
    ensures h'.Ok(0)
  {
    hide Heap.FencesOk, Heap.Tiled, Heap.AllTagged, Heap.Coalesced, Heap.FirstsOk, Aligned, WordSized, Segment.First,
      Fenced, Retagged, Relaid;
    AddTiled(h, h', r, c);
    NewestEnd(h);
    FreePreceded(h, h.top, 0);
    AddTagged(h, h', r, c);
    AddCoalesced(h, h', r, c);
    AddFirsts(h, h', r, c);
    AddFences(h, h', r, c);
  }

  // ---- the footprint

  ghost function Total(segs: seq<Segment>): nat {
    if segs == [] then 0 else segs[0].size + Total(segs[1..])
  }

  lemma {:induction false} TotalConcat(a: seq<Segment>, b: seq<Segment>)
    ensures Total(a + b) == Total(a) + Total(b)
  {
    if a == [] {
      assert a + b == b;
    } else {
      TotalConcat(a[1..], b);
      assert (a + b)[1..] == a[1..] + b;
    }
  }

  lemma TotalUpdate(segs: seq<Segment>, i: nat, s: Segment)
    requires i < |segs|
    ensures Total(segs[i := s]) == Total(segs) - segs[i].size + s.size
    ensures Total(segs) == Total(segs[..i] + segs[i + 1..]) + segs[i].size
  {
    var a, b := segs[..i], segs[i + 1..];
    assert segs == a + ([segs[i]] + b) && segs[i := s] == a + ([s] + b);
    TotalConcat(a, [segs[i]] + b);
    TotalConcat(a, [s] + b);
    TotalConcat([segs[i]], b);
    TotalConcat([s], b);
    TotalConcat(a, b);
  }

  ghost predicate Packed(segs: seq<Segment>, limit: nat) {
    && (forall i :: 0 <= i < |segs| ==> segs[i].size > 0 && segs[i].End() <= limit)
    && (forall i, j :: 0 <= i < j < |segs| ==> Disjoint(segs[i], segs[j]))
  }

  lemma {:induction false} Highest(segs: seq<Segment>) returns (m: nat)
    requires segs != []
    ensures m < |segs| && forall i :: 0 <= i < |segs| ==> segs[i].base <= segs[m].base
  {
    if |segs| == 1 {
      m := 0;
    } else {
      var last := |segs| - 1;
      m := Highest(segs[..last]);
      assert forall i :: 0 <= i < last ==> segs[i] == segs[..last][i];
      if segs[m].base < segs[last].base {
        m := last;
      }
    }
  }

  /** Regions that do not overlap never add up to more than the space they lie in. */
  lemma {:induction false} TotalBound(segs: seq<Segment>, limit: nat)
    requires Packed(segs, limit)
    ensures Total(segs) <= limit
    decreases |segs|
  {
    if segs != [] {
      var m := Highest(segs);
      var rest := segs[..m] + segs[m + 1..];
      forall i | 0 <= i < |rest| ensures rest[i].size > 0 && rest[i].End() <= segs[m].base {
        var k := if i < m then i else i + 1;
        assert rest[i] == segs[k];
        if k < m {
          assert Disjoint(segs[k], segs[m]);
        } else {
          assert Disjoint(segs[m], segs[k]);
        }
      }
      forall i, j | 0 <= i < j < |rest| ensures Disjoint(rest[i], rest[j]) {
        var k, l := if i < m then i else i + 1, if j < m then j else j + 1;
        assert rest[i] == segs[k] && rest[j] == segs[l];
      }
      TotalBound(rest, segs[m].base);
      TotalUpdate(segs, m, segs[m]);
    }
  }

  lemma HeapPacked(h: Heap)
    requires h.Tiled()
    ensures Packed(h.segs, ADDRESS_LIMIT)
  {
    hide Heap.AllPlaced, Heap.Ordered, Heap.TopOk, Heap.RecordsOk, Aligned, WordSized, Segment.First;
    forall i | 0 <= i < |h.segs|
      ensures h.segs[i].size > 0 && h.segs[i].End() <= ADDRESS_LIMIT
    {
      assert h.SegmentOk(i);
    }
    forall i, j | 0 <= i < j < |h.segs| ensures Disjoint(h.segs[i], h.segs[j]) { assert h.Apart(i, j); }
  }
}

/** What callers of the allocator may rely on in every state it reaches. */
module Guarantees {
  import opened Words
  import opened Heaps
  import opened Steps
  import opened Segments
  import opened Arenas
  import opened Moves
  import opened Grains
  import opened Dlmalloc

  /** The first address after the bytes the holder of m may use. */
  ghost function PayloadEnd(s: Arena, m: nat): nat
    requires m >= 16 && m - 16 in s.h.chunks
  {
    m - 16 + s.h.chunks[m - 16].size + 8
  }

  /** Payloads are aligned, hold what was asked for, waste less than a minimal chunk, or exactly one if the block is one
      of `slack`, and lie inside a segment. */
  lemma PayloadFits(s: Arena, slack: set<nat>, m: nat) returns (i: nat)
    requires Ready(s, 0, 0, 0) && m in s.live && Snug(s.live, s.h.chunks, slack)
    ensures m >= 16 && m - 16 in s.h.chunks && m % 16 == 0
    ensures m + s.live[m] <= PayloadEnd(s, m) && PayloadEnd(s, m) - m <= Pad(s.live[m]) - 8 + MIN_CHUNK
    ensures m !in slack ==> PayloadEnd(s, m) - m < Pad(s.live[m]) - 8 + MIN_CHUNK
    ensures i < |s.h.segs| && s.h.segs[i].base <= m && PayloadEnd(s, m) <= s.h.segs[i].End()
  {
    hide Heap.Ok, Heap.Tiled, Arena.Books, Aligned, WordSized, Segment.First, Pad;
    HeldFacts(s, m);
    HeldRoom(s, m);
    FitsBound(s.live[m], s.h.chunks[m - 16].size);
    AlignedMem16(m);
    IsTiled(s.h, 0);
    i := InSegment(s.h, m - 16);
  }

  lemma FitsBound(bytes: nat, size: nat)
    requires Fits(bytes, size)
    ensures Pad(bytes) <= size <= Pad(bytes) + MIN_CHUNK
  {
  }

  lemma AlignedMem16(m: nat)
    requires m >= 16 && Aligned(m - 16)
    ensures Aligned(m)
  {
  }

  lemma InSegment(h: Heap, p: nat) returns (i: nat)
    requires h.Tiled() && p in h.chunks
    ensures i < |h.segs| && h.segs[i].base <= p && h.Next(p) + 16 <= h.segs[i].End()
  {
    hide Aligned, WordSized, Segment.First, Heap.Ordered, Heap.TopOk, Heap.RecordsOk;
    assert h.Placed(p);
    i :| 0 <= i < |h.segs| && h.segs[i].First() <= p && h.Next(p) <= h.lims[i];
    assert h.SegmentOk(i);
  }

  /** Payloads of different callers never overlap. */
  lemma PayloadsDisjoint(s: Arena, m: nat, n: nat)
    requires Ready(s, 0, 0, 0) && m in s.live && n in s.live && m < n
    ensures m >= 16 && m - 16 in s.h.chunks && PayloadEnd(s, m) <= n
  {
    hide Heap.Ok, Heap.Tiled, Arena.Books, Aligned, Fits;
    HeldFacts(s, m);
    HeldFacts(s, n);
    IsTiled(s.h, 0);
    Elsewhere(s.h, n - 16, m - 16);
  }

  /** The offsets of the link words of a binned chunk: fd and bk, and for large chunks child, parent and index. */
  ghost predicate LinkWord(size: nat, w: nat) {
    w == 16 || w == 24 || (size >= MIN_LARGE_SIZE && (w == 32 || w == 40 || w == 48 || w == 56))
  }

  /** The link words of a binned chunk lie inside it, clear of all head and prev_foot words and of all payloads. */
  lemma LinksInside(s: Arena, a: nat, w: nat)
    requires Ready(s, 0, 0, 0) && a in s.items && LinkWord(s.items[a], w)
    ensures a in s.h.chunks && a + w + 8 <= s.h.Next(a)
    ensures forall b :: b in s.h.chunks ==> a + w + 8 <= b || b + 16 <= a + w
    ensures forall m :: m in s.live ==> m >= 16 && m - 16 in s.h.chunks && (a + w + 8 <= m || PayloadEnd(s, m) <= a + w)
  {
    hide Ready, Heap.Tiled, Aligned, Fits;
    FreeFacts(s, 0, 0, 0, a);
    ReadyTiled(s);
    forall b | b in s.h.chunks ensures a + w + 8 <= b || b + 16 <= a + w {
      Elsewhere(s.h, a, b);
    }
    forall m | m in s.live ensures m >= 16 && m - 16 in s.h.chunks && (a + w + 8 <= m || PayloadEnd(s, m) <= a + w) {
      HeldFacts(s, m);
      Elsewhere(s.h, a, m - 16);
    }
  }

  lemma ReadyTiled(s: Arena)
    requires Ready(s, 0, 0, 0)
    ensures s.h.Tiled()
  {
    hide Arena.Books, Heap.Tiled;
  }

  /** h' may differ from h in the words of the payload of the chunk p: those between p + 16 and the end of p plus 8.
      The head word of a chunk at x is at x + 8, its prev_foot word at x. */
  ghost predicate WritesPayload(h: Heap, h': Heap, p: nat)
    requires p in h.chunks
  {
    && h' == h.(tags := h'.tags, feet := h'.feet)
    && (forall x :: x in h.tags && !(p + 16 <= x + 8 < h.Next(p) + 8) ==> x in h'.tags && h'.tags[x] == h.tags[x])
    && (forall x :: x in h.feet && !(p + 16 <= x < h.Next(p) + 8) ==> x in h'.feet && h'.feet[x] == h.feet[x])
  }

  /** Chunks are at least a word apart. */
  ghost predicate Spaced(h: Heap, p: nat, a: nat)
    requires p in h.chunks && a in h.chunks
  {
    && (a > h.Next(p) ==> a >= h.Next(p) + 8) && (a >= h.Next(p) ==> h.Next(a) >= h.Next(p) + 8)
  }

  lemma ChunksSpaced(h: Heap, p: nat, a: nat)
    requires h.Tiled() && p in h.chunks && a in h.chunks && p != h.top
    ensures Spaced(h, p, a)
  {
    hide Heap.Tiled, Aligned, WordSized;
    PlacedSizes(h, p);
    PlacedSizes(h, a);
    WordSteps(p, h.chunks[p].size, a, h.chunks[a].size);
  }

  lemma WordSteps(p: nat, psize: nat, a: nat, asize: nat)
    requires Aligned(p) && Aligned(psize) && Aligned(a) && WordSized(asize) && asize > 0
    ensures a > p + psize ==> a >= p + psize + 8
    ensures asize >= 8
  {
  }

  lemma PlacedSizes(h: Heap, p: nat)
    requires h.Tiled() && p in h.chunks
    ensures Aligned(p) && WordSized(h.chunks[p].size) && h.chunks[p].size > 0
      && (p != h.top ==> Aligned(h.chunks[p].size))
  {
    hide Heap.Segmented, Heap.Ordered, Heap.Inside, Heap.Followed, Aligned, WordSized;
    assert h.Placed(p);
  }

  lemma WriteTag(h: Heap, h': Heap, p: nat, a: nat)
    requires p in h.chunks && a in h.chunks && WritesPayload(h, h', p) && h.chunks[p].inuse
    requires h.TagOk(a, 0) && h.FootOk(a) && h.TagOk(p, 0) && Apart(h, p, a) && Spaced(h, p, a)
    ensures h'.TagOk(a, 0) && h'.FootOk(a)
  {
  }

  lemma WriteTagged(h: Heap, h': Heap, p: nat)
    requires h.Tiled() && h.AllTagged(0) && p in h.chunks && p != h.top && WritesPayload(h, h', p) && h.chunks[p].inuse
    ensures h'.AllTagged(0)
  {
    hide Heap.Tiled, Heap.TagOk, Heap.FootOk, Apart, Spaced, WritesPayload;
    KeepsChunks(h, h', p);
    forall a | a in h'.chunks ensures h'.TagOk(a, 0) && h'.FootOk(a) {
      Elsewhere(h, p, a);
      ChunksSpaced(h, p, a);
      WriteTag(h, h', p, a);
    }
  }

  lemma KeepsChunks(h: Heap, h': Heap, p: nat)
    requires p in h.chunks && WritesPayload(h, h', p)
    ensures h'.chunks == h.chunks && h'.segs == h.segs && h'.top == h.top && Same(h, h')
  {
  }

  lemma WriteFirsts(h: Heap, h': Heap, p: nat)
    requires h.Tiled() && h.FirstsOk() && p in h.chunks && WritesPayload(h, h', p)
    ensures h'.FirstsOk()
  {
    hide Heap.Tiled, Segment.First;
    forall i | 0 <= i < |h'.segs| ensures h'.segs[i].First() in h'.tags && h'.tags[h'.segs[i].First()].pinuse {
      FirstIsChunk(h, i);
      Elsewhere(h, p, h.segs[i].First());
    }
  }

  lemma SameCoalesced(h: Heap, h': Heap, p: nat)
    requires h.Coalesced() && p in h.chunks && WritesPayload(h, h', p)
    ensures h'.Coalesced()
  {
    hide WritesPayload;
    KeepsChunks(h, h', p);
    forall a | a in h'.chunks && !h'.chunks[a].inuse && h'.Next(a) in h'.chunks ensures h'.chunks[h'.Next(a)].inuse {
      assert h'.Next(a) == h.Next(a);
    }
  }

  lemma WriteOk(h: Heap, h': Heap, p: nat)
    requires h.Ok(0) && p in h.chunks && h.chunks[p].inuse && p != h.top && p !in h.records && WritesPayload(h, h', p)
    ensures h'.Ok(0)
  {
    hide Heap.Tiled, Heap.AllTagged, Heap.Coalesced, Heap.FirstsOk, Heap.FencesOk, WritesPayload;
    KeepsChunks(h, h', p);
    assert h'.chunks == h.chunks[p := Chunk(h.chunks[p].size, true)];
    FlagTiled(h, h', p, true);
    SameCoalesced(h, h', p);
    WriteTagged(h, h', p);
    WriteFirsts(h, h', p);
    WriteFences(h, h', p);
  }

  lemma WriteFences(h: Heap, h': Heap, p: nat)
    requires h.Tiled() && h.FencesOk() && p in h.chunks && WritesPayload(h, h', p)
    ensures h'.FencesOk()
  {
    hide Heap.Tiled, Segment.First;
    LimitsMatch(h);
    var j := ChunkPlace(h, Segment(0, 0), p);
    forall i, k: nat | 0 < i < |h.segs| && FenceAt(h.lims[i], k) + 8 < h.segs[i].End()
      ensures FenceAt(h.lims[i], k) in h'.tags && h'.tags[FenceAt(h.lims[i], k)] == FENCEPOST
    {
      assert Fences(h.tags, h.lims[i], h.segs[i].End());
      TwoSegments(h, i, j);
    }
  }

  lemma SameBooks(s: Arena, s': Arena, p: nat)
    requires s.Books(0, 0) && p in s.h.chunks && WritesPayload(s.h, s'.h, p) && s' == s.(h := s'.h)
    ensures s'.Books(0, 0)
  {
    hide WritesPayload, Pad, Fits;
    KeepsChunks(s.h, s'.h, p);
  }

  /** Whatever a caller writes into its own payload, the allocator's state stays sound. */
  lemma PayloadWrites(s: Arena, s': Arena, m: nat)
    requires Ready(s, 0, 0, 0) && m in s.live && m >= 16 && m - 16 in s.h.chunks
    requires WritesPayload(s.h, s'.h, m - 16) && s' == s.(h := s'.h)
    ensures Ready(s', 0, 0, 0)
  {
    hide Heap.Ok, Arena.Books, WritesPayload, Aligned;
    HeldFacts(s, m);
    WriteOk(s.h, s'.h, m - 16);
    SameBooks(s, s', m - 16);
  }

  // ---- conservation

  ghost function Sum(c: map<nat, Chunk>): nat
    decreases |c|
  {
    if c == map[] then 0 else
      var k :| k in c;
      c[k].size + Sum(c - {k})
  }

  lemma {:induction false} SumWithout(c: map<nat, Chunk>, a: nat)
    requires a in c
    ensures Sum(c) == c[a].size + Sum(c - {a})
    decreases |c|
  {
    var k :| k in c && Sum(c) == c[k].size + Sum(c - {k});
    if k != a {
      SumWithout(c - {k}, a);
      SumWithout(c - {a}, k);
      assert c - {k} - {a} == c - {a} - {k};
    }
  }

  lemma {:induction false} SumUnion(c: map<nat, Chunk>, d: map<nat, Chunk>)
    requires c.Keys !! d.Keys
    ensures Sum(c + d) == Sum(c) + Sum(d)
    decreases |c|
  {
    hide Sum;
    EmptySum();
    if c == map[] {
      assert c + d == d;
    } else {
      var a :| a in c;
      UnionWithout(c, d, a);
      SumWithout(c, a);
      SumWithout(c + d, a);
      SumUnion(c - {a}, d);
    }
  }

  lemma EmptySum()
    ensures Sum(map[]) == 0
  {
  }

  lemma UnionWithout(c: map<nat, Chunk>, d: map<nat, Chunk>, a: nat)
    requires c.Keys !! d.Keys && a in c
    ensures a in c + d && (c + d)[a] == c[a] && (c + d) - {a} == (c - {a}) + d && (c - {a}).Keys !! d.Keys
  {
    hide Sum;
    assert a !in d;
  }

  /** The chunks of a heap that satisfy a condition on their addresses. */
  ghost function Part(h: Heap, lo: nat, hi: nat): map<nat, Chunk> {
    map a | a in h.chunks && lo <= a < hi :: h.chunks[a]
  }

  /** From any chunk on, the chunks of a segment add up to the room up to its limit. */
  lemma {:induction false} TailSum(h: Heap, i: nat, a: nat)
    requires h.Tiled() && i < |h.segs| && a in h.chunks && h.segs[i].First() <= a && h.Next(a) <= h.lims[i]
    ensures Sum(Part(h, a, h.lims[i])) == h.lims[i] - a
    decreases h.lims[i] - a
  {
    hide Heap.Tiled, Segment.First;
    LimitsMatch(h);
    Elsewhere(h, a, a);
    var n := h.Next(a);
    StepToLimit(h, i, a);
    PartStep(h, a, h.lims[i]);
    SumWithout(Part(h, a, h.lims[i]), a);
    if n in h.chunks {
      TailSum(h, i, n);
    } else {
      NothingBeyond(h, h.lims[i]);
    }
  }

  lemma StepToLimit(h: Heap, i: nat, a: nat)
    requires h.Tiled() && i < |h.segs| && a in h.chunks && h.segs[i].First() <= a && h.Next(a) <= h.lims[i]
    ensures if h.Next(a) in h.chunks then h.Next(h.Next(a)) <= h.lims[i] else h.Next(a) == h.lims[i]
  {
    hide Segment.First, Aligned, WordSized, Heap.Ordered;
    var n := h.Next(a);
    assert h.Placed(a) && h.SegmentOk(i);
    if n in h.chunks {
      var j := NextInside(h, a);
      hide Heap.AllPlaced, Heap.TopOk, Heap.RecordsOk;
      assert h.SegmentOk(j);
      SamePlace(h, i, j, n);
    } else {
      var k :| 0 <= k < |h.lims| && h.lims[k] == n;
      hide Heap.AllPlaced, Heap.TopOk, Heap.RecordsOk;
      assert h.SegmentOk(k);
      SamePlace(h, i, k, n);
    }
  }

  lemma PartStep(h: Heap, a: nat, hi: nat)
    requires h.Tiled() && a in h.chunks && a < hi
    ensures a in Part(h, a, hi) && Part(h, a, hi)[a] == h.chunks[a] && Part(h, a, hi) - {a} == Part(h, h.Next(a), hi)
  {
    hide Heap.Tiled;
    Elsewhere(h, a, a);
    forall b | b in h.chunks && a < b ensures h.Next(a) <= b { Elsewhere(h, a, b); }
    assert Part(h, a, hi) - {a} == Part(h, h.Next(a), hi);
  }

  lemma NothingBeyond(h: Heap, hi: nat)
    ensures Sum(Part(h, hi, hi)) == 0
  {
    assert Part(h, hi, hi) == map[];
  }

  /** The room the chunks of the first n segments share. */
  ghost function Rooms(h: Heap, n: nat): int
    requires n <= |h.segs| == |h.lims|
  {
    if n == 0 then 0 else Rooms(h, n - 1) + (h.lims[n - 1] - h.segs[n - 1].First())
  }

  ghost predicate In(h: Heap, n: nat, a: nat)
    requires n <= |h.segs| == |h.lims|
  {
    exists j :: 0 <= j < n && h.segs[j].First() <= a < h.lims[j]
  }

  ghost function InFirst(h: Heap, n: nat): map<nat, Chunk>
    requires n <= |h.segs| == |h.lims|
  {
    map a | a in h.chunks && In(h, n, a) :: h.chunks[a]
  }

  lemma InStep(h: Heap, n: nat)
    requires h.Tiled() && 0 < n <= |h.segs| == |h.lims|
    ensures var part := Part(h, h.segs[n - 1].First(), h.lims[n - 1]);
            InFirst(h, n - 1).Keys !! part.Keys && InFirst(h, n) == InFirst(h, n - 1) + part
  {
    hide Heap.Tiled, Segment.First;
    var part := Part(h, h.segs[n - 1].First(), h.lims[n - 1]);
    forall a | a in h.chunks && h.segs[n - 1].First() <= a < h.lims[n - 1] ensures !In(h, n - 1, a) {
      if In(h, n - 1, a) {
        var j :| 0 <= j < n - 1 && h.segs[j].First() <= a < h.lims[j];
        TwoSegments(h, n - 1, j);
        TwoSegments(h, j, n - 1);
      }
    }
    forall a ensures In(h, n, a) <==> In(h, n - 1, a) || h.segs[n - 1].First() <= a < h.lims[n - 1] {
      if In(h, n, a) {
        var j :| 0 <= j < n && h.segs[j].First() <= a < h.lims[j];
        assert j == n - 1 || In(h, n - 1, a);
      }
    }
  }

  lemma {:induction false} FirstSums(h: Heap, n: nat)
    requires h.Tiled() && n <= |h.segs| == |h.lims|
    ensures Sum(InFirst(h, n)) == Rooms(h, n)
  {
    hide Heap.Tiled, Segment.First;
    if n == 0 {
      assert InFirst(h, 0) == map[];
    } else {
      var i := n - 1;
      FirstSums(h, i);
      InStep(h, n);
      SumUnion(InFirst(h, i), Part(h, h.segs[i].First(), h.lims[i]));
      FirstIsChunk(h, i);
      FirstInside(h, i);
      TailSum(h, i, h.segs[i].First());
    }
  }

  lemma FirstInside(h: Heap, i: nat)
    requires h.Tiled() && i < |h.segs| == |h.lims| && h.segs[i].First() in h.chunks
    ensures h.Next(h.segs[i].First()) <= h.lims[i]
  {
    hide Heap.Tiled, Segment.First;
    var f := h.segs[i].First();
    var r := Segment(0, 0);
    var j := ChunkPlace(h, r, f);
    TwoSegments(h, i, j);
  }

  /** The bytes of a segment that belong to no chunk: alignment before the first, words after the last. */
  ghost function Overhead(h: Heap, n: nat): int
    requires n <= |h.segs| == |h.lims|
  {
    if n == 0 then 0 else Overhead(h, n - 1) + (h.segs[n - 1].size - (h.lims[n - 1] - h.segs[n - 1].First()))
  }

  lemma {:induction false} RoomsAndOverhead(h: Heap, n: nat)
    requires n <= |h.segs| == |h.lims|
    ensures Rooms(h, n) + Overhead(h, n) == Total(h.segs[..n])
  {
    hide Segment.First;
    if n == 0 {
      assert h.segs[..n] == [];
    } else {
      RoomsAndOverhead(h, n - 1);
      assert h.segs[..n] == h.segs[..n - 1] + [h.segs[n - 1]];
      TotalConcat(h.segs[..n - 1], [h.segs[n - 1]]);
      assert Total([h.segs[n - 1]]) == h.segs[n - 1].size by { assert [h.segs[n - 1]][1..] == []; }
    }
  }

  lemma FirstOffset(s: Segment)
    requires WordSized(s.base)
    ensures s.base <= s.First() <= s.base + 8
  {
  }

  lemma {:induction false} OverheadBounds(h: Heap, n: nat)
    requires h.Tiled() && n <= |h.segs| == |h.lims|
    ensures 16 * n <= Overhead(h, n) <= 88 * n
  {
    hide Heap.Tiled, Segment.First;
    if n > 0 {
      OverheadBounds(h, n - 1);
      SegmentAt(h, n - 1);
      FirstOffset(h.segs[n - 1]);
      hide Aligned, WordSized;
    }
  }

  /** The limits of the old segments. */
  ghost function Limits(h: Heap, n: nat): set<nat>
    requires n <= |h.lims|
  {
    set i | 0 < i < n :: h.lims[i]
  }

  lemma {:induction false} LimitsCount(h: Heap, n: nat)
    requires h.Tiled() && 0 < n <= |h.segs| == |h.lims|
    ensures |Limits(h, n)| == n - 1
  {
    hide Heap.Tiled;
    if n == 1 {
      assert Limits(h, n) == {};
    } else {
      LimitsCount(h, n - 1);
      assert Limits(h, n) == Limits(h, n - 1) + {h.lims[n - 1]};
      forall i | 0 < i < n - 1 ensures h.lims[i] != h.lims[n - 1] {
        TwoSegments(h, i, n - 1);
        TwoSegments(h, n - 1, i);
      }
    }
  }

  ghost predicate Shift(r: set<nat>, l: set<nat>) {
    (forall a :: a in r ==> a + RECORD_SIZE in l) && (forall b :: b in l ==> b >= RECORD_SIZE && b - RECORD_SIZE in r)
  }

  lemma RecordsShift(h: Heap, limits: set<nat>)
    requires |h.lims| > 0 && h.RecordsOk() && limits == Limits(h, |h.lims|)
    ensures Shift(h.records, limits)
  {
    forall b | b in limits ensures b >= RECORD_SIZE && b - RECORD_SIZE in h.records {
      var i :| 0 < i < |h.lims| && b == h.lims[i];
      assert h.RecordOk(i);
    }
    forall a | a in h.records ensures a + RECORD_SIZE in limits {
      var k :| 0 <= k < |h.lims[1..]| && h.lims[1..][k] == a + RECORD_SIZE;
      assert h.lims[k + 1] == a + RECORD_SIZE;
    }
  }

  /** There is one record for each segment but the newest. */
  lemma RecordCount(h: Heap)
    requires h.Tiled()
    ensures |h.records| == |h.segs| - 1
  {
    hide Heap.Segmented, Heap.AllPlaced, Heap.Ordered, Heap.TopOk, Heap.RecordsOk, Limits, Shift;
    LimitsCount(h, |h.segs|);
    RecordsShift(h, Limits(h, |h.segs|));
    SameCount(h.records, Limits(h, |h.segs|));
  }

  /** Sets that differ by a shift have as many elements. */
  lemma {:induction false} SameCount(r: set<nat>, l: set<nat>)
    requires Shift(r, l)
    ensures |r| == |l|
    decreases r
  {
    hide Shift;
    if r == {} {
      ShiftNone(l);
    } else {
      var a :| a in r;
      ShiftLess(r, l, a);
      SameCount(r - {a}, l - {a + RECORD_SIZE});
    }
  }

  lemma ShiftNone(l: set<nat>)
    requires Shift({}, l)
    ensures l == {}
  {
  }

  lemma ShiftLess(r: set<nat>, l: set<nat>, a: nat)
    requires Shift(r, l) && a in r
    ensures Shift(r - {a}, l - {a + RECORD_SIZE}) && a + RECORD_SIZE in l
  {
  }

  /** The bytes in use, free in bins, in the designated victim and in the top chunk, with at most 88 bytes for each
      segment, add up to all the memory the system granted. Behind the top chunk there are exactly TOP_FOOT bytes,
      before the first chunk at most the 8 of its alignment. */
  lemma Conservation(s: Arena)
    requires Ready(s, 0, 0, 0)
    ensures |s.h.segs| == |s.h.lims| > 0
    ensures Sum(InUse(s.h)) + Sum(Freed(s.h)) + Overhead(s.h, |s.h.segs|) == Total(s.h.segs)
    ensures 16 * |s.h.segs| <= Overhead(s.h, |s.h.segs|) <= 88 * |s.h.segs|
    ensures s.h.segs[0].base <= s.h.segs[0].First() <= s.h.segs[0].base + 8
    ensures Overhead(s.h, 1) == s.h.segs[0].First() - s.h.segs[0].base + 80
  {
    hide Heap.Ok, Heap.Tiled, Arena.Books, Segment.First, Sum;
    IsTiled(s.h, 0);
    LimitsMatch(s.h);
    var n := |s.h.segs|;
    FirstSums(s.h, n);
    RoomsAndOverhead(s.h, n);
    OverheadBounds(s.h, n);
    NewestEnd(s.h);
    SegmentAt(s.h, 0);
    FirstOffset(s.h.segs[0]);
    assert s.h.segs[..n] == s.h.segs;
    AllIn(s.h);
    assert s.h.chunks == InUse(s.h) + Freed(s.h);
    SumUnion(InUse(s.h), Freed(s.h));
  }

  ghost function InUse(h: Heap): map<nat, Chunk> {
    map a | a in h.chunks && h.chunks[a].inuse :: h.chunks[a]
  }

  ghost function Freed(h: Heap): map<nat, Chunk> {
    map a | a in h.chunks && !h.chunks[a].inuse :: h.chunks[a]
  }

  lemma AllIn(h: Heap)
    requires h.Tiled() && |h.segs| == |h.lims|
    ensures InFirst(h, |h.segs|) == h.chunks
  {
    hide Heap.Tiled, Segment.First;
    forall a | a in h.chunks ensures In(h, |h.segs|, a) {
      var j := ChunkPlace(h, Segment(0, 0), a);
    }
  }

  /** Every segment but the newest ends in a chunk of 48 bytes in use, then at least three words that read as chunks of
      8 bytes in use, the last of them less than 16 bytes before the end. */
  lemma OldSegmentEnds(h: Heap, i: nat)
    requires h.Ok(0) && 0 < i < |h.segs|
    ensures |h.lims| == |h.segs| && h.lims[i] >= 48 && h.lims[i] + 32 <= h.segs[i].End()
    ensures h.lims[i] - 48 in h.chunks && h.chunks[h.lims[i] - 48] == Chunk(48, true)
    ensures forall k: nat :: h.lims[i] + 8 * k + 8 < h.segs[i].End() ==> FencepostAt(h, h.lims[i] + 8 * k)
  {
    hide Heap.Tiled, Heap.Coalesced, Heap.AllTagged, Heap.FirstsOk, FencepostAt;
    RecordThere(h, i);
    SegmentAt(h, i);
    forall k: nat | h.lims[i] + 8 * k + 8 < h.segs[i].End()
      ensures FencepostAt(h, h.lims[i] + 8 * k)
    {
      FencepostThere(h, i, k);
    }
  }

  ghost predicate FencepostAt(h: Heap, a: nat) {
    a in h.tags && h.tags[a] == Tag(8, true, true)
  }

  lemma FencepostThere(h: Heap, i: nat, k: nat)
    requires |h.lims| == |h.segs| && h.FencesOk() && 0 < i < |h.segs| && h.lims[i] + 8 * k + 8 < h.segs[i].End()
    ensures FencepostAt(h, h.lims[i] + 8 * k)
  {
    assert Fences(h.tags, h.lims[i], h.segs[i].End());
    assert FenceAt(h.lims[i], k) == h.lims[i] + 8 * k;
  }

  // ---- release_unused_segments

  ghost predicate Halfway(n: nat) { n % 16 == 8 }

  ghost predicate AllHalfway(segs: seq<Segment>) {
    forall i :: 0 <= i < |segs| ==> Halfway(segs[i].End())
  }

  /** A region that starts one word after a page, as vineyard maps them, ends 8 bytes off alignment. */
  lemma RegionHalfway(base: nat, nb: nat, g: Granularity, k: nat)
    requires Grain(g, k) && Halfway(base)
    ensures Halfway(Segment(base, SystemSize(nb, g)).End())
  {
    hide Grain, SystemSize;
    SystemSizeAligned(nb, g, k);
  }

  /** With such regions malloc, calloc, realloc and memalign keep all segments so; free leaves the segments alone. */
  lemma HalfwayKept(s: Arena, s': Arena, nb: nat, r: Segment)
    requires AllHalfway(s.h.segs) && Expanded(s, s', nb, r) && Halfway(r.End())
    ensures AllHalfway(s'.h.segs)
  {
    hide NothingFits, Halfway;
    if exists i: nat :: Merged(s.h.segs, s'.h.segs, i, r) {
      var i: nat :| Merged(s.h.segs, s'.h.segs, i, r);
      assert Halfway(s.h.segs[i].End());
    }
  }

  /** The test of release_unused_segments, that the first chunk of an old segment is free and reaches to its end short
      of TOP_FOOT bytes, never holds of a segment that ends 8 bytes off alignment. */
  lemma NeverReleased(h: Heap, i: nat)
    requires h.Tiled() && 0 < i < |h.segs| && Halfway(h.segs[i].End())
    ensures h.segs[i].First() in h.chunks
    ensures !h.chunks[h.segs[i].First()].inuse ==> h.Next(h.segs[i].First()) < h.segs[i].End() - TOP_FOOT
  {
    hide Heap.Tiled, Segment.First, Aligned, WordSized, Halfway;
    FirstIsChunk(h, i);
    RecordThere(h, i);
    var f, r := h.segs[i].First(), h.lims[i] - RECORD_SIZE;
    SegmentAt(h, i);
    Elsewhere(h, r, f);
    var j := ChunkPlace(h, Segment(0, 0), r);
    TwoSegments(h, i, j);
    PlacedSizes(h, r);
    OffByEight(r, h.segs[i].End());
  }

  lemma RecordThere(h: Heap, i: nat)
    requires h.Tiled() && 0 < i < |h.segs|
    ensures |h.lims| == |h.segs| && h.RecordOk(i)
  {
    hide Heap.Segmented, Heap.AllPlaced, Heap.Ordered, Heap.TopOk, Heap.RecordOk;
  }

  lemma OffByEight(r: nat, end: nat)
    requires Aligned(r) && Halfway(end) && r + RECORD_SIZE + 32 <= end
    ensures r < end - TOP_FOOT
  {
  }

  // ---- a block with exactly a minimal chunk to spare

  /** A free chunk of 112 bytes, a block of 24 bytes and the top chunk. */
  ghost function Spacious(): Arena {
    var chunks := map[65536 := Chunk(112, false), 65648 := Chunk(32, true), 65680 := Chunk(130848, false)];
    var tags := map[65536 := Tag(112, true, false), 65648 := Tag(32, false, true), 65680 := Tag(130848, true, false),
                    196528 := Tag(TOP_FOOT, false, false)];
    Arena(Heap(chunks, tags, map[65648 := 112], 65680, [Segment(65536, 131072)], [196528], {}),
          0, 0, 130848, map[65536 := 112], map[65664 := 24])
  }

  lemma SpaciousNumbers()
    ensures Aligned(65536) && Aligned(65648) && Aligned(65680) && Aligned(112) && Aligned(32) && Aligned(131072)
    ensures WordSized(130848) && WordSized(112) && WordSized(32) && WordSized(65536)
      && Segment(65536, 131072).First() == 65536
  {
  }

  lemma SpaciousPlaced(h: Heap, a: nat)
    requires h == Spacious().h && a in h.chunks
    ensures h.Placed(a)
  {
    hide Aligned, WordSized, Segment.First;
    SpaciousNumbers();
    assert a == 65536 || a == 65648 || a == 65680;
    assert h.segs[0].First() <= a && h.Next(a) <= h.lims[0];
    assert h.lims[0] in h.lims;
  }

  lemma SpaciousOrdered(h: Heap)
    requires h == Spacious().h
    ensures h.Ordered()
  {
    forall a, b | a in h.chunks && b in h.chunks && a < b ensures h.Next(a) <= b {
      assert (a == 65536 || a == 65648) && (b == 65648 || b == 65680);
    }
  }

  lemma SpaciousTiled(h: Heap)
    requires h == Spacious().h
    ensures h.Tiled()
  {
    hide Aligned, WordSized, Segment.First, Heap.Placed, Heap.Ordered;
    SpaciousNumbers();
    SpaciousOrdered(h);
    forall a | a in h.chunks ensures h.Placed(a) { SpaciousPlaced(h, a); }
    assert h.SegmentOk(0);
    assert h.lims[1..] == [];
  }

  lemma SpaciousHeap()
    ensures Spacious().h.Ok(0)
  {
    hide Heap.Tiled, Aligned, WordSized, Segment.First;
    var h := Spacious().h;
    SpaciousNumbers();
    SpaciousTiled(h);
    LimitsMatch(h);
    assert h.TagOk(65536, 0) && h.TagOk(65648, 0) && h.TagOk(65680, 0);
    assert h.FootOk(65536) && h.FootOk(65648) && h.FootOk(65680);
    assert h.segs[0].First() == 65536;
  }

  lemma SpaciousReady()
    ensures Ready(Spacious(), 0, 0, 0) && Snug(Spacious().live, Spacious().h.chunks, {})
  {
    SpaciousHeap();
    hide Heap.Ok;
    assert Pad(24) == 32;
  }

  /** memalign can leave a block with exactly a minimal chunk to spare: in this state, for 24 bytes aligned to 32,
      malloc can only give the chunk of 112 bytes, and 64 bytes are left for a request padded to 32. */
  lemma SpareChunk(p: nat)
    requires Policy(Spacious(), p, AskSize(24, 32), AskBytes(24, 32) <= MAX_SMALL_REQUEST)
    ensures Ready(Spacious(), 0, 0, 0) && Snug(Spacious().live, Spacious().h.chunks, {})
    ensures p == 65536 && GivenSize(Spacious(), p, AskSize(24, 32)) == 112 && Stretched(Spacious(), p + 16, 32, 24)
    ensures Alignments.Left(p + 16, 32, 112, Pad(24)) == Pad(24) + MIN_CHUNK
  {
    hide Ready;
    SpaciousReady();
    assert Pad(24) == 32 && AskSize(24, 32) == 96;
    assert 65536 in Spacious().items;
  }
}

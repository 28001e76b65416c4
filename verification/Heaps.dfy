/**
 The chunks of the heap and their boundary tags. A heap is a set of segments, each tiled by chunks from its first
 aligned address up to a limit; the last segment mapped ends in the top chunk, the others in a segment record.
 The tags are the `head` words (size, the previous chunk's in-use bit, the chunk's own in-use bit) and the
 `prev_foot` words.
 */
module Heaps {
  import opened Words

  const MIN_CHUNK := 32         // MIN_CHUNK_SIZE
  const TOP_FOOT := 80          // TOP_FOOT_SIZE
  const RECORD_SIZE := 48       // pad_request(sizeof(struct malloc_segment))
  ghost const ADDRESS_LIMIT := WORD / 2

  datatype Chunk = Chunk(size: nat, inuse: bool)

  datatype Tag = Tag(size: nat, pinuse: bool, cinuse: bool)

  datatype Segment = Segment(base: nat, size: nat) {
    function End(): nat { base + size }
    /** align_as_chunk(base) */
    function First(): nat { if base % 16 == 0 then base else base + 16 - base % 16 }
  }

  datatype Heap = Heap(chunks: map<nat, Chunk>, tags: map<nat, Tag>, feet: map<nat, nat>, top: nat,
                       segs: seq<Segment>, lims: seq<nat>, records: set<nat>)
  {
    ghost function Next(a: nat): nat
      requires a in chunks
    {
      a + chunks[a].size
    }

    ghost predicate Inside(a: nat)
      requires a in chunks && |lims| == |segs|
    {
      exists i :: 0 <= i < |segs| && segs[i].First() <= a && Next(a) <= lims[i]
    }

    ghost predicate Sized(a: nat)
      requires a in chunks
    {
      && a > 0 && Aligned(a) && chunks[a].size > 0 && WordSized(chunks[a].size)
      && (a != top ==> Aligned(chunks[a].size) && chunks[a].size >= MIN_CHUNK)
    }

    ghost predicate Followed(a: nat)
      requires a in chunks
    {
      Next(a) in chunks || (Next(a) in lims && (a == top || a in records))
    }

    /** The size, place and successor of one chunk. */
    ghost predicate Placed(a: nat)
      requires a in chunks && |lims| == |segs|
    {
      Sized(a) && Inside(a) && Followed(a)
    }

    /** One segment: its limit, and where its first chunk starts. */
    ghost predicate SegmentOk(i: nat)
      requires i < |segs| == |lims|
    {
      && segs[i].base > 0 && WordSized(segs[i].base) && Aligned(segs[i].size) && segs[i].End() < ADDRESS_LIMIT
      && segs[i].base <= segs[i].First() < lims[i] && lims[i] + 32 <= segs[i].End() <= lims[i] + TOP_FOOT
      && segs[i].First() in chunks
    }

    ghost predicate Apart(i: nat, j: nat)
      requires i < |segs| && j < |segs|
    {
      segs[i].End() <= segs[j].base || segs[j].End() <= segs[i].base
    }

    /** No chunk starts inside another. */
    ghost predicate Ordered() {
      forall a, b :: a in chunks && b in chunks && a < b ==> Next(a) <= b
    }

    ghost predicate Segmented()
      requires |lims| == |segs|
    {
      && (forall i :: 0 <= i < |segs| ==> SegmentOk(i))
      && (forall i, j :: 0 <= i < j < |segs| ==> Apart(i, j))
    }

    ghost predicate AllPlaced()
      requires |lims| == |segs|
    {
      forall a :: a in chunks ==> Placed(a)
    }

    /** The top chunk is free and ends its segment, short of the room kept for a record and fenceposts. */
    ghost predicate TopOk()
      requires |lims| == |segs| > 0
    {
      top in chunks && !chunks[top].inuse && Next(top) == lims[0] == segs[0].End() - TOP_FOOT
    }

    /** An old segment ends in the chunk of its record. */
    ghost predicate RecordOk(i: nat)
      requires i < |lims|
    {
      && RECORD_SIZE <= lims[i] && lims[i] - RECORD_SIZE in records && lims[i] - RECORD_SIZE in chunks
      && chunks[lims[i] - RECORD_SIZE] == Chunk(RECORD_SIZE, true)
    }

    /** The records are one chunk for each segment but the newest, and no others. */
    ghost predicate RecordsOk()
      requires |lims| > 0
    {
      && (forall i :: 0 < i < |lims| ==> RecordOk(i))
      && (forall a :: a in records ==> a + RECORD_SIZE in lims[1..])
    }

    ghost predicate Tiled() {
      |lims| == |segs| > 0 && Segmented() && AllPlaced() && Ordered() && TopOk() && RecordsOk()
    }

    /** Free chunks never touch. */
    ghost predicate Coalesced() {
      forall a :: a in chunks && !chunks[a].inuse && Next(a) in chunks ==> chunks[Next(a)].inuse
    }

    /** The words of one chunk agree with it and with its successor's words. */
    ghost predicate TagOk(a: nat, hole: nat)
      requires a in chunks
    {
      && a in tags && Next(a) in tags
      && (a != hole ==> tags[a].size == chunks[a].size && tags[a].cinuse == chunks[a].inuse)
      && tags[Next(a)].pinuse == chunks[a].inuse
      && (!chunks[a].inuse && a != top ==> Next(a) in feet && feet[Next(a)] == chunks[a].size)
    }

    /** A chunk whose pinuse bit is clear has a free chunk before it, as long as its prev_foot says. */
    ghost predicate FootOk(a: nat)
      requires a in chunks
    {
      a in tags && (!tags[a].pinuse ==>
        && a in feet && feet[a] <= a && a - feet[a] in chunks
        && chunks[a - feet[a]] == Chunk(feet[a], false))
    }

    ghost predicate AllTagged(hole: nat) {
      forall a :: a in chunks ==> TagOk(a, hole) && FootOk(a)
    }

    /** Nothing precedes the first chunk of a segment; its pinuse bit is set. */
    ghost predicate FirstsOk() {
      forall i :: 0 <= i < |segs| ==> segs[i].First() in tags && tags[segs[i].First()].pinuse
    }

    /** Behind the record of an old segment there are fenceposts up to its end. */
    ghost predicate FencesOk()
      requires |lims| == |segs|
    {
      forall i :: 0 < i < |segs| ==> Fences(tags, lims[i], segs[i].End())
    }

    /** Everything the debug checkers assert of chunks; the tag of `hole`, a chunk being worked on, may be stale. */
    ghost predicate Ok(hole: nat) {
      Tiled() && Coalesced() && AllTagged(hole) && FirstsOk() && FencesOk()
    }
  }

  const FENCEPOST := Tag(8, true, true)     // FENCEPOST_HEAD

  /** Where fencepost k after lo is. */
  function FenceAt(lo: nat, k: nat): nat { lo + 8 * k }

  /** Every word from lo on, as long as its head lies below hi, is a fencepost. */
  ghost predicate Fences(t: map<nat, Tag>, lo: nat, hi: nat) {
    forall k: nat :: FenceAt(lo, k) + 8 < hi ==> FenceAt(lo, k) in t && t[FenceAt(lo, k)] == FENCEPOST
  }

  predicate Aligned(a: nat) { a % 16 == 0 }

  predicate WordSized(n: nat) { n % 8 == 0 }

  lemma AlignedSum(a: nat, b: nat)
    requires Aligned(a)
    ensures Aligned(a + b) <==> Aligned(b)
  {
  }

  lemma AlignedDiff(a: nat, b: nat)
    requires b <= a && Aligned(b)
    ensures Aligned(a - b) <==> Aligned(a)
    ensures WordSized(a - b) <==> WordSized(a)
  {
    hide Aligned, WordSized;
    var d := a - b;
    AlignedSum(b, d);
    WordSum(b, d);
  }

  lemma WordSum(a: nat, b: nat)
    requires Aligned(a)
    ensures WordSized(a + b) <==> WordSized(b)
  {
    var q := a / 16;
    assert a + b == b + 8 * (2 * q);
  }

  lemma SizeWhole(n: nat)
    requires Aligned(n)
    ensures WordSized(n)
  {
  }

  // ---- chunks that stay as they are

  /** Every chunk in use but p stays as it is. */
  ghost predicate Kept(c: map<nat, Chunk>, c': map<nat, Chunk>, p: nat) {
    forall a :: a in c && c[a].inuse && 0 < a != p ==> a in c' && c'[a] == c[a]
  }

  /** p swallows a free chunk q and changes its own entry. */
  lemma SwallowKept(c: map<nat, Chunk>, c': map<nat, Chunk>, p: nat, q: nat, x: Chunk)
    requires q in c && !c[q].inuse && c' == (c - {q})[p := x]
    ensures Kept(c, c', p)
  {
  }

  lemma ChangeKept(c: map<nat, Chunk>, c': map<nat, Chunk>, p: nat, x: Chunk)
    requires c' == c[p := x]
    ensures Kept(c, c', p)
  {
  }

  /** p is swallowed by the free chunk q, which is changed further. */
  lemma BackKept(c: map<nat, Chunk>, m: map<nat, Chunk>, c': map<nat, Chunk>, p: nat, q: nat, x: Chunk)
    requires q in c && !c[q].inuse && m == (c - {p})[q := x] && Kept(m, c', q)
    ensures Kept(c, c', p)
  {
  }

  /** p becomes x, with a new chunk r behind it that is changed further; q may be swallowed. */
  lemma CutKept(c: map<nat, Chunk>, m: map<nat, Chunk>, c': map<nat, Chunk>, p: nat, q: nat, r: nat)
    requires 0 < p != r && r !in c && (q in c ==> !c[q].inuse) && p in m && m[p].inuse
    requires forall a :: a in c && a != p && a != q ==> a in m && m[a] == c[a]
    requires Kept(m, c', r)
    ensures Kept(c, c', p) && p in c' && c'[p] == m[p]
  {
  }

  /** r, new behind p, is what stays; p is changed further. */
  lemma LeaderKept(c: map<nat, Chunk>, m: map<nat, Chunk>, c': map<nat, Chunk>, p: nat, r: nat)
    requires 0 < r != p && r !in c && r in m && m[r].inuse
    requires forall a :: a in c && a != p ==> a in m && m[a] == c[a]
    requires Kept(m, c', p)
    ensures Kept(c, c', p) && r in c' && c'[r] == m[r]
  {
  }

  /** p swallows the free chunk q, or a part of it that leaves r. */
  lemma GrownKept(c: map<nat, Chunk>, c': map<nat, Chunk>, p: nat, q: nat, r: nat)
    requires q in c && !c[q].inuse && (r in c ==> r == q || r == p)
    requires forall a :: a in c && a != p && a != q ==> a in c' && c'[a] == c[a]
    ensures Kept(c, c', p)
  {
  }

  /** Only entries of free chunks, or of no chunks, change. */
  lemma FreeKept(c: map<nat, Chunk>, c': map<nat, Chunk>, p: nat, q: nat, r: nat)
    requires p in c ==> !c[p].inuse
    requires q in c ==> !c[q].inuse
    requires r in c ==> !c[r].inuse
    requires forall a :: a in c && a != p && a != q && a != r ==> a in c' && c'[a] == c[a]
    ensures Kept(c, c', 0)
  {
  }

  lemma SelfKept(c: map<nat, Chunk>, p: nat)
    ensures Kept(c, c, p)
  {
  }

  /** A free chunk starts at p and is n bytes long or longer. */
  ghost predicate FreeFrom(c: map<nat, Chunk>, p: nat, n: nat) {
    p in c && !c[p].inuse && n <= c[p].size
  }

  /** All bytes from lo up to hi lie in one free chunk. */
  ghost predicate Covered(c: map<nat, Chunk>, lo: nat, hi: nat) {
    exists f :: f in c && !c[f].inuse && f <= lo && hi <= f + c[f].size
  }

  lemma CoveredBy(c: map<nat, Chunk>, p: nat, n: nat, lo: nat, hi: nat)
    requires FreeFrom(c, p, n) && p <= lo && hi <= p + n
    ensures Covered(c, lo, hi)
  {
    assert p in c && !c[p].inuse && p <= lo && hi <= p + c[p].size;
  }

  /** No chunk in use starts at p. */
  ghost predicate WasFree(c: map<nat, Chunk>, p: nat) {
    p in c ==> !c[p].inuse
  }

  lemma KeptThen(c: map<nat, Chunk>, m: map<nat, Chunk>, c': map<nat, Chunk>, p: nat, q: nat)
    requires Kept(c, m, p) && Kept(m, c', q) && (q == p || WasFree(c, q))
    ensures Kept(c, c', p)
  {
  }

  lemma KeptTrans(c: map<nat, Chunk>, m: map<nat, Chunk>, c': map<nat, Chunk>, p: nat)
    requires Kept(c, m, 0) && Kept(m, c', p)
    ensures Kept(c, c', p)
  {
  }

  // ---- the three ways to change a tiling

  /** h' has p of h cut in two; if p was the top chunk, the second part is. */
  ghost predicate Splits(h: Heap, h': Heap, p: nat, nb: nat, inuse1: bool, inuse2: bool) {
    && p in h.chunks && 0 < nb < h.chunks[p].size && p !in h.records
    && h'.chunks == h.chunks[p := Chunk(nb, inuse1)][p + nb := Chunk(h.chunks[p].size - nb, inuse2)]
    && h'.top == (if p == h.top then p + nb else h.top)
    && h'.segs == h.segs && h'.lims == h.lims && h'.records == h.records
    && Aligned(nb) && MIN_CHUNK <= nb && (p != h.top ==> nb + MIN_CHUNK <= h.chunks[p].size)
    && (p == h.top ==> inuse1 && !inuse2)
  }

  lemma SplitOrdered(h: Heap, h': Heap, p: nat, nb: nat, inuse1: bool, inuse2: bool)
    requires h.Ordered() && Splits(h, h', p, nb, inuse1, inuse2)
    ensures h'.Ordered() && p + nb !in h.chunks
  {
    hide Aligned, WordSized, Segment.First;
    assert p + nb in h.chunks ==> h.Next(p) <= p + nb;
  }

  lemma SegmentsKept(h: Heap, h': Heap)
    requires |h.lims| == |h.segs| && h.Segmented() && h'.segs == h.segs && h'.lims == h.lims
    requires forall i :: 0 <= i < |h.segs| ==> h.segs[i].First() in h'.chunks
    ensures h'.Segmented()
  {
    hide Aligned, WordSized, Segment.First;
    forall i | 0 <= i < |h.segs| ensures h'.SegmentOk(i) { assert h.SegmentOk(i); }
    forall i, j | 0 <= i < j < |h.segs| ensures h'.Apart(i, j) { assert h.Apart(i, j); }
  }

  /** A record is a chunk in use of the size of a record. */
  lemma RecordIsChunk(h: Heap, a: nat)
    requires |h.lims| > 0 && h.RecordsOk() && a in h.records
    ensures a in h.chunks && h.chunks[a] == Chunk(RECORD_SIZE, true)
  {
    var k :| 0 <= k < |h.lims[1..]| && h.lims[1..][k] == a + RECORD_SIZE;
    assert h.RecordOk(k + 1);
  }

  lemma RecordsKept(h: Heap, h': Heap)
    requires |h.lims| > 0 && h.RecordsOk() && h'.lims == h.lims && h'.records == h.records
    requires forall a :: a in h.records && a in h.chunks ==> a in h'.chunks && h'.chunks[a] == h.chunks[a]
    ensures h'.RecordsOk()
  {
    forall i | 0 < i < |h.lims| ensures h'.RecordOk(i) { assert h.RecordOk(i); }
  }

  /** A part of a chunk, or a chunk of the same extent, lies in the same segment. */
  lemma InsideKept(h: Heap, h': Heap, a: nat, b: nat)
    requires |h.lims| == |h.segs| && h'.segs == h.segs && h'.lims == h.lims
    requires a in h.chunks && b in h'.chunks && a <= b && h'.Next(b) <= h.Next(a) && h.Inside(a)
    ensures h'.Inside(b)
  {
    hide Segment.First;
    var i :| 0 <= i < |h.segs| && h.segs[i].First() <= a && h.Next(a) <= h.lims[i];
    assert h'.segs[i].First() <= b && h'.Next(b) <= h'.lims[i];
  }

  lemma SplitPlaced(h: Heap, h': Heap, p: nat, nb: nat, inuse1: bool, inuse2: bool, a: nat)
    requires |h.lims| == |h.segs| && Splits(h, h', p, nb, inuse1, inuse2) && h.Placed(p) && p + nb !in h.chunks
    requires a in h'.chunks && (a in h.chunks ==> h.Placed(a))
    ensures h'.Placed(a)
  {
    hide Aligned, WordSized, Segment.First;
    AlignedSum(p, nb);
    SizeWhole(nb);
    AlignedDiff(h.chunks[p].size, nb);
    InsideKept(h, h', if a == p + nb then p else a, a);
  }

  /** Cutting a chunk in two keeps the tiling. */
  lemma SplitTiled(h: Heap, h': Heap, p: nat, nb: nat, inuse1: bool, inuse2: bool)
    requires h.Tiled() && Splits(h, h', p, nb, inuse1, inuse2)
    ensures h'.Tiled()
  {
    hide Aligned, WordSized, Segment.First, Heap.Placed, Heap.Ordered, Heap.RecordsOk;
    SplitOrdered(h, h', p, nb, inuse1, inuse2);
    forall i | 0 <= i < |h.segs| ensures h.segs[i].First() in h'.chunks { assert h.SegmentOk(i); }
    SegmentsKept(h, h');
    hide Heap.Segmented;
    forall a | a in h'.chunks ensures h'.Placed(a) { SplitPlaced(h, h', p, nb, inuse1, inuse2, a); }
    RecordsKept(h, h');
  }

  /** h' has p and its successor of h made one chunk; if the successor was the top chunk, the whole is. */
  ghost predicate Joins(h: Heap, h': Heap, p: nat, inuse: bool) {
    && p in h.chunks && h.Next(p) in h.chunks && p !in h.records && h.Next(p) !in h.records && p != h.top
    && h'.chunks == (h.chunks - {h.Next(p)})[p := Chunk(h.chunks[p].size + h.chunks[h.Next(p)].size, inuse)]
    && h'.top == (if h.Next(p) == h.top then p else h.top)
    && h'.segs == h.segs && h'.lims == h.lims && h'.records == h.records
    && (h.Next(p) == h.top ==> !inuse)
  }

  lemma JoinOrdered(h: Heap, h': Heap, p: nat, inuse: bool)
    requires h.Ordered() && Joins(h, h', p, inuse)
    ensures h'.Ordered()
  {
    var q := h.Next(p);
    forall a, b | a in h'.chunks && b in h'.chunks && a < b ensures h'.Next(a) <= b {
      assert h.Next(a) <= b;
      if a == p {
        assert q <= b && q != b;
      }
    }
  }

  /** Only one segment reaches an address. */
  lemma SamePlace(h: Heap, i: nat, j: nat, a: nat)
    requires |h.lims| == |h.segs| && i < |h.segs| && j < |h.segs|
    requires h.segs[i].base <= a < h.segs[i].End() && h.segs[j].base <= a < h.segs[j].End()
    requires forall i, j :: 0 <= i < j < |h.segs| ==> h.Apart(i, j)
    ensures i == j
  {
    assert !(i < j) by { assert i < j ==> h.Apart(i, j); }
    assert !(j < i) by { assert j < i ==> h.Apart(j, i); }
  }

  ghost predicate Reaches(h: Heap, i: nat, a: nat, b: nat)
    requires |h.lims| == |h.segs|
  {
    i < |h.segs| && h.segs[i].First() <= a && b <= h.lims[i]
  }

  /** The successor of a chunk lies in the same segment, and never starts it. */
  lemma NextInside(h: Heap, p: nat) returns (i: nat)
    requires h.Tiled() && p in h.chunks && h.Next(p) in h.chunks
    ensures Reaches(h, i, p, h.Next(h.Next(p)))
    ensures forall j :: 0 <= j < |h.segs| ==> h.segs[j].First() != h.Next(p)
  {
    hide Aligned, WordSized, Segment.First, Heap.Ordered, Heap.TopOk, Heap.RecordsOk;
    var q := h.Next(p);
    assert h.Placed(p) && h.Placed(q);
    i :| 0 <= i < |h.segs| && h.segs[i].First() <= p && h.Next(p) <= h.lims[i];
    var j :| 0 <= j < |h.segs| && h.segs[j].First() <= q && h.Next(q) <= h.lims[j];
    hide Heap.AllPlaced, Heap.Placed, Heap.Followed;
    assert h.SegmentOk(i) && h.SegmentOk(j);
    SamePlace(h, i, j, q);
    forall k | 0 <= k < |h.segs| ensures h.segs[k].First() != q {
      assert h.SegmentOk(k);
      if h.segs[k].First() == q {
        SamePlace(h, i, k, q);
      }
    }
  }

  lemma JoinPlaced(h: Heap, h': Heap, p: nat, inuse: bool, i: nat, a: nat)
    requires |h.lims| == |h.segs| && Joins(h, h', p, inuse) && a in h'.chunks
    requires h.Placed(a) && h.Placed(p) && h.Placed(h.Next(p)) && Reaches(h, i, p, h.Next(h.Next(p)))
    requires a != p ==> h.Next(a) != h.Next(p)
    ensures h'.Placed(a)
  {
    hide Aligned, WordSized, Segment.First;
    JoinSized(h.chunks[p].size, h.chunks[h.Next(p)].size);
    if a == p {
      assert h'.segs[i].First() <= p && h'.Next(p) <= h'.lims[i];
    } else {
      InsideKept(h, h', a, a);
    }
  }

  lemma JoinSized(m: nat, n: nat)
    requires Aligned(m)
    ensures Aligned(m + n) <==> Aligned(n)
    ensures WordSized(m + n) <==> WordSized(n)
  {
    hide Aligned, WordSized;
    AlignedSum(m, n);
    WordSum(m, n);
  }

  /** Two chunks never share a successor. */
  lemma NextOnce(h: Heap, p: nat, a: nat)
    requires h.Ordered() && p in h.chunks && a in h.chunks && a != p && h.chunks[a].size > 0 && h.chunks[p].size > 0
    ensures h.Next(a) != h.Next(p)
  {
    assert a < p ==> h.Next(a) <= p;
    assert p < a ==> h.Next(p) <= a;
  }

  lemma JoinPlacedAt(h: Heap, h': Heap, p: nat, inuse: bool, i: nat, a: nat)
    requires |h.lims| == |h.segs| && h.AllPlaced() && h.Ordered() && Joins(h, h', p, inuse) && a in h'.chunks
    requires Reaches(h, i, p, h.Next(h.Next(p)))
    ensures h'.Placed(a)
  {
    hide Aligned, WordSized, Segment.First, Heap.Ordered, Heap.Inside, Heap.Followed, Reaches;
    assert h.Placed(a) && h.Placed(p);
    if a != p {
      NextOnce(h, p, a);
    }
    hide Heap.Sized;
    JoinPlaced(h, h', p, inuse, i, a);
  }

  /** Making a chunk and its successor one chunk keeps the tiling. */
  lemma JoinTiled(h: Heap, h': Heap, p: nat, inuse: bool)
    requires h.Tiled() && Joins(h, h', p, inuse)
    ensures h'.Tiled()
  {
    hide Aligned, WordSized, Segment.First, Heap.Placed, Heap.Ordered, Reaches, Heap.RecordsOk;
    JoinOrdered(h, h', p, inuse);
    var i := NextInside(h, p);
    forall a | a in h'.chunks ensures h'.Placed(a) { JoinPlacedAt(h, h', p, inuse, i, a); }
    forall i | 0 <= i < |h.segs| ensures h.segs[i].First() in h'.chunks { assert h.SegmentOk(i); }
    SegmentsKept(h, h');
    RecordsKept(h, h');
  }

  /** h' has only the state of p changed. */
  ghost predicate Flags(h: Heap, h': Heap, p: nat, inuse: bool) {
    && p in h.chunks && p != h.top && p !in h.records
    && h'.chunks == h.chunks[p := Chunk(h.chunks[p].size, inuse)]
    && h'.top == h.top && h'.segs == h.segs && h'.lims == h.lims && h'.records == h.records
  }

  lemma FlagPlaced(h: Heap, h': Heap, p: nat, inuse: bool, a: nat)
    requires |h.lims| == |h.segs| && Flags(h, h', p, inuse) && a in h.chunks && h.Placed(a)
    ensures h'.Placed(a)
  {
    hide Aligned, WordSized, Segment.First;
    InsideKept(h, h', a, a);
  }

  /** Changing only the state of a chunk keeps the tiling. */
  lemma FlagTiled(h: Heap, h': Heap, p: nat, inuse: bool)
    requires h.Tiled() && Flags(h, h', p, inuse)
    ensures h'.Tiled()
  {
    hide Aligned, WordSized, Segment.First, Heap.Placed, Heap.RecordsOk;
    assert h'.Ordered();
    hide Heap.Ordered;
    forall a | a in h'.chunks ensures h'.Placed(a) { FlagPlaced(h, h', p, inuse, a); }
    forall i | 0 <= i < |h.segs| ensures h.segs[i].First() in h'.chunks { assert h.SegmentOk(i); }
    SegmentsKept(h, h');
    RecordsKept(h, h');
  }
}

/** The allocator: malloc_state with its words in place, and the operations on it. */
module Dlmalloc {
  import opened Words
  import opened Heaps
  import opened Steps
  import opened Segments
  import opened Arenas
  import opened Moves
  import opened Filings
  import opened Requests
  import opened BinTable
  import opened Grains
  import opened Alignments

  const MAX_SMALL_REQUEST := 232
  const MALLOC_ALIGNMENT := 16

  class MallocState {
    var head: map<nat, Tag>
    var foot: map<nat, nat>
    var dv: nat
    var dvsize: nat
    var top: nat
    var topsize: nat
    var segs: seq<Segment>
    var leastAddr: nat
    var footprint: nat
    var maxFootprint: nat
    const footprintLimit: nat
    var granularity: Granularity
    ghost var grainBits: nat
    const bins: FreeBins
    ghost var chunks: map<nat, Chunk>
    ghost var lims: seq<nat>
    ghost var records: set<nat>
    ghost var live: map<nat, nat>
    ghost var slack: set<nat>                // the blocks with exactly a minimal chunk to spare

    ghost function Now(): Arena
      reads this, bins
    {
      Arena(Heap(chunks, head, foot, top, segs, lims, records), dv, dvsize, topsize, bins.items, live)
    }

    /** least_addr is below every segment. */
    ghost predicate Least()
      reads this`leastAddr, this`segs
    {
      leastAddr > 0 && forall i :: 0 <= i < |segs| ==> leastAddr <= segs[i].base
    }

    ghost predicate Charted()
      reads this`leastAddr, this`segs, this`footprint
    {
      Least() && footprint == Total(segs)
    }

    /** The state of an initialized allocator, with a chunk in use that no caller holds and a free chunk not filed. */
    ghost predicate Up(hole: nat, loose: nat)
      reads this, bins
    {
      bins.Ok() && Charted() && Ready(Now(), 0, hole, loose)
    }

    /** No memory yet, as in a zeroed malloc_state. */
    ghost predicate Bare()
      reads this, bins
    {
      && bins.Ok() && bins.items == map[] && segs == [] && lims == [] && chunks == map[] && records == {}
      && live == map[]
      && dv == 0 && dvsize == 0 && top == 0 && topsize == 0 && leastAddr == 0
    }

    ghost predicate Blank()
      reads this, bins
    {
      Bare() && footprint == 0
    }

    ghost predicate Valid()
      reads this, bins
    {
      (Blank() || Up(0, 0)) && Grain(granularity, grainBits) && Snug(live, chunks, slack) && slack <= live.Keys
    }

    constructor (grain: Granularity, ghost k: nat, limit: nat)
      requires Grain(grain, k)
      ensures Valid() && live == map[] && fresh(bins) && footprintLimit == limit && Ledger() == Account(0, 0, grain, 0)
    {
      head, foot := map[], map[];
      dv, dvsize, top, topsize, segs := 0, 0, 0, 0, [];
      leastAddr, footprint, maxFootprint, footprintLimit, granularity, grainBits := 0, 0, 0, limit, grain, k;
      bins := new FreeBins();
      chunks, lims, records, live, slack := map[], [], {}, map[], {};
    }

    // ---- the macros that give a loose chunk away

    /** set_inuse_and_pinuse */
    method TakeWhole(p: nat, s: nat)
      requires p > 0 && p in chunks && chunks[p].size == s && Up(0, p)
      modifies this`head, this`chunks
      ensures Up(p, 0) && chunks == old(chunks)[p := Chunk(s, true)] && Kept(old(chunks), chunks, 0)
    {
      hide FreeBins.Ok, Ready, Aligned, MallocState.Charted, InuseAndPinuse, Kept;
      ghost var was := Now();
      FreeFacts(was, 0, 0, p, p);
      head := InuseAndPinuse(head, p, s);
      chunks := chunks[p := Chunk(s, true)];
      AllocWhole(was, Now(), p);
    }

    /** set_size_and_pinuse_of_inuse_chunk and set_size_and_pinuse_of_free_chunk: the front of p is given away. */
    method TakeFront(p: nat, nb: nat, rsize: nat) returns (r: nat)
      requires p > 0 && p in chunks && chunks[p].size == nb + rsize && Up(0, p)
      requires Aligned(nb) && MIN_CHUNK <= nb && MIN_CHUNK <= rsize
      modifies this`head, this`foot, this`chunks
      ensures r == p + nb && Up(p, r) && Kept(old(chunks), chunks, 0)
      ensures chunks == old(chunks)[p := Chunk(nb, true)][r := Chunk(rsize, false)]
    {
      hide FreeBins.Ok, Ready, Aligned, MallocState.Charted, Kept;
      ghost var was := Now();
      FreeFacts(was, 0, 0, p, p);
      r := p + nb;
      head := head[p := Tag(nb, true, true)];
      head := head[r := Tag(rsize, true, false)];
      foot := foot[r + rsize := rsize];
      chunks := chunks[p := Chunk(nb, true)][r := Chunk(rsize, false)];
      AllocPart(was, Now(), p, nb);
    }

    /** replace_dv */
    method ReplaceDv(r: nat, rsize: nat, ghost hole: nat)
      requires r > 0 && r in chunks && chunks[r].size == rsize > 0 && dvsize < MIN_LARGE_SIZE && Up(hole, r)
      modifies this`dv, this`dvsize, bins
      ensures Up(hole, 0) && dv == r && dvsize == rsize
      ensures bins.items == WithVictim(old(bins.items), old(dv), old(dvsize))
    {
      hide Ready, Aligned, MallocState.Charted;
      ghost var was := Now();
      if dvsize != 0 {
        VictimFacts(was, hole, r);
        bins.Insert(dv, dvsize);
      }
      dvsize := rsize;
      dv := r;
      RefileVictim(was, Now(), hole, r);
    }

    /** insert_chunk of a loose chunk. */
    method FileChunk(r: nat, rsize: nat, ghost hole: nat)
      requires r > 0 && r in chunks && chunks[r].size == rsize && Up(hole, r)
      modifies bins
      ensures Up(hole, 0) && bins.items == old(bins.items)[r := rsize]
    {
      hide Ready, Aligned, MallocState.Charted;
      ghost var was := Now();
      LooseFacts(was, 0, hole, r);
      bins.Insert(r, rsize);
      FileLoose(was, Now(), hole, r);
    }

    /** unlink_chunk */
    method UnfileChunk(p: nat, s: nat, ghost hole: nat)
      requires p in bins.items && bins.items[p] == s && Up(hole, 0)
      modifies bins
      ensures Up(hole, p) && bins.items == old(bins.items) - {p} && p > 0 && p in chunks && chunks[p].size == s
    {
      hide Ready, Aligned, MallocState.Charted;
      ghost var was := Now();
      FreeFacts(was, 0, hole, 0, p);
      bins.Unlink(p, s);
      Loosen(was, Now(), 0, hole, p);
    }

    // ---- malloc

    /** The loose chunk p is given away whole or, if the remainder is worth keeping, split with it as the new victim. */
    method TakeForSmall(p: nat, nb: nat, rsize: nat)
      requires p > 0 && p in chunks && chunks[p].size == nb + rsize && Up(0, p)
      requires Aligned(nb) && MIN_CHUNK <= nb && dvsize < MIN_LARGE_SIZE
      modifies this`head, this`foot, this`chunks, this`dv, this`dvsize, bins
      ensures Up(p, 0) && Kept(old(chunks), chunks, 0) && p in chunks && chunks[p].size == Given(nb + rsize, nb)
      ensures if rsize < MIN_CHUNK then dv == old(dv) && dvsize == old(dvsize) && bins.items == old(bins.items)
        else dv == p + nb && dvsize == rsize && bins.items == WithVictim(old(bins.items), old(dv), old(dvsize))
    {
      hide Ready, Aligned, MallocState.Charted, FreeBins.Ok, Kept;
      if rsize < MIN_CHUNK {
        TakeWhole(p, rsize + nb);
      } else {
        var r := TakeFront(p, nb, rsize);
        ReplaceDv(r, rsize, p);
      }
    }

    /** tmalloc_small: the smallest tree chunk, its remainder becoming the designated victim. */
    method TmallocSmall(nb: nat) returns (p: nat)
      requires Up(0, 0) && bins.treemap != 0 && Aligned(nb) && MIN_CHUNK <= nb < MIN_LARGE_SIZE && dvsize < nb
      modifies this`head, this`foot, this`chunks, this`dv, this`dvsize, bins
      ensures Up(p, 0) && Kept(old(chunks), chunks, 0) && p in chunks && nb <= chunks[p].size < nb + MIN_CHUNK
      ensures p > 0 && p in old(bins.items) && old(bins.items)[p] >= MIN_LARGE_SIZE
      ensures chunks[p].size == Given(old(bins.items)[p], nb) && RestToVictim(old(Now()), Now(), p, nb)
      ensures forall a :: a in old(bins.items) && old(bins.items)[a] >= MIN_LARGE_SIZE ==>
        old(bins.items)[p] <= old(bins.items)[a]
    {
      hide Ready, Aligned, MallocState.Charted, FreeBins.Ok, Kept;
      var rsize;
      p, rsize := bins.LeastTree(nb);
      UnfileChunk(p, rsize + nb, 0);
      TakeForSmall(p, nb, rsize);
    }

    /** tmalloc_large: the best fit over all tree bins, unless the designated victim fits as well or better. */
    method TmallocLarge(nb: nat) returns (p: nat)
      requires Up(0, 0) && Aligned(nb) && MIN_LARGE_SIZE <= nb < WORD
      modifies this`head, this`foot, this`chunks, bins
      ensures p != 0 ==>
        Up(p, 0) && Kept(old(chunks), chunks, 0) && p in chunks && nb <= chunks[p].size < nb + MIN_CHUNK
      ensures p != 0 ==>
        p in old(bins.items) && BestFit(old(bins.items), p, nb) && !(nb <= dvsize <= old(bins.items)[p])
      ensures p != 0 ==> chunks[p].size == Given(old(bins.items)[p], nb) && RestToBins(old(Now()), Now(), p, nb)
      ensures p == 0 ==> Up(0, 0) && Now() == old(Now())
      ensures p == 0 ==> forall a :: a in bins.items && nb <= bins.items[a] ==> nb <= dvsize <= bins.items[a]
    {
      hide Ready, Aligned, MallocState.Charted, FreeBins.Ok, Kept;
      var v, rsize := bins.BestLarge(nb);
      ghost var was := Now();
      p := 0;
      if v != 0 {
        FreeFacts(was, 0, 0, 0, v);
        VictimBound(was, v);
        Slack(rsize, dvsize, nb);
        if rsize < Wrap(dvsize - nb) {
          p := v;
          UnfileChunk(v, rsize + nb, 0);
          if rsize < MIN_CHUNK {
            TakeWhole(v, rsize + nb);
          } else {
            var r := TakeFront(v, nb, rsize);
            FileChunk(r, rsize, v);
          }
        }
      }
    }

    /** A small request, when no chunk fits without remainder and the designated victim is too small. */
    method AllocNextSmall(nb: nat) returns (p: nat)
      requires Blank() || Up(0, 0)
      requires Aligned(nb) && MIN_CHUNK <= nb && nb < MIN_LARGE_SIZE && dvsize < nb
      requires forall a :: a in bins.items ==> bins.items[a] != nb
      modifies this`head, this`foot, this`chunks, this`dv, this`dvsize, bins
      ensures p != 0 ==> Up(p, 0) && Kept(old(chunks), chunks, 0)
      ensures p != 0 ==> p in chunks && nb <= chunks[p].size < nb + MIN_CHUNK && BestFit(old(bins.items), p, nb)
      ensures p != 0 ==> chunks[p].size == Given(old(bins.items)[p], nb) && RestToVictim(old(Now()), Now(), p, nb)
      ensures p == 0 ==> (Blank() || Up(0, 0)) && Now() == old(Now())
      ensures p == 0 ==> forall a :: a in bins.items ==> bins.items[a] < nb
    {
      hide Ready, Aligned, MallocState.Charted, FreeBins.Ok, Kept;
      ghost var was := Now();
      var size;
      BinSize(nb);
      p, size := bins.TakeNextSmall(nb);
      if p != 0 {
        FreeFacts(was, 0, 0, 0, p);
        Loosen(was, Now(), 0, 0, p);
        TakeForSmall(p, nb, size - nb);
      } else if bins.treemap != 0 {
        bins.TreeBinUsed();
        p := TmallocSmall(nb);
      } else {
        bins.NoTreeBins();
      }
    }

    /** A small request from the bins: a chunk with no remainder; or, if the designated victim is too small, the
        smallest chunk that fits. */
    method AllocSmall(nb: nat) returns (p: nat)
      requires Blank() || Up(0, 0)
      requires Aligned(nb) && MIN_CHUNK <= nb && nb + 8 < MIN_LARGE_SIZE
      modifies this`head, this`foot, this`chunks, this`dv, this`dvsize, bins
      ensures p != 0 ==>
        Up(p, 0) && Kept(old(chunks), chunks, 0) && p in chunks && nb <= chunks[p].size < nb + MIN_CHUNK
      ensures p != 0 ==> BestFit(old(bins.items), p, nb) && (nb <= old(dvsize) ==> old(bins.items)[p] <= nb + 8)
      ensures p != 0 ==> chunks[p].size == Given(old(bins.items)[p], nb) && RestToVictim(old(Now()), Now(), p, nb)
      ensures p == 0 ==> (Blank() || Up(0, 0)) && Now() == old(Now())
      ensures p == 0 && dvsize < nb ==> forall a :: a in bins.items ==> bins.items[a] < nb
      ensures p == 0 && nb <= dvsize ==> forall a :: a in bins.items && nb <= bins.items[a] ==> nb + 8 < bins.items[a]
    {
      hide Ready, Aligned, MallocState.Charted, FreeBins.Ok, Kept;
      ghost var was := Now();
      var size;
      BinSize(nb);
      p, size := bins.TakeExact(nb);
      if p != 0 {
        ExactFit(was, p, nb);
        Loosen(was, Now(), 0, 0, p);
        TakeWhole(p, size);
      } else if nb > dvsize {
        p := AllocNextSmall(nb);
      } else {
        NoExactFit(was, nb);
      }
    }

    /** The front of the designated victim is given away. */
    method SplitVictim(nb: nat, rsize: nat)
      requires Up(0, 0) && Aligned(nb) && MIN_CHUNK <= nb && MIN_CHUNK <= rsize && dvsize == nb + rsize
      modifies this`head, this`foot, this`chunks, this`dv, this`dvsize
      ensures Up(old(dv), 0) && chunks == old(chunks)[old(dv) := Chunk(nb, true)][dv := Chunk(rsize, false)]
      ensures dv == old(dv) + nb && dvsize == rsize && Kept(old(chunks), chunks, 0)
    {
      hide Ready, Aligned, MallocState.Charted, FreeBins.Ok, Kept;
      ghost var was := Now();
      var p := dv;
      var r := p + nb;
      dv := r;
      dvsize := rsize;
      head := head[r := Tag(rsize, true, false)];
      foot := foot[r + rsize := rsize];
      head := head[p := Tag(nb, true, true)];
      chunks := chunks[p := Chunk(nb, true)][r := Chunk(rsize, false)];
      VictimPart(was, Now(), nb, rsize);
    }

    /** The designated victim is split or, if too little would be left, given away whole. */
    method AllocVictim(nb: nat) returns (p: nat)
      requires Up(0, 0) && Aligned(nb) && MIN_CHUNK <= nb <= dvsize
      modifies this`head, this`foot, this`chunks, this`dv, this`dvsize
      ensures p == old(dv) > 0 && Up(p, 0) && Kept(old(chunks), chunks, 0) && p in chunks
        && chunks[p].size == Given(old(dvsize), nb)
      ensures if old(dvsize) < nb + MIN_CHUNK then dv == 0 && dvsize == 0
        else dv == p + nb && dvsize == old(dvsize) - nb
    {
      hide Ready, Aligned, MallocState.Charted, FreeBins.Ok, Kept;
      ghost var was := Now();
      VictimThere(was, 0, 0);
      p := dv;
      var rsize := dvsize - nb;
      if rsize >= MIN_CHUNK {
        SplitVictim(nb, rsize);
      } else {
        FreeFacts(was, 0, 0, 0, dv);
        var dvs := dvsize;
        dvsize := 0;
        dv := 0;
        Loosen(was, Now(), 0, 0, p);
        TakeWhole(p, dvs);
      }
    }

    /** The front of the top chunk is given away. */
    method AllocFromTop(nb: nat) returns (p: nat)
      requires Up(0, 0) && Aligned(nb) && MIN_CHUNK <= nb < topsize
      modifies this`head, this`chunks, this`top, this`topsize
      ensures p == old(top) > 0 && Up(p, 0) && Kept(old(chunks), chunks, 0) && p in chunks && chunks[p].size == nb
      ensures top == p + nb && topsize == old(topsize) - nb
    {
      hide Ready, Aligned, MallocState.Charted, FreeBins.Ok, Kept;
      ghost var was := Now();
      TopFacts(was, 0, 0, 0);
      topsize := topsize - nb;
      var rsize := topsize;
      p := top;
      top := p + nb;
      head := head[top := Tag(rsize, true, false)];
      head := head[p := Tag(nb, true, true)];
      chunks := chunks[p := Chunk(nb, true)][top := Chunk(rsize, false)];
      AllocTop(was, Now(), nb);
    }

    // ---- free

    /** set_free_with_pinuse */
    method SetFreeWithPinuse(p: nat, psize: nat, next: nat)
      modifies this`head, this`foot, this`chunks
      ensures head == SetPinuse(old(head), next, false)[p := Tag(psize, true, false)]
      ensures foot == old(foot)[p + psize := psize] && chunks == old(chunks)[p := Chunk(psize, false)]
    {
      head := SetPinuse(head, next, false);
      head := head[p := Tag(psize, true, false)];
      foot := foot[p + psize := psize];
      chunks := chunks[p := Chunk(psize, false)];
    }

    /** dispose_chunk, when the chunk after p is the top chunk. */
    method DisposeIntoTop(p: nat, psize: nat, ghost wasDv: bool)
      requires p > 0 && p in chunks && chunks[p].size == psize && bins.Ok() && Charted() && (dv == p <==> wasDv)
      requires UsedChunk(Standing(Now(), wasDv), p) && head[p].pinuse && NextChunk(Standing(Now(), wasDv), p)
      requires p + psize == top && top in chunks && !chunks[top].inuse && Ready(Standing(Now(), wasDv), p, p, 0)
      modifies this`head, this`chunks, this`top, this`topsize, this`dv, this`dvsize
      ensures Up(0, 0) && Kept(old(chunks), chunks, p) && FreeFrom(chunks, p, psize)
      ensures top == p && topsize == old(topsize) + psize
      ensures if wasDv then dv == 0 && dvsize == 0 else dv == old(dv) && dvsize == old(dvsize)
    {
      hide Ready, Aligned, MallocState.Charted, FreeBins.Ok, UsedChunk, NextChunk, Kept, Standing;
      StandingFacts(Now(), wasDv);
      ghost var s := Standing(Now(), wasDv);
      ghost var next := top;
      var tsize := topsize + psize;
      topsize, top, head := tsize, p, head[p := Tag(tsize, true, false)];
      if p == dv {
        dv, dvsize := 0, 0;
      }
      SwallowKept(chunks, (chunks - {next})[p := Chunk(tsize, false)], p, next, Chunk(tsize, false));
      chunks := (chunks - {next})[p := Chunk(tsize, false)];
      EndInTop(s, Now(), p);
      assert bins.Ok();
      assert Charted();
    }

    /** dispose_chunk, when the chunk after p is the designated victim. */
    method DisposeIntoDv(p: nat, psize: nat)
      requires p > 0 && p in chunks && chunks[p].size == psize > 0 && bins.Ok() && Charted() && p + psize == dv
      requires UsedChunk(Now(), p) && head[p].pinuse && NextChunk(Now(), p)
      requires dv in chunks && !chunks[dv].inuse && Ready(Now(), p, p, 0)
      modifies this`head, this`foot, this`chunks, this`dv, this`dvsize
      ensures Up(0, 0) && Kept(old(chunks), chunks, p) && FreeFrom(chunks, p, psize)
      ensures dv == p && dvsize == old(dvsize) + psize
    {
      hide Ready, Aligned, MallocState.Charted, FreeBins.Ok, UsedChunk, NextChunk, Kept;
      ghost var s, next := Now(), dv;
      dvsize := dvsize + psize;
      dv := p;
      head := head[p := Tag(dvsize, true, false)];
      foot := foot[p + dvsize := dvsize];
      SwallowKept(chunks, (chunks - {next})[p := Chunk(dvsize, false)], p, next, Chunk(dvsize, false));
      chunks := (chunks - {next})[p := Chunk(dvsize, false)];
      EndInVictim(s, Now(), p);
      assert bins.Ok();
      assert Charted();
    }

    /** dispose_chunk, when the chunk after p is free and binned. */
    method DisposeIntoBinned(p: nat, psize: nat, ghost wasDv: bool)
      requires p > 0 && p in chunks && chunks[p].size == psize && bins.Ok() && Charted() && (dv == p <==> wasDv)
      requires UsedChunk(Standing(Now(), wasDv), p) && head[p].pinuse && NextChunk(Standing(Now(), wasDv), p)
      requires p + psize != top && p + psize != dv && !chunks[p + psize].inuse
      requires Ready(Standing(Now(), wasDv), p, p, 0)
      modifies this`head, this`foot, this`chunks, this`dvsize, bins
      ensures Up(0, 0) && Kept(old(chunks), chunks, p) && FreeFrom(chunks, p, psize)
      ensures p + psize in old(bins.items)
      ensures if wasDv then
          dvsize == psize + old(bins.items)[p + psize] && bins.items == old(bins.items) - {p + psize}
        else
          && dvsize == old(dvsize)
          && bins.items == (old(bins.items) - {p + psize})[p := psize + old(bins.items)[p + psize]]
    {
      hide Ready, Aligned, MallocState.Charted, FreeBins.Ok, UsedChunk, Kept;
      ghost var s := Standing(Now(), wasDv);
      var next := p + psize;
      var nsize := head[next].size;
      bins.Unlink(next, nsize);
      hide NextChunk;
      var whole := psize + nsize;
      head := head[p := Tag(whole, true, false)];
      foot := foot[next + nsize := whole];
      SwallowKept(chunks, (chunks - {next})[p := Chunk(whole, false)], p, next, Chunk(whole, false));
      chunks := (chunks - {next})[p := Chunk(whole, false)];
      EndInBinned(s, Standing(Now(), wasDv), p, nsize);
      Refile(p, whole, wasDv);
    }

    /** The joined chunk is the designated victim again, or goes to its bin. */
    method Refile(p: nat, whole: nat, ghost wasDv: bool)
      requires p > 0 && p in chunks && chunks[p].size == whole > 0 && bins.Ok() && Charted() && (dv == p <==> wasDv)
      requires Ready(Standing(Now(), wasDv), 0, 0, p)
      modifies this`dvsize, bins
      ensures Up(0, 0)
      ensures if wasDv then dvsize == whole && bins.items == old(bins.items)
        else dvsize == old(dvsize) && bins.items == old(bins.items)[p := whole]
    {
      hide Ready, MallocState.Charted, FreeBins.Ok;
      ghost var s := Standing(Now(), wasDv);
      if p == dv {
        dvsize := whole;
        MakeVictim(s, Now(), 0, p);
      } else {
        FileChunk(p, whole, 0);
      }
    }

    /** dispose_chunk, when p was joined with the designated victim and the chunk after it is in use. */
    method DisposeVictim(p: nat, psize: nat, next: nat)
      requires p > 0 && p in chunks && chunks[p].size == psize && next == p + psize && bins.Ok() && Charted() && dv == p
      requires UsedChunk(Standing(Now(), true), p) && head[p].pinuse && NextChunk(Standing(Now(), true), p)
      requires chunks[next].inuse && Ready(Standing(Now(), true), p, p, 0)
      modifies this`head, this`foot, this`chunks, this`dvsize
      ensures Up(0, 0) && Kept(old(chunks), chunks, p) && FreeFrom(chunks, p, psize)
      ensures dvsize == psize
    {
      hide Ready, Aligned, MallocState.Charted, FreeBins.Ok, SetPinuse, Kept;
      ChangeKept(chunks, chunks[p := Chunk(psize, false)], p, Chunk(psize, false));
      ghost var s := Standing(Now(), true);
      dvsize := psize;
      SetFreeWithPinuse(p, psize, next);
      ghost var mid := s.(h := Now().h);
      EndAlone(s, mid, p);
      MakeVictim(mid, Now(), 0, p);
    }

    /** The end of dispose_chunk, p being joined with its predecessor already: `wasDv` if that was the victim. */
    method DisposeForward(p: nat, psize: nat, ghost wasDv: bool)
      requires p > 0 && p in chunks && chunks[p].size == psize && p in head && head[p].pinuse
      requires bins.Ok() && Charted() && Ready(Standing(Now(), wasDv), p, p, 0)
      requires (dv == p <==> wasDv) && (wasDv ==> p + psize in chunks && !chunks[p + psize].inuse)
      modifies this`head, this`foot, this`chunks, this`top, this`topsize, this`dv, this`dvsize, bins
      ensures Up(0, 0) && Kept(old(chunks), chunks, p) && FreeFrom(chunks, p, psize)
      ensures FreedInto(old(Now()), Now(), p + psize, p, FrontEnd(old(chunks), p + psize))
    {
      hide Ready, Aligned, MallocState.Charted, FreeBins.Ok, Kept, FreedInto, FrontEnd;
      ghost var s0 := Now();
      ghost var s := Standing(Now(), wasDv);
      UsedFacts(s, p, p);
      var next := p + psize;
      NextFacts(s, p);
      if !head[next].cinuse {
        if next == top {
          DisposeIntoTop(p, psize, wasDv);
        } else if next == dv {
          DisposeIntoDv(p, psize);
        } else {
          DisposeIntoBinned(p, psize, wasDv);
        }
      } else {
        ChangeKept(chunks, chunks[p := Chunk(psize, false)], p, Chunk(psize, false));
        SetFreeWithPinuse(p, psize, next);
        EndAlone(s, Now(), p);
        FileChunk(p, psize, 0);
      }
      ForwardFiled(s0, Now(), p, psize, wasDv);
    }

    /** dispose_chunk: p, in use and held by no caller, is joined with its free neighbours and filed; no other chunk in
        use changes. */
    method Dispose(p0: nat, psize0: nat)
      requires p0 > 0 && p0 in chunks && chunks[p0].size == psize0 && Up(p0, 0)
      modifies this`head, this`foot, this`chunks, this`top, this`topsize, this`dv, this`dvsize, bins
      ensures Up(0, 0) && Kept(old(chunks), chunks, p0) && Covered(chunks, p0, p0 + psize0)
      ensures FreedFiled(old(Now()), Now(), p0, psize0)
    {
      hide Ready, Aligned, FreeBins.Ok, Total, Kept, FreeFrom, Covered, FreedInto, BackStart, FrontEnd;
      ghost var s := Now();
      var p, psize := p0, psize0;
      var next := p + psize;
      PrevFacts(s, p);
      ghost var wasDv := false;
      if !head[p].pinuse {
        assert head[p].cinuse;                 // so not a directly mapped chunk
        var prevsize := foot[p];
        var prev := p - prevsize;
        psize := psize + prevsize;
        p := prev;
        AboveLeast(s, p0, p, leastAddr);
        assert p >= leastAddr;                 // ok_address: the error branch is never taken
        if p != dv {
          bins.Unlink(p, prevsize);
        } else {
          wasDv := true;
        }
        chunks := (chunks - {p0})[p := Chunk(psize, true)];
        JoinBack(s, Standing(Now(), wasDv), p0, p);
        UsedFacts(Standing(Now(), wasDv), p, p);
        NextFacts(Standing(Now(), wasDv), p);
        FreeFacts(s, 0, p0, 0, p);
        ghost var mid := Now();
        assert mid.items == s.items - {p};
        if p == dv && head[next].pinuse && head[next].cinuse {
          DisposeVictim(p, psize, next);
          ForwardFiled(mid, Now(), p, psize, true);
        } else {
          DisposeForward(p, psize, wasDv);
        }
        BackKept(s.h.chunks, mid.h.chunks, chunks, p0, p, Chunk(psize, true));
        BackFirst(s, mid, Now(), p0, psize0, p);
      } else {
        StaleReady(s, p);
        DisposeForward(p, psize, wasDv);
        StartsWhereSet(s, p, p);
      }
      CoveredBy(chunks, p, psize, p0, p0 + psize0);
    }

    // ---- memory from the system

    /** init_top */
    method InitTopChunk(p: nat, psize: nat)
      modifies this`top, this`topsize, this`head
      ensures top == p && topsize == psize && head == InitTop(old(head), p, psize)
    {
      top := p;
      topsize := psize;
      head := head[p := Tag(psize, true, false)];
      head := head[p + psize := Tag(TOP_FOOT, false, false)];
    }

    /** The first region: all of it is the top chunk. */
    method FirstRegion(r: Segment)
      requires Bare() && RegionOk(r)
      modifies this`segs, this`leastAddr, this`top, this`topsize, this`head, this`chunks, this`lims
      ensures bins.Ok() && Least() && Ready(Now(), 0, 0, 0) && segs == [r] && topsize == TopSize(r)
        && top == r.First() && leastAddr == r.base
      ensures Kept(old(chunks), chunks, 0)
    {
      hide Ready, Aligned, WordSized, FreeBins.Ok, Segment.First, InitTop, Kept;
      ghost var was := head;
      leastAddr := r.base;
      segs := [r];
      InitTopChunk(r.First(), r.End() - TOP_FOOT - r.First());
      lims := [r.End() - TOP_FOOT];
      FreeKept(chunks, map[top := Chunk(topsize, false)], 0, 0, 0);
      chunks := map[top := Chunk(topsize, false)];
      Start(Now(), r, was);
    }

    /** A region right after the newest segment: the top chunk grows. */
    method AppendRegion(r: Segment)
      requires bins.Ok() && Least() && |segs| > 0 && segs[0].End() == r.base && RegionOk(r) && Unused(Now().h, r)
      requires Ready(Now(), 0, 0, 0)
      modifies this`segs, this`top, this`topsize, this`head, this`chunks, this`lims
      ensures bins.Ok() && Least() && Ready(Now(), 0, 0, 0) && topsize == old(topsize) + r.size && top == old(top)
      ensures Kept(old(chunks), chunks, 0)
      ensures segs == old(segs)[0 := Segment(old(segs)[0].base, old(segs)[0].size + r.size)]
    {
      hide Ready, Aligned, WordSized, FreeBins.Ok, Segment.First, InitTop, Kept;
      ghost var s := Now();
      TopFacts(s, 0, 0, 0);
      TopSegment(s, 0);
      segs := segs[0 := Segment(segs[0].base, segs[0].size + r.size)];
      InitTopChunk(top, topsize + r.size);
      lims := lims[0 := lims[0] + r.size];
      FreeKept(chunks, chunks[top := Chunk(topsize, false)], top, top, top);
      chunks := chunks[top := Chunk(topsize, false)];
      Append(s, Now(), r);
    }

    /** The fenceposts of add_segment: every word from p0 on whose head lies below the end of the segment, and as many
        of them as `nfences` says. */
    method PutFenceposts(p0: nat, oldEnd: nat) returns (nfences: nat)
      requires p0 + 16 < oldEnd
      modifies this`head
      ensures Fenced(old(head), head, p0, oldEnd)
      ensures nfences >= 2 && FenceAt(p0, nfences - 1) + 8 < oldEnd <= FenceAt(p0, nfences) + 8
      ensures forall a :: a in head && !(p0 <= a < oldEnd) ==> a in old(head)
    {
      var p := p0;
      head := head[p := FENCEPOST];
      nfences := 1;
      while p + 16 < oldEnd
        invariant nfences >= 1 && p == FenceAt(p0, nfences - 1) && p + 8 < oldEnd
        invariant forall k: nat :: k < nfences ==> FenceAt(p0, k) in head && head[FenceAt(p0, k)] == FENCEPOST
        invariant forall a :: a in old(head) && !(p0 <= a < oldEnd) ==> a in head && head[a] == old(head)[a]
        invariant forall a :: a in head && !(p0 <= a < oldEnd) ==> a in old(head)
        decreases oldEnd - p
      {
        p := p + 8;
        head := head[p := FENCEPOST];
        nfences := nfences + 1;
      }
    }

    /** The words add_segment writes: the new top chunk, the record, fenceposts, and the rest of the old top chunk. */
    method WriteSegment(r: Segment, oldTop: nat, oldEnd: nat, csp: nat)
      requires oldTop <= csp && csp + RECORD_SIZE + 16 < oldEnd && RegionOk(r)
      modifies this`top, this`topsize, this`head, this`foot
      ensures top == r.First() && topsize == TopSize(r)
      ensures Fenced(Retagged(InitTop(old(head), r.First(), TopSize(r)), oldTop, csp), head, csp + RECORD_SIZE, oldEnd)
      ensures foot == if csp == oldTop then old(foot) else old(foot)[csp := csp - oldTop]
    {
      hide Aligned, WordSized, Segment.First, Fenced;
      InitTopChunk(r.First(), r.End() - TOP_FOOT - r.First());
      ghost var t := head;
      head := head[csp := Tag(RECORD_SIZE, true, true)];
      var nfences := PutFenceposts(csp + RECORD_SIZE, oldEnd);
      assert nfences >= 2;
      ghost var t1 := head;
      if csp != oldTop {
        head := SetPinuse(head, csp, false);
        head := head[oldTop := Tag(csp - oldTop, true, false)];
        foot := foot[csp := csp - oldTop];
      }
      RetagFenced(t, t1, head, oldTop, csp, oldEnd);
    }

    /** add_segment */
    method AddSegment(r: Segment)
      requires bins.Ok() && Least() && |segs| > 0 && leastAddr <= r.base && RegionOk(r) && Unused(Now().h, r)
      requires Ready(Now(), 0, 0, 0)
      modifies this`segs, this`top, this`topsize, this`head, this`foot, this`chunks, this`lims, this`records, bins
      ensures bins.Ok() && Least() && Ready(Now(), 0, 0, 0) && segs == [r] + old(segs) && topsize == TopSize(r)
      ensures top == r.First() && top !in old(chunks) && Kept(old(chunks), chunks, 0)
      ensures old(segs)[0].End() >= RECORD_SIZE + 32 + 15 && old(top) <= RecordPlace(old(top), old(segs)[0].End())
      ensures var c := RecordPlace(old(top), old(segs)[0].End());
        && records == old(records) + {c} && old(segs)[0].base <= c && Closed(Now().h, c, old(segs)[0].End())
        && bins.items == if c == old(top) then old(bins.items) else old(bins.items)[old(top) := c - old(top)]
    {
      hide Ready, Aligned, WordSized, FreeBins.Ok, Segment.First, RecordPlace, Fenced, Relaid, Retagged, InitTop,
        RegionOk, Unused, Kept, Closed;
      ghost var s := Now();
      RecordFound(s);
      var oldTop, oldEnd := top, segs[0].End();
      var csp := RecordPlace(oldTop, oldEnd);
      WriteSegment(r, oldTop, oldEnd, csp);
      segs := [r] + segs;
      chunks := Relaid(chunks, oldTop, csp)[top := Chunk(topsize, false)];
      lims := [r.End() - TOP_FOOT, csp + RECORD_SIZE] + lims[1..];
      records := records + {csp};
      AddRegionAt(s, Now(), r, csp);
      if csp != oldTop {
        FileOldTop(oldTop, csp - oldTop);
      }
    }

    method FileOldTop(q: nat, psize: nat)
      requires bins.Ok() && Ready(Now(), 0, 0, q) && q > 0
      requires q in chunks && chunks[q].size == psize
      modifies bins
      ensures bins.Ok() && Ready(Now(), 0, 0, 0) && bins.items == old(bins.items)[q := psize]
    {
      hide Ready, FreeBins.Ok;
      ghost var mid := Now();
      LooseFacts(mid, 0, 0, q);
      bins.Insert(q, psize);
      FileLoose(mid, Now(), 0, q);
    }

    /** prepend_alloc, when the old segment starts with the top chunk. */
    method PrependToTop(i: nat, r: Segment, nb: nat)
      requires Divisible(Now(), i, r, nb) && r.First() + r.size == top && Ready(Now(), 0, 0, 0)
      modifies this`segs, this`top, this`topsize, this`head, this`chunks
      ensures Ready(Now(), 0, r.First(), 0) && r.First() in chunks && chunks[r.First()] == Chunk(nb, true)
      ensures Kept(old(chunks), chunks, 0)
      ensures top == r.First() + nb && topsize == old(topsize) + (r.size - nb)
      ensures segs == old(segs)[i := Segment(r.base, r.size + old(segs)[i].size)]
    {
      hide Ready, Aligned, WordSized, Segment.First, RegionOk, Unused, Kept;
      ghost var s := Now();
      var p := r.First();
      var q, tsize := p + nb, topsize + (r.size - nb);
      segs := segs[i := Segment(r.base, r.size + segs[i].size)];
      head := head[p := Tag(nb, true, true)];
      chunks := (chunks[p := Chunk(nb, true)] - {top})[q := Chunk(tsize, false)];
      topsize := tsize;
      top := q;
      head := head[q := Tag(tsize, true, false)];
      RestInTop(s, Now(), i, r, nb);
    }

    /** prepend_alloc, when the old segment starts with the designated victim. */
    method PrependToVictim(i: nat, r: Segment, nb: nat)
      requires Divisible(Now(), i, r, nb) && r.First() + r.size == dv && Ready(Now(), 0, 0, 0)
      modifies this`segs, this`dv, this`dvsize, this`head, this`foot, this`chunks
      ensures Ready(Now(), 0, r.First(), 0) && r.First() in chunks && chunks[r.First()] == Chunk(nb, true)
      ensures Kept(old(chunks), chunks, 0)
      ensures dv == r.First() + nb && dvsize == old(dvsize) + (r.size - nb)
      ensures segs == old(segs)[i := Segment(r.base, r.size + old(segs)[i].size)]
    {
      hide Ready, Aligned, WordSized, Segment.First, RegionOk, Unused, Kept;
      ghost var s := Now();
      var p := r.First();
      var q, dsize := p + nb, dvsize + (r.size - nb);
      segs := segs[i := Segment(r.base, r.size + segs[i].size)];
      head := head[p := Tag(nb, true, true)];
      chunks := (chunks[p := Chunk(nb, true)] - {dv})[q := Chunk(dsize, false)];
      dvsize := dsize;
      dv := q;
      head := head[q := Tag(dsize, true, false)];
      foot := foot[q + dsize := dsize];
      RestInVictim(s, Now(), i, r, nb);
    }

    /** prepend_alloc, when the old segment starts with a binned chunk or one in use. */
    method PrependToBins(i: nat, r: Segment, nb: nat)
      requires bins.Ok() && Divisible(Now(), i, r, nb) && FirstFound(Now(), i, r, nb) && Ready(Now(), 0, 0, 0)
      requires r.First() + r.size != top && r.First() + r.size != dv
      modifies this`segs, this`head, this`foot, this`chunks, bins
      ensures bins.Ok() && Ready(Now(), 0, r.First(), r.First() + nb) && Kept(old(chunks), chunks, 0)
      ensures r.First() in chunks && chunks[r.First()] == Chunk(nb, true) && r.First() + nb in chunks
      ensures RestLoose(old(Now()), Now(), r.First() + nb, r.First() + r.size)
      ensures segs == old(segs)[i := Segment(r.base, r.size + old(segs)[i].size)]
    {
      hide Ready, Aligned, WordSized, Segment.First, RegionOk, Unused, FreeBins.Ok, Kept;
      ghost var s := Now();
      var p, oldfirst := r.First(), segs[i].First();
      var q, qsize := p + nb, r.size - nb;
      segs := segs[i := Segment(r.base, r.size + segs[i].size)];
      if !head[oldfirst].cinuse {
        var nsize := head[oldfirst].size;
        head := head[p := Tag(nb, true, true)];
        bins.Unlink(oldfirst, nsize);
        chunks := chunks[p := Chunk(nb, true)] - {oldfirst};
        SetFreeWithPinuse(q, qsize + nsize, oldfirst + nsize);
        RestInBinned(s, Now(), i, r, nb, nsize);
      } else {
        head := head[p := Tag(nb, true, true)];
        chunks := chunks[p := Chunk(nb, true)];
        SetFreeWithPinuse(q, qsize, oldfirst);
        RestAlone(s, Now(), i, r, nb);
      }
    }

    /** prepend_alloc */
    method PrependAlloc(i: nat, r: Segment, nb: nat) returns (p: nat)
      requires bins.Ok() && Divisible(Now(), i, r, nb) && Ready(Now(), 0, 0, 0)
      modifies this`segs, this`top, this`topsize, this`dv, this`dvsize, this`head, this`foot, this`chunks, bins
      ensures p == r.First() > 0 && bins.Ok() && Ready(Now(), 0, p, 0) && p in chunks && chunks[p] == Chunk(nb, true)
        && p !in old(chunks)
      ensures Kept(old(chunks), chunks, 0) && PrependFiled(old(Now()), Now(), r, nb, i)
      ensures segs == old(segs)[i := Segment(r.base, r.size + old(segs)[i].size)]
    {
      hide Ready, Aligned, WordSized, Segment.First, RegionOk, Unused, FreeBins.Ok, Kept, FreedInto, FrontEnd;
      ghost var s := Now();
      OldFirst(s, i, r, nb);
      p := r.First();
      var oldfirst := segs[i].First();
      if oldfirst == top {
        PrependToTop(i, r, nb);
      } else if oldfirst == dv {
        PrependToVictim(i, r, nb);
      } else {
        PrependToBins(i, r, nb);
        var q := p + nb;
        ghost var mid := Now();
        LooseFacts(mid, 0, p, q);
        LooseTagged(mid, p, q);
        var qsize := head[q].size;
        bins.Insert(q, qsize);
        FileLoose(mid, Now(), p, q);
      }
      assert RestJoined(s, Now(), p + nb, oldfirst);
      PrependIs(s, Now(), r, nb, i);
    }

    /** The segment that ends where a new region starts. */
    method SegmentEndingAt(a: nat) returns (i: nat)
      ensures i <= |segs| && (i < |segs| ==> segs[i].End() == a)
      ensures forall j :: 0 <= j < i ==> segs[j].End() != a
    {
      i := 0;
      while i < |segs| && a != segs[i].End()
        invariant i <= |segs| && forall j :: 0 <= j < i ==> segs[j].End() != a
      {
        i := i + 1;
      }
    }

    /** The segment that starts where a new region ends. */
    method SegmentStartingAt(a: nat) returns (i: nat)
      ensures i <= |segs| && (i < |segs| ==> segs[i].base == a)
      ensures i == |segs| ==> forall j :: 0 <= j < |segs| ==> segs[j].base != a
    {
      i := 0;
      while i < |segs| && segs[i].base != a
        invariant i <= |segs| && forall j :: 0 <= j < i ==> segs[j].base != a
      {
        i := i + 1;
      }
    }

    /** Merges a region with a segment or adds it as one: afterwards the top chunk, or p, has room for nb bytes. */
    method MergeRegion(r: Segment, nb: nat) returns (p: nat)
      requires bins.Ok() && Least() && |segs| > 0 && RegionOk(r) && Unused(Now().h, r) && Ready(Now(), 0, 0, 0)
      requires Aligned(nb) && MIN_CHUNK <= nb && nb + SYS_ALLOC_PADDING <= r.size
      modifies this`segs, this`top, this`topsize, this`dv, this`dvsize, this`head, this`foot, this`chunks, this`lims,
               this`records, this`leastAddr, bins
      ensures bins.Ok() && Least() && Total(segs) == Total(old(segs)) + r.size && Ready(Now(), 0, p, 0)
      ensures RegionFiled(old(Now()), Now(), r, nb, p)
      ensures leastAddr == if r.base < old(leastAddr) then r.base else old(leastAddr)
      ensures Kept(old(chunks), chunks, 0) && Took(old(segs), segs, old(records), records, r)
      ensures p == 0 ==> nb < topsize && (top == old(top) || top !in old(chunks))
      ensures p != 0 ==> p in chunks && chunks[p].size == nb && p !in old(chunks)
    {
      hide Ready, Aligned, WordSized, Segment.First, Unused, FreeBins.Ok, Total, Kept, RegionFiled, PrependFiled, Took,
        TopThen, TopSizeThen, BinsThen, RecordPlace;
      ghost var s := Now();
      TopSegment(s, 0);
      var i := SegmentEndingAt(r.base);
      p := 0;
      if i < |segs| {
        TopSegment(s, i);
      }
      if i < |segs| && segs[i].base <= top < segs[i].End() {
        GrownTotal(segs, 0, Segment(segs[0].base, segs[0].size + r.size), r.size);
        AppendRegion(r);
        AppendFiled(s, Now(), r, nb);
        TookMerged(s.h.segs, segs, records, r, 0);
      } else {
        assert !Extending(s, r);
        if r.base < leastAddr {
          leastAddr := r.base;
        }
        i := SegmentStartingAt(r.End());
        if i < |segs| {
          GrownTotal(segs, i, Segment(r.base, r.size + segs[i].size), r.size);
          p := PrependAlloc(i, r, nb);
          PrependedFiled(s, Now(), r, nb, i);
          TookMerged(s.h.segs, segs, records, r, i);
        } else {
          AddedTotal(segs, r);
          AddSegment(r);
          AddedFiled(s, Now(), r, nb);
          TookNew(s.h.segs, s.h.records, records, r, RecordPlace(s.h.top, s.h.segs[0].End()));
        }
      }
    }

    /** The region the system offers for a chunk of nb bytes. */
    ghost function Offer(nb: nat, system: nat -> nat): Segment
      reads this`granularity
    {
      Segment(system(SystemSize(nb, granularity)), SystemSize(nb, granularity))
    }

    ghost function Ledger(): Account
      reads this
    {
      Account(footprint, maxFootprint, granularity, leastAddr)
    }

    /** The request fails. */
    ghost predicate Exhausted(bytes: nat, system: nat -> nat)
      reads this, bins
    {
      OutOfMemory(Now(), bytes, granularity, footprint, footprintLimit, system)
    }

    /** Takes in a granted region and accounts for it; p is a chunk of nb bytes in it, or 0 if it became top space. */
    method TakeRegion(r: Segment, nb: nat) returns (p: nat)
      requires (Blank() || Up(0, 0)) && RegionOk(r) && Unused(Now().h, r)
      requires Aligned(nb) && MIN_CHUNK <= nb && nb + SYS_ALLOC_PADDING <= r.size
      modifies this`segs, this`top, this`topsize, this`dv, this`dvsize, this`head, this`foot, this`chunks, this`lims,
               this`records, this`leastAddr, this`footprint, this`maxFootprint, bins
      ensures Up(p, 0) && (p == 0 ==> nb < topsize && (top == old(top) || top !in old(chunks)))
      ensures RegionFiled(old(Now()), Now(), r, nb, p) && Ledger() == Charged(old(Ledger()), r)
      ensures Kept(old(chunks), chunks, 0) && Took(old(segs), segs, old(records), records, r)
      ensures p != 0 ==> p in chunks && chunks[p].size == nb && p !in old(chunks)
    {
      hide Ready, Aligned, WordSized, Segment.First, FreeBins.Ok, Total, Unused, Kept, RegionFiled, Took;
      ghost var s := Now();
      ghost var before := Total(segs);
      ghost var was := segs;
      if !Blank() {
        TopFacts(Now(), 0, 0, 0);
        TopSegmentThere(Now(), 0, 0);
      }
      footprint := Wrap(footprint + r.size);
      if footprint > maxFootprint {
        maxFootprint := footprint;
      }
      p := 0;
      if top == 0 {
        FirstRegion(r);
        AddedTotal(was, r);
        assert [r] + was == [r];
        EmptyTotal(was);
        FirstFiled(s, Now(), r, nb);
        FirstTook(records, r);
      } else {
        p := MergeRegion(r, nb);
      }
      FootprintExact(Now(), 0, p, 0, before, r.size);
    }

    /** sys_alloc: fails exactly when there is no region for the chunk. */
    method SysAlloc(nb: nat, system: nat -> nat) returns (p: nat)
      requires Valid() && nb < WORD && (nb == MAX_SIZE_T || (Aligned(nb) && MIN_CHUNK <= nb)) && Trusted(Now(), system)
      modifies this, bins
      ensures p == 0 <==> Refused(nb, old(granularity), old(footprint), footprintLimit, system)
      ensures p == 0 ==> Valid() && Now() == old(Now())
      ensures p != 0 ==>
        Up(p, 0) && Grain(granularity, grainBits) && p in chunks && chunks[p].size == nb && live == old(live)
      ensures Kept(old(chunks), chunks, 0) && (p == 0 ==> Ledger() == old(Ledger()))
      ensures p != 0 ==> var asize := SystemSize(nb, old(granularity));
        && Took(old(segs), segs, old(records), records, Segment(system(asize), asize))
        && Served(old(Now()), Now(), Segment(system(asize), asize), nb, p)
        && Ledger() == Charged(old(Ledger()), Segment(system(asize), asize)).(grain := 2 * old(granularity))
      ensures slack == old(slack) && (p != 0 ==> WasFree(old(chunks), p))
      ensures p != 0 ==> (p == old(top) || p !in old(chunks)) && nb < MAX_SIZE_T
    {
      hide Ready, Aligned, WordSized, Segment.First, FreeBins.Ok, Total, Unused, Grain, SystemSize, Wrap, Kept, Took,
        Snug, RegionFiled, Served, WasFree, Refused;
      SelfKept(chunks, 0);
      var asize := SystemSize(nb, granularity);
      SystemSizeEnough(nb, granularity, grainBits);
      FootprintWord();
      RefusedMeans(nb, granularity, grainBits, footprint, footprintLimit, system);
      if asize <= nb {
        return 0;
      }
      if footprintLimit != 0 {
        var fp := Wrap(footprint + asize);
        if fp <= footprint || fp > footprintLimit {
          return 0;
        }
      }
      var region := system(asize);
      if region == 0 {
        return 0;
      }
      TooBig(nb, asize, region);
      SystemSizeAligned(nb, granularity, grainBits);
      GrantOk(region, asize);
      GrainDoubles(granularity, grainBits);
      granularity, grainBits := 2 * granularity, grainBits + 1;
      p := UseRegion(Segment(region, asize), nb);
    }

    lemma FootprintWord()
      requires Valid()
      ensures footprint < WORD
    {
      hide Ready, FreeBins.Ok, Snug, Grain;
      if !Blank() {
        FootprintBound(Now());
      }
    }

    /** Takes in a granted region and gives away a chunk of nb bytes. */
    method UseRegion(r: Segment, nb: nat) returns (p: nat)
      requires (Blank() || Up(0, 0)) && RegionOk(r) && Unused(Now().h, r)
      requires Aligned(nb) && MIN_CHUNK <= nb && nb + SYS_ALLOC_PADDING <= r.size
      modifies this`segs, this`top, this`topsize, this`dv, this`dvsize, this`head, this`foot, this`chunks, this`lims,
               this`records, this`leastAddr, this`footprint, this`maxFootprint, bins
      ensures p != 0 && Up(p, 0) && p in chunks && chunks[p].size == nb && Kept(old(chunks), chunks, 0)
      ensures Took(old(segs), segs, old(records), records, r) && Served(old(Now()), Now(), r, nb, p)
      ensures Ledger() == Charged(old(Ledger()), r)
      ensures WasFree(old(chunks), p) && (p == old(top) || p !in old(chunks))
    {
      hide Ready, Aligned, FreeBins.Ok, Total, Unused, Kept, Took, RegionFiled, Served, RegionOk, MallocState.Charted,
        WasFree;
      ghost var s := Now();
      p := TakeRegion(r, nb);
      if p == 0 {
        ghost var mid := Now();
        p := AllocFromTop(nb);
        KeptTrans(s.h.chunks, mid.h.chunks, chunks, 0);
        RegionPlace(r);
        ServedFromTop(s, mid, Now(), r, nb, p);
      } else {
        ServedDirectly(s, Now(), r, nb, p);
      }
      if !old(Blank()) {
        SourceFree(s, p);
      } else {
        NothingThere(s.h.chunks, p);
      }
    }

    /** The search of malloc through bins, designated victim and top chunk. */
    method AllocFree(nb: nat, small: bool) returns (p: nat)
      requires (Blank() || Up(0, 0)) && Aligned(nb) && MIN_CHUNK <= nb
      requires if small then nb + 8 < MIN_LARGE_SIZE else MIN_LARGE_SIZE <= nb < WORD
      modifies this`head, this`foot, this`chunks, this`top, this`topsize, this`dv, this`dvsize, bins
      ensures p != 0 ==> Up(p, 0) && Kept(old(chunks), chunks, 0) && WasFree(old(chunks), p)
      ensures p != 0 ==> p in chunks && nb <= chunks[p].size < nb + MIN_CHUNK && Policy(old(Now()), p, nb, small)
      ensures p != 0 ==> chunks[p].size == GivenSize(old(Now()), p, nb)
      ensures p == 0 ==> (Blank() || Up(0, 0)) && Now() == old(Now()) && NothingFits(Now(), nb) && topsize <= nb
      ensures p != 0 ==> !NothingFits(old(Now()), nb) || nb < old(topsize)
      ensures p != 0 ==> RestFiled(old(Now()), Now(), p, nb, small)
    {
      hide Ready, Aligned, FreeBins.Ok, MallocState.Charted, Kept, WasFree;
      ghost var s := Now();
      if small {
        p := AllocSmall(nb);
      } else if bins.treemap != 0 {
        bins.TreeBinUsed();
        p := TmallocLarge(nb);
      } else {
        bins.NoTreeBins();
        p := 0;
      }
      if p == 0 {
        if nb <= dvsize {
          VictimUnbinned(s);
          p := AllocVictim(nb);
        } else if nb < topsize {
          TopFacts(s, 0, 0, 0);
          FiledIsChunk(s, top);
          p := AllocFromTop(nb);
        }
      }
      if p != 0 && Ready(s, 0, 0, 0) {
        SourceFree(s, p);
      }
    }

    /** The chunk that malloc gives for a request, before its caller holds it. */
    method Provide(bytes: nat, system: nat -> nat) returns (p: nat)
      requires Valid() && bytes < WORD && Trusted(Now(), system)
      modifies this, bins
      ensures p == 0 ==> Valid() && Now() == old(Now()) && Ledger() == old(Ledger())
      ensures p == 0 <==> old(Exhausted(bytes, system))
      ensures slack == old(slack) && live == old(live) && Kept(old(chunks), chunks, 0)
      ensures p != 0 ==> bytes < MAX_REQUEST && Up(p, 0) && Grain(granularity, grainBits) && p + 16 !in live
      ensures p != 0 ==>
        p in chunks && chunks[p].size == GivenSize(old(Now()), p, Pad(bytes)) && WasFree(old(chunks), p)
      ensures p != 0 ==> Pad(bytes) <= chunks[p].size < Pad(bytes) + MIN_CHUNK
      ensures p != 0 ==> Allocated(old(Now()), old(Ledger()), Now(), Ledger(), p, bytes, old(Offer(Pad(bytes), system)))
    {
      hide Ready, Aligned, FreeBins.Ok, MallocState.Charted, Pad, Fits, Grain, Trusted, SystemSize, Kept, WasFree, Took,
        Snug, RestFiled, Served, Refused, OutOfMemory;
      ghost var s := Now();
      var nb := Request(bytes);
      PadFacts(bytes);
      p := 0;
      if bytes < MAX_REQUEST {
        OutMeans(s, bytes, granularity, footprint, footprintLimit, system);
        p := AllocFree(nb, bytes <= MAX_SMALL_REQUEST);
      } else {
        TooLarge(s, bytes, granularity, footprint, footprintLimit, system);
        if !Blank() {
          TooBigToFit(s);
        }
      }
      if p == 0 {
        p := SysAlloc(nb, system);
        if p != 0 && !old(Blank()) {
          FiledIsChunk(s, p);
        }
      }
      if p != 0 {
        HoleUnheld(Now(), p);
      } else {
        SelfKept(chunks, 0);
      }
    }

    /** dlmalloc */
    method Malloc(bytes: nat, system: nat -> nat) returns (mem: nat)
      requires Valid() && bytes < WORD && Trusted(Now(), system)
      modifies this, bins
      ensures Valid() && Kept(old(chunks), chunks, 0) && slack == old(slack)
      ensures mem == 0 ==> Now() == old(Now()) && Ledger() == old(Ledger())
      ensures mem == 0 <==> old(Exhausted(bytes, system))
      ensures mem != 0 ==> bytes < MAX_REQUEST && mem !in old(live) && live == old(live)[mem := bytes] && mem > 16
      ensures mem != 0 ==>
        mem - 16 in chunks && chunks[mem - 16].size < Pad(bytes) + MIN_CHUNK && WasFree(old(chunks), mem - 16)
      ensures mem != 0 ==> chunks[mem - 16].size == GivenSize(old(Now()), mem - 16, Pad(bytes))
      ensures mem != 0 ==>
        Allocated(old(Now()), old(Ledger()), Now(), Ledger(), mem - 16, bytes, old(Offer(Pad(bytes), system)))
    {
      hide Ready, Aligned, FreeBins.Ok, MallocState.Charted, Pad, Fits, Grain, Trusted, SystemSize, Kept, WasFree, Snug,
        OutOfMemory, GivenSize, Allocated;
      ghost var s := Now();
      var p := Provide(bytes, system);
      mem := 0;
      if p != 0 {
        mem := p + 16;
        FitsExactly(bytes);
        ghost var mid := Now();
        live := live[mem := bytes];
        Deliver(mid, Now(), p, bytes);
        SnugKept(s, slack, live, chunks, slack, 0, mem);
        SameAllocated(s, old(Ledger()), mid, Now(), Ledger(), p, bytes, old(Offer(Pad(bytes), system)));
      }
    }

    // ---- free, realloc, memalign

    /** dlfree; the usage and corruption checks always pass. */
    method Free(mem: nat)
      requires Valid() && (mem == 0 || mem in live)
      modifies this`head, this`foot, this`chunks, this`top, this`topsize, this`dv, this`dvsize, this`live, this`slack,
               bins
      ensures Valid() && (mem != 0 ==> live == old(live) - {mem} && mem > 16 && mem - 16 in old(chunks))
      ensures mem != 0 ==> Kept(old(chunks), chunks, mem - 16)
      ensures mem != 0 ==> Covered(chunks, mem - 16, mem - 16 + old(chunks)[mem - 16].size)
      ensures mem != 0 ==> FreedFiled(old(Now()), Now(), mem - 16, old(chunks)[mem - 16].size)
      ensures mem == 0 ==> Now() == old(Now())
      ensures slack == if mem == 0 then old(slack) else old(slack) - {mem}
    {
      hide Ready, Aligned, FreeBins.Ok, MallocState.Charted, Fits, Grain, Kept, Covered, Snug, Pad, FreedInto,
        BackStart, FrontEnd;
      if mem != 0 {
        ghost var s := Now();
        HeldFacts(s, mem);
        var p := mem - 16;
        live := live - {mem};
        ghost var mid := Now();
        Release(s, mid, p);
        var psize := head[p].size;
        InUseChecks(p, psize);
        Dispose(p, psize);
        FreedLater(s, mid, Now(), Now(), p, psize);
        slack := slack - {mem};
        SnugKept(s, old(slack), live, chunks, slack, p, mem);
      }
    }

    /** The run-time checks on a chunk about to be freed or resized: ok_address, ok_inuse, ok_next and ok_pinuse. */
    lemma InUseChecks(p: nat, psize: nat)
      requires Up(p, 0) && p > 0 && p in chunks && chunks[p].size == psize
      ensures p >= leastAddr && p in head && head[p].cinuse && p < p + psize
      ensures p + psize in head && head[p + psize].pinuse
    {
      hide Ready, Aligned, FreeBins.Ok, Total;
      PrevFacts(Now(), p);
      AboveLeast(Now(), p, p, leastAddr);
    }

    /** set_inuse twice and dispose_chunk: the part of p beyond nb bytes is freed. */
    method Shrink(p: nat, nb: nat, rsize: nat, ghost bytes: nat)
      requires p > 0 && p in chunks && chunks[p].size == nb + rsize && Up(p, 0)
      requires Aligned(nb) && MIN_CHUNK <= nb && MIN_CHUNK <= rsize && Fits(bytes, nb)
      modifies this`head, this`foot, this`chunks, this`top, this`topsize, this`dv, this`dvsize, this`live, bins
      ensures Up(0, 0) && live == old(live)[p + 16 := bytes]
      ensures Kept(old(chunks), chunks, p) && p in chunks && chunks[p].size == nb
      ensures FreedFiled(old(Now()), Now(), p + nb, rsize)
    {
      hide Ready, Aligned, FreeBins.Ok, MallocState.Charted, Fits, SetInuse, Kept, FreedInto, BackStart, FrontEnd;
      ghost var s := Now();
      var r := p + nb;
      head := SetInuse(head, p, nb);
      head := SetInuse(head, r, rsize);
      chunks := chunks[p := Chunk(nb, true)][r := Chunk(rsize, true)];
      live := live[p + 16 := bytes];
      CutTail(s, Now(), p, nb, bytes);
      ghost var mid := Now();
      Dispose(r, rsize);
      CutKept(s.h.chunks, mid.h.chunks, chunks, p, r, r);
      TailFreed(s, mid, Now(), p, nb);
    }

    method GrowIntoTop(p: nat, nb: nat)
      requires p > 0 && p in chunks && p + chunks[p].size == top && chunks[p].size <= nb < chunks[p].size + topsize
      requires Aligned(nb) && MIN_CHUNK <= nb && p in head && head[p].size == chunks[p].size && Up(p, 0)
      modifies this`head, this`chunks, this`top, this`topsize
      ensures Up(p, 0) && Kept(old(chunks), chunks, p) && p in chunks && chunks[p].size == nb
      ensures top == p + nb && topsize == old(chunks)[p].size + old(topsize) - nb
    {
      hide Ready, Aligned, FreeBins.Ok, MallocState.Charted, SetInuse, Kept;
      ghost var s := Now();
      var newsize := head[p].size + topsize;
      var newtopsize := newsize - nb;
      var newtop := p + nb;
      head := SetInuse(head, p, nb);
      head := head[newtop := Tag(newtopsize, true, false)];
      chunks := (chunks - {top})[p := Chunk(nb, true)][newtop := Chunk(newtopsize, false)];
      top := newtop;
      topsize := newtopsize;
      GrowToTop(s, Now(), p, nb);
    }

    method GrowIntoVictim(p: nat, nb: nat)
      requires p > 0 && p in chunks && p + chunks[p].size == dv && dvsize > 0
      requires chunks[p].size <= nb && nb + MIN_CHUNK <= chunks[p].size + dvsize
      requires Aligned(nb) && MIN_CHUNK <= nb && p in head && head[p].size == chunks[p].size && Up(p, 0)
      modifies this`head, this`foot, this`chunks, this`dv, this`dvsize
      ensures Up(p, 0) && Kept(old(chunks), chunks, p) && p in chunks && chunks[p].size == nb
      ensures dv == p + nb && dvsize == old(chunks)[p].size + old(dvsize) - nb
    {
      hide Ready, Aligned, FreeBins.Ok, MallocState.Charted, SetInuse, SetPinuse, Kept;
      ghost var s := Now();
      var dsize := head[p].size + dvsize - nb;
      var r := p + nb;
      head := SetPinuse(SetInuse(head, p, nb)[r := Tag(dsize, true, false)], r + dsize, false);
      foot := foot[r + dsize := dsize];
      chunks := (chunks - {dv})[p := Chunk(nb, true)][r := Chunk(dsize, false)];
      dvsize, dv := dsize, r;
      GrowToVictim(s, Now(), p, nb);
    }

    /** p takes all of its free successor n, filed nowhere now. */
    method Annex(p: nat, n: nat, whole: nat)
      requires p > 0 && n > 0 && p in chunks && n == p + chunks[p].size && n in chunks
        && whole == chunks[p].size + chunks[n].size
      requires Up(p, n)
      modifies this`head, this`chunks
      ensures Up(p, 0) && head == SetInuse(old(head), p, whole)
      ensures Kept(old(chunks), chunks, p) && chunks == (old(chunks) - {n})[p := Chunk(whole, true)]
    {
      hide Ready, Aligned, FreeBins.Ok, MallocState.Charted, SetInuse, Kept;
      ghost var s := Now();
      head := SetInuse(head, p, whole);
      chunks := (chunks - {n})[p := Chunk(whole, true)];
      GrowWhole(s, Now(), p, n);
    }

    /** p grows into its free successor n and what is beyond nb bytes is freed again. */
    method AnnexPart(p: nat, n: nat, nb: nat, rsize: nat, ghost bytes: nat)
      requires p > 0 && n > 0 && p in chunks && n == p + chunks[p].size && n in chunks
      requires nb + rsize == chunks[p].size + chunks[n].size && chunks[p].size < nb && Up(p, n)
      requires Aligned(nb) && MIN_CHUNK <= nb && MIN_CHUNK <= rsize && Fits(bytes, nb)
      modifies this`head, this`foot, this`chunks, this`top, this`topsize, this`dv, this`dvsize, this`live, bins
      ensures Up(0, 0) && live == old(live)[p + 16 := bytes]
      ensures Kept(old(chunks), chunks, p) && p in chunks && chunks[p].size == nb
      ensures TopStays(old(Now()), Now()) && VictimStays(old(Now()), Now())
      ensures bins.items == old(bins.items)[p + nb := rsize]
    {
      hide Ready, Aligned, FreeBins.Ok, MallocState.Charted, Fits, SetInuse, Kept, FreedInto, BackStart, FrontEnd;
      ghost var s := Now();
      var r := p + nb;
      head := SetInuse(head, p, nb);
      head := SetInuse(head, r, rsize);
      chunks := (chunks - {n})[p := Chunk(nb, true)][r := Chunk(rsize, true)];
      live := live[p + 16 := bytes];
      GrowAndCut(s, Now(), p, n, nb, rsize, bytes);
      ghost var mid := Now();
      UsedBehind(s, p, n);
      Dispose(r, rsize);
      CutKept(s.h.chunks, mid.h.chunks, chunks, p, n, r);
      RestBinned(mid, Now(), p, r, rsize);
    }

    /** The branches of try_realloc_chunk that grow p; p is held by no caller meanwhile. */
    method Grow(p: nat, nb: nat, ghost bytes: nat) returns (ok: bool)
      requires p > 0 && Aligned(nb) && MIN_CHUNK <= nb && Up(p, 0) && p in chunks && chunks[p].size < nb
      requires forall size :: nb <= size < nb + MIN_CHUNK ==> Fits(bytes, size)
      modifies this`head, this`foot, this`chunks, this`top, this`topsize, this`dv, this`dvsize, this`live, bins
      ensures ok <==> old(Room(Now(), p, nb))
      ensures ok ==> Up(0, 0) && live == old(live)[p + 16 := bytes]
      ensures ok ==> Kept(old(chunks), chunks, p) && p in chunks && nb <= chunks[p].size < nb + MIN_CHUNK
      ensures ok ==> Resized(old(Now()), Now(), p, nb)
      ensures !ok ==> Up(p, 0) && Now() == old(Now())
    {
      hide Ready, Aligned, FreeBins.Ok, MallocState.Charted, Fits, SetInuse, UsedChunk, Kept;
      ghost var s := Now();
      ResizeFacts(s, p);
      assert p in head && p + chunks[p].size in head by { HeadThere(s, p); }
      var oldsize := head[p].size;
      var next := p + oldsize;
      ok := false;
      if next == top {
        ok := oldsize + topsize > nb;
        if ok {
          GrowIntoTop(p, nb);
          HandOver(p, bytes);
        }
      } else if next == dv {
        ok := oldsize + dvsize >= nb;
        if ok {
          var dsize := oldsize + dvsize - nb;
          if dsize >= MIN_CHUNK {
            GrowIntoVictim(p, nb);
          } else {
            var newsize := oldsize + dvsize;
            dvsize := 0;
            dv := 0;
            Loosen(s, Now(), 0, p, next);
            Annex(p, next, newsize);
          }
          HandOver(p, bytes);
        }
      } else if !head[next].cinuse {
        var nextsize := head[next].size;
        ok := oldsize + nextsize >= nb;
        if ok {
          var rsize := oldsize + nextsize - nb;
          UnfileChunk(next, nextsize, p);
          if rsize < MIN_CHUNK {
            Annex(p, next, oldsize + nextsize);
            HandOver(p, bytes);
          } else {
            AnnexPart(p, next, nb, rsize, bytes);
          }
        }
      }
    }

    ghost method HandOver(p: nat, bytes: nat)
      requires p > 0 && p in chunks && Fits(bytes, chunks[p].size) && Up(p, 0)
      modifies this`live
      ensures Up(0, 0) && live == old(live)[p + 16 := bytes]
    {
      hide Ready, FreeBins.Ok, MallocState.Charted, Fits;
      ghost var s := Now();
      live := live[p + 16 := bytes];
      Deliver(s, Now(), p, bytes);
    }

    /** try_realloc_chunk: resizes p in place, or changes nothing. */
    method TryRealloc(p: nat, nb: nat, ghost bytes: nat) returns (ok: bool)
      requires Up(0, 0) && p + 16 in live && nb == Pad(bytes) && p in chunks
      modifies this`head, this`foot, this`chunks, this`top, this`topsize, this`dv, this`dvsize, this`live, bins
      ensures Up(0, 0) && (ok <==> old(Room(Now(), p, nb)))
      ensures ok ==> live == old(live)[p + 16 := bytes]
      ensures ok ==> Kept(old(chunks), chunks, p) && p in chunks && nb <= chunks[p].size < nb + MIN_CHUNK
      ensures ok ==> Resized(old(Now()), Now(), p, nb)
      ensures !ok ==> Now() == old(Now())
    {
      hide Ready, Aligned, FreeBins.Ok, MallocState.Charted, Fits, SetInuse, Pad, Kept, FreedInto, BackStart,
        FrontEnd;
      ghost var s := Now();
      PadFacts(bytes);
      FitsExactly(bytes);
      HeldFacts(s, p + 16);
      var oldsize := head[p].size;
      live := live - {p + 16};
      ghost var mid := Now();
      Release(s, mid, p);
      InUseChecks(p, oldsize);
      SelfKept(chunks, p);
      if oldsize >= nb {
        var rsize := oldsize - nb;
        if rsize >= MIN_CHUNK {
          Shrink(p, nb, rsize, bytes);
        } else {
          HandOver(p, bytes);
        }
        ok := true;
        ResizedLater(s, mid, Now(), p, nb);
      } else {
        ok := Grow(p, nb, bytes);
        if !ok {
          live := s.live;
        } else {
          ResizedLater(s, mid, Now(), p, nb);
        }
      }
    }

    /** The part of dlrealloc that moves a block: `copied` bytes go to the new one, the old one is freed. */
    method MoveBlock(oldmem: nat, bytes: nat, system: nat -> nat) returns (mem: nat, copied: nat)
      requires Valid() && oldmem in live && oldmem > 16 && oldmem - 16 in chunks && bytes < MAX_REQUEST
        && Trusted(Now(), system)
      modifies this, bins
      ensures Valid() && Kept(old(chunks), chunks, oldmem - 16)
      ensures mem == 0 ==> Now() == old(Now()) && slack == old(slack) && Ledger() == old(Ledger())
      ensures mem == 0 <==> old(Exhausted(bytes, system))
      ensures mem != 0 ==>
        live == (old(live) - {oldmem})[mem := bytes] && mem !in old(live) && mem !in slack && mem > 16
      ensures mem != 0 ==> AllCopied(copied, bytes, old(chunks)[oldmem - 16].size, old(live)[oldmem])
      ensures mem != 0 ==> Covered(chunks, oldmem - 16, oldmem - 16 + old(chunks)[oldmem - 16].size)
      ensures mem != 0 ==> Expanded(old(Now()), Now(), Pad(bytes), old(Offer(Pad(bytes), system)))
      ensures mem != 0 ==>
        Moved(old(Now()), old(Ledger()), Now(), Ledger(), oldmem - 16, old(chunks)[oldmem - 16].size, mem - 16, bytes,
              old(Offer(Pad(bytes), system)))
    {
      hide MallocState.Valid, Trusted, Kept, WasFree, Pad, Covered, Expanded, OutOfMemory, GivenSize, Allocated,
        FreedFiled;
      copied := 0;
      ghost var s := Now();
      HeldThere(oldmem);
      SlackHeld();
      mem := Malloc(bytes, system);
      if mem == 0 {
        SelfKept(chunks, oldmem - 16);
      } else {
        ghost var mid := Now();
        Unmoved(s.h.chunks, mid.h.chunks, oldmem - 16);
        HeldThere(oldmem);
        var oc := head[oldmem - 16].size - CHUNK_OVERHEAD;
        copied := if oc < bytes then oc else bytes;
        Free(oldmem);
        KeptTrans(s.h.chunks, mid.h.chunks, chunks, oldmem - 16);
        WhatExpanded(s, old(Ledger()), mid, Now(), Ledger(), mem - 16, bytes, old(Offer(Pad(bytes), system)));
        assert live == (old(live) - {oldmem})[mem := bytes];
      }
    }

    /** dlrealloc: in place if there is room, else by moving. */
    method Realloc(oldmem: nat, bytes: nat, system: nat -> nat) returns (mem: nat, copied: nat)
      requires Valid() && (oldmem == 0 || oldmem in live) && bytes < WORD && Trusted(Now(), system)
      modifies this, bins
      ensures Valid() && Kept(old(chunks), chunks, if oldmem == 0 then 0 else oldmem - 16)
      ensures mem == 0 ==> Now() == old(Now()) && slack == old(slack) && Ledger() == old(Ledger())
      ensures oldmem == 0 ==> (mem == 0 <==> old(Exhausted(bytes, system)))
      ensures oldmem == 0 && mem != 0 ==>
        && live == old(live)[mem := bytes] && mem !in old(live) && mem > 16
        && Allocated(old(Now()), old(Ledger()), Now(), Ledger(), mem - 16, bytes, old(Offer(Pad(bytes), system)))
      ensures oldmem != 0 ==> oldmem > 16 && oldmem - 16 in old(chunks)
      ensures oldmem != 0 ==>
        (mem == oldmem <==> bytes < 0xFFFF_FFFF_FFFF_FF80 && old(Room(Now(), oldmem - 16, Pad(bytes))))
      ensures oldmem != 0 ==>
        (mem == 0 <==>
           || bytes >= 0xFFFF_FFFF_FFFF_FF80
           || (!old(Room(Now(), oldmem - 16, Pad(bytes))) && old(Exhausted(bytes, system))))
      ensures oldmem != 0 && mem != 0 ==> live == (old(live) - {oldmem})[mem := bytes] && mem !in slack
      ensures oldmem != 0 && mem == oldmem ==>
        && segs == old(segs) && records == old(records) && Ledger() == old(Ledger())
        && Resized(old(Now()), Now(), oldmem - 16, Pad(bytes))
      ensures oldmem != 0 && mem != 0 && mem != oldmem ==>
        && mem !in old(live) && mem > 16
        && AllCopied(copied, bytes, old(chunks)[oldmem - 16].size, old(live)[oldmem])
        && Covered(chunks, oldmem - 16, oldmem - 16 + old(chunks)[oldmem - 16].size)
        && Moved(old(Now()), old(Ledger()), Now(), Ledger(), oldmem - 16, old(chunks)[oldmem - 16].size, mem - 16,
                 bytes, old(Offer(Pad(bytes), system)))
      ensures mem != 0 && mem != oldmem ==> Expanded(old(Now()), Now(), Pad(bytes), old(Offer(Pad(bytes), system)))
    {
      hide MallocState.Valid, Trusted, Room, Kept, WasFree, Pad, Covered, Expanded, OutOfMemory, GivenSize, Allocated,
        Resized, Moved, AllCopied;
      mem, copied := 0, 0;
      ghost var s := Now();
      if oldmem == 0 {
        mem := Malloc(bytes, system);
        if mem != 0 {
          WhatExpanded(s, old(Ledger()), Now(), Now(), Ledger(), mem - 16, bytes, old(Offer(Pad(bytes), system)));
        }
        return;
      }
      HeldThere(oldmem);
      SelfKept(chunks, oldmem - 16);
      if bytes < MAX_REQUEST {
        var ok := ResizeBlock(oldmem, bytes);
        if ok {
          mem := oldmem;
        } else {
          mem, copied := MoveBlock(oldmem, bytes, system);
        }
      }
    }

    /** The part of dlrealloc that resizes a block in place. */
    method ResizeBlock(mem: nat, bytes: nat) returns (ok: bool)
      requires Valid() && mem in live && mem > 16 && mem - 16 in chunks
      modifies this`head, this`foot, this`chunks, this`top, this`topsize, this`dv, this`dvsize, this`live, this`slack,
               bins
      ensures Valid() && Kept(old(chunks), chunks, mem - 16) && (ok <==> old(Room(Now(), mem - 16, Pad(bytes))))
      ensures ok ==> live == (old(live) - {mem})[mem := bytes] && mem !in slack
      ensures ok ==> Resized(old(Now()), Now(), mem - 16, Pad(bytes))
      ensures !ok ==> Now() == old(Now()) && slack == old(slack)
    {
      hide Ready, Aligned, FreeBins.Ok, MallocState.Charted, Fits, Grain, Room, Kept, Pad, Snug, Resized;
      ghost var s := Now();
      HeldFacts(s, mem);
      SelfKept(chunks, mem - 16);
      ok := TryRealloc(mem - 16, Pad(bytes), bytes);
      if ok {
        slack := slack - {mem};
        SnugKept(s, old(slack), live, chunks, slack, mem - 16, mem);
        assert live == (old(live) - {mem})[mem := bytes];
      }
    }

    lemma SlackHeld()
      requires Valid()
      ensures slack <= live.Keys
    {
      hide Ready, FreeBins.Ok, Snug, Grain;
    }

    lemma HeldThere(mem: nat)
      requires Valid() && mem in live
      ensures mem > 16 && mem - 16 in chunks && chunks[mem - 16].inuse && live[mem] + 8 <= chunks[mem - 16].size
      ensures mem - 16 in head && head[mem - 16].size == chunks[mem - 16].size
    {
      hide Ready, FreeBins.Ok, Snug, Grain, Fits;
      HeldFacts(Now(), mem);
      FitsBytes(live[mem], chunks[mem - 16].size);
    }

    /** dlcalloc */
    method Calloc(n: nat, elem: nat, system: nat -> nat) returns (mem: nat)
      requires Valid() && n < WORD && elem < WORD && Trusted(Now(), system)
      modifies this, bins
      ensures Valid() && Kept(old(chunks), chunks, 0)
      ensures mem == 0 ==> Now() == old(Now()) && Ledger() == old(Ledger())
      ensures slack == old(slack)
      ensures mem == 0 <==> n * elem >= 0xFFFF_FFFF_FFFF_FF80 || old(Exhausted(n * elem, system))
      ensures mem != 0 ==> mem !in old(live) && live == old(live)[mem := n * elem] && mem > 16
      ensures mem != 0 ==>
        Allocated(old(Now()), old(Ledger()), Now(), Ledger(), mem - 16, n * elem, old(Offer(Pad(n * elem), system)))
    {
      hide Ready, FreeBins.Ok, Policy, Trusted, CallocSize, Kept, WasFree, Snug, Expanded, Allocated, Pad,
        Starved, ChunkFor;
      CallocExact(n, elem);
      mem := Malloc(CallocSize(n, elem), system);
    }

    /** The leader of p, up to an aligned place, is freed. */
    method FreeLeader(p: nat, lead: nat, newsize: nat)
      requires p > 0 && p in chunks && chunks[p].size == lead + newsize && p in head && Up(p, 0)
      requires Aligned(lead) && Aligned(newsize) && MIN_CHUNK <= lead && MIN_CHUNK <= newsize
      modifies this`head, this`foot, this`chunks, this`top, this`topsize, this`dv, this`dvsize, this`live, bins
      ensures Kept(old(chunks), chunks, p) && WasFree(old(chunks), p + lead)
      ensures p + lead in chunks && chunks[p + lead].size == newsize
      ensures FreedFiled(old(Now()), Now(), p, lead)
      ensures Up(0, 0) && live == old(live)[p + lead + 16 := newsize - 8]
    {
      hide Ready, Aligned, FreeBins.Ok, MallocState.Charted, Fits, Pad, SetInuse, Kept, FreedInto,
        BackStart, FrontEnd;
      ghost var s := Now();
      var newp := p + lead;
      head := SetInuse(head, newp, newsize);
      head := SetInuse(head, p, lead);
      SwappedTags(s.h.tags, p, lead, newsize);
      chunks := chunks[p := Chunk(lead, true)][newp := Chunk(newsize, true)];
      live := live[newp + 16 := newsize - 8];
      ExactPad(newsize);
      CutLeader(s, Now(), p, lead, newsize - 8);
      UsedFacts(s, 0, p);
      ghost var mid := Now();
      Dispose(p, lead);
      LeaderKept(s.h.chunks, mid.h.chunks, chunks, p, newp);
      FrontFreed(s, mid, Now(), p, lead);
    }

    /** The part of memalign that frees the leader of a chunk, up to an aligned place. */
    method AlignChunk(mem: nat, a: nat, ghost k: nat, nb: nat) returns (newmem: nat)
      requires Up(0, 0) && mem in live && a == Pow2(k) && k >= 5 && !AlignedTo(mem, a) && MIN_CHUNK <= nb
      requires live[mem] + CHUNK_OVERHEAD >= nb + a + MIN_CHUNK
      modifies this`head, this`foot, this`chunks, this`top, this`topsize, this`dv, this`dvsize, this`live, bins
      ensures Up(0, 0) && newmem > 0 && AlignedTo(newmem, a) && newmem in live && live[newmem] + CHUNK_OVERHEAD >= nb
      ensures mem > 16 && newmem > 16 && Kept(old(chunks), chunks, mem - 16) && WasFree(old(chunks), newmem - 16)
      ensures newmem == AlignedMem(mem, a) && newmem !in old(live)
      ensures mem - 16 in old(chunks) && newmem - 16 in chunks
      ensures chunks[newmem - 16].size == old(chunks)[mem - 16].size - (newmem - mem)
      ensures live == (old(live) - {mem})[newmem := live[newmem]] && newmem > mem
      ensures FreedFiled(old(Now()), Now(), mem - 16, newmem - mem)
    {
      hide Ready, Aligned, FreeBins.Ok, MallocState.Charted, Fits, Pad, AlignedTo, AlignedMem, Pow2, Kept,
        FreedInto, BackStart, FrontEnd;
      ghost var s := Now();
      LongEnough(s, mem, live[mem]);
      var p := mem - 16;
      live := live - {mem};
      ghost var mid := Now();
      Release(s, mid, p);
      var size := head[p].size;
      LeaderFits(p, size, nb, a, k);
      newmem := AlignedMem(mem, a);
      var lead := newmem - mem;
      FreeLeader(p, lead, size - lead);
      FreedLater(s, mid, Now(), Now(), p, lead);
      NotHeld(s, newmem);
    }

    /** The part of memalign that frees what is beyond the request. */
    method TrimChunk(mem: nat, nb: nat, bytes: nat)
      requires Up(0, 0) && mem in live && nb == Pad(bytes) && live[mem] + CHUNK_OVERHEAD >= nb
      modifies this`head, this`foot, this`chunks, this`top, this`topsize, this`dv, this`dvsize, this`live, bins
      ensures Up(0, 0) && live == old(live)[mem := bytes]
      ensures Kept(old(chunks), chunks, mem - 16) && mem > 16 && mem - 16 in chunks && mem - 16 in old(chunks)
      ensures var size := old(chunks)[mem - 16].size;
        if size <= nb + 32 then FilesStay(old(Now()), Now())
        else FreedFiled(old(Now()), Now(), mem - 16 + nb, size - nb)
      ensures chunks[mem - 16].size == if old(chunks)[mem - 16].size > nb + MIN_CHUNK then nb
        else old(chunks)[mem - 16].size
    {
      hide Ready, Aligned, FreeBins.Ok, MallocState.Charted, Fits, Pad, Kept, FreedInto, BackStart, FrontEnd;
      ghost var s := Now();
      LongEnough(s, mem, live[mem]);
      PadFacts(bytes);
      FitsExactly(bytes);
      var p := mem - 16;
      live := live - {mem};
      ghost var mid := Now();
      Release(s, mid, p);
      var size := head[p].size;
      SelfKept(chunks, p);
      if size > nb + MIN_CHUNK {
        Shrink(p, nb, size - nb, bytes);
        FreedLater(s, mid, Now(), Now(), p + nb, size - nb);
      } else {
        HandOver(p, bytes);
      }
      assert live == s.live[mem := bytes];
    }

    /** What internal_memalign does with the chunk it got. */
    method AlignAndTrim(mem: nat, a: nat, ghost k: nat, nb: nat, bytes: nat)
      returns (newmem: nat, ghost mid: Arena)
      requires Up(0, 0) && mem in live && a == Pow2(k) && k >= 5 && nb == Pad(bytes) && MIN_CHUNK <= nb
      requires live[mem] + CHUNK_OVERHEAD >= nb + a + MIN_CHUNK
      modifies this`head, this`foot, this`chunks, this`top, this`topsize, this`dv, this`dvsize, this`live, bins
      ensures Up(0, 0) && newmem % a == 0 && live == (old(live) - {mem})[newmem := bytes]
      ensures mem > 16 && newmem > 16 && Kept(old(chunks), chunks, mem - 16) && (newmem == mem || newmem !in old(live))
      ensures mem - 16 in old(chunks) && newmem - 16 in chunks
      ensures EndsFreed(old(Now()), mid, Now(), mem - 16, newmem - 16, nb)
      ensures chunks[newmem - 16].size == Left(mem, a, old(chunks)[mem - 16].size, nb) && newmem == AlignedPlace(mem, a)
    {
      hide Ready, Aligned, FreeBins.Ok, MallocState.Charted, Fits, Pow2, Pad, Kept, WasFree, AlignedMem,
        FreedFiled;
      newmem := mem;
      HeldFacts(Now(), mem);
      SelfKept(chunks, mem - 16);
      if !AlignedTo(mem, a) {
        newmem := AlignChunk(mem, a, k, nb);
      }
      mid := Now();
      TrimChunk(newmem, nb, bytes);
      KeptThen(old(chunks), mid.h.chunks, chunks, mem - 16, newmem - 16);
      assert live == (old(live) - {mem})[newmem := bytes];
    }

    /** internal_memalign once the alignment is a power of two: a chunk that is long enough gives back its leader, up
        to an aligned place, and what is beyond the request. `got` is the block that malloc gave. */
    method MemalignAt(a: nat, ghost k: nat, bytes: nat, system: nat -> nat) returns (mem: nat, ghost got: nat)
      requires Valid() && a == Pow2(k) && 5 <= k <= 63 && a <= WORD / 2 && bytes < MAX_REQUEST - a
        && Trusted(Now(), system)
      modifies this, bins
      ensures Valid() && Kept(old(chunks), chunks, 0)
      ensures mem == 0 ==> Now() == old(Now()) && slack == old(slack) && Ledger() == old(Ledger())
      ensures mem == 0 <==> old(Exhausted(AskBytes(bytes, a), system))
      ensures mem != 0 ==> mem % a == 0 && mem !in old(live) && live == old(live)[mem := bytes]
      ensures mem != 0 ==> Expanded(old(Now()), Now(), AskSize(bytes, a), old(Offer(AskSize(bytes, a), system)))
      ensures mem != 0 ==> got > 16 && mem > 16 && mem - 16 in chunks && mem == AlignedPlace(got, a)
      ensures mem != 0 ==>
        Carved(old(Now()), old(Ledger()), Now(), Ledger(), got - 16, AskBytes(bytes, a), mem - 16, Pad(bytes),
               old(Offer(AskSize(bytes, a), system)))
      ensures mem != 0 ==> (chunks[mem - 16].size == Pad(bytes) + MIN_CHUNK <==> Stretched(old(Now()), got, a, bytes))
      ensures mem != 0 ==> slack == SlackThen(old(Now()), old(slack), got, a, bytes, mem)
    {
      hide MallocState.Valid, Trusted, SystemSize, Pow2, Pad, Kept, WasFree, OutOfMemory, GivenSize, Allocated, Carved,
        Expanded, Stretched, SlackThen, AlignedPlace;
      PadFacts(bytes);
      AskPadded(bytes, a, k);
      SlackHeld();
      ghost var s, before, r := Now(), Ledger(), Offer(AskSize(bytes, a), system);
      mem := Malloc(AskBytes(bytes, a), system);
      got := mem;
      if mem != 0 {
        mem := Carve(mem, a, k, bytes, s, before, r);
      }
    }

    /** What internal_memalign does with the block `got`, which malloc gave it in state s. */
    method Carve(got: nat, a: nat, ghost k: nat, bytes: nat, ghost s: Arena, ghost before: Account, ghost r: Segment)
      returns (mem: nat)
      requires Valid() && a == Pow2(k) && 5 <= k <= 63 && got > 16 && got !in s.live && slack <= s.live.Keys
      requires live == s.live[got := AskBytes(bytes, a)] && Pad(AskBytes(bytes, a)) == AskSize(bytes, a)
      requires got - 16 in chunks && chunks[got - 16].size == GivenSize(s, got - 16, AskSize(bytes, a))
      requires chunks[got - 16].size < AskSize(bytes, a) + MIN_CHUNK && WasFree(s.h.chunks, got - 16)
      requires Kept(s.h.chunks, chunks, 0)
      requires Allocated(s, before, Now(), Ledger(), got - 16, AskBytes(bytes, a), r)
      modifies this`head, this`foot, this`chunks, this`top, this`topsize, this`dv, this`dvsize, this`live, this`slack,
               bins
      ensures Valid() && Kept(s.h.chunks, chunks, 0)
      ensures mem % a == 0 && mem !in s.live && live == s.live[mem := bytes] && Expanded(s, Now(), AskSize(bytes, a), r)
      ensures mem > 16 && mem - 16 in chunks && mem == AlignedPlace(got, a)
      ensures Carved(s, before, Now(), Ledger(), got - 16, AskBytes(bytes, a), mem - 16, Pad(bytes), r)
      ensures chunks[mem - 16].size == Pad(bytes) + MIN_CHUNK <==> Stretched(s, got, a, bytes)
      ensures slack == SlackThen(s, old(slack), got, a, bytes, mem)
    {
      hide Ready, Aligned, FreeBins.Ok, MallocState.Charted, Fits, Grain, Pow2, Pad, Kept, WasFree, Snug, GivenSize,
        Left, Allocated, EndsFreed, Expanded, Stretched, SlackThen, AlignedPlace;
      PadFacts(bytes);
      ghost var given, mid := Now(), Now();
      WhatExpanded(s, before, given, given, Ledger(), got - 16, AskBytes(bytes, a), r);
      mem, mid := AlignAndTrim(got, a, k, Pad(bytes), bytes);
      slack := SlackThen(s, slack, got, a, bytes, mem);
      Memaligned(s, given, Now(), old(slack), got, mem, a, k, bytes, r);
      assert EndsFreed(given, mid, Now(), got - 16, mem - 16, Pad(bytes));
    }

    /** internal_memalign, for alignments up to half the address space. */
    method InternalMemalign(alignment: nat, bytes: nat, system: nat -> nat)
      returns (mem: nat, a: nat, ghost k: nat, ghost got: nat)
      requires Valid() && alignment <= WORD / 2 && bytes < WORD && Trusted(Now(), system)
      modifies this, bins
      ensures Valid() && Kept(old(chunks), chunks, 0)
      ensures a == Pow2(k) && 5 <= k <= 63 && alignment <= a && (a == 32 || a / 2 < alignment)
      ensures mem == 0 ==> Now() == old(Now()) && slack == old(slack) && Ledger() == old(Ledger())
      ensures mem == 0 <==> bytes >= 0xFFFF_FFFF_FFFF_FF80 - a || old(Exhausted(AskBytes(bytes, a), system))
      ensures mem != 0 ==> mem % a == 0 && mem !in old(live) && live == old(live)[mem := bytes]
      ensures mem != 0 ==> Expanded(old(Now()), Now(), AskSize(bytes, a), old(Offer(AskSize(bytes, a), system)))
      ensures mem != 0 ==> got > 16 && mem > 16 && mem - 16 in chunks && mem == AlignedPlace(got, a)
      ensures mem != 0 ==>
        Carved(old(Now()), old(Ledger()), Now(), Ledger(), got - 16, AskBytes(bytes, a), mem - 16, Pad(bytes),
               old(Offer(AskSize(bytes, a), system)))
      ensures mem != 0 ==> (chunks[mem - 16].size == Pad(bytes) + MIN_CHUNK <==> Stretched(old(Now()), got, a, bytes))
      ensures mem != 0 ==> slack == SlackThen(old(Now()), old(slack), got, a, bytes, mem)
    {
      hide MallocState.Valid, Trusted, AlignedTo, Pow2, Kept, OutOfMemory, Expanded, Stretched, SlackThen, Carved, Pad;
      a, k := RoundAlignment(alignment);
      PowBelow(k);
      mem, got := 0, 0;
      SelfKept(chunks, 0);
      if bytes < MAX_REQUEST - a {
        mem, got := MemalignAt(a, k, bytes, system);
      }
    }

    /** dlmemalign, for alignments up to half the address space: up to 16, every block of malloc is aligned. */
    method Memalign(alignment: nat, bytes: nat, system: nat -> nat)
      returns (mem: nat, a: nat, ghost k: nat, ghost got: nat)
      requires Valid() && alignment <= WORD / 2 && bytes < WORD && Trusted(Now(), system)
      modifies this, bins
      ensures Valid() && Kept(old(chunks), chunks, 0)
      ensures a == Pow2(k) && alignment <= a
      ensures if alignment <= 16 then a == 16 else a >= 32 && (a == 32 || a / 2 < alignment)
      ensures mem == 0 ==> Now() == old(Now()) && slack == old(slack) && Ledger() == old(Ledger())
      ensures mem != 0 ==> mem % a == 0 && mem !in old(live) && live == old(live)[mem := bytes]
      ensures mem != 0 ==> got > 16 && mem > 16 && mem - 16 in chunks && mem == AlignedPlace(got, a)
      ensures alignment <= 16 ==> slack == old(slack) && (mem == 0 <==> old(Exhausted(bytes, system)))
      ensures alignment <= 16 && mem != 0 ==>
        && chunks[mem - 16].size == GivenSize(old(Now()), mem - 16, Pad(bytes))
        && Allocated(old(Now()), old(Ledger()), Now(), Ledger(), mem - 16, bytes, old(Offer(Pad(bytes), system)))
      ensures alignment > 16 ==>
        (mem == 0 <==> bytes >= 0xFFFF_FFFF_FFFF_FF80 - a || old(Exhausted(AskBytes(bytes, a), system)))
      ensures alignment > 16 && mem != 0 ==>
        && Carved(old(Now()), old(Ledger()), Now(), Ledger(), got - 16, AskBytes(bytes, a), mem - 16, Pad(bytes),
                  old(Offer(AskSize(bytes, a), system)))
        && (chunks[mem - 16].size == Pad(bytes) + MIN_CHUNK <==> Stretched(old(Now()), got, a, bytes))
        && slack == SlackThen(old(Now()), old(slack), got, a, bytes, mem)
        && Expanded(old(Now()), Now(), AskSize(bytes, a), old(Offer(AskSize(bytes, a), system)))
    {
      hide MallocState.Valid, Trusted, Pow2, Kept, OutOfMemory, Expanded, Stretched, SlackThen, Carved, Pad, GivenSize,
        Allocated, WasFree, AlignedPlace;
      if alignment <= MALLOC_ALIGNMENT {
        a, k := MALLOC_ALIGNMENT, 4;
        Sixteen();
        mem := Malloc(bytes, system);
        got := mem;
        if mem != 0 {
          BlockAligned(mem);
        }
      } else {
        mem, a, k, got := InternalMemalign(alignment, bytes, system);
        AtLeast32(k);
      }
    }

    lemma BlockAligned(mem: nat)
      requires Valid() && mem in live
      ensures mem % 16 == 0 && AlignedPlace(mem, 16) == mem
    {
      hide Ready, FreeBins.Ok, Snug, Grain;
      HeldFacts(Now(), mem);
    }
  }

  lemma Sixteen()
    ensures Pow2(4) == MALLOC_ALIGNMENT
  {
  }

  lemma AtLeast32(k: nat)
    requires k >= 5
    ensures Pow2(k) >= 32
  {
    Pow2Add(k - 5, 5);
    assert Pow2(5) == 32;
  }

  /** The bytes memalign asks malloc for, and the chunk that makes. */
  function AskBytes(bytes: nat, a: nat): nat {
    Pad(bytes) + a + MIN_CHUNK - CHUNK_OVERHEAD
  }

  function AskSize(bytes: nat, a: nat): nat {
    Pad(bytes) + a + MIN_CHUNK
  }

  lemma AskPadded(bytes: nat, a: nat, k: nat)
    requires a == Pow2(k) && k >= 5
    ensures Pad(AskBytes(bytes, a)) == AskSize(bytes, a)
  {
    hide Pad, Pow2;
    PadFacts(bytes);
    var r := PowerOfThirtytwo(a, k);
    Thirtytwos(r, a);
    PadSum(Pad(bytes), a);
  }

  /** malloc gives memalign 16 bytes more than asked for, at an address 16 bytes short of alignment. */
  ghost predicate Stretched(s: Arena, got: nat, a: nat, bytes: nat)
    requires got >= 16 && a > 0
  {
    GivenSize(s, got - 16, AskSize(bytes, a)) == AskSize(bytes, a) + 16 && got % a == a - 16
  }

  /** What is left to spare of the block that malloc gave. */
  lemma Spared(s: Arena, got: nat, a: nat, k: nat, bytes: nat, size: nat)
    requires Ready(s, 0, 0, 0) && got in s.live && got > 16 && got - 16 in s.h.chunks
      && s.h.chunks[got - 16].size == size
    requires a == Pow2(k) && k >= 5 && s.live[got] == AskBytes(bytes, a) && size < AskSize(bytes, a) + MIN_CHUNK
    ensures var left := Left(got, a, size, Pad(bytes));
      && Pad(bytes) <= left <= Pad(bytes) + MIN_CHUNK
      && (left == Pad(bytes) + MIN_CHUNK <==> size == AskSize(bytes, a) + 16 && got % a == a - 16)
  {
    hide Ready, Pad, Pow2, Left;
    AskPadded(bytes, a, k);
    HeldFacts(s, got);
    PadFacts(bytes);
    var r := PowerOfThirtytwo(a, k);
    Thirtytwos(r, a);
    TwoSizes(size, Pad(bytes) + a, got);
    SpareBytes(got, a, k, size, Pad(bytes));
  }

  ghost function SlackThen(s: Arena, slack: set<nat>, got: nat, a: nat, bytes: nat, mem: nat): set<nat>
    requires got >= 16 && a > 0
  {
    if Stretched(s, got, a, bytes) then slack + {mem} else slack
  }

  /** From s, malloc leads to mid with the new block got; from there freeing its ends leads to s' with the block mem. */
  lemma Memaligned(s: Arena, mid: Arena, s': Arena, slack: set<nat>, got: nat, mem: nat, a: nat, k: nat, bytes: nat,
                   r: Segment)
    requires a == Pow2(k) && k >= 5 && got > 16 && mem > 16 && got !in s.live
      && mid.live == s.live[got := AskBytes(bytes, a)]
    requires got - 16 in mid.h.chunks && mid.h.chunks[got - 16].size == GivenSize(s, got - 16, AskSize(bytes, a))
    requires mid.h.chunks[got - 16].size < AskSize(bytes, a) + MIN_CHUNK && WasFree(s.h.chunks, got - 16)
    requires s'.live == (mid.live - {got})[mem := bytes] && (mem == got || mem !in mid.live)
    requires mem - 16 in s'.h.chunks
      && s'.h.chunks[mem - 16].size == Left(got, a, mid.h.chunks[got - 16].size, Pad(bytes))
    requires Kept(s.h.chunks, mid.h.chunks, 0) && Kept(mid.h.chunks, s'.h.chunks, got - 16)
    requires Expanded(s, mid, AskSize(bytes, a), r) && s'.h.segs == mid.h.segs && s'.h.records == mid.h.records
    requires Snug(mid.live, mid.h.chunks, slack) && slack <= s.live.Keys
    requires Ready(mid, 0, 0, 0)
    ensures Kept(s.h.chunks, s'.h.chunks, 0) && Expanded(s, s', AskSize(bytes, a), r)
    ensures s'.live == s.live[mem := bytes] && mem !in s.live
    ensures s'.h.chunks[mem - 16].size == Pad(bytes) + MIN_CHUNK <==> Stretched(s, got, a, bytes)
    ensures Snug(s'.live, s'.h.chunks, SlackThen(s, slack, got, a, bytes, mem))
      && SlackThen(s, slack, got, a, bytes, mem) <= s'.live.Keys
  {
    hide Ready, Pow2, Pad, Left, Kept, WasFree, Expanded, GivenSize, Snug;
    Spared(mid, got, a, k, bytes, mid.h.chunks[got - 16].size);
    SnugKept(mid, slack, s'.live, s'.h.chunks, SlackThen(s, slack, got, a, bytes, mem), got - 16, mem);
    KeptThen(s.h.chunks, mid.h.chunks, s'.h.chunks, 0, got - 16);
    SameSegments(s, mid, s', AskSize(bytes, a), r);
  }

  lemma TwoSizes(size: nat, n: nat, got: nat)
    requires Aligned(size) && n % 16 == 0 && n + MIN_CHUNK <= size < n + 2 * MIN_CHUNK && got >= 16 && Aligned(got - 16)
    ensures (size == n + MIN_CHUNK || size == n + MIN_CHUNK + 16) && Aligned(got)
  {
  }

  /** What happened to the segments does not depend on what happens to blocks later. */
  lemma SameSegments(s: Arena, mid: Arena, s': Arena, nb: nat, r: Segment)
    requires Expanded(s, mid, nb, r) && s'.h.segs == mid.h.segs && s'.h.records == mid.h.records
    ensures Expanded(s, s', nb, r)
  {
    hide Took, NothingFits;
  }

  lemma WhatExpanded(s: Arena, a: Account, mid: Arena, s': Arena, a': Account, p: nat, bytes: nat, r: Segment)
    requires Allocated(s, a, mid, a', p, bytes, r) && s'.h.segs == mid.h.segs && s'.h.records == mid.h.records
    ensures Expanded(s, s', Pad(bytes), r)
  {
    hide Pad, Expanded;
    SameSegments(s, mid, s', Pad(bytes), r);
  }

  lemma FitsBytes(bytes: nat, size: nat)
    requires Fits(bytes, size)
    ensures bytes + 8 <= size
  {
  }

  lemma Unmoved(c: map<nat, Chunk>, c': map<nat, Chunk>, p: nat)
    requires Kept(c, c', 0) && p in c && c[p].inuse && p > 0
    ensures p in c' && c'[p] == c[p]
  {
  }

  /** Chunk p serves a request: it is the one that the policy names, what is left of it is filed, and the segments and
      the account change just by the region r that was needed. */
  ghost predicate Allocated(s: Arena, a: Account, s': Arena, a': Account, p: nat, bytes: nat, r: Segment) {
    && Policy(s, p, Pad(bytes), bytes <= MAX_SMALL_REQUEST) && Expanded(s, s', Pad(bytes), r)
    && Leftover(s, s', p, Pad(bytes), bytes <= MAX_SMALL_REQUEST, r) && a' == Settled(s, a, Pad(bytes), r)
  }

  lemma SameAllocated(s: Arena, a: Account, mid: Arena, s': Arena, a': Account, p: nat, bytes: nat, r: Segment)
    requires Allocated(s, a, mid, a', p, bytes, r) && s' == mid.(live := s'.live)
    ensures Allocated(s, a, s', a', p, bytes, r)
  {
    hide Pad, Policy, Expanded, Leftover, Settled;
    SameLeftover(s, mid, s', p, Pad(bytes), bytes <= MAX_SMALL_REQUEST, r);
    SameSegments(s, mid, s', Pad(bytes), r);
  }

  /** A block moves: chunk p is allocated and then the n bytes of chunk q are freed. */
  ghost predicate Moved(s: Arena, a: Account, s': Arena, a': Account, q: nat, n: nat, p: nat, bytes: nat, r: Segment) {
    exists mid: Arena :: Allocated(s, a, mid, a', p, bytes, r) && FreedFiled(mid, s', q, n)
  }

  /** All that both blocks have is copied: one of `bytes`, and one of a chunk of `size` that had `held` asked for. */
  ghost predicate AllCopied(copied: nat, bytes: nat, size: nat, held: nat) {
    copied <= bytes && copied + 8 <= size && (copied == bytes || (copied + 8 == size && copied >= held))
  }

  /** Both ends of chunk p are freed: what is before q, and what is beyond nb bytes if that is more than 32. */
  ghost predicate EndsFreed(s: Arena, mid: Arena, s': Arena, p: nat, q: nat, nb: nat) {
    && p <= q && q in mid.h.chunks
    && (if p == q then FilesStay(s, mid) else FreedFiled(s, mid, p, q - p))
    && var size := mid.h.chunks[q].size;
       if size <= nb + 32 then FilesStay(mid, s') else FreedFiled(mid, s', q + nb, size - nb)
  }

  /** memalign: chunk p, long enough for `asked` bytes, is allocated and then its ends before and after q are freed. */
  ghost predicate Carved(s: Arena, a: Account, s': Arena, a': Account, p: nat, asked: nat, q: nat, nb: nat,
                         r: Segment) {
    exists given: Arena, mid: Arena :: Allocated(s, a, given, a', p, asked, r) && EndsFreed(given, mid, s', p, q, nb)
  }

  /** What memalign asks malloc for, in plain numbers. */
  lemma AskedFor(bytes: nat, a: nat, nb: nat)
    requires ChunkFor(bytes, nb)
    ensures AskBytes(bytes, a) == nb + a + 24 && AskSize(bytes, a) == nb + a + 32
  {
    hide Pad;
    PadLeast(bytes);
  }

  /** The chunk size for a request, or a size that no chunk has. */
  function Request(bytes: nat): nat {
    if bytes >= MAX_REQUEST then MAX_SIZE_T else Pad(bytes)
  }

  lemma EmptyTotal(segs: seq<Segment>)
    requires segs == []
    ensures Total(segs) == 0
  {
  }

  lemma TooBig(nb: nat, asize: nat, region: nat)
    requires nb < asize && region + asize < ADDRESS_LIMIT
    ensures nb < MAX_SIZE_T
  {
  }
}

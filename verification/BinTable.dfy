/** The bins as malloc_state keeps them: words updated in place, with ghost fields for what they stand for. */
module BinTable {
  import opened Words
  import opened Tries
  import opened Links
  import opened TreeIndex
  import opened BinMaps
  import opened Bins

  class FreeBins {
    var smallmap: BinMap
    var treemap: BinMap
    var mem: Links
    var roots: seq<int>
    ghost var small: seq<seq<nat>>
    ghost var trees: seq<Trie>
    ghost var items: map<nat, nat>

    ghost function View(): State
      reads this
    {
      State(smallmap, treemap, mem, roots, small, trees, items)
    }

    ghost predicate Ok()
      reads this
    {
      View().Ok()
    }

    /** A zeroed malloc_state: no bin is marked. */
    constructor ()
      ensures Ok() && items == map[]
    {
      smallmap, treemap, mem := 0, 0, map[];
      roots := seq(NBINS, _ => 0);
      small := seq(NBINS, _ => []);
      trees := seq(NBINS, _ => Nil);
      items := map[];
      new;
      NoBits(0);
    }

    method InsertSmall(p: nat, s: nat)
      requires Ok() && p > 0 && p !in items && 0 < s < MIN_LARGE_SIZE && s % 8 == 0
      modifies this
      ensures Ok() && View() == SmallInserted(old(View()), p, s)
    {
      hide ComputeTreeIndex;
      var i := s / 8;
      var hdr := Slot(i);
      var first := hdr;
      SmallInsertOk(View(), p, s);
      IsMarkedBit(smallmap, i);
      MarkBits(smallmap, i);
      assert View().SmallOk(i);
      mem := mem[p := At(mem, p).(size := s)];
      if !IsMarked(smallmap, i) {
        smallmap := Mark(smallmap, i);
      } else {
        first := At(mem, hdr).fd;
      }
      mem := SetFd(mem, hdr, p);
      mem := SetBk(mem, first, p);
      mem := SetFd(mem, p, first);
      mem := SetBk(mem, p, hdr);
      small := small[i := [p] + small[i]];
      items := items[p := s];
    }

    /** unlink_small_chunk; its two pointer checks always pass. */
    method UnlinkSmall(p: nat, s: nat)
      requires Ok() && p in items && items[p] == s < MIN_LARGE_SIZE
      modifies this
      ensures Ok() && View() == SmallRemoved(old(View()), p)
      ensures At(old(mem), At(old(mem), p).fd).bk == p && At(old(mem), At(old(mem), p).bk).fd == p
    {
      hide ComputeTreeIndex;
      var i := s / 8;
      var f, b := At(mem, p).fd, At(mem, p).bk;
      SmallRemoveOk(View(), p);
      assert View().Filed(p) && View().SmallOk(i);
      LonelyLinks(mem, Slot(i), small[i], p);
      MutualLinks(mem, Slot(i), small[i], p);
      if b == f {
        smallmap := Clear(smallmap, i);
      } else {
        mem := SetBk(mem, f, b);
        mem := SetFd(mem, b, f);
      }
      small := small[i := ListWithout(small[i], p)];
      items := items - {p};
    }

    /** unlink_first_small_chunk */
    method UnlinkFirstSmall(i: nat) returns (p: nat)
      requires Ok() && i < NBINS && small[i] != []
      modifies this
      ensures p == old(small)[i][0] && p in old(items) && old(items)[p] == 8 * i
      ensures Ok() && View() == SmallRemoved(old(View()), p)
    {
      hide ComputeTreeIndex;
      var hdr := Slot(i);
      assert View().SmallOk(i);
      assert ([hdr] + small[i])[1] == small[i][0];
      p := At(mem, hdr).fd;
      assert p in small[i] && View().Filed(p);
      var f := At(mem, p).fd;
      SmallRemoveOk(View(), p);
      LonelyLinks(mem, hdr, small[i], p);
      assert At(mem, p).bk == hdr;
      if hdr == f {
        smallmap := Clear(smallmap, i);
      } else {
        mem := SetBk(mem, f, hdr);
        mem := SetFd(mem, hdr, f);
      }
      small := small[i := ListWithout(small[i], p)];
      items := items - {p};
    }
  
    /** The walk of insert_large_chunk: down the digits of s to a node of that size or a missing child. */
    method FindPlace(i: nat, s: nat) returns (at: Place)
      requires Ok() && MIN_LARGE_SIZE <= s < WORD && i == ComputeTreeIndex(s) < NBINS && trees[i].Node?
      ensures View().TreeOk(i) && at == InsertPlace(trees[i], s, BinLow(i), BinDigits(i))
    {
      BinHolds(s);
      FirstDigits(s);
      assert View().TreeOk(i);
      hide ComputeTreeIndex, Linked, Valid, InsertPlace, Wrap, Pow2, Aligned;
      var t := roots[i];
      var bits: nat := Wrap(s * Pow2(LeftShift(i)));
      ghost var here, up := Sub(trees[i], BinLow(i), BinDigits(i)), Slot(i);
      while At(mem, t).size != s
        invariant OnPath(mem, here, t, up, i, s, bits)
        invariant InsertPlace(trees[i], s, BinLow(i), BinDigits(i)) == InsertPlace(here.trie, s, here.lo, here.k)
        decreases here.k
      {
        PathStep(mem, here, t, up, i, s, bits);
        var right := bits / (WORD / 2) == 1;
        var c := ChildOf(At(mem, t), right);
        bits := Wrap(2 * bits);
        if c == 0 {
          return Hang(t, right);
        }
        here := Child(here, s);
        t, up := c, t;
      }
      PathEnd(mem, here, t, up, i, s, bits);
      return Join(t);
    }

    /** insert_large_chunk */
    method InsertLarge(x: nat, s: nat)
      requires Ok() && x > 0 && x !in items && MIN_LARGE_SIZE <= s < WORD
      modifies this
      ensures Ok() && View() == TreeInserted(old(View()), x, s)
    {
      BinHolds(s);
      hide ComputeTreeIndex;
      var i := ComputeTreeIndex(s);
      TreeInsertOk(View(), x, s);
      assert View().TreeOk(i);
      IsMarkedBit(treemap, i);
      MarkBits(treemap, i);
      ghost var done := TreeInserted(View(), x, s);
      if !IsMarked(treemap, i) {
        treemap := Mark(treemap, i);
        roots := roots[i := x];
        mem := mem[x := Cell(s, x, x, 0, 0, Slot(i), i)];
      } else {
        var at := FindPlace(i, s);
        match at {
          case Hang(t, right) =>
            mem := mem[x := Cell(s, x, x, 0, 0, t, i)];
            mem := SetChild(mem, t, right, x);
          case Join(t) =>
            mem := mem[x := Cell(s, 0, 0, 0, 0, 0, i)];
            var f := At(mem, t).fd;
            mem := SetFd(mem, t, x);
            mem := SetBk(mem, f, x);
            mem := SetFd(mem, x, f);
            mem := SetBk(mem, x, t);
        }
      }
      trees, items := done.trees, done.items;
    }
  
    /** The search of unlink_large_chunk for a leaf below x, following right children before left ones. */
    method FindLeaf(x: nat, ghost u: Trie, ghost up: int, ghost i: nat) returns (r: int, owner: int, right: bool)
      requires u.Node? && Linked(mem, u, x, up, i)
      ensures r == 0 <==> Leaf(u)
      ensures r != 0 ==> u.ring != [] && PullSlot(u) == ChildSlot(owner, right) && r == ChildOf(At(mem, owner), right)
    {
      hide NodeLinked;
      owner, right, r := x, true, At(mem, x).child1;
      RingOf(mem, u, x, up, i);
      if r == 0 {
        right, r := false, At(mem, x).child0;
      }
      if r != 0 {
        ghost var v := if right then u.right else u.left;
        RingOf(mem, v, r, owner, i);
        while At(mem, r).child1 != 0 || At(mem, r).child0 != 0
          invariant v.Node? && v.ring != [] && Linked(mem, v, r, owner, i) && r != 0
          invariant r == ChildOf(At(mem, owner), right)
          invariant PullSlot(u) == if Leaf(v) then ChildSlot(owner, right) else PullSlot(v)
          decreases v
        {
          RingOf(mem, v, r, owner, i);
          owner, right := r, At(mem, r).child1 != 0;
          r := ChildOf(At(mem, owner), right);
          v := if right then v.right else v.left;
          RingOf(mem, v, r, owner, i);
        }
        RingOf(mem, v, r, owner, i);
      }
    }

    /** The first part of unlink_large_chunk: x leaves its ring, or the leaf that will replace it leaves its place. */
    method Detach(x: nat, ghost u: Trie, ghost up: int, ghost i: nat) returns (r: int)
      requires u.Node? && u.ring != [] && (At(mem, x).bk == x ==> Linked(mem, u, x, up, i))
      modifies this`mem
      ensures mem == Detached(old(mem), u, x) && r == Successor(old(mem), u, x)
      ensures At(old(mem), x).bk != x ==> mem == CutFromRing(old(mem), x)
    {
      if At(mem, x).bk != x {
        var f := At(mem, x).fd;
        r := At(mem, x).bk;
        mem := SetBk(mem, f, r);
        mem := SetFd(mem, r, f);
      } else {
        var owner, right;
        r, owner, right := FindLeaf(x, u, up, i);
        if r != 0 {
          mem := SetChild(mem, owner, right, 0);
        }
      }
    }

    /** The last part of unlink_large_chunk: r, or nothing, goes where the tree node x was. */
    method Replace(x: nat, xp: int, r: int, ghost i: nat)
      requires |roots| == NBINS && i < NBINS && xp != 0 && At(mem, x).index == i
      requires x == roots[i] <==> xp < 0
      modifies this`mem, this`roots, this`treemap
      ensures mem == PutInPlace(old(mem), xp, x, r)
      ensures roots == if xp < 0 then old(roots)[i := r] else old(roots)
      ensures treemap == if xp < 0 && r == 0 then Clear(old(treemap), i) else old(treemap)
    {
      var idx := At(mem, x).index;
      if x == roots[idx] {
        roots := roots[idx := r];
        if r == 0 {
          treemap := Clear(treemap, idx);
        }
      } else if At(mem, xp).child0 == x {
        mem := SetChild(mem, xp, false, r);
      } else {
        mem := SetChild(mem, xp, true, r);
      }
      assert mem == Repoint(old(mem), xp, x, r);
      if r != 0 {
        var c0, c1 := At(mem, x).child0, At(mem, x).child1;
        mem := SetParent(mem, r, xp);
        if c0 != 0 {
          mem := SetChild(mem, r, false, c0);
          mem := SetParent(mem, c0, r);
        }
        if c1 != 0 {
          mem := SetChild(mem, r, true, c1);
          mem := SetParent(mem, c1, r);
        }
      }
    }

    /** unlink_large_chunk */
    method UnlinkLarge(x: nat)
      requires Ok() && x in items && items[x] >= MIN_LARGE_SIZE
      modifies this
      ensures Ok() && items == old(items) - {x}
      ensures small == old(small) && smallmap == old(smallmap)
      ensures var i, s := ComputeTreeIndex(old(items)[x]), old(items)[x];
              i < NBINS && trees == old(trees)[i := Remove(old(trees)[i], x, s, BinLow(i), BinDigits(i))]
    {
      hide ComputeTreeIndex, PutInPlace, Clear, Linked, Valid, FindNode, Remove, Detached, Successor, RemoveHere,
        Replaces;
      ghost var was := View();
      ghost var s := items[x];
      ghost var n := ComputeTreeIndex(s);
      ghost var u := FindNode(trees[n], s, BinLow(n), BinDigits(n));
      NodeOfChunk(was, x, n, s);
      ghost var q, up := u.ring[0], At(mem, u.ring[0]).parent;
      assert was.TreeOk(n);
      ghost var lo, k := FindNodeValid(trees[n], s, BinLow(n), BinDigits(n));
      var xp := At(mem, x).parent;
      var r := Detach(x, u, up, n);
      ghost var q' := q;
      if xp != 0 {
        q' := r;
        DetachKeepsIndex(was.mem, u, x);
        HeadReplaces(was.mem, u, x, up, n, lo, k);
        Replace(x, xp, r, n);
      } else {
        UnlinkChained(was.mem, u, q, up, n, x, lo, k);
      }
      TreeRemoveOk(was, x, n, s, mem, u, q, q', up);
      ghost var done := TreeRemoved(was, x, n, s, mem, q');
      trees, items := done.trees, done.items;
      RootOfBin(was, n);
      RootOfBin(done, n);
      assert View() == done;
    }
  
    /** insert_chunk */
    method Insert(p: nat, s: nat)
      requires Ok() && p > 0 && p !in items && 0 < s < WORD && s % 8 == 0
      modifies this
      ensures Ok() && items == old(items)[p := s]
    {
      hide ComputeTreeIndex;
      if s < MIN_LARGE_SIZE {
        InsertSmall(p, s);
      } else {
        InsertLarge(p, s);
      }
    }

    /** unlink_chunk */
    method Unlink(p: nat, s: nat)
      requires Ok() && p in items && items[p] == s
      modifies this
      ensures Ok() && items == old(items) - {p}
    {
      hide ComputeTreeIndex;
      if s < MIN_LARGE_SIZE {
        UnlinkSmall(p, s);
      } else {
        UnlinkLarge(p);
      }
    }

    // ---- searching for a chunk to allocate from

    /** The comparison of both walks: take t if its unsigned remainder over nb beats the best so far. */
    method Compare(t: int, v: int, rsize: nat, nb: nat, ghost size: nat, ghost best: nat) returns (v': int, rsize': nat)
      requires At(mem, t).size == size < WORD && nb <= best <= WORD && rsize == best - nb
      ensures v' == if nb <= size < best then t else v
      ensures rsize' == (if nb <= size < best then size else best) - nb
    {
      Remainder(size, nb, best);
      var trem := Wrap(At(mem, t).size - nb);
      v', rsize' := v, rsize;
      if trem < rsize {
        v', rsize' := t, trem;
      }
    }

    /** The loop `find smallest of tree or subtree`: down the leftmost path, keeping the best fit. */
    method LeastWalk(t0: int, v0: int, rsize0: nat, nb: nat, ghost sub: Sub, ghost up0: int, ghost i: nat,
                     ghost best0: nat)
      returns (v: int, rsize: nat, ghost best: nat)
      requires sub.Ok() && Linked(mem, sub.trie, t0, up0, i) && nb <= best0 <= WORD && rsize0 == best0 - nb
      requires best0 == nb || AtLeast(sub.trie, nb)
      requires forall s: nat :: HasSize(sub.trie, s) ==> s < WORD
      ensures rsize == best - nb && best == Better(best0, sub.trie, nb)
      ensures if best == best0 then v == v0 else v > 0 && Has(sub.trie, v, best)
    {
      hide Linked, Valid, HasSize;
      var t := t0;
      v, rsize, best := v0, rsize0, best0;
      ghost var here, up := sub, up0;
      while t != 0
        invariant here.Ok() && Linked(mem, here.trie, t, up, i)
        invariant best0 == nb || AtLeast(here.trie, nb)
        invariant nb <= best <= best0 && rsize == best - nb
        invariant forall s: nat :: HasSize(here.trie, s) ==> HasSize(sub.trie, s)
        invariant forall a: nat, s: nat :: Has(here.trie, a, s) ==> Has(sub.trie, a, s)
        invariant Better(best, here.trie, nb) == Better(best0, sub.trie, nb)
        invariant if best == best0 then v == v0 else v > 0 && Has(sub.trie, v, best)
        decreases here.trie
      {
        LeftmostStep(mem, here, t, up, i);
        BetterStep(best, here.trie, nb);
        assert HasSize(sub.trie, here.trie.size);
        assert Has(sub.trie, t, here.trie.size);
        v, rsize := Compare(t, v, rsize, nb, here.trie.size, best);
        best := if nb <= here.trie.size < best then here.trie.size else best;
        var c := At(mem, t).child0;
        up := t;
        t := if c != 0 then c else At(mem, t).child1;
        here := LeftmostSub(here);
      }
      RootOf(mem, here.trie, t, up, i);
    }
  
    /** The first walk of tmalloc_large: down the digits of nb, noting the deepest right subtree passed by. */
    method ExactWalk(i: nat, nb: nat) returns (t: int, v: int, rsize: nat, ghost best: nat, ghost sub: Sub,
                                               ghost up: int)
      requires Ok() && MIN_LARGE_SIZE <= nb < WORD && i == ComputeTreeIndex(nb) < NBINS && roots[i] != 0
      ensures View().TreeOk(i)
      ensures nb <= best <= WORD && rsize == best - nb && (best == WORD <==> v == 0)
      ensures v != 0 ==> v > 0 && Has(trees[i], v, best)
      ensures Settles(mem, trees[i], nb, best, sub, t, up, i)
    {
      assert View().TreeOk(i);
      hide ComputeTreeIndex, Linked, Valid, Wrap, Pow2, Searching, Within, Better, Has, HasSize, State.Ok, State.TreeOk,
        Settles;
      Negated(nb);
      v, rsize, best := 0, Wrap(0 - nb), WORD;
      t := roots[i];
      var bits: nat, rst := Wrap(nb * Pow2(LeftShift(i))), 0;
      ghost var here, passed, rup := Sub(trees[i], BinLow(i), BinDigits(i)), Sub(Nil, 0, 0), 0;
      up := Slot(i);
      SearchStart(View(), i, nb);
      while true
        invariant Searching(mem, trees[i], nb, best, here, t, up, passed, rst, rup, i, bits)
        invariant nb < best <= WORD && rsize == best - nb && (best == WORD <==> v == 0)
        invariant v != 0 ==> v > 0 && Has(trees[i], v, best)
        decreases here.k
      {
        SearchVisit(mem, trees[i], nb, best, here, t, up, passed, rst, rup, i, bits);
        SizeBound(View(), i, here.trie.size);
        v, rsize := Compare(t, v, rsize, nb, here.trie.size, best);
        best := if nb <= here.trie.size < best then here.trie.size else best;
        if rsize == 0 {
          sub := here;
          SearchHit(mem, trees[i], nb, here, t, up, passed, rst, rup, i, bits);
          return;
        }
        SearchStep(mem, trees[i], nb, best, here, t, up, passed, rst, rup, i, bits);
        var right := bits / (WORD / 2) == 1;
        var rt, c := At(mem, t).child1, ChildOf(At(mem, t), right);
        var goes := rt != 0 && rt != c;
        rst, rup := if goes then rt else rst, if goes then t else rup;
        passed, here := PassedRight(here, nb, passed), Child(here, nb);
        if c == 0 {
          t, up, sub := rst, rup, passed;
          return;
        }
        t, up := c, t;
        bits := Wrap(2 * bits);
      }
    }
  
    /** The search of tmalloc_large: a chunk of the smallest size that holds nb bytes, over all tree bins. */
    method BestLarge(nb: nat) returns (v: nat, rsize: nat)
      requires Ok() && MIN_LARGE_SIZE <= nb < WORD
      ensures v == 0 ==> forall a :: a in items ==> items[a] < nb
      ensures v != 0 ==> v in items && nb <= items[v] && rsize == items[v] - nb
      ensures v != 0 ==> forall a :: a in items && nb <= items[a] ==> items[v] <= items[a]
    {
      BinHolds(nb);
      Negated(nb);
      var i := ComputeTreeIndex(nb);
      RootOfBin(View(), i);
      hide ComputeTreeIndex, Linked, Valid, Wrap, Pow2, Within, Has, HasSize, Better, State.Ok, Narrowed, Settles,
        BitToIdx;
      ghost var n, best, sub, up := i, WORD, Sub(Nil, 0, 0), 0;
      var t, w := roots[i], 0;
      rsize := Wrap(0 - nb);
      if t != 0 {
        t, w, rsize, best, sub, up := ExactWalk(i, nb);
      } else {
        assert forall s: nat :: !HasSize(Nil, s);
        NothingSettles(mem, trees[i], nb, i);
      }
      if t == 0 && w == 0 {
        NoneHere(View(), i, nb, sub, up);
        var leftbits := And(treemap, LeftBits(IdxToBit(i)));
        if leftbits != 0 {
          NextBin(View(), i, nb);
          var j := BitToIdx(LeastBit(leftbits));
          t, n := roots[j], j;
          sub, up := Sub(trees[j], BinLow(j), BinDigits(j)), Slot(j);
        } else {
          NoNextBin(View(), i, nb);
          sub, up := Sub(Nil, 0, 0), 0;
        }
      } else {
        NarrowedHere(View(), i, nb, best, w, sub, t, up);
      }
      NarrowedBounds(View(), n, nb, best, w, sub, t, up);
      ghost var pick;
      var u;
      u, rsize, pick := LeastWalk(t, w, rsize, nb, sub, up, n, best);
      Picked(View(), n, nb, best, w, sub, t, up, u);
      v := u;
    }
  
    /** The search of tmalloc_small: a chunk of the smallest size over all tree bins. */
    method LeastTree(nb: nat) returns (v: nat, rsize: nat)
      requires Ok() && treemap != 0 && nb <= MIN_LARGE_SIZE
      ensures v in items && items[v] >= MIN_LARGE_SIZE && rsize == items[v] - nb
      ensures forall a :: a in items && items[a] >= MIN_LARGE_SIZE ==> items[v] <= items[a]
    {
      FirstBin(View());
      hide ComputeTreeIndex, Linked, Valid, Wrap, Has, HasSize, Better, State.Ok, BitToIdx, LeastBit;
      var i := BitToIdx(LeastBit(treemap));
      var t := roots[i];
      ghost var whole := Sub(trees[i], BinLow(i), BinDigits(i));
      LeftmostStep(mem, whole, t, Slot(i), i);
      FirstBinSizes(View(), i, nb);
      rsize := At(mem, t).size - nb;
      var c := if At(mem, t).child0 != 0 then At(mem, t).child0 else At(mem, t).child1;
      ghost var pick;
      var u;
      u, rsize, pick := LeastWalk(c, t, rsize, nb, LeftmostSub(whole), t, i, whole.trie.size);
      v := u;
      FirstBinPick(View(), i, nb, v);
    }

    /** The test for a remainderless fit: the bin of index idx, or else the next, if non-empty. */
    method ExactBin(idx: nat) returns (found: bool, i: nat)
      requires Ok() && idx + 1 < NBINS
      ensures found ==> (i == idx || (i == idx + 1 && small[idx] == [])) && small[i] != []
      ensures !found ==> small[idx] == [] && small[idx + 1] == []
    {
      hide ComputeTreeIndex, And, ShiftRight, Bits;
      var smallbits := ShiftRight(smallmap, idx);
      LowPair(smallmap, idx);
      assert View().SmallOk(idx) && View().SmallOk(idx + 1);
      found, i := And(smallbits, 3) != 0, idx;
      if found {
        i := idx + (1 - smallbits % 2);
      }
    }

    /** The first non-empty small bin after idx, once the bin of idx is known to be empty. */
    method NextSmallBin(idx: nat) returns (found: bool, i: nat)
      requires Ok() && idx < NBINS && small[idx] == []
      ensures found ==> idx < i < NBINS && small[i] != [] && forall j :: idx < j < i ==> small[j] == []
      ensures !found ==> forall j :: idx < j < NBINS ==> small[j] == []
    {
      hide ComputeTreeIndex, And, ShiftRight, ShiftLeft, LeftBits, IdxToBit, LeastBit, BitToIdx, Bits;
      var smallbits := ShiftRight(smallmap, idx);
      ShiftedNonzero(smallmap, idx);
      assert View().SmallOk(idx);
      forall j | 0 <= j < NBINS ensures j in Bits(smallmap) <==> small[j] != [] { assert View().SmallOk(j); }
      found, i := smallbits != 0, idx;
      if found {
        var leftbits := And(ShiftLeft(smallbits, idx), LeftBits(IdxToBit(idx)));
        ShiftedLeft(smallmap, idx);
        ghost var some :| some in Bits(smallmap) && idx <= some;
        assert some in Bits(leftbits);
        NoBits(leftbits);
        LeastIndex(leftbits);
        i := BitToIdx(LeastBit(leftbits));
        BitsBound(smallmap, i);
        forall j | idx < j < i ensures small[j] == [] { assert j !in Bits(leftbits); }
      }
    }

    /** Takes a chunk that fits with no remainder: one of size nb or, failing that, of the next small size. */
    method TakeExact(nb: nat) returns (p: nat, s: nat)
      requires Ok() && nb % 8 == 0 && 0 < nb && nb + 8 < MIN_LARGE_SIZE
      modifies this
      ensures Ok() && (p != 0 ==> p in old(items) && s == old(items)[p])
      ensures p == 0 ==> items == old(items) && forall a :: a in items ==> items[a] != nb && items[a] != nb + 8
      ensures p != 0 ==> p in old(items) && items == old(items) - {p} && old(items)[p] in {nb, nb + 8}
      ensures p != 0 && old(items)[p] != nb ==> forall a :: a in old(items) ==> old(items)[a] != nb
      ensures p != 0 ==> s / 8 < |old(small)| && old(small)[s / 8] != [] && p == old(small)[s / 8][0]
      ensures p != 0 ==> View() == SmallRemoved(old(View()), p)
    {
      assert |small| == NBINS;
      hide ComputeTreeIndex, State.Ok;
      var found, i := ExactBin(nb / 8);
      ghost var was := View();
      if found {
        if i != nb / 8 {
          forall a | a in items ensures items[a] != nb { EmptySmallBin(was, nb / 8, a); }
        }
        s := 8 * i;
        p := UnlinkFirstSmall(i);
        BinnedPositive(was, p);
      } else {
        p, s := 0, 0;
        forall a | a in items ensures items[a] != nb && items[a] != nb + 8 {
          EmptySmallBin(was, nb / 8, a);
          EmptySmallBin(was, nb / 8 + 1, a);
        }
      }
    }

    /** Takes the smallest small chunk longer than nb, when none has size nb. */
    method TakeNextSmall(nb: nat) returns (p: nat, s: nat)
      requires Ok() && nb % 8 == 0 && nb < MIN_LARGE_SIZE && forall a :: a in items ==> items[a] != nb
      modifies this
      ensures Ok() && (p != 0 ==> p in old(items) && s == old(items)[p])
      ensures p == 0 ==> items == old(items) && forall a :: a in items && items[a] < MIN_LARGE_SIZE ==> items[a] < nb
      ensures p != 0 ==> p in old(items) && items == old(items) - {p} && nb < old(items)[p] < MIN_LARGE_SIZE
      ensures p != 0 ==> old(items)[p] % 8 == 0
      ensures p != 0 ==> forall a :: a in old(items) && nb <= old(items)[a] ==> old(items)[p] <= old(items)[a]
      ensures p != 0 ==> s / 8 < |old(small)| && old(small)[s / 8] != [] && p == old(small)[s / 8][0]
      ensures p != 0 ==> View() == SmallRemoved(old(View()), p)
    {
      assert |small| == NBINS;
      hide ComputeTreeIndex, State.Ok;
      ghost var was := View();
      if small[nb / 8] != [] {
        UsedSize(was, nb / 8);
      }
      var found, i := NextSmallBin(nb / 8);
      if found {
        forall a | a in items && nb <= items[a] ensures 8 * i <= items[a] { SmallAfter(was, nb / 8, i, a); }
        s := 8 * i;
        p := UnlinkFirstSmall(i);
        BinnedPositive(was, p);
      } else {
        p, s := 0, 0;
        forall a | a in items && items[a] < MIN_LARGE_SIZE ensures items[a] < nb {
          if nb <= items[a] {
            SmallAfter(was, nb / 8, NBINS, a);
          }
        }
      }
    }

    /** With no tree bin marked, every binned chunk is small. */
    lemma NoTreeBins()
      requires Ok() && treemap == 0
      ensures forall a :: a in items ==> items[a] < MIN_LARGE_SIZE
    {
      hide Ring, Linked, Valid, ComputeTreeIndex;
      NoBits(treemap);
      forall a | a in items ensures items[a] < MIN_LARGE_SIZE {
        assert View().Filed(a);
        assert items[a] >= MIN_LARGE_SIZE ==> View().TreeOk(ComputeTreeIndex(items[a]));
      }
    }

    /** A marked tree bin holds something. */
    lemma TreeBinUsed()
      requires Ok() && treemap != 0
      ensures items != map[]
    {
      FirstBin(View());
      hide State.Ok, BitToIdx, LeastBit, Linked, Valid, ComputeTreeIndex;
      var i := BitToIdx(LeastBit(treemap));
      assert HasSize(trees[i], trees[i].size);
      SizeBound(View(), i, trees[i].size);
    }
  }

  lemma BinnedPositive(b: State, p: nat)
    requires b.Ok() && p in b.items
    ensures p > 0
  {
    hide ComputeTreeIndex, Ring, Linked, Valid;
    assert b.Filed(p);
  }

  lemma UsedSize(b: State, i: nat)
    requires b.Ok() && i < NBINS && b.small[i] != []
    ensures exists a :: a in b.items && b.items[a] == 8 * i
  {
    hide ComputeTreeIndex, Ring, Linked, Valid;
    assert b.SmallOk(i);
    var a := b.small[i][0];
    assert a in b.small[i];
  }

  lemma SmallAfter(b: State, idx: nat, i: nat, a: nat)
    requires b.Ok() && idx < i <= NBINS && a in b.items && b.small[idx] == [] && 8 * idx <= b.items[a]
    requires forall j :: idx < j < i ==> b.small[j] == []
    ensures 8 * i <= b.items[a]
  {
    hide ComputeTreeIndex, Ring, Linked, Valid;
    assert b.Filed(a);
    if b.items[a] < 8 * i {
      EmptySmallBin(b, b.items[a] / 8, a);
    }
  }

  /** No chunk is filed under an empty small bin. */
  lemma EmptySmallBin(b: State, i: nat, a: nat)
    requires b.Ok() && i < NBINS && b.small[i] == [] && a in b.items
    ensures b.items[a] != 8 * i
  {
    hide ComputeTreeIndex, Ring, Linked, Valid;
    assert b.Filed(a);
  }

  lemma FirstBin(b: State)
    requires b.Ok() && b.treemap != 0
    ensures var i := BitToIdx(LeastBit(b.treemap));
            && i < NBINS && b.roots[i] != 0 && b.trees[i].Node?
            && Valid(b.trees[i], BinLow(i), BinDigits(i)) && Linked(b.mem, b.trees[i], b.roots[i], Slot(i), i)
            && forall m: nat :: m < i ==> b.trees[m].Nil?
  {
    hide ComputeTreeIndex, BitToIdx, LeastBit, Bits, Linked, Valid;
    LeastIndex(b.treemap);
    var i := BitToIdx(LeastBit(b.treemap));
    BitsBound(b.treemap, i);
    assert b.TreeOk(i);
    RootOfBin(b, i);
    forall m: nat | m < i ensures b.trees[m].Nil? { assert b.TreeOk(m); }
  }

  lemma FirstBinSizes(b: State, i: nat, nb: nat)
    requires b.Ok() && i < NBINS && b.trees[i].Node? && nb <= MIN_LARGE_SIZE
    ensures AtLeast(b.trees[i], nb)
    ensures forall s: nat :: HasSize(b.trees[i], s) ==> s < WORD
    ensures AtLeast(LeftmostChild(b.trees[i]), nb) && nb <= b.trees[i].size < WORD
    ensures forall s: nat :: HasSize(LeftmostChild(b.trees[i]), s) ==> s < WORD
  {
    hide ComputeTreeIndex;
    var t := b.trees[i];
    forall s: nat | HasSize(t, s) ensures nb <= s < WORD { SizeBound(b, i, s); }
    AllAtLeast(t, nb);
    assert HasSize(t, t.size);
    forall s: nat | HasSize(LeftmostChild(t), s) ensures s < WORD { assert HasSize(t, s); }
  }

  /** The least size of the first non-empty bin is the least of all. */
  lemma FirstBinPick(b: State, i: nat, nb: nat, v: nat)
    requires b.Ok() && i < NBINS && b.trees[i].Node? && nb <= MIN_LARGE_SIZE
      && (forall m: nat :: m < i ==> b.trees[m].Nil?)
    requires var t := b.trees[i];
             var pick := Better(t.size, LeftmostChild(t), nb);
             if pick == t.size then v == b.roots[i] else v > 0 && Has(LeftmostChild(t), v, pick)
    ensures v in b.items && b.items[v] == Better(b.trees[i].size, LeftmostChild(b.trees[i]), nb) >= MIN_LARGE_SIZE
    ensures forall a :: a in b.items && b.items[a] >= MIN_LARGE_SIZE ==> b.items[v] <= b.items[a]
  {
    hide ComputeTreeIndex;
    var t := b.trees[i];
    assert b.TreeOk(i);
    RootOf(b.mem, t, b.roots[i], Slot(i), i);
    FirstBinSizes(b, i, nb);
    BetterStep(WORD, t, nb);
    LeastInside(t);
    SizeBound(b, i, Least(t));
    AtLeastHolds(t, nb, Least(t));
    assert Better(t.size, LeftmostChild(t), nb) == Least(t);
    assert Has(t, v, Least(t));
    forall a | a in b.items && b.items[a] >= MIN_LARGE_SIZE ensures Least(t) <= b.items[a] {
      assert b.Filed(a);
      var m := ComputeTreeIndex(b.items[a]);
      HasHasSize(b.trees[m], a, b.items[a]);
      if m == i {
        LeastIsLeast(t, BinLow(i), BinDigits(i), b.items[a]);
      } else {
        IndexOrder(Least(t), b.items[a]);
      }
    }
  }

  /**
   The search of tmalloc_large before its last walk: nothing fits below bin n, and in bin n nothing fits better
   than the chunk w of size `best` or the best of `sub`; with neither, nothing fits at all.
   */
  ghost predicate Narrowed(b: State, n: nat, nb: nat, best: nat, w: int, sub: Sub, t: int, up: int)
    requires n < |b.trees|
  {
    && nb <= best <= WORD && (best == WORD <==> w == 0) && (w != 0 ==> w > 0 && Has(b.trees[n], w, best))
    && Settles(b.mem, b.trees[n], nb, best, sub, t, up, n)
    && (forall m: nat, s: nat :: m < n && HasSize(b.trees[m], s) ==> s < nb)
    && (t == 0 && w == 0 ==> forall m: nat, s: nat :: m < |b.trees| && HasSize(b.trees[m], s) ==> s < nb)
  }

  lemma LowerBins(b: State, nb: nat)
    requires b.Ok() && MIN_LARGE_SIZE <= nb
    ensures forall m: nat, s: nat :: m < NBINS && m < ComputeTreeIndex(nb) && HasSize(b.trees[m], s) ==> s < nb
  {
    hide ComputeTreeIndex;
    forall m: nat, s: nat | m < NBINS && m < ComputeTreeIndex(nb) && HasSize(b.trees[m], s) ensures s < nb {
      SizeBound(b, m, s);
      IndexOrder(s, nb);
    }
  }

  /** A bin without a fit settles its search with nothing found. */
  lemma NothingSettles(L: Links, root: Trie, nb: nat, i: nat)
    requires forall s: nat :: HasSize(root, s) ==> s < nb
    ensures Settles(L, root, nb, WORD, Sub(Nil, 0, 0), 0, 0, i)
  {
  }

  lemma NarrowedHere(b: State, i: nat, nb: nat, best: nat, w: int, sub: Sub, t: int, up: int)
    requires b.Ok() && MIN_LARGE_SIZE <= nb && i == ComputeTreeIndex(nb) < NBINS
    requires nb <= best <= WORD && (best == WORD <==> w == 0) && (w != 0 ==> w > 0 && Has(b.trees[i], w, best))
    requires Settles(b.mem, b.trees[i], nb, best, sub, t, up, i) && (t != 0 || w != 0)
    ensures Narrowed(b, i, nb, best, w, sub, t, up)
  {
    LowerBins(b, nb);
  }

  /** If the bin of nb has no fit, its sizes all fall short. */
  lemma NoneHere(b: State, i: nat, nb: nat, sub: Sub, up: int)
    requires b.Ok() && i < NBINS && Settles(b.mem, b.trees[i], nb, WORD, sub, 0, up, i)
    ensures forall s: nat :: HasSize(b.trees[i], s) ==> s < nb
  {
    hide ComputeTreeIndex;
    RootOf(b.mem, sub.trie, 0, up, i);
    forall s: nat | HasSize(b.trees[i], s) ensures s < nb { SizeBound(b, i, s); }
  }

  /** The map words give the first non-empty bin after i; all its sizes exceed nb and nothing fits before it. */
  lemma NextBin(b: State, i: nat, nb: nat)
    requires b.Ok() && MIN_LARGE_SIZE <= nb < WORD && i == ComputeTreeIndex(nb) < NBINS
    requires forall s: nat :: HasSize(b.trees[i], s) ==> s < nb
    requires And(b.treemap, LeftBits(IdxToBit(i))) != 0
    ensures var j := BitToIdx(LeastBit(And(b.treemap, LeftBits(IdxToBit(i)))));
            && i < j < NBINS && b.roots[j] != 0
            && Narrowed(b, j, nb, WORD, 0, Sub(b.trees[j], BinLow(j), BinDigits(j)), b.roots[j], Slot(j))
  {
    hide ComputeTreeIndex, BitToIdx, And, LeftBits, LeastBit, IdxToBit, Bits, Linked, Valid, Settles;
    var left := And(b.treemap, LeftBits(IdxToBit(i)));
    BitsLeftOf(b.treemap, i);
    LeastIndex(left);
    var j := BitToIdx(LeastBit(left));
    BitsBound(b.treemap, j);
    LowerBins(b, nb);
    assert b.TreeOk(j);
    RootOfBin(b, j);
    forall m: nat, s: nat | m < j && HasSize(b.trees[m], s) ensures s < nb {
      assert b.TreeOk(m);
      assert m > i ==> m !in Bits(left);
    }
    LaterBin(b, i, j, nb);
  }

  lemma BitsBound(m: BinMap, j: nat)
    requires j in Bits(m)
    ensures j < NBINS
  {
  }

  lemma LaterBin(b: State, i: nat, j: nat, nb: nat)
    requires b.Ok() && MIN_LARGE_SIZE <= nb && i == ComputeTreeIndex(nb) < j < NBINS && b.trees[j].Node?
    ensures Settles(b.mem, b.trees[j], nb, WORD, Sub(b.trees[j], BinLow(j), BinDigits(j)), b.roots[j], Slot(j), j)
  {
    hide ComputeTreeIndex;
    var t, lo, k := b.trees[j], BinLow(j), BinDigits(j);
    assert b.TreeOk(j);
    forall s: nat | HasSize(t, s) ensures nb <= s {
      SizeBound(b, j, s);
      IndexOrder(nb, s);
    }
    AllAtLeast(t, nb);
    LeastInside(t);
    SizeBound(b, j, Least(t));
    forall s: nat | HasSize(t, s) ensures Least(t) <= s { LeastIsLeast(t, lo, k, s); }
  }

  lemma {:induction false} AllAtLeast(t: Trie, nb: nat)
    requires forall s: nat :: HasSize(t, s) ==> nb <= s
    ensures AtLeast(t, nb)
    decreases t
  {
    if t.Node? {
      assert HasSize(t, t.size);
      forall s: nat | HasSize(t.left, s) || HasSize(t.right, s) ensures nb <= s { assert HasSize(t, s); }
      AllAtLeast(t.left, nb);
      AllAtLeast(t.right, nb);
    }
  }

  lemma NoNextBin(b: State, i: nat, nb: nat)
    requires b.Ok() && MIN_LARGE_SIZE <= nb < WORD && i == ComputeTreeIndex(nb) < NBINS
    requires forall s: nat :: HasSize(b.trees[i], s) ==> s < nb
    requires And(b.treemap, LeftBits(IdxToBit(i))) == 0
    ensures Narrowed(b, i, nb, WORD, 0, Sub(Nil, 0, 0), 0, 0)
  {
    hide ComputeTreeIndex, And, LeftBits, IdxToBit, Bits, Linked, Valid;
    BitsLeftOf(b.treemap, i);
    NoBits(0);
    LowerBins(b, nb);
    forall m: nat | i < m < NBINS ensures b.trees[m].Nil? {
      assert b.TreeOk(m) && m !in Bits(0);
    }
    NothingSettles(b.mem, b.trees[i], nb, i);
  }

  lemma NarrowedBounds(b: State, n: nat, nb: nat, best: nat, w: int, sub: Sub, t: int, up: int)
    requires b.Ok() && n < NBINS && Narrowed(b, n, nb, best, w, sub, t, up)
    ensures nb <= best <= WORD && sub.Ok() && Linked(b.mem, sub.trie, t, up, n)
    ensures best == nb || AtLeast(sub.trie, nb)
    ensures forall s: nat :: HasSize(sub.trie, s) ==> s < WORD
  {
    hide ComputeTreeIndex;
    forall s: nat | HasSize(sub.trie, s) ensures s < WORD { SizeBound(b, n, s); }
  }

  /** The last walk ends with a best fit over all bins, or with nothing because nothing fits. */
  lemma Picked(b: State, n: nat, nb: nat, best: nat, w: int, sub: Sub, t: int, up: int, v: int)
    requires b.Ok() && MIN_LARGE_SIZE <= nb < WORD && n < NBINS && Narrowed(b, n, nb, best, w, sub, t, up)
    requires var pick := Better(best, sub.trie, nb); if pick == best then v == w else v > 0 && Has(sub.trie, v, pick)
    ensures v >= 0
    ensures v == 0 ==> forall a :: a in b.items ==> b.items[a] < nb
    ensures v != 0 ==> v in b.items && b.items[v] == Better(best, sub.trie, nb) >= nb
    ensures v != 0 ==> forall a :: a in b.items && nb <= b.items[a] ==> b.items[v] <= b.items[a]
  {
    hide ComputeTreeIndex;
    var pick := Better(best, sub.trie, nb);
    assert b.TreeOk(n);
    RootOf(b.mem, sub.trie, t, up, n);
    if w == 0 && t != 0 {
      LeastInside(sub.trie);
      SizeBound(b, n, Least(sub.trie));
      AtLeastHolds(sub.trie, nb, Least(sub.trie));
    }
    if v != 0 { HasHasSize(b.trees[n], v, pick); }
    forall a | a in b.items && nb <= b.items[a] ensures v != 0 && pick <= b.items[a] {
      PickBeats(b, n, nb, pick, v, a);
    }
  }

  lemma PickBeats(b: State, n: nat, nb: nat, pick: nat, v: int, a: nat)
    requires b.Ok() && n < NBINS && a in b.items && MIN_LARGE_SIZE <= nb <= b.items[a]
    requires v == 0 ==> forall m: nat, s: nat :: m < NBINS && HasSize(b.trees[m], s) ==> s < nb
    requires v != 0 ==> HasSize(b.trees[n], pick)
    requires forall m: nat, s: nat :: m < n && HasSize(b.trees[m], s) ==> s < nb
    requires forall s: nat :: HasSize(b.trees[n], s) && nb <= s ==> pick <= s
    ensures v != 0 && pick <= b.items[a]
  {
    hide ComputeTreeIndex;
    var s := b.items[a];
    assert b.Filed(a);
    var m := ComputeTreeIndex(s);
    HasHasSize(b.trees[m], a, s);
    if n < m {
      SizeBound(b, n, pick);
      IndexOrder(pick, s);
    }
  }

  /** The first walk of tmalloc_large part-way: where it stands, and what it has passed. */
  ghost predicate Searching(L: Links, root: Trie, nb: nat, best: nat, here: Sub, t: int, up: int,
                            passed: Sub, rst: int, rup: int, i: nat, bits: nat) {
    && OnPath(L, here, t, up, i, nb, bits) && Covers(root, nb, best, here, passed)
    && Linked(L, passed.trie, rst, rup, i)
    && Within(here.trie, root) && Within(passed.trie, root) && AtLeast(passed.trie, nb)
  }

  lemma SearchStart(b: State, i: nat, nb: nat)
    requires b.Ok() && MIN_LARGE_SIZE <= nb < WORD && i == ComputeTreeIndex(nb) < NBINS && b.roots[i] != 0
    ensures Searching(b.mem, b.trees[i], nb, WORD, Sub(b.trees[i], BinLow(i), BinDigits(i)), b.roots[i], Slot(i),
                      Sub(Nil, 0, 0), 0, 0, i, Wrap(nb * Pow2(LeftShift(i))))
  {
    BinHolds(nb);
    FirstDigits(nb);
    hide ComputeTreeIndex;
    assert b.TreeOk(i);
    RootOf(b.mem, b.trees[i], b.roots[i], Slot(i), i);
  }

  lemma SearchVisit(L: Links, root: Trie, nb: nat, best: nat, here: Sub, t: int, up: int,
                    passed: Sub, rst: int, rup: int, i: nat, bits: nat)
    requires Searching(L, root, nb, best, here, t, up, passed, rst, rup, i, bits)
    ensures here.trie.Node? && t > 0 && At(L, t).size == here.trie.size
    ensures Has(root, t, here.trie.size) && HasSize(root, here.trie.size)
    ensures var best' := if nb <= here.trie.size < best then here.trie.size else best;
            Searching(L, root, nb, best', here, t, up, passed, rst, rup, i, bits)
  {
    RootOf(L, here.trie, t, up, i);
    LeftmostStep(L, here, t, up, i);
  }

  /** What the first walk hands over: a subtree that, with the best so far, settles the search. */
  ghost predicate Settles(L: Links, root: Trie, nb: nat, best: nat, sub: Sub, t: int, up: int, i: nat) {
    && sub.Ok() && Linked(L, sub.trie, t, up, i)
    && Within(sub.trie, root) && (best == nb || AtLeast(sub.trie, nb))
    && (forall s: nat :: HasSize(root, s) && nb <= s ==> Better(best, sub.trie, nb) <= s)
  }

  lemma SearchHit(L: Links, root: Trie, nb: nat, here: Sub, t: int, up: int,
                  passed: Sub, rst: int, rup: int, i: nat, bits: nat)
    requires Searching(L, root, nb, nb, here, t, up, passed, rst, rup, i, bits)
    ensures Settles(L, root, nb, nb, here, t, up, i)
  {
  }

  lemma SearchStep(L: Links, root: Trie, nb: nat, best: nat, here: Sub, t: int, up: int,
                   passed: Sub, rst: int, rup: int, i: nat, bits: nat)
    requires Searching(L, root, nb, best, here, t, up, passed, rst, rup, i, bits)
    requires At(L, t).size != nb && (nb <= here.trie.size ==> best <= here.trie.size)
    ensures here.k > 0
    ensures var c, rt := ChildOf(At(L, t), bits / (WORD / 2) == 1), At(L, t).child1;
            var goes := rt != 0 && rt != c;
            var here', passed', rst', rup' :=
              Child(here, nb), PassedRight(here, nb, passed), if goes then rt else rst, if goes then t else rup;
            && (c != 0 ==> Searching(L, root, nb, best, here', c, t, passed', rst', rup', i, Wrap(2 * bits)))
            && (c == 0 ==> Settles(L, root, nb, best, passed', rst', rup', i))
  {
    RootOf(L, here.trie, t, up, i);
    PathStep(L, here, t, up, i, nb, bits);
    CoversStep(root, nb, best, here, passed);
    PassStep(L, here, t, up, i, nb, passed, root);
    var c := ChildOf(At(L, t), bits / (WORD / 2) == 1);
    if c == 0 { CoversDone(root, nb, best, Child(here, nb), PassedRight(here, nb, passed)); }
  }

  /** Every chunk of a subtree is a chunk of the tree. */
  ghost predicate Within(t: Trie, root: Trie) {
    && (forall a: nat, s: nat :: Has(t, a, s) ==> Has(root, a, s))
    && (forall s: nat :: HasSize(t, s) ==> HasSize(root, s))
  }

  lemma {:induction false} SizeHas(t: Trie, lo: nat, k: nat, s: nat) returns (a: nat)
    requires Valid(t, lo, k) && HasSize(t, s)
    ensures Has(t, a, s)
    decreases t
  {
    if t.size == s {
      a := t.ring[0];
    } else if HasSize(t.left, s) {
      a := SizeHas(t.left, lo, k - 1, s);
    } else {
      a := SizeHas(t.right, lo + Pow2(k - 1), k - 1, s);
    }
  }

  /** A size in a tree bin is the size of a binned chunk. */
  lemma SizeBound(b: State, i: nat, s: nat)
    requires b.Ok() && i < NBINS && HasSize(b.trees[i], s)
    ensures MIN_LARGE_SIZE <= s < WORD && ComputeTreeIndex(s) == i
    ensures exists a :: a in b.items && b.items[a] == s
  {
    hide ComputeTreeIndex;
    assert b.TreeOk(i);
    var a := SizeHas(b.trees[i], BinLow(i), BinDigits(i), s);
    assert a in b.items && b.items[a] == s;
  }

  /** Going left past a right child makes that child the deepest right subtree passed by. */
  lemma PassStep(L: Links, here: Sub, t: int, up: int, i: nat, nb: nat, passed: Sub, root: Trie)
    requires here.Ok() && here.k > 0 && here.trie.Node? && Linked(L, here.trie, t, up, i)
    requires Within(here.trie, root) && Within(passed.trie, root)
    requires here.lo <= nb < here.End()
    ensures var c := ChildOf(At(L, t), here.lo + Pow2(here.k - 1) <= nb);
            var goes := At(L, t).child1 != 0 && At(L, t).child1 != c;
            && (goes ==> Linked(L, PassedRight(here, nb, passed).trie, At(L, t).child1, t, i))
            && (!goes ==> PassedRight(here, nb, passed) == passed)
    ensures Within(Child(here, nb).trie, root) && Within(PassedRight(here, nb, passed).trie, root)
    ensures AtLeast(passed.trie, nb) ==> AtLeast(PassedRight(here, nb, passed).trie, nb)
  {
    var half := Pow2(here.k - 1);
    RingOf(L, here.trie, t, up, i);
    if here.trie.right.Node? { OtherRoot(L, here.trie, t, up, i, here.lo, here.k); }
    if nb < here.lo + half { AtLeastInRange(here.trie.right, here.lo + half, here.k - 1, nb); }
  }

  /** The best fit once a whole subtree has been looked through. */
  ghost function Better(best: nat, t: Trie, nb: nat): nat {
    if t.Node? && nb <= Least(t) < best then Least(t) else best
  }

  ghost function LeftmostSub(here: Sub): Sub
    requires here.trie.Node? && here.Ok()
  {
    if here.k == 0 then Sub(Nil, here.lo, 0)
    else if here.trie.left.Node? then Sub(here.trie.left, here.lo, here.k - 1)
    else Sub(here.trie.right, here.lo + Pow2(here.k - 1), here.k - 1)
  }

  /** The unsigned remainder `chunksize(t) - nb` is below the best so far just when the chunk fits, and better. */
  lemma Remainder(size: nat, nb: nat, best: nat)
    requires size < WORD && nb <= best <= WORD
    ensures Wrap(size - nb) < best - nb <==> nb <= size < best
    ensures nb <= size ==> Wrap(size - nb) == size - nb
  {
  }

  /** The unsigned negation `-nb`. */
  lemma Negated(nb: nat)
    requires 0 < nb < WORD
    ensures Wrap(0 - nb) == WORD - nb
  {
  }

  lemma {:induction false} LeastInside(t: Trie)
    requires t.Node?
    ensures HasSize(t, Least(t))
    decreases t
  {
    if LeftmostChild(t).Node? { LeastInside(LeftmostChild(t)); }
  }

  lemma BetterStep(best: nat, t: Trie, nb: nat)
    requires t.Node? && (best == nb || AtLeast(t, nb))
    ensures Better(if nb <= t.size < best then t.size else best, LeftmostChild(t), nb) == Better(best, t, nb)
  {
    var c := LeftmostChild(t);
    if c.Node? {
      LeastInside(c);
      if best != nb { AtLeastHolds(c, nb, Least(c)); }
    }
  }

  /** No size of the trie is below nb. */
  ghost predicate AtLeast(t: Trie, nb: nat) {
    t.Node? ==> nb <= t.size && AtLeast(t.left, nb) && AtLeast(t.right, nb)
  }

  lemma {:induction false} AtLeastHolds(t: Trie, nb: nat, s: nat)
    requires AtLeast(t, nb) && HasSize(t, s)
    ensures nb <= s
    decreases t
  {
    if s != t.size && HasSize(t.left, s) {
      AtLeastHolds(t.left, nb, s);
    } else if s != t.size {
      AtLeastHolds(t.right, nb, s);
    }
  }

  lemma {:induction false} AtLeastInRange(t: Trie, lo: nat, k: nat, nb: nat)
    requires Valid(t, lo, k) && nb <= lo
    ensures AtLeast(t, nb)
    decreases t
  {
    if t.Node? && k > 0 {
      AtLeastInRange(t.left, lo, k - 1, nb);
      AtLeastInRange(t.right, lo + Pow2(k - 1), k - 1, nb);
    }
  }

  lemma LeftmostStep(L: Links, here: Sub, t: int, up: int, i: nat)
    requires here.Ok() && Linked(L, here.trie, t, up, i) && t != 0
    ensures here.trie.Node? && t > 0 && At(L, t).size == here.trie.size
    ensures Has(here.trie, t, here.trie.size) && HasSize(here.trie, here.trie.size)
    ensures var c := if At(L, t).child0 != 0 then At(L, t).child0 else At(L, t).child1;
            && LeftmostSub(here).Ok() && LeftmostSub(here).trie == LeftmostChild(here.trie)
            && Linked(L, LeftmostChild(here.trie), c, t, i)
    ensures forall s: nat :: HasSize(LeftmostChild(here.trie), s) ==> HasSize(here.trie, s)
    ensures forall a: nat, s: nat :: Has(LeftmostChild(here.trie), a, s) ==> Has(here.trie, a, s)
  {
    RingOf(L, here.trie, t, up, i);
  }

  /** The words once x has left its ring, or once the leaf that will replace x has left its place. */
  ghost function Detached(L: Links, u: Trie, x: int): Links
    requires u.Node? && u.ring != []
  {
    if At(L, x).bk != x then CutFromRing(L, x)
    else if Leaf(u) then L
    else SetChild(L, PullSlot(u).owner, PullSlot(u).right, 0)
  }

  /** What will stand where x was. */
  ghost function Successor(L: Links, u: Trie, x: int): int
    requires u.Node? && u.ring != []
  {
    if At(L, x).bk != x then At(L, x).bk
    else if Leaf(u) then 0
    else ChildOf(At(L, PullSlot(u).owner), PullSlot(u).right)
  }

  lemma HeadReplaces(L: Links, u: Trie, x: nat, up: int, i: nat, lo: nat, k: nat)
    requires HangsFrom(L, u, x, up, i) && Valid(u, lo, k) && x in u.ring
    requires At(L, x).bk != x <==> |u.ring| > 1
    ensures Replaces(L, PutInPlace(Detached(L, u, x), up, x, Successor(L, u, x)), u, RemoveHere(u, x), x,
                     Successor(L, u, x), up, i)
  {
    if |u.ring| > 1 {
      UnlinkShared(L, u, x, up, i, lo, k);
    } else if Leaf(u) {
      UnlinkLeaf(L, u, x, up, i);
    } else {
      UnlinkInner(L, u, x, up, i, lo, k);
    }
  }

  lemma RootOfBin(b: State, n: nat)
    requires b.Ok() && n < NBINS
    ensures b.roots[n] >= 0 && (b.roots[n] == 0 <==> b.trees[n].Nil?)
  {
    assert b.TreeOk(n);
    RootOf(b.mem, b.trees[n], b.roots[n], Slot(n), n);
  }

  lemma DetachKeepsIndex(L: Links, u: Trie, x: int)
    requires u.Node? && u.ring != []
    ensures At(Detached(L, u, x), x).index == At(L, x).index
  {
  }

  lemma RingOf(L: Links, t: Trie, p: int, up: int, i: nat)
    requires Linked(L, t, p, up, i)
    ensures p == 0 <==> t.Nil?
    ensures t.Node? ==> p > 0 && t.ring != [] && t.ring[0] == p
    ensures t.Node? ==> Linked(L, t.left, At(L, p).child0, p, i) && Linked(L, t.right, At(L, p).child1, p, i)
    ensures t.Node? ==> (At(L, p).child0 == 0 <==> t.left.Nil?) && (At(L, p).child1 == 0 <==> t.right.Nil?)
  {
    if t.Node? {
      RootOf(L, t.left, At(L, p).child0, p, i);
      RootOf(L, t.right, At(L, p).child1, p, i);
    }
  }

  /** The node of a large binned chunk, and what its words say about the chunk's place in it. */
  lemma NodeOfChunk(b: State, x: nat, n: nat, s: nat)
    requires b.Ok() && x in b.items && b.items[x] == s >= MIN_LARGE_SIZE && n == ComputeTreeIndex(s)
    ensures FiledAt(b, x, n, s)
    ensures var u := FindNode(b.trees[n], s, BinLow(n), BinDigits(n));
            && u.Node? && u.size == s && x in u.ring
            && HangsFrom(b.mem, u, u.ring[0], At(b.mem, u.ring[0]).parent, n)
            && (b.trees[n].size == s <==> At(b.mem, u.ring[0]).parent == Slot(n))
            && (b.trees[n].size == s ==> u.ring[0] == b.roots[n])
            && (b.trees[n].size != s ==> At(b.mem, u.ring[0]).parent > 0)
            && At(b.mem, x).index == n
            && (x == b.roots[n] <==> At(b.mem, x).parent < 0)
            && (x != u.ring[0] ==> At(b.mem, x).parent == 0 && At(b.mem, x).bk != x)
            && (At(b.mem, x).bk != x <==> |u.ring| > 1)
  {
    hide ComputeTreeIndex;
    var t, lo, k := b.trees[n], BinLow(n), BinDigits(n);
    assert b.Filed(x) && b.TreeOk(n);
    FindHangs(b.mem, t, b.roots[n], Slot(n), n, x, s, lo, k);
    var u := FindNode(t, s, lo, k);
    RingNeighbours(b.mem, u.ring, IndexOf(u.ring, x));
    RootOf(b.mem, t, b.roots[n], Slot(n), n);
    assert x == b.roots[n] ==> Has(t, x, t.size);
  }

  /** A walk down bin i towards size s stands at pointer t, with the digits still to read in `bits`. */
  ghost predicate OnPath(L: Links, here: Sub, t: int, up: int, i: nat, s: nat, bits: nat) {
    && here.trie.Node? && here.Ok() && here.lo <= s < here.End()
    && Linked(L, here.trie, t, up, i) && Aligned(bits, s, here.lo, here.k)
  }

  /** The leading digit picks the child whose sizes may include s, and the walk goes on there if it exists. */
  lemma PathStep(L: Links, here: Sub, t: int, up: int, i: nat, s: nat, bits: nat)
    requires OnPath(L, here, t, up, i, s, bits) && At(L, t).size != s
    ensures here.k > 0
    ensures var right := bits / (WORD / 2) == 1;
            var c := ChildOf(At(L, t), right);
            && (right <==> here.lo + Pow2(here.k - 1) <= s)
            && (c == 0 <==> Child(here, s).trie.Nil?)
            && (c == 0 ==> InsertPlace(here.trie, s, here.lo, here.k) == Hang(t, right))
            && (c != 0 ==>
                  && OnPath(L, Child(here, s), c, t, i, s, Wrap(2 * bits))
                  && InsertPlace(here.trie, s, here.lo, here.k)
                     == InsertPlace(Child(here, s).trie, s, Child(here, s).lo, here.k - 1))
  {
    RootOf(L, here.trie, t, up, i);
    LinkedSize(L, here.trie, t, up, i, t, here.trie.size);
    OnlySize(here.trie, here.lo, here.k, s);
    NextDigit(bits, s, here.lo, here.k);
    hide Wrap, NodeLinked, HasSize, Has, Aligned;
    RootOf(L, here.trie.left, At(L, t).child0, t, i);
    RootOf(L, here.trie.right, At(L, t).child1, t, i);
  }

  lemma PathEnd(L: Links, here: Sub, t: int, up: int, i: nat, s: nat, bits: nat)
    requires OnPath(L, here, t, up, i, s, bits) && At(L, t).size == s
    ensures here.trie.size == s && InsertPlace(here.trie, s, here.lo, here.k) == Join(t)
  {
    RootOf(L, here.trie, t, up, i);
    LinkedSize(L, here.trie, t, up, i, t, here.trie.size);
  }

  /** Where a single size is left, the node has it. */
  lemma OnlySize(t: Trie, lo: nat, k: nat, s: nat)
    requires t.Node? && Valid(t, lo, k) && lo <= s < lo + Pow2(k) && t.size != s
    ensures k > 0
  {
  }

  /** The neighbours of a listed chunk point back at it. */
  lemma MutualLinks(L: Links, hdr: int, list: seq<nat>, p: nat)
    requires p in list && Ring(L, [hdr] + list)
    ensures At(L, At(L, p).fd).bk == p && At(L, At(L, p).bk).fd == p
  {
    var c, j := [hdr] + list, IndexOf(list, p) + 1;
    assert c[j] == p;
    RingNeighbours(L, c, j);
    RingNeighbours(L, c, j - 1);
    RingNeighbours(L, c, if j == |c| - 1 then 0 else j + 1);
  }

  /** The two neighbours of a listed chunk coincide just when it is the only one. */
  lemma LonelyLinks(L: Links, hdr: int, list: seq<nat>, p: nat)
    requires p in list && Ring(L, [hdr] + list)
    ensures At(L, p).fd == At(L, p).bk <==> |list| == 1
    ensures |list| == 1 ==> At(L, p).fd == hdr
  {
    var c, j := [hdr] + list, IndexOf(list, p);
    assert c[j + 1] == p;
    RingNeighbours(L, c, j + 1);
  }
}

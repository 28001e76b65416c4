/**
 The bins of free chunks: 32 exact-size small bins held in circular lists and 32 tree bins held in tries,
 with one map word for each kind. `State` is a snapshot of all the words together with what they stand for.
 */
module Bins {
  import opened Words
  import opened Tries
  import opened Links
  import opened TreeIndex
  import opened BinMaps

  datatype State = State(smallmap: BinMap, treemap: BinMap, mem: Links, roots: seq<int>,
                         small: seq<seq<nat>>, trees: seq<Trie>, items: map<nat, nat>)
  {
    ghost predicate SmallOk(i: nat)
      requires i < |small|
    {
      && (i in Bits(smallmap) <==> small[i] != [])
      && (small[i] != [] ==> Ring(mem, [Slot(i)] + small[i]))
      && forall a :: a in small[i] ==> a > 0 && a in items && items[a] == 8 * i
    }

    ghost predicate TreeOk(i: nat)
      requires i < |trees| && i < |roots|
    {
      && (i in Bits(treemap) <==> trees[i].Node?)
      && Valid(trees[i], BinLow(i), BinDigits(i))
      && Linked(mem, trees[i], roots[i], Slot(i), i)
      && forall a: nat, s: nat :: Has(trees[i], a, s) ==>
           a in items && items[a] == s && MIN_LARGE_SIZE <= s < WORD && ComputeTreeIndex(s) == i
    }

    /** A binned chunk is in the bin of its size. */
    ghost predicate Filed(a: nat)
      requires a in items && |small| == NBINS && |trees| == NBINS
    {
      && 0 < a && items[a] < WORD
      && (items[a] < MIN_LARGE_SIZE ==> items[a] % 8 == 0 && a in small[items[a] / 8])
      && (items[a] >= MIN_LARGE_SIZE ==>
            ComputeTreeIndex(items[a]) < NBINS && Has(trees[ComputeTreeIndex(items[a])], a, items[a]))
    }

    ghost predicate Ok() {
      && |small| == NBINS && |trees| == NBINS && |roots| == NBINS
      && (forall i :: 0 <= i < NBINS ==> SmallOk(i))
      && (forall i :: 0 <= i < NBINS ==> TreeOk(i))
      && (forall a :: a in items ==> Filed(a))
    }
  }

  // ---- frames

  lemma SmallFrame(b: State, b': State, j: nat)
    requires j < |b.small| == |b'.small| && b.SmallOk(j) && b'.small[j] == b.small[j]
    requires j in Bits(b'.smallmap) <==> j in Bits(b.smallmap)
    requires At(b'.mem, Slot(j)) == At(b.mem, Slot(j))
    requires forall a :: a in b.small[j] ==> At(b'.mem, a) == At(b.mem, a) && a in b'.items && b'.items[a] == b.items[a]
    ensures b'.SmallOk(j)
  {
    if b.small[j] != [] {
      var c := [Slot(j)] + b.small[j];
      forall k | 0 <= k < |c| ensures At(b'.mem, c[k]) == At(b.mem, c[k]) {
        assert k > 0 ==> c[k] in b.small[j];
      }
      RingFrame(b.mem, b'.mem, c);
    }
  }

  lemma TreeFrame(b: State, b': State, j: nat)
    requires j < |b.trees| == |b'.trees| && j < |b.roots| == |b'.roots| && b.TreeOk(j)
    requires b'.trees[j] == b.trees[j] && b'.roots[j] == b.roots[j]
    requires j in Bits(b'.treemap) <==> j in Bits(b.treemap)
    requires forall a: nat, s: nat :: Has(b.trees[j], a, s) ==>
               At(b'.mem, a) == At(b.mem, a) && a in b'.items && b'.items[a] == b.items[a]
    ensures b'.TreeOk(j)
  {
    LinkedFrame(b.mem, b'.mem, b.trees[j], b.roots[j], Slot(j), j);
  }

  // ---- small bins

  /** insert_small_chunk: the words after linking p at the front of its bin. */
  function FrontLinked(L: Links, hdr: int, first: int, p: int, s: int): Links {
    SetBk(SetFd(SetBk(SetFd(L[p := At(L, p).(size := s)], hdr, p), first, p), p, first), p, hdr)
  }

  ghost function SmallInserted(b: State, p: nat, s: nat): State
    requires b.Ok() && s < MIN_LARGE_SIZE
  {
    var i := s / 8;
    var first := if b.small[i] == [] then Slot(i) else At(b.mem, Slot(i)).fd;
    b.(smallmap := if b.small[i] == [] then MarkedMap(b.smallmap, i) else b.smallmap,
       mem := FrontLinked(b.mem, Slot(i), first, p, s),
       small := b.small[i := [p] + b.small[i]],
       items := b.items[p := s])
  }

  ghost function MarkedMap(m: BinMap, i: nat): BinMap
    requires i < NBINS
  {
    MarkBits(m, i);
    Mark(m, i)
  }

  lemma FrontRing(L: Links, hdr: int, list: seq<nat>, p: nat, s: int)
    requires hdr < 0 && p > 0 && p !in list && (list != [] ==> Ring(L, [hdr] + list))
    ensures var first := if list == [] then hdr else At(L, hdr).fd;
            && Ring(FrontLinked(L, hdr, first, p, s), [hdr, p] + list)
            && (list != [] ==> first == list[0])
  {
    if list != [] {
      var c, M := [hdr] + list, L[p := At(L, p).(size := s)];
      RingFrame(L, M, c);
      RingInsert(M, c, p);
      assert c[1..] == list;
      assert At(L, c[0]).fd == c[1];
    }
  }

  lemma FrontElsewhere(L: Links, hdr: int, first: int, p: int, s: int, a: int)
    requires a != hdr && a != first && a != p
    ensures At(FrontLinked(L, hdr, first, p, s), a) == At(L, a)
  {
  }

  /** Linking a chunk into a small bin puts it at the front of that bin and keeps all bins in order. */
  lemma SmallInsertOk(b: State, p: nat, s: nat)
    requires b.Ok() && p > 0 && p !in b.items && 0 < s < MIN_LARGE_SIZE && s % 8 == 0
    ensures SmallInserted(b, p, s).Ok()
  {
    hide ComputeTreeIndex, Ring;
    var i, b' := s / 8, SmallInserted(b, p, s);
    var first := if b.small[i] == [] then Slot(i) else At(b.mem, Slot(i)).fd;
    assert b.SmallOk(i);
    FrontRing(b.mem, Slot(i), b.small[i], p, s);
    assert [Slot(i)] + b'.small[i] == [Slot(i), p] + b.small[i];
    MarkBits(b.smallmap, i);
    assert first == Slot(i) || (first in b.small[i] && b.items[first] == s);
    forall a | a != Slot(i) && a != first && a != p ensures At(b'.mem, a) == At(b.mem, a) {
      FrontElsewhere(b.mem, Slot(i), first, p, s, a);
    }
    hide FrontLinked, Mark;
    OtherBins(b, b', p, i);
  }

  ghost function ListWithout(list: seq<nat>, p: nat): seq<nat>
    requires p in list
  {
    var j := IndexOf(list, p);
    list[..j] + list[j + 1..]
  }

  /** unlink_small_chunk and unlink_first_small_chunk. */
  ghost function SmallRemoved(b: State, p: nat): State
    requires b.Ok() && p in b.items && b.items[p] < MIN_LARGE_SIZE
  {
    var i := b.items[p] / 8;
    assert b.Filed(p);
    b.(smallmap := if |b.small[i]| == 1 then Clear(b.smallmap, i) else b.smallmap,
       mem := if |b.small[i]| == 1 then b.mem else CutFromRing(b.mem, p),
       small := b.small[i := ListWithout(b.small[i], p)],
       items := b.items - {p})
  }

  lemma ListRing(L: Links, hdr: int, list: seq<nat>, p: nat)
    requires p in list && Ring(L, [hdr] + list) && |list| > 1
    ensures Ring(CutFromRing(L, p), [hdr] + ListWithout(list, p))
    ensures At(L, p).fd in [hdr] + list && At(L, p).bk in [hdr] + list
  {
    var j, c := IndexOf(list, p), [hdr] + list;
    assert c[j + 1] == p;
    RingRemove(L, c, j + 1);
    RingNeighbours(L, c, j + 1);
    hide Ring, CutFromRing;
    assert c[..j + 1] == [hdr] + list[..j];
    assert c[j + 2..] == list[j + 1..];
    assert c[..j + 1] + c[j + 2..] == [hdr] + ListWithout(list, p);
  }

  lemma ListDistinct(L: Links, hdr: int, list: seq<nat>)
    requires Ring(L, [hdr] + list)
    ensures Distinct(list)
  {
    var c := [hdr] + list;
    forall m, n | 0 <= m < n < |list| ensures list[m] != list[n] {
      assert c[m + 1] == list[m] && c[n + 1] == list[n];
    }
  }

  lemma ListWithoutHas(list: seq<nat>, p: nat)
    requires p in list && Distinct(list)
    ensures forall a :: a in ListWithout(list, p) <==> a in list && a != p
    ensures |ListWithout(list, p)| == |list| - 1
  {
    var j, w := IndexOf(list, p), ListWithout(list, p);
    forall a | a in list && a != p ensures a in w {
      var i := IndexOf(list, a);
      assert w[if i < j then i else i - 1] == a;
    }
  }

  lemma CutElsewhere(L: Links, p: int, a: int)
    requires a != At(L, p).fd && a != At(L, p).bk
    ensures At(CutFromRing(L, p), a) == At(L, a)
  {
  }

  lemma CutWithin(L: Links, L': Links, hdr: int, list: seq<nat>, p: nat)
    requires p in list && Ring(L, [hdr] + list) && (|list| == 1 ==> L' == L) && (|list| > 1 ==> L' == CutFromRing(L, p))
    ensures forall a :: a != hdr && a !in list ==> At(L', a) == At(L, a)
  {
    if |list| > 1 {
      ListRing(L, hdr, list, p);
      forall a | a != hdr && a !in list ensures At(L', a) == At(L, a) { CutElsewhere(L, p, a); }
    }
  }

  /** Unlinking a chunk takes it, and nothing else, out of its small bin. */
  lemma SmallRemoveOk(b: State, p: nat)
    requires b.Ok() && p in b.items && b.items[p] < MIN_LARGE_SIZE
    ensures SmallRemoved(b, p).Ok()
  {
    var i, b' := b.items[p] / 8, SmallRemoved(b, p);
    assert b.Filed(p) && b.SmallOk(i);
    ListDistinct(b.mem, Slot(i), b.small[i]);
    ListWithoutHas(b.small[i], p);
    hide ComputeTreeIndex, Ring, Distinct;
    MarkBits(b.smallmap, i);
    if |b.small[i]| > 1 { ListRing(b.mem, Slot(i), b.small[i], p); }
    CutWithin(b.mem, b'.mem, Slot(i), b.small[i], p);
    hide CutFromRing, Clear, ListWithout, Mark;
    OtherBins(b, b', p, i);
  }

  /** A change of p and of small bin i that leaves that bin in order leaves all bins in order. */
  lemma OtherBins(b: State, b': State, p: nat, i: nat)
    requires b.Ok() && i < NBINS && b'.trees == b.trees && b'.roots == b.roots && b'.treemap == b.treemap
    requires |b'.small| == NBINS && b'.SmallOk(i)
    requires forall j :: 0 <= j < NBINS && j != i ==>
               b'.small[j] == b.small[j] && (j in Bits(b'.smallmap) <==> j in Bits(b.smallmap))
    requires forall a :: a != Slot(i) && a !in b.small[i] && a != p ==> At(b'.mem, a) == At(b.mem, a)
    requires forall a :: a in b.items && a != p ==> a in b'.items && b'.items[a] == b.items[a]
    requires forall a :: a in b'.items && a != p ==> a in b.items
    requires forall a :: a in b.small[i] && a != p ==> a in b'.small[i]
    requires p in b.items ==> b.items[p] == 8 * i < MIN_LARGE_SIZE
    requires p in b'.items ==> b'.Filed(p)
    ensures b'.Ok()
  {
    hide ComputeTreeIndex, Ring, Bits;
    assert b.SmallOk(i);
    forall j | 0 <= j < NBINS && j != i ensures b'.SmallOk(j) {
      assert b.SmallOk(j);
      SmallFrame(b, b', j);
    }
    TreesUntouched(b, b', p, i);
    forall a | a in b'.items ensures b'.Filed(a) {
      if a != p { assert b.Filed(a); }
    }
  }

  /** A change inside small bin i leaves the tree bins alone. */
  lemma TreesUntouched(b: State, b': State, p: nat, i: nat)
    requires b.Ok() && i < NBINS && b'.trees == b.trees && b'.roots == b.roots && b'.treemap == b.treemap
    requires forall a :: a != Slot(i) && a !in b.small[i] && a != p ==> At(b'.mem, a) == At(b.mem, a)
    requires forall a :: a in b.items && b.items[a] >= MIN_LARGE_SIZE ==>
      a != p && a in b'.items && b'.items[a] == b.items[a]
    ensures forall j :: 0 <= j < NBINS ==> b'.TreeOk(j)
  {
    hide ComputeTreeIndex, Ring, Linked, Valid;
    assert b.SmallOk(i);
    forall j | 0 <= j < NBINS ensures b'.TreeOk(j) {
      assert b.TreeOk(j);
      TreeFrame(b, b', j);
    }
  }

  // ---- tree bins

  ghost predicate InBin(b: State, i: nat, a: int)
    requires i < |b.trees|
  {
    !Without(b.trees[i], a)
  }

  /** A change to one tree bin: its trie, root and map bit, words of its own chunks and of x, and the entry of x. */
  ghost predicate OneTreeChanged(b: State, b': State, i: nat, x: nat)
    requires i < NBINS && b.Ok()
  {
    && b'.small == b.small && b'.smallmap == b.smallmap
    && |b'.trees| == NBINS && |b'.roots| == NBINS
    && (forall j :: 0 <= j < NBINS && j != i ==> b'.trees[j] == b.trees[j] && b'.roots[j] == b.roots[j])
    && (forall j :: 0 <= j < NBINS && j != i ==> (j in Bits(b'.treemap) <==> j in Bits(b.treemap)))
    && (forall a :: a != x && !InBin(b, i, a) ==> At(b'.mem, a) == At(b.mem, a))
    && (forall a :: a in b'.items && a != x ==> a in b.items && b'.items[a] == b.items[a])
    && (forall a :: a in b.items && a != x ==> a in b'.items)
    && (x in b.items ==> b.items[x] >= MIN_LARGE_SIZE && ComputeTreeIndex(b.items[x]) == i)
    && (x in b'.items ==> x > 0 && MIN_LARGE_SIZE <= b'.items[x] < WORD && ComputeTreeIndex(b'.items[x]) == i)
    && (forall a: nat, s: nat :: Has(b'.trees[i], a, s) <==>
          (a == x && x in b'.items && s == b'.items[x]) || (a != x && Has(b.trees[i], a, s)))
  }

  /** Such a change keeps every bin in order if it keeps the changed one in order. */
  lemma OneTreeOk(b: State, b': State, i: nat, x: nat)
    requires i < NBINS && b.Ok() && OneTreeChanged(b, b', i, x)
    requires i in Bits(b'.treemap) <==> b'.trees[i].Node?
    requires Valid(b'.trees[i], BinLow(i), BinDigits(i)) && Linked(b'.mem, b'.trees[i], b'.roots[i], Slot(i), i)
    ensures b'.Ok()
  {
    hide ComputeTreeIndex, Ring, Valid, Linked;
    assert b.TreeOk(i);
    forall a: nat | InBin(b, i, a)
      ensures a in b.items && b.items[a] >= MIN_LARGE_SIZE && ComputeTreeIndex(b.items[a]) == i
    {
      var s: nat :| Has(b.trees[i], a, s);
    }
    forall j | 0 <= j < NBINS ensures b'.SmallOk(j) {
      assert b.SmallOk(j);
      SmallFrame(b, b', j);
    }
    forall j | 0 <= j < NBINS ensures b'.TreeOk(j) {
      assert b.TreeOk(j);
      if j != i { TreeFrame(b, b', j); }
    }
    forall a | a in b'.items ensures b'.Filed(a) {
      if a != x { assert b.Filed(a); }
    }
  }

  ghost function TreeInserted(b: State, x: nat, s: nat): State
    requires b.Ok() && MIN_LARGE_SIZE <= s < WORD
  {
    BinHolds(s);
    var i := ComputeTreeIndex(s);
    assert b.TreeOk(i);
    var t := b.trees[i];
    b.(treemap := if t.Nil? then MarkedMap(b.treemap, i) else b.treemap,
       mem := if t.Nil? then b.mem[x := Cell(s, x, x, 0, 0, Slot(i), i)]
              else Placed(b.mem, x, s, i, InsertPlace(t, s, BinLow(i), BinDigits(i))),
       roots := if t.Nil? then b.roots[i := x] else b.roots,
       trees := b.trees[i := Insert(t, x, s, BinLow(i), BinDigits(i))],
       items := b.items[x := s])
  }

  lemma LoneLinked(L: Links, x: nat, s: nat, up: int, i: nat)
    requires x > 0
    ensures Linked(L[x := Cell(s, x, x, 0, 0, up, i)], Node(s, [x], Nil, Nil), x, up, i)
  {
  }

  /** Linking a chunk into a tree bin inserts it into that bin's trie and keeps all bins in order. */
  lemma TreeInsertOk(b: State, x: nat, s: nat)
    requires b.Ok() && x > 0 && x !in b.items && MIN_LARGE_SIZE <= s < WORD
    ensures TreeInserted(b, x, s).Ok()
  {
    hide ComputeTreeIndex, Ring;
    BinHolds(s);
    var i, b' := ComputeTreeIndex(s), TreeInserted(b, x, s);
    var t, lo, k, L := b.trees[i], BinLow(i), BinDigits(i), b.mem;
    assert b.TreeOk(i);
    assert Without(t, x);
    MarkBits(b.treemap, i);
    hide Mark;
    InsertValid(t, x, s, lo, k);
    forall a: nat, z: nat ensures Has(Insert(t, x, s, lo, k), a, z) <==> Has(t, a, z) || (a == x && z == s) {
      InsertHas(t, x, s, lo, k, a, z);
    }
    if t.Node? {
      InsertLinked(L, t, b.roots[i], Slot(i), i, x, s, lo, k);
      var at := InsertPlace(t, s, lo, k);
      forall a | a != x && !InBin(b, i, a) ensures At(b'.mem, a) == At(L, a) {
        if AtPlace(L, at, a) { PlaceInside(L, t, b.roots[i], Slot(i), i, s, lo, k, a); }
        if at.node == x { PlaceInside(L, t, b.roots[i], Slot(i), i, s, lo, k, x); }
        PlacedElsewhere(L, x, s, i, at, a);
      }
    } else {
      LoneLinked(L, x, s, Slot(i), i);
    }
    hide Valid, Linked, Placed, Insert, InsertPlace;
    OneTreeOk(b, b', i, x);
  }

  /** The bin, trie position and range in which a large chunk is filed. */
  ghost predicate FiledAt(b: State, x: nat, i: nat, s: nat) {
    && b.Ok() && x in b.items && b.items[x] == s && MIN_LARGE_SIZE <= s
    && i < NBINS && i == ComputeTreeIndex(s) && Has(b.trees[i], x, s)
  }

  /** unlink_large_chunk: the new words and what stands at the pointer q that led to the node of x. */
  ghost function TreeRemoved(b: State, x: nat, i: nat, s: nat, mem': Links, q': int): State
    requires FiledAt(b, x, i, s)
  {
    var t := b.trees[i];
    var t' := Remove(t, x, s, BinLow(i), BinDigits(i));
    b.(mem := mem', roots := if t.size == s then b.roots[i := q'] else b.roots,
       treemap := if t'.Nil? then Clear(b.treemap, i) else b.treemap,
       trees := b.trees[i := t'], items := b.items - {x})
  }

  /** Unlinking a chunk removes it from its trie and keeps all bins in order. */
  lemma TreeRemoveOk(b: State, x: nat, i: nat, s: nat, mem': Links, u: Trie, q: int, q': int, up: int)
    requires FiledAt(b, x, i, s)
    requires u == FindNode(b.trees[i], s, BinLow(i), BinDigits(i)) && Linked(b.mem, u, q, up, i) && u.Node?
      && x in u.ring
    requires Replaces(b.mem, mem', u, RemoveHere(u, x), q, q', up, i)
    ensures TreeRemoved(b, x, i, s, mem', q').Ok()
  {
    hide ComputeTreeIndex, Ring, Valid;
    var b', L := TreeRemoved(b, x, i, s, mem', q'), b.mem;
    var t, lo, k := b.trees[i], BinLow(i), BinDigits(i);
    assert b.TreeOk(i);
    RemoveValid(t, x, s, lo, k);
    forall a: nat, z: nat ensures Has(Remove(t, x, s, lo, k), a, z) <==> Has(t, a, z) && a != x {
      RemoveHas(t, x, s, lo, k, a, z);
      assert Has(t, a, z) ==> b.items[a] == z;
    }
    RemoveLinked(L, mem', t, b.roots[i], Slot(i), i, x, s, lo, k, u, q, q', up);
    forall a | a != x && !InBin(b, i, a) ensures At(mem', a) == At(L, a) {
      FindInside(L, t, b.roots[i], Slot(i), i, x, s, lo, k, a);
    }
    MarkBits(b.treemap, i);
    hide Clear, Linked, Remove, Replaces, FindNode, RemoveHere;
    OneTreeOk(b, b', i, x);
  }

  /** The node of a filed chunk hangs from its parent word. */
  lemma {:induction false} FindHangs(L: Links, t: Trie, p: int, up: int, i: nat, x: nat, s: nat, lo: nat, k: nat)
    requires Valid(t, lo, k) && Has(t, x, s) && HangsFrom(L, t, p, up, i)
    ensures var u := FindNode(t, s, lo, k);
            && u.Node? && u.size == s && x in u.ring
            && HangsFrom(L, u, u.ring[0], At(L, u.ring[0]).parent, i)
            && (t.size == s <==> At(L, u.ring[0]).parent == up)
            && (t.size != s ==> !Without(t, At(L, u.ring[0]).parent))
    decreases t
  {
    if t.size == s {
      if Has(t.left, x, s) { HasHasSize(t.left, x, s); }
      if Has(t.right, x, s) { HasHasSize(t.right, x, s); }
    } else {
      BranchHas(t, x, s, lo, k);
      var right := s >= lo + Pow2(k - 1);
      var c, pc := if right then t.right else t.left, ChildOf(At(L, p), right);
      Apart(L, t, p, up, i, lo, k, p);
      FindHangs(L, c, pc, p, i, x, s, if right then lo + Pow2(k - 1) else lo, k - 1);
      RootOf(L, t, p, up, i);
      var up' := At(L, FindNode(t, s, lo, k).ring[0]).parent;
      Apart(L, t, p, up, i, lo, k, up');
    }
  }

  lemma {:induction false} FindNodeValid(t: Trie, s: nat, lo: nat, k: nat) returns (lo': nat, k': nat)
    requires Valid(t, lo, k)
    ensures Valid(FindNode(t, s, lo, k), lo', k')
    decreases t
  {
    lo', k' := lo, k;
    if t.Node? && t.size != s && k > 0 {
      if s < lo + Pow2(k - 1) {
        lo', k' := FindNodeValid(t.left, s, lo, k - 1);
      } else {
        lo', k' := FindNodeValid(t.right, s, lo + Pow2(k - 1), k - 1);
      }
    }
  }
}

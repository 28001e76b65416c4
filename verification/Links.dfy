/**
 The link words of binned chunks: the fd/bk rings, and the child, parent and index words of tree chunks.
 Addresses of chunks are positive; the header of small bin i is the pseudo-address -1 - i, and so is the
 slot of tree bin i where it stands as a parent. `size` is the size that the chunk's header holds.
 */
module Links {
  import opened Words
  import opened Tries

  datatype Cell = Cell(size: int, fd: int, bk: int, child0: int, child1: int, parent: int, index: int)

  type Links = map<int, Cell>

  /** The words stored at an address, null where nothing was stored. */
  function At(L: Links, a: int): Cell {
    if a in L then L[a] else Cell(0, 0, 0, 0, 0, 0, 0)
  }

  function SetFd(L: Links, a: int, v: int): Links { L[a := At(L, a).(fd := v)] }
  function SetBk(L: Links, a: int, v: int): Links { L[a := At(L, a).(bk := v)] }
  function SetParent(L: Links, a: int, v: int): Links { L[a := At(L, a).(parent := v)] }
  function SetChild(L: Links, a: int, right: bool, v: int): Links {
    if right then L[a := At(L, a).(child1 := v)] else L[a := At(L, a).(child0 := v)]
  }

  function ChildOf(c: Cell, right: bool): int { if right then c.child1 else c.child0 }

  function Slot(i: nat): int { -1 - i }

  // ---- circular doubly linked lists

  ghost predicate Ring(L: Links, c: seq<int>) {
    && |c| > 0 && Distinct(c)
    && (forall k :: 0 <= k < |c| - 1 ==> At(L, c[k]).fd == c[k + 1])
    && (forall k :: 0 < k < |c| ==> At(L, c[k]).bk == c[k - 1])
    && At(L, c[|c| - 1]).fd == c[0] && At(L, c[0]).bk == c[|c| - 1]
  }

  lemma RingFrame(L: Links, L': Links, c: seq<int>)
    requires Ring(L, c)
    requires forall k :: 0 <= k < |c| ==> At(L', c[k]).fd == At(L, c[k]).fd && At(L', c[k]).bk == At(L, c[k]).bk
    ensures Ring(L', c)
  {
  }

  /** x goes into a ring between t and the element after it. */
  function LinkAfter(L: Links, t: int, x: int): Links {
    var f := At(L, t).fd;
    SetBk(SetFd(SetBk(SetFd(L, t, x), f, x), x, f), x, t)
  }

  /** Linking x in after the first element. */
  lemma RingInsert(L: Links, c: seq<int>, x: int)
    requires Ring(L, c) && x !in c
    ensures Ring(LinkAfter(L, c[0], x), [c[0], x] + c[1..])
  {
    var f, d := At(L, c[0]).fd, [c[0], x] + c[1..];
    assert f == if |c| == 1 then c[0] else c[1];
    assert forall k :: 1 < k < |d| ==> d[k] == c[k - 1];
  }

  /** The two neighbours of x are linked to each other; x keeps its own words. */
  function CutFromRing(L: Links, x: int): Links {
    var f, r := At(L, x).fd, At(L, x).bk;
    SetFd(SetBk(L, f, r), r, f)
  }

  /** Unlinking the element at position j of a longer ring. */
  lemma RingRemove(L: Links, c: seq<int>, j: nat)
    requires Ring(L, c) && j < |c| && |c| > 1
    ensures Ring(CutFromRing(L, c[j]), c[..j] + c[j + 1..])
  {
    var n := |c|;
    var f, r, d := At(L, c[j]).fd, At(L, c[j]).bk, c[..j] + c[j + 1..];
    assert f == (if j == n - 1 then c[0] else c[j + 1]) && r == if j == 0 then c[n - 1] else c[j - 1];
    assert forall k :: 0 <= k < |d| ==> d[k] == if k < j then c[k] else c[k + 1];
    var L' := CutFromRing(L, c[j]);
    forall k | 0 <= k < |d| - 1 ensures At(L', d[k]).fd == d[k + 1] {
      assert d[k] == r <==> k == j - 1;
    }
    forall k | 0 < k < |d| ensures At(L', d[k]).bk == d[k - 1] {
      assert d[k] == f <==> k == j;
    }
  }

  /** A ring may be read from its last element. */
  lemma RingRotate(L: Links, c: seq<int>)
    requires Ring(L, c)
    ensures Ring(L, [c[|c| - 1]] + c[..|c| - 1])
  {
  }

  // ---- trees

  /** The words of one node: its ring, the parent word of the first and the empty tree words of the others. */
  ghost predicate NodeLinked(L: Links, s: nat, ring: seq<nat>, up: int, i: nat) {
    && ring != [] && Ring(L, ring)
    && (forall k :: 0 <= k < |ring| ==> ring[k] > 0 && At(L, ring[k]).index == i && At(L, ring[k]).size == s)
    && At(L, ring[0]).parent == up
    && forall k :: 1 <= k < |ring| ==>
         At(L, ring[k]).parent == 0 && At(L, ring[k]).child0 == 0 && At(L, ring[k]).child1 == 0
  }

  /** The words at pointer p spell out the trie t, hanging from `up` in bin i. */
  ghost predicate Linked(L: Links, t: Trie, p: int, up: int, i: nat) {
    match t
    case Nil => p == 0
    case Node(s, ring, l, r) =>
      && NodeLinked(L, s, ring, up, i)
      && p == ring[0]
      && Linked(L, l, At(L, p).child0, p, i)
      && Linked(L, r, At(L, p).child1, p, i)
  }

  lemma {:induction false} LinkedFrame(L: Links, L': Links, t: Trie, p: int, up: int, i: nat)
    requires Linked(L, t, p, up, i)
    requires forall a: nat, s: nat :: Has(t, a, s) ==> At(L, a) == At(L', a)
    ensures Linked(L', t, p, up, i)
    decreases t
  {
    if t.Node? {
      forall k | 0 <= k < |t.ring| ensures At(L, t.ring[k]) == At(L', t.ring[k]) {
        assert Has(t, t.ring[k], t.size);
      }
      forall a: nat, s: nat | Has(t.left, a, s) || Has(t.right, a, s) ensures At(L, a) == At(L', a) {
        assert Has(t, a, s);
      }
      LinkedFrame(L, L', t.left, At(L, p).child0, p, i);
      LinkedFrame(L, L', t.right, At(L, p).child1, p, i);
    }
  }

  /** The header of a chunk in the trie holds the size under which the trie has it. */
  lemma {:induction false} LinkedSize(L: Links, t: Trie, p: int, up: int, i: nat, a: nat, s: nat)
    requires Linked(L, t, p, up, i) && Has(t, a, s)
    ensures At(L, a).size == s && a > 0
    decreases t
  {
    if s == t.size && a in t.ring {
    } else if Has(t.left, a, s) {
      LinkedSize(L, t.left, At(L, p).child0, p, i, a, s);
    } else {
      LinkedSize(L, t.right, At(L, p).child1, p, i, a, s);
    }
  }

  ghost predicate Without(t: Trie, a: int) {
    a <= 0 || forall z: nat :: !Has(t, a, z)
  }

  /** A chunk below a node is in one subtree only, and not in the node's own ring. */
  lemma Apart(L: Links, t: Trie, p: int, up: int, i: nat, lo: nat, k: nat, a: int)
    requires Linked(L, t, p, up, i) && t.Node? && Valid(t, lo, k)
    ensures a in t.ring ==> Without(t.left, a) && Without(t.right, a)
    ensures Without(t.left, a) || Without(t.right, a)
    ensures Without(t, a) ==> a !in t.ring && Without(t.left, a) && Without(t.right, a)
  {
    var pl, pr := At(L, p).child0, At(L, p).child1;
    if a > 0 {
      forall z: nat | Has(t.left, a, z) ensures a !in t.ring && Has(t, a, z) {
        LinkedSize(L, t.left, pl, p, i, a, z);
        HasHasSize(t.left, a, z);
      }
      forall z: nat | Has(t.right, a, z) ensures a !in t.ring && Has(t, a, z) {
        LinkedSize(L, t.right, pr, p, i, a, z);
        HasHasSize(t.right, a, z);
      }
      forall z: nat, z': nat | Has(t.left, a, z) && Has(t.right, a, z') ensures false {
        LinkedSize(L, t.left, pl, p, i, a, z);
        LinkedSize(L, t.right, pr, p, i, a, z');
        OtherBranch(t, lo, k, a, z);
      }
      assert a in t.ring ==> Has(t, a, t.size);
    }
  }

  lemma NodeFrame(L: Links, L': Links, s: nat, ring: seq<nat>, up: int, i: nat)
    requires NodeLinked(L, s, ring, up, i)
    requires forall k :: 1 <= k < |ring| ==> At(L, ring[k]) == At(L', ring[k])
    requires At(L', ring[0]).(child0 := At(L, ring[0]).child0, child1 := At(L, ring[0]).child1) == At(L, ring[0])
    ensures NodeLinked(L', s, ring, up, i)
  {
    RingFrame(L, L', ring);
  }

  // ---- linking a chunk in

  /** Where insert_large_chunk ends its walk: at a node of the same size, or at a node with a free child. */
  datatype Place = Join(node: int) | Hang(node: int, right: bool)

  ghost function InsertPlace(t: Trie, s: nat, lo: nat, k: nat): Place
    requires t.Node? && Valid(t, lo, k)
  {
    if s == t.size || k == 0 then Join(t.ring[0])
    else if s < lo + Pow2(k - 1) then
      if t.left.Nil? then Hang(t.ring[0], false) else InsertPlace(t.left, s, lo, k - 1)
    else
      if t.right.Nil? then Hang(t.ring[0], true) else InsertPlace(t.right, s, lo + Pow2(k - 1), k - 1)
  }

  /** The words after the chunk x of size s is linked in at a place of bin i. */
  function Placed(L: Links, x: int, s: int, i: int, at: Place): Links {
    match at
    case Join(t) => LinkAfter(L[x := Cell(s, 0, 0, 0, 0, 0, i)], t, x)
    case Hang(t, right) => SetChild(L[x := Cell(s, x, x, 0, 0, t, i)], t, right, x)
  }

  /** The other chunks whose words change are at the place. */
  ghost predicate AtPlace(L: Links, at: Place, a: int) {
    a == at.node || (at.Join? && a == At(L, at.node).fd)
  }

  lemma RingNext(L: Links, ring: seq<nat>)
    requires Ring(L, ring)
    ensures At(L, ring[0]).fd == if |ring| == 1 then ring[0] else ring[1]
    ensures At(L, ring[0]).fd in ring
  {
  }

  lemma {:induction false} PlaceInside(L: Links, t: Trie, p: int, up: int, i: nat, s: nat, lo: nat, k: nat, a: int)
    requires t.Node? && Valid(t, lo, k) && Linked(L, t, p, up, i) && lo <= s < lo + Pow2(k)
    requires AtPlace(L, InsertPlace(t, s, lo, k), a)
    ensures !Without(t, a)
    decreases t
  {
    RingNext(L, t.ring);
    Apart(L, t, p, up, i, lo, k, a);
    if s != t.size {
      if s < lo + Pow2(k - 1) {
        if t.left.Node? { PlaceInside(L, t.left, At(L, p).child0, p, i, s, lo, k - 1, a); }
      } else {
        if t.right.Node? { PlaceInside(L, t.right, At(L, p).child1, p, i, s, lo + Pow2(k - 1), k - 1, a); }
      }
    }
  }

  lemma PlacedElsewhere(L: Links, x: int, s: int, i: int, at: Place, a: int)
    requires x != at.node && a != x && !AtPlace(L, at, a)
    ensures At(L, a) == At(Placed(L, x, s, i, at), a)
  {
  }

  /** A subtree that holds neither x nor a chunk at the place keeps its words. */
  lemma PlacedFrame(L: Links, t: Trie, p: int, up: int, i: nat, x: int, s: int, at: Place)
    requires Linked(L, t, p, up, i) && x != at.node
    requires forall a: nat, z: nat :: Has(t, a, z) ==> a != x && !AtPlace(L, at, a)
    ensures Linked(Placed(L, x, s, i, at), t, p, up, i)
  {
    var L' := Placed(L, x, s, i, at);
    forall a: nat, z: nat | Has(t, a, z) ensures At(L, a) == At(L', a) { PlacedElsewhere(L, x, s, i, at, a); }
    LinkedFrame(L, L', t, p, up, i);
  }

  lemma JoinNode(L: Links, s: nat, ring: seq<nat>, up: int, i: nat, x: nat)
    requires NodeLinked(L, s, ring, up, i) && x > 0 && x !in ring
    ensures var L' := Placed(L, x, s, i, Join(ring[0]));
            && NodeLinked(L', s, [ring[0], x] + ring[1..], up, i)
            && At(L', ring[0]).child0 == At(L, ring[0]).child0 && At(L', ring[0]).child1 == At(L, ring[0]).child1
  {
    var M := L[x := Cell(s, 0, 0, 0, 0, 0, i)];
    RingFrame(L, M, ring);
    RingInsert(M, ring, x);
    var ring' := [ring[0], x] + ring[1..];
    assert forall j :: 2 <= j < |ring'| ==> ring'[j] == ring[j - 1];
  }

  lemma JoinLinked(L: Links, t: Trie, p: int, up: int, i: nat, x: nat, lo: nat, k: nat)
    requires t.Node? && Valid(t, lo, k) && Linked(L, t, p, up, i)
    requires x > 0 && Without(t, x)
    ensures Linked(Placed(L, x, t.size, i, Join(p)), t.(ring := [p, x] + t.ring[1..]), p, up, i)
  {
    var at, f := Join(p), At(L, p).fd;
    Apart(L, t, p, up, i, lo, k, x);
    JoinNode(L, t.size, t.ring, up, i, x);
    RingNext(L, t.ring);
    Apart(L, t, p, up, i, lo, k, p);
    Apart(L, t, p, up, i, lo, k, f);
    PlacedFrame(L, t.left, At(L, p).child0, p, i, x, t.size, at);
    PlacedFrame(L, t.right, At(L, p).child1, p, i, x, t.size, at);
  }

  lemma HangLinked(L: Links, t: Trie, p: int, up: int, i: nat, x: nat, s: nat, lo: nat, k: nat, right: bool)
    requires t.Node? && Valid(t, lo, k) && Linked(L, t, p, up, i)
    requires if right then t.right.Nil? else t.left.Nil?
    requires x > 0 && Without(t, x)
    ensures var leaf := Node(s, [x], Nil, Nil);
            Linked(Placed(L, x, s, i, Hang(p, right)), if right then t.(right := leaf) else t.(left := leaf), p, up, i)
  {
    var at := Hang(p, right);
    var L' := Placed(L, x, s, i, at);
    Apart(L, t, p, up, i, lo, k, x);
    Apart(L, t, p, up, i, lo, k, p);
    NodeFrame(L, L', t.size, t.ring, up, i);
    assert Linked(L', Node(s, [x], Nil, Nil), x, p, i);
    if right {
      PlacedFrame(L, t.left, At(L, p).child0, p, i, x, s, at);
    } else {
      PlacedFrame(L, t.right, At(L, p).child1, p, i, x, s, at);
    }
  }

  /** A place inside one subtree leaves the node and the other subtree alone. */
  lemma PlacedBelow(L: Links, t: Trie, p: int, up: int, i: nat, x: nat, s: nat, lo: nat, k: nat, at: Place, right: bool)
    requires t.Node? && Valid(t, lo, k) && Linked(L, t, p, up, i)
    requires x > 0 && Without(t, x)
    requires forall a :: AtPlace(L, at, a) ==> !Without(if right then t.right else t.left, a)
    ensures var L' := Placed(L, x, s, i, at);
            && NodeLinked(L', t.size, t.ring, up, i)
            && At(L', p) == At(L, p)
            && (right ==> Linked(L', t.left, At(L, p).child0, p, i))
            && (!right ==> Linked(L', t.right, At(L, p).child1, p, i))
  {
    var L' := Placed(L, x, s, i, at);
    Apart(L, t, p, up, i, lo, k, x);
    forall a | AtPlace(L, at, a)
      ensures a !in t.ring && Without(if right then t.left else t.right, a)
    {
      Apart(L, t, p, up, i, lo, k, a);
    }
    assert AtPlace(L, at, at.node);
    forall j | 0 <= j < |t.ring| ensures At(L, t.ring[j]) == At(L', t.ring[j]) {
      PlacedElsewhere(L, x, s, i, at, t.ring[j]);
    }
    NodeFrame(L, L', t.size, t.ring, up, i);
    if right {
      PlacedFrame(L, t.left, At(L, p).child0, p, i, x, s, at);
    } else {
      PlacedFrame(L, t.right, At(L, p).child1, p, i, x, s, at);
    }
  }

  /** Linking x in at the end of the walk spells out the trie with x inserted. */
  lemma {:induction false} InsertLinked(L: Links, t: Trie, p: int, up: int, i: nat, x: nat, s: nat, lo: nat, k: nat)
    requires t.Node? && Valid(t, lo, k) && Linked(L, t, p, up, i) && lo <= s < lo + Pow2(k)
    requires x > 0 && Without(t, x)
    ensures Linked(Placed(L, x, s, i, InsertPlace(t, s, lo, k)), Insert(t, x, s, lo, k), p, up, i)
    decreases t
  {
    if s == t.size {
      JoinLinked(L, t, p, up, i, x, lo, k);
    } else {
      var right := s >= lo + Pow2(k - 1);
      var c, pc := if right then t.right else t.left, ChildOf(At(L, p), right);
      var clo := if right then lo + Pow2(k - 1) else lo;
      if c.Nil? {
        HangLinked(L, t, p, up, i, x, s, lo, k, right);
      } else {
        var at := InsertPlace(c, s, clo, k - 1);
        forall a | AtPlace(L, at, a) ensures !Without(c, a) { PlaceInside(L, c, pc, p, i, s, clo, k - 1, a); }
        PlacedBelow(L, t, p, up, i, x, s, lo, k, at, right);
        Apart(L, t, p, up, i, lo, k, x);
        InsertLinked(L, c, pc, p, i, x, s, clo, k - 1);
      }
    }
  }

  // ---- unlinking a chunk

  lemma RootOf(L: Links, t: Trie, p: int, up: int, i: nat)
    requires Linked(L, t, p, up, i)
    ensures p == 0 <==> t.Nil?
    ensures t.Node? ==> p > 0 && Has(t, p, t.size)
  {
  }

  /** r takes the place of x under `up`, with the children of x. */
  function Adopt(L: Links, x: int, r: int, up: int): Links {
    var c0, c1 := At(L, x).child0, At(L, x).child1;
    var L0 := SetParent(L, r, up);
    var L1 := if c0 != 0 then SetParent(SetChild(L0, r, false, c0), c0, r) else L0;
    if c1 != 0 then SetParent(SetChild(L1, r, true, c1), c1, r) else L1
  }

  predicate Apart3(r: int, c0: int, c1: int) {
    r != 0 && r != c0 && r != c1 && (c0 != 0 ==> c0 != c1)
  }

  lemma AdoptAt(L: Links, x: int, r: int, up: int, a: int)
    requires Apart3(r, At(L, x).child0, At(L, x).child1)
    ensures var c0, c1 := At(L, x).child0, At(L, x).child1;
            At(Adopt(L, x, r, up), a) ==
            if a == r then
              var c := At(L, r).(parent := up);
              var c' := if c0 != 0 then c.(child0 := c0) else c;
              if c1 != 0 then c'.(child1 := c1) else c'
            else if a != 0 && (a == c0 || a == c1) then At(L, a).(parent := r)
            else At(L, a)
  {
  }

  /** A subtree keeps its words when only its root's parent word changes. */
  lemma Reparent(L: Links, L': Links, t: Trie, p: int, up: int, up': int, i: nat, lo: nat, k: nat)
    requires Linked(L, t, p, up, i) && Valid(t, lo, k)
    requires forall a: nat, z: nat :: Has(t, a, z) && a != p ==> At(L, a) == At(L', a)
    requires t.Node? ==> At(L', p) == At(L, p).(parent := up')
    ensures Linked(L', t, p, up', i)
  {
    if t.Node? {
      forall j | 1 <= j < |t.ring| ensures At(L, t.ring[j]) == At(L', t.ring[j]) {
        assert Has(t, t.ring[j], t.size);
      }
      RingFrame(L, L', t.ring);
      assert NodeLinked(L', t.size, t.ring, up', i);
      Apart(L, t, p, up, i, lo, k, p);
      forall a: nat, z: nat | Has(t.left, a, z) || Has(t.right, a, z) ensures At(L, a) == At(L', a) {
        assert Has(t, a, z);
      }
      LinkedFrame(L, L', t.left, At(L, p).child0, p, i);
      LinkedFrame(L, L', t.right, At(L, p).child1, p, i);
    }
  }

  lemma AdoptNode(L: Links, L': Links, s: nat, ring: seq<nat>, up0: int, up: int, i: nat)
    requires NodeLinked(L, s, ring, up0, i)
    requires At(L', ring[0]) == At(L, ring[0]).(parent := up, child0 := At(L', ring[0]).child0,
                                                child1 := At(L', ring[0]).child1)
    requires forall k :: 1 <= k < |ring| ==> At(L', ring[k]) == At(L, ring[k])
    ensures NodeLinked(L', s, ring, up, i)
  {
    RingFrame(L, L', ring);
  }

  /** L' is L with q under `up`, adopting the children c0 and c1. */
  ghost predicate Adopted(L: Links, L': Links, q: int, c0: int, c1: int, up: int) {
    forall a ::
      At(L', a) ==
      if a == q then At(L, q).(parent := up, child0 := c0, child1 := c1)
      else if a != 0 && (a == c0 || a == c1) then At(L, a).(parent := q)
      else At(L, a)
  }

  lemma AdoptAdopts(L: Links, x: int, q: int, up: int)
    requires Apart3(q, At(L, x).child0, At(L, x).child1)
    requires At(L, q).child0 == 0 && At(L, q).child1 == 0
    ensures Adopted(L, Adopt(L, x, q, up), q, At(L, x).child0, At(L, x).child1, up)
  {
    var L', c0, c1 := Adopt(L, x, q, up), At(L, x).child0, At(L, x).child1;
    forall a
      ensures At(L', a) ==
              if a == q then At(L, q).(parent := up, child0 := c0, child1 := c1)
              else if a != 0 && (a == c0 || a == c1) then At(L, a).(parent := q)
              else At(L, a)
    {
      AdoptAt(L, x, q, up, a);
    }
  }

  lemma AdoptedSubtree(L: Links, L': Links, x: int, q: int, c: int, d: int, up: int, t: Trie, i: nat, lo: nat, k: nat)
    requires Linked(L, t, c, x, i) && Valid(t, lo, k) && Without(t, q) && Without(t, d)
    requires Adopted(L, L', q, c, d, up) || Adopted(L, L', q, d, c, up)
    ensures Linked(L', t, c, q, i)
  {
    RootOf(L, t, c, x, i);
    forall a: nat, z: nat | Has(t, a, z) && a != c ensures At(L, a) == At(L', a) { LinkedSize(L, t, c, x, i, a, z); }
    Reparent(L, L', t, c, x, q, i, lo, k);
  }

  /** A node takes over the two subtrees of x. */
  lemma AdoptLinked(L: Links, x: int, s: nat, ring: seq<nat>, l: Trie, r: Trie, up0: int, up: int, i: nat, lo: nat,
                    k: nat)
    requires NodeLinked(L, s, ring, up0, i) && x !in ring
    requires At(L, ring[0]).child0 == 0 && At(L, ring[0]).child1 == 0
    requires Linked(L, l, At(L, x).child0, x, i) && Linked(L, r, At(L, x).child1, x, i)
    requires Valid(l, lo, k) && Valid(r, lo + Pow2(k), k)
    requires forall a :: a in ring ==> Without(l, a) && Without(r, a)
    requires forall a :: Without(l, a) || Without(r, a)
    ensures Linked(Adopt(L, x, ring[0], up), Node(s, ring, l, r), ring[0], up, i)
    ensures Apart3(ring[0], At(L, x).child0, At(L, x).child1)
  {
    hide Valid, Has, Adopt, Linked;
    var q, c0, c1 := ring[0], At(L, x).child0, At(L, x).child1;
    var L' := Adopt(L, x, q, up);
    RootsApart(L, x, s, ring, l, r, up0, i);
    AdoptAdopts(L, x, q, up);
    AdoptNode(L, L', s, ring, up0, up, i);
    hide NodeLinked;
    AdoptedSubtree(L, L', x, q, c0, c1, up, l, i, lo, k);
    AdoptedSubtree(L, L', x, q, c1, c0, up, r, i, lo + Pow2(k), k);
    NodeIsLinked(L', s, ring, l, r, up, i);
  }

  /** The roots of the two subtrees are neither each other nor in the ring. */
  lemma RootsApart(L: Links, x: int, s: nat, ring: seq<nat>, l: Trie, r: Trie, up0: int, i: nat)
    requires NodeLinked(L, s, ring, up0, i)
    requires Linked(L, l, At(L, x).child0, x, i) && Linked(L, r, At(L, x).child1, x, i)
    requires forall a :: a in ring ==> Without(l, a) && Without(r, a)
    requires forall a :: Without(l, a) || Without(r, a)
    ensures ring[0] in ring && At(L, x).child0 !in ring && At(L, x).child1 !in ring
    ensures At(L, x).child0 != 0 ==> At(L, x).child0 != At(L, x).child1
    ensures Without(l, At(L, x).child1) && Without(r, At(L, x).child0)
  {
    hide Has;
    var c0, c1 := At(L, x).child0, At(L, x).child1;
    RootOf(L, l, c0, x, i);
    RootOf(L, r, c1, x, i);
    assert ring[0] in ring && 0 !in ring;
    assert l.Node? ==> !Without(l, c0);
    assert r.Node? ==> !Without(r, c1);
  }

  lemma NodeIsLinked(L: Links, s: nat, ring: seq<nat>, l: Trie, r: Trie, up: int, i: nat)
    requires NodeLinked(L, s, ring, up, i)
    requires Linked(L, l, At(L, ring[0]).child0, ring[0], i) && Linked(L, r, At(L, ring[0]).child1, ring[0], i)
    ensures Linked(L, Node(s, ring, l, r), ring[0], up, i)
  {
  }

  // the leaf that is promoted

  /** The child word that holds the leaf which `Pull` takes. */
  datatype ChildSlot = ChildSlot(owner: int, right: bool)

  ghost predicate Leaf(t: Trie) { t.Node? && t.left.Nil? && t.right.Nil? }

  ghost function PullSlot(t: Trie): ChildSlot
    requires t.Node? && t.ring != []
    decreases t
  {
    var right := t.right.Node?;
    var c := if right then t.right else t.left;
    if c.Node? && c.ring != [] && !Leaf(c) then PullSlot(c) else ChildSlot(t.ring[0], right)
  }

  /** Clearing a child word splits a trie into the leaf that hung there and the rest. */
  ghost predicate SplitsOff(L: Links, t: Trie, p: int, up: int, i: nat, at: ChildSlot, leaf: Pulled) {
    var L' := SetChild(L, at.owner, at.right, 0);
    && !Without(t, at.owner) && at.owner !in leaf.ring
    && NodeLinked(L', leaf.size, leaf.ring, at.owner, i)
    && ChildOf(At(L, at.owner), at.right) == leaf.ring[0]
    && At(L', leaf.ring[0]).child0 == 0 && At(L', leaf.ring[0]).child1 == 0
    && Linked(L', leaf.rest, p, up, i)
  }

  lemma PullChild(L: Links, t: Trie, p: int, up: int, i: nat, lo: nat, k: nat)
    requires t.Node? && Valid(t, lo, k) && Linked(L, t, p, up, i)
    requires Leaf(if t.right.Node? then t.right else t.left)
    ensures SplitsOff(L, t, p, up, i, ChildSlot(p, t.right.Node?), Pull(t))
  {
    var right := t.right.Node?;
    var c, L' := if right then t.right else t.left, SetChild(L, p, right, 0);
    Apart(L, t, p, up, i, lo, k, p);
    NodeFrame(L, L', t.size, t.ring, up, i);
    assert Has(t, p, t.size);
    var q := ChildOf(At(L, p), right);
    RootOf(L, c.left, At(L, q).child0, q, i);
    RootOf(L, c.right, At(L, q).child1, q, i);
    forall j | 0 <= j < |c.ring| ensures At(L, c.ring[j]) == At(L', c.ring[j]) { assert Has(c, c.ring[j], c.size); }
    NodeFrame(L, L', c.size, c.ring, p, i);
    if right { LinkedFrame(L, L', t.left, At(L, p).child0, p, i); }
  }

  lemma PullDeeper(L: Links, t: Trie, p: int, up: int, i: nat, lo: nat, k: nat, at: ChildSlot, right: bool)
    requires t.Node? && Valid(t, lo, k) && Linked(L, t, p, up, i) && right == t.right.Node?
    requires right || t.left.Node?
    requires SplitsOff(L, if right then t.right else t.left, ChildOf(At(L, p), right), p, i, at,
                       Pull(if right then t.right else t.left))
    ensures SplitsOff(L, t, p, up, i, at, Pull(t))
  {
    var L' := SetChild(L, at.owner, at.right, 0);
    Apart(L, t, p, up, i, lo, k, at.owner);
    NodeFrame(L, L', t.size, t.ring, up, i);
    if right { LinkedFrame(L, L', t.left, At(L, p).child0, p, i); }
  }

  /** The walk to the promoted leaf ends at a word whose clearing splits that leaf off. */
  lemma {:induction false} PullLinked(L: Links, t: Trie, p: int, up: int, i: nat, lo: nat, k: nat)
    requires t.Node? && !Leaf(t) && Valid(t, lo, k) && Linked(L, t, p, up, i)
    ensures SplitsOff(L, t, p, up, i, PullSlot(t), Pull(t))
    decreases t
  {
    var right := t.right.Node?;
    var c, pc := if right then t.right else t.left, ChildOf(At(L, p), right);
    if Leaf(c) {
      PullChild(L, t, p, up, i, lo, k);
    } else {
      PullLinked(L, c, pc, p, i, if right then lo + Pow2(k - 1) else lo, k - 1);
      PullDeeper(L, t, p, up, i, lo, k, PullSlot(c), right);
    }
  }

  // the effect of unlinking, carried up to the root

  /** The subtree whose node holds size s. */
  ghost function FindNode(t: Trie, s: nat, lo: nat, k: nat): Trie
    decreases t
  {
    if t.Nil? || t.size == s || k == 0 then t
    else if s < lo + Pow2(k - 1) then FindNode(t.left, s, lo, k - 1)
    else FindNode(t.right, s, lo + Pow2(k - 1), k - 1)
  }

  /** The node without x, or what replaces the node if x was its only chunk. */
  ghost function RemoveHere(u: Trie, x: nat): Trie
    requires u.Node? && x in u.ring
  {
    if |u.ring| > 1 then u.(ring := RingWithout(u.ring, x)) else DropNode(u)
  }

  /** The subtree u at pointer q became u' at q'; its parent's child word follows; nothing else changed. */
  ghost predicate Replaces(L: Links, L': Links, u: Trie, u': Trie, q: int, q': int, up: int, i: nat) {
    && Linked(L', u', q', up, i)
    && (forall a :: Without(u, a) && (a != up || up <= 0) ==> At(L', a) == At(L, a))
    && (up > 0 ==> At(L', up) == if At(L, up).child0 == q then At(L, up).(child0 := q') else At(L, up).(child1 := q'))
  }

  lemma {:induction false} FindInside(L: Links, t: Trie, p: int, up: int, i: nat, x: nat, s: nat, lo: nat, k: nat,
                                      a: int)
    requires Valid(t, lo, k) && Linked(L, t, p, up, i) && Has(t, x, s)
    ensures Without(t, a) ==> Without(FindNode(t, s, lo, k), a)
    decreases t
  {
    if t.size != s {
      BranchHas(t, x, s, lo, k);
      Apart(L, t, p, up, i, lo, k, a);
      if s < lo + Pow2(k - 1) {
        FindInside(L, t.left, At(L, p).child0, p, i, x, s, lo, k - 1, a);
      } else {
        FindInside(L, t.right, At(L, p).child1, p, i, x, s, lo + Pow2(k - 1), k - 1, a);
      }
    }
  }

  /** A change inside one subtree, as seen from its parent node. */
  lemma ReplaceChild(L: Links, L': Links, t: Trie, p: int, up: int, i: nat, lo: nat, k: nat, right: bool, c': Trie,
                     pc': int)
    requires t.Node? && k > 0 && Valid(t, lo, k) && Linked(L, t, p, up, i)
    requires forall a :: Without(if right then t.right else t.left, a) && a != p ==> At(L', a) == At(L, a)
    requires At(L', p) == if right then At(L, p).(child1 := pc') else At(L, p).(child0 := pc')
    requires Linked(L', c', pc', p, i)
    ensures Linked(L', if right then t.(right := c') else t.(left := c'), p, up, i)
  {
    Apart(L, t, p, up, i, lo, k, p);
    forall j | 1 <= j < |t.ring| ensures At(L, t.ring[j]) == At(L', t.ring[j]) {
      Apart(L, t, p, up, i, lo, k, t.ring[j]);
    }
    NodeFrame(L, L', t.size, t.ring, up, i);
    var d := if right then t.left else t.right;
    forall a: nat, z: nat | Has(d, a, z) ensures At(L, a) == At(L', a) {
      LinkedSize(L, d, ChildOf(At(L, p), !right), p, i, a, z);
      Apart(L, t, p, up, i, lo, k, a);
      assert !Without(d, a);
    }
    LinkedFrame(L, L', d, ChildOf(At(L, p), !right), p, i);
  }

  lemma OtherRoot(L: Links, t: Trie, p: int, up: int, i: nat, lo: nat, k: nat)
    requires t.Node? && k > 0 && Valid(t, lo, k) && Linked(L, t, p, up, i) && t.right.Node?
    ensures At(L, p).child0 != At(L, p).child1
  {
    RootOf(L, t.left, At(L, p).child0, p, i);
    RootOf(L, t.right, At(L, p).child1, p, i);
    Apart(L, t, p, up, i, lo, k, At(L, p).child1);
  }

  /** One level up: the child's new trie and root, and the untouched rest, spell out the parent's new trie. */
  lemma RemoveStep(L: Links, L': Links, t: Trie, p: int, up0: int, i: nat, lo: nat, k: nat, right: bool, c': Trie,
                   u: Trie, u': Trie, q: int, q': int, up: int)
    requires t.Node? && k > 0 && Valid(t, lo, k) && Linked(L, t, p, up0, i)
    requires forall a :: Without(if right then t.right else t.left, a) ==> Without(u, a)
    requires Replaces(L, L', u, u', q, q', up, i)
    requires if up == p then right ==> At(L, p).child0 != q else !Without(if right then t.right else t.left, up)
    requires up == p && !right ==> At(L, p).child0 == q
    requires Linked(L', c', if up == p then q' else ChildOf(At(L, p), right), p, i)
    ensures Linked(L', if right then t.(right := c') else t.(left := c'), p, up0, i)
  {
    Apart(L, t, p, up0, i, lo, k, p);
    RootOf(L, t, p, up0, i);
    assert Without(if right then t.right else t.left, p);
    ReplaceChild(L, L', t, p, up0, i, lo, k, right, c', if up == p then q' else ChildOf(At(L, p), right));
  }

  lemma SamePlace(L: Links, t: Trie, p: int, up: int, p': int, up': int, i: nat)
    requires t.Node? && Linked(L, t, p, up, i) && Linked(L, t, p', up', i)
    ensures p == p' && up == up'
  {
  }

  /** The same for the whole trie above a child whose new trie c' stands at its new root. */
  lemma RemoveUp(L: Links, L': Links, t: Trie, p: int, up0: int, i: nat, lo: nat, k: nat, right: bool, c': Trie,
                 u: Trie, u': Trie, q: int, q': int, up: int, here: bool)
    requires t.Node? && k > 0 && Valid(t, lo, k) && Linked(L, t, p, up0, i)
    requires forall a :: Without(if right then t.right else t.left, a) ==> Without(u, a)
    requires Replaces(L, L', u, u', q, q', up, i)
    requires (if right then t.right else t.left).Node?
    requires here ==> up == p && q == ChildOf(At(L, p), right)
    requires !here ==> !Without(if right then t.right else t.left, up)
    requires Linked(L', c', if here then q' else ChildOf(At(L, p), right), p, i)
    ensures Linked(L', if right then t.(right := c') else t.(left := c'), p, up0, i)
    ensures !Without(t, up)
  {
    Apart(L, t, p, up0, i, lo, k, p);
    Apart(L, t, p, up0, i, lo, k, up);
    RootOf(L, t, p, up0, i);
    if right { OtherRoot(L, t, p, up0, i, lo, k); }
    RemoveStep(L, L', t, p, up0, i, lo, k, right, c', u, u', q, q', up);
  }

  lemma RemoveAtRoot(L: Links, L': Links, t: Trie, p: int, up0: int, i: nat, x: nat, s: nat, lo: nat, k: nat,
                     u: Trie, q: int, q': int, up: int)
    requires Valid(t, lo, k) && Linked(L, t, p, up0, i) && Has(t, x, s) && t.size == s
    requires u == FindNode(t, s, lo, k) && Linked(L, u, q, up, i) && x in u.ring
    requires Replaces(L, L', u, RemoveHere(u, x), q, q', up, i)
    ensures Linked(L', Remove(t, x, s, lo, k), q', up0, i) && up == up0 && q == p
  {
    SamePlace(L, t, p, up0, q, up, i);
  }

  /** Replacing the node of x inside its subtree spells out the trie with x removed. */
  lemma {:induction false} RemoveLinked(L: Links, L': Links, t: Trie, p: int, up0: int, i: nat, x: nat, s: nat, lo: nat,
                                        k: nat, u: Trie, q: int, q': int, up: int)
    requires Valid(t, lo, k) && Linked(L, t, p, up0, i) && Has(t, x, s) && Without(t, up0)
    requires u == FindNode(t, s, lo, k) && Linked(L, u, q, up, i) && u.Node? && x in u.ring
    requires Replaces(L, L', u, RemoveHere(u, x), q, q', up, i)
    ensures Linked(L', Remove(t, x, s, lo, k), if t.size == s then q' else p, up0, i)
    ensures t.size == s ==> up == up0 && q == p
    ensures t.size != s ==> !Without(t, up)
    decreases t
  {
    hide NodeLinked, Replaces, RemoveHere, HasSize;
    if t.size == s {
      RemoveAtRoot(L, L', t, p, up0, i, x, s, lo, k, u, q, q', up);
    } else {
      BranchHas(t, x, s, lo, k);
      var right := s >= lo + Pow2(k - 1);
      var c, pc := if right then t.right else t.left, ChildOf(At(L, p), right);
      var clo := if right then lo + Pow2(k - 1) else lo;
      Apart(L, t, p, up0, i, lo, k, p);
      RootOf(L, t, p, up0, i);
      RemoveLinked(L, L', c, pc, p, i, x, s, clo, k - 1, u, q, q', up);
      forall a ensures Without(c, a) ==> Without(u, a) { FindInside(L, c, pc, p, i, x, s, clo, k - 1, a); }
      RemoveUp(L, L', t, p, up0, i, lo, k, right, Remove(c, x, s, clo, k - 1), u, RemoveHere(u, x), q, q', up,
               c.size == s);
    }
  }

  // the effect of unlinking at the node itself

  /** The child word of the parent that led to x leads to r; the root of a bin has no such word. */
  function Repoint(L: Links, up: int, x: int, r: int): Links {
    if up > 0 then SetChild(L, up, At(L, up).child0 != x, r) else L
  }

  /** The last part of unlink_large_chunk: r, or nothing, goes where x was. */
  function PutInPlace(L: Links, up: int, x: int, r: int): Links {
    var L' := Repoint(L, up, x, r);
    if r != 0 then Adopt(L', x, r, up) else L'
  }

  /** The two links by which a subtree hangs from its parent. */
  ghost predicate HangsFrom(L: Links, u: Trie, q: int, up: int, i: nat) {
    && u.Node? && Linked(L, u, q, up, i) && Without(u, up)
    && (up > 0 ==> At(L, up).child0 == q || At(L, up).child1 == q)
  }

  lemma RemovedFrom(u: Trie, x: nat, lo: nat, k: nat, a: nat, z: nat)
    requires u.Node? && Valid(u, lo, k) && x in u.ring && Has(RemoveHere(u, x), a, z)
    ensures Has(u, a, z)
  {
    if |u.ring| > 1 { RingWithoutKeeps(u.ring, x); } else { DropNodeKeeps(u, lo, k, a, z); }
  }

  lemma ChainedNode(L: Links, s: nat, ring: seq<nat>, up: int, i: nat, j: nat)
    requires NodeLinked(L, s, ring, up, i) && 0 < j < |ring|
    ensures NodeLinked(CutFromRing(L, ring[j]), s, ring[..j] + ring[j + 1..], up, i)
  {
    var L', ring' := CutFromRing(L, ring[j]), ring[..j] + ring[j + 1..];
    RingRemove(L, ring, j);
    hide Ring;
    assert forall m :: 0 <= m < |ring'| ==> ring'[m] == ring[if m < j then m else m + 1];
    forall a ensures At(L', a).(fd := 0, bk := 0) == At(L, a).(fd := 0, bk := 0) { CutKeeps(L, ring[j], a); }
    hide CutFromRing;
    forall a
      ensures At(L', a).size == At(L, a).size && At(L', a).index == At(L, a).index
        && At(L', a).parent == At(L, a).parent
      ensures At(L', a).child0 == At(L, a).child0 && At(L', a).child1 == At(L, a).child1
    {
      assert At(L', a).(fd := 0, bk := 0) == At(L, a).(fd := 0, bk := 0);
    }
  }

  /** A cut changes the words of the chunk's two neighbours only. */
  lemma CutOutside(L: Links, ring: seq<int>, j: nat, a: int)
    requires Ring(L, ring) && j < |ring| && a !in ring
    ensures At(CutFromRing(L, ring[j]), a) == At(L, a)
  {
    RingNeighbours(L, ring, j);
  }

  /** A chunk that is not the tree node of its size leaves the ring. */
  lemma UnlinkChained(L: Links, u: Trie, q: int, up: int, i: nat, x: nat, lo: nat, k: nat)
    requires HangsFrom(L, u, q, up, i) && Valid(u, lo, k) && x in u.ring && x != q
    ensures Replaces(L, CutFromRing(L, x), u, RemoveHere(u, x), q, q, up, i)
  {
    var L', j := CutFromRing(L, x), IndexOf(u.ring, x);
    ChainedNode(L, u.size, u.ring, up, i, j);
    CutKeeps(L, x, q);
    forall a ensures a !in u.ring ==> At(L', a) == At(L, a) { if a !in u.ring { CutOutside(L, u.ring, j, a); } }
    hide CutFromRing, NodeLinked;
    forall a: nat, z: nat | Has(u.left, a, z) || Has(u.right, a, z) ensures At(L, a) == At(L', a) {
      Apart(L, u, q, up, i, lo, k, a);
    }
    LinkedFrame(L, L', u.left, At(L, q).child0, q, i);
    LinkedFrame(L, L', u.right, At(L, q).child1, q, i);
    forall a | Without(u, a) ensures At(L, a) == At(L', a) { Apart(L, u, q, up, i, lo, k, a); }
    assert At(L', q).child0 == At(L, q).child0 && At(L', q).child1 == At(L, q).child1 by {
      assert At(L', q).(fd := 0, bk := 0) == At(L, q).(fd := 0, bk := 0);
    }
  }

  lemma RingNeighbours(L: Links, c: seq<int>, j: nat)
    requires Ring(L, c) && j < |c|
    ensures At(L, c[j]).fd == (if j == |c| - 1 then c[0] else c[j + 1]) && At(L, c[j]).fd in c
    ensures At(L, c[j]).bk == (if j == 0 then c[|c| - 1] else c[j - 1]) && At(L, c[j]).bk in c
  {
  }

  /** L1 differs from L only inside u, and keeps what x's children are reached by. */
  ghost predicate ChangedInside(L: Links, L1: Links, u: Trie) {
    forall a :: Without(u, a) ==> At(L1, a) == At(L, a)
  }

  /** The parent's child word is written apart from the rest. */
  lemma PutInPlaceAt(L1: Links, up: int, x: int, r: int, a: int)
    requires r > 0 && up != x && up != r
    requires up > 0 ==> up != At(L1, x).child0 && up != At(L1, x).child1
    requires Apart3(r, At(L1, x).child0, At(L1, x).child1)
    ensures a != up || up <= 0 ==> At(PutInPlace(L1, up, x, r), a) == At(Adopt(L1, x, r, up), a)
    ensures up > 0 ==> At(PutInPlace(L1, up, x, r), up) ==
                       if At(L1, up).child0 == x then At(L1, up).(child0 := r) else At(L1, up).(child1 := r)
  {
    if up > 0 {
      var M := Repoint(L1, up, x, r);
      assert forall b :: b != up ==> At(M, b) == At(L1, b);
      AdoptAt(M, x, r, up, up);
      AdoptAt(M, x, r, up, a);
      AdoptAt(L1, x, r, up, a);
      hide Adopt;
    }
  }

  lemma AdoptElsewhere(L: Links, x: int, r: int, up: int, a: int)
    requires a != r && (a == 0 || (a != At(L, x).child0 && a != At(L, x).child1))
    ensures At(Adopt(L, x, r, up), a) == At(L, a)
  {
  }

  /** Putting r in the place of the tree node x, once r's node and x's subtrees stand in L1. */
  lemma PutInPlaceReplaces(L: Links, L1: Links, u: Trie, u': Trie, x: int, r: int, up: int, i: nat)
    requires HangsFrom(L, u, x, up, i) && ChangedInside(L, L1, u) && x > 0
    requires r > 0 && !Without(u, r) && Apart3(r, At(L1, x).child0, At(L1, x).child1)
    requires At(L1, x).child0 == 0 || !Without(u, At(L1, x).child0)
    requires At(L1, x).child1 == 0 || !Without(u, At(L1, x).child1)
    requires Linked(Adopt(L1, x, r, up), u', r, up, i)
    requires forall a: nat, z: nat :: Has(u', a, z) ==> !Without(u, a)
    ensures Replaces(L, PutInPlace(L1, up, x, r), u, u', x, r, up, i)
  {
    var M, L' := Adopt(L1, x, r, up), PutInPlace(L1, up, x, r);
    RootOf(L, u, x, up, i);
    assert !Without(u, x);
    forall a ensures a != up || up <= 0 ==> At(L', a) == At(M, a) { PutInPlaceAt(L1, up, x, r, a); }
    PutInPlaceAt(L1, up, x, r, up);
    forall a | Without(u, a) && (a != up || up <= 0) ensures At(L', a) == At(L, a) { AdoptElsewhere(L1, x, r, up, a); }
    hide PutInPlace, Adopt;
    LinkedFrame(M, L', u', r, up, i);
  }

  /** The first of a ring leaves and the last takes the lead. */
  lemma RingCutHead(L: Links, c: seq<nat>)
    requires Ring(L, c) && |c| > 1
    ensures RingWithout(c, c[0]) == [c[|c| - 1]] + c[1..|c| - 1]
    ensures Ring(CutFromRing(L, c[0]), RingWithout(c, c[0])) && At(L, c[0]).bk == c[|c| - 1]
  {
    var L', d := CutFromRing(L, c[0]), c[..0] + c[1..];
    LeadWithout(c);
    RingNeighbours(L, c, 0);
    RingRemove(L, c, 0);
    hide Ring, CutFromRing, RingWithout, Distinct;
    assert d == c[1..];
    RingRotate(L', d);
    assert d[..|d| - 1] == c[1..|c| - 1];
  }

  lemma LeadWithout(c: seq<nat>)
    requires Distinct(c) && |c| > 1
    ensures RingWithout(c, c[0]) == [c[|c| - 1]] + c[1..|c| - 1]
  {
    assert IndexOf(c, c[0]) == 0;
  }

  lemma CutKeeps(L: Links, x: int, a: int)
    ensures At(CutFromRing(L, x), a).(fd := 0, bk := 0) == At(L, a).(fd := 0, bk := 0)
  {
  }

  lemma CutAround(L: Links, s: nat, ring: seq<nat>, up: int, i: nat)
    requires NodeLinked(L, s, ring, up, i) && |ring| > 1
    ensures var x := ring[0];
            var L1, ring' := CutFromRing(L, x), RingWithout(ring, x);
            && ring' != [] && ring'[0] == At(L, x).bk && x !in ring'
            && NodeLinked(L1, s, ring', 0, i)
            && At(L1, ring'[0]).child0 == 0 && At(L1, ring'[0]).child1 == 0
            && At(L1, x).child0 == At(L, x).child0 && At(L1, x).child1 == At(L, x).child1
  {
    var x, n := ring[0], |ring|;
    var L1, ring' := CutFromRing(L, x), RingWithout(ring, x);
    RingCutHead(L, ring);
    hide RingWithout, Ring, CutFromRing;
    assert forall m :: 1 <= m < |ring'| ==> ring'[m] == ring[m];
    assert ring'[0] == ring[n - 1];
    forall a | a in ring
      ensures At(L1, a).size == At(L, a).size && At(L1, a).index == At(L, a).index
        && At(L1, a).parent == At(L, a).parent
      ensures At(L1, a).child0 == At(L, a).child0 && At(L1, a).child1 == At(L, a).child1
    {
      CutKeeps(L, x, a);
    }
  }

  /** The tree node of several chunks leaves: its bk neighbour becomes the tree node. */
  lemma UnlinkShared(L: Links, u: Trie, x: int, up: int, i: nat, lo: nat, k: nat)
    requires HangsFrom(L, u, x, up, i) && Valid(u, lo, k) && |u.ring| > 1
    ensures Replaces(L, PutInPlace(CutFromRing(L, x), up, x, At(L, x).bk), u, RemoveHere(u, x), x, At(L, x).bk, up, i)
  {
    hide Has, Distinct;
    var L1, ring', r := CutFromRing(L, x), RingWithout(u.ring, x), At(L, x).bk;
    CutAround(L, u.size, u.ring, up, i);
    RingNeighbours(L, u.ring, 0);
    RingWithoutKeeps(u.ring, x);
    Apart(L, u, x, up, i, lo, k, r);
    forall a ensures a !in u.ring ==> At(L1, a) == At(L, a) { if a !in u.ring { CutOutside(L, u.ring, 0, a); } }
    hide CutFromRing, NodeLinked, RingWithout;
    forall a ensures Without(u, a) ==> At(L1, a) == At(L, a) { Apart(L, u, x, up, i, lo, k, a); }
    forall a: nat, z: nat | Has(u.left, a, z) || Has(u.right, a, z) ensures At(L, a) == At(L1, a) {
      Apart(L, u, x, up, i, lo, k, a);
    }
    LinkedFrame(L, L1, u.left, At(L, x).child0, x, i);
    LinkedFrame(L, L1, u.right, At(L, x).child1, x, i);
    forall a ensures a in ring' ==> Without(u.left, a) && Without(u.right, a)
             ensures Without(u.left, a) || Without(u.right, a) {
      Apart(L, u, x, up, i, lo, k, a);
    }
    ChildrenInside(L, u, x, up, i, lo, k);
    if k > 0 {
      AdoptLinked(L1, x, u.size, ring', u.left, u.right, 0, up, i, lo, k - 1);
    } else {
      AdoptLinked(L1, x, u.size, ring', Nil, Nil, 0, up, i, lo, 0);
    }
    forall a: nat, z: nat | Has(RemoveHere(u, x), a, z) ensures !Without(u, a) {
      RemovedFrom(u, x, lo, k, a, z);
      LinkedSize(L, u, x, up, i, a, z);
    }
    PutInPlaceReplaces(L, L1, u, RemoveHere(u, x), x, r, up, i);
  }

  lemma ChildrenInside(L: Links, u: Trie, x: int, up: int, i: nat, lo: nat, k: nat)
    requires u.Node? && Linked(L, u, x, up, i) && Valid(u, lo, k)
    ensures At(L, x).child0 == 0 || !Without(u, At(L, x).child0)
    ensures At(L, x).child1 == 0 || !Without(u, At(L, x).child1)
  {
    RootOf(L, u.left, At(L, x).child0, x, i);
    RootOf(L, u.right, At(L, x).child1, x, i);
    Apart(L, u, x, up, i, lo, k, At(L, x).child0);
    Apart(L, u, x, up, i, lo, k, At(L, x).child1);
  }

  /** The only chunk of its size, at a leaf, leaves: nothing takes its place. */
  lemma UnlinkLeaf(L: Links, u: Trie, x: int, up: int, i: nat)
    requires HangsFrom(L, u, x, up, i) && Leaf(u) && |u.ring| == 1
    ensures Replaces(L, PutInPlace(L, up, x, 0), u, RemoveHere(u, x), x, 0, up, i)
  {
  }

  /** The only chunk of its size, at an inner node, leaves: the promoted leaf takes its place. */
  lemma UnlinkInner(L: Links, u: Trie, x: int, up: int, i: nat, lo: nat, k: nat)
    requires HangsFrom(L, u, x, up, i) && Valid(u, lo, k) && !Leaf(u) && |u.ring| == 1
    ensures var at, r := PullSlot(u), ChildOf(At(L, PullSlot(u).owner), PullSlot(u).right);
            Replaces(L, PutInPlace(SetChild(L, at.owner, at.right, 0), up, x, r), u, RemoveHere(u, x), x, r, up, i)
  {
    hide Has, Distinct, Ring;
    var at, leaf := PullSlot(u), Pull(u);
    var L1, v := SetChild(L, at.owner, at.right, 0), leaf.rest;
    PullLinked(L, u, x, up, i, lo, k);
    PullValid(u, lo, k);
    assert x !in leaf.ring by {
      assert At(L1, x).size == u.size && HasSize(v, u.size);
    }
    PullInside(u);
    PullApart(L1, v, x, up, i, lo, k, leaf, at.owner);
    AdoptLinked(L1, x, leaf.size, leaf.ring, v.left, v.right, at.owner, up, i, lo, k - 1);
    ChildrenInside(L1, v, x, up, i, lo, k);
    forall a: nat, z: nat | Has(RemoveHere(u, x), a, z) ensures !Without(u, a) {
      RemovedFrom(u, x, lo, k, a, z);
      LinkedSize(L, u, x, up, i, a, z);
    }
    assert Has(u, leaf.ring[0], leaf.size) by { PullHas(u, leaf.ring[0], leaf.size); }
    PutInPlaceReplaces(L, L1, u, RemoveHere(u, x), x, leaf.ring[0], up, i);
  }

  lemma PullInside(u: Trie)
    requires u.Node?
    ensures forall a :: !Without(Pull(u).rest, a) ==> !Without(u, a)
  {
    forall a | !Without(Pull(u).rest, a) ensures !Without(u, a) {
      var z: nat :| Has(Pull(u).rest, a, z);
      PullHas(u, a, z);
    }
  }

  /** The promoted leaf shares no chunk with the rest, whose two subtrees share none either. */
  lemma PullApart(L: Links, v: Trie, x: int, up: int, i: nat, lo: nat, k: nat, leaf: Pulled, up0: int)
    requires v.Node? && Valid(v, lo, k) && Linked(L, v, x, up, i)
    requires NodeLinked(L, leaf.size, leaf.ring, up0, i) && !HasSize(v, leaf.size)
    ensures forall a :: a in leaf.ring ==> Without(v.left, a) && Without(v.right, a)
    ensures forall a :: Without(v.left, a) || Without(v.right, a)
  {
    forall a ensures a in leaf.ring ==> Without(v.left, a) && Without(v.right, a)
             ensures Without(v.left, a) || Without(v.right, a)
    {
      Apart(L, v, x, up, i, lo, k, a);
      if a in leaf.ring {
        forall z: nat ensures !Has(v, a, z) {
          if Has(v, a, z) {
            LinkedSize(L, v, x, up, i, a, z);
            HasHasSize(v, a, z);
          }
        }
      }
    }
  }
}

/**
 The bitwise tries of the tree bins, as values. A trie covers the sizes lo <= s < lo + 2^k; its left
 subtree covers the lower half and its right subtree the upper half, while the node itself may hold any
 size of the range. Chunks of one size share a node: the first of `ring` is the tree node, the others
 hang off it.
 */
module Tries {
  import opened Words

  datatype Trie = Nil | Node(size: nat, ring: seq<nat>, left: Trie, right: Trie)

  ghost predicate Distinct<T>(s: seq<T>) {
    forall i, j :: 0 <= i < j < |s| ==> s[i] != s[j]
  }

  /** The trie holds a chunk at address a with size s. */
  ghost predicate Has(t: Trie, a: nat, s: nat) {
    match t
    case Nil => false
    case Node(s0, ring, l, r) => (s == s0 && a in ring) || Has(l, a, s) || Has(r, a, s)
  }

  ghost predicate HasSize(t: Trie, s: nat) {
    match t
    case Nil => false
    case Node(s0, _, l, r) => s == s0 || HasSize(l, s) || HasSize(r, s)
  }

  ghost predicate Valid(t: Trie, lo: nat, k: nat) {
    match t
    case Nil => true
    case Node(s, ring, l, r) =>
      && lo <= s < lo + Pow2(k)
      && ring != [] && Distinct(ring)
      && !HasSize(l, s) && !HasSize(r, s)
      && (k == 0 ==> l.Nil? && r.Nil?)
      && (k > 0 ==> Valid(l, lo, k - 1) && Valid(r, lo + Pow2(k - 1), k - 1))
  }

  lemma {:induction false} SizeInRange(t: Trie, lo: nat, k: nat, s: nat)
    requires Valid(t, lo, k) && HasSize(t, s)
    ensures lo <= s < lo + Pow2(k)
    decreases t
  {
    if s != t.size && HasSize(t.left, s) {
      SizeInRange(t.left, lo, k - 1, s);
    } else if s != t.size {
      SizeInRange(t.right, lo + Pow2(k - 1), k - 1, s);
    }
  }

  lemma {:induction false} HasHasSize(t: Trie, a: nat, s: nat)
    requires Has(t, a, s)
    ensures HasSize(t, s)
    decreases t
  {
    if Has(t.left, a, s) {
      HasHasSize(t.left, a, s);
    } else if Has(t.right, a, s) {
      HasHasSize(t.right, a, s);
    }
  }

  ghost function Height(t: Trie): nat {
    match t
    case Nil => 0
    case Node(_, _, l, r) => 1 + if Height(l) < Height(r) then Height(r) else Height(l)
  }

  /** Walks are bounded by the number of binary digits that tell sizes apart, plus the root. */
  lemma {:induction false} HeightBound(t: Trie, lo: nat, k: nat)
    requires Valid(t, lo, k)
    ensures Height(t) <= k + 1
    decreases t
  {
    if t.Node? && k > 0 {
      HeightBound(t.left, lo, k - 1);
      HeightBound(t.right, lo + Pow2(k - 1), k - 1);
    }
  }

  // ---- insertion

  /** insert_large_chunk on values: descend by size, join the ring of an equal size or hang a new leaf. */
  ghost function Insert(t: Trie, a: nat, s: nat, lo: nat, k: nat): Trie {
    match t
    case Nil => Node(s, [a], Nil, Nil)
    case Node(s0, ring, l, r) =>
      if s == s0 && ring != [] then Node(s0, [ring[0], a] + ring[1..], l, r)
      else if k == 0 then t
      else if s < lo + Pow2(k - 1) then Node(s0, ring, Insert(l, a, s, lo, k - 1), r)
      else Node(s0, ring, l, Insert(r, a, s, lo + Pow2(k - 1), k - 1))
  }

  lemma {:induction false} InsertHas(t: Trie, a: nat, s: nat, lo: nat, k: nat, b: nat, z: nat)
    requires Valid(t, lo, k) && lo <= s < lo + Pow2(k)
    ensures Has(Insert(t, a, s, lo, k), b, z) <==> Has(t, b, z) || (b == a && z == s)
    ensures HasSize(Insert(t, a, s, lo, k), z) <==> HasSize(t, z) || z == s
    decreases t
  {
    if t.Node? {
      assert [t.ring[0], a] + t.ring[1..] == [t.ring[0]] + [a] + t.ring[1..];
      assert t.ring == [t.ring[0]] + t.ring[1..];
      if t.size != s && s < lo + Pow2(k - 1) {
        InsertHas(t.left, a, s, lo, k - 1, b, z);
      } else if t.size != s {
        InsertHas(t.right, a, s, lo + Pow2(k - 1), k - 1, b, z);
      }
    }
  }

  /** Insertion keeps the trie in order. */
  lemma {:induction false} InsertValid(t: Trie, a: nat, s: nat, lo: nat, k: nat)
    requires Valid(t, lo, k) && lo <= s < lo + Pow2(k) && !Has(t, a, s)
    ensures Valid(Insert(t, a, s, lo, k), lo, k)
    decreases t
  {
    if t.Node? && t.size != s {
      if s < lo + Pow2(k - 1) {
        InsertValid(t.left, a, s, lo, k - 1);
        InsertHas(t.left, a, s, lo, k - 1, a, t.size);
      } else {
        InsertValid(t.right, a, s, lo + Pow2(k - 1), k - 1);
        InsertHas(t.right, a, s, lo + Pow2(k - 1), k - 1, a, t.size);
      }
    }
  }

  // ---- removal

  /** A leaf taken out of a trie, and the trie without it. */
  datatype Pulled = Pulled(size: nat, ring: seq<nat>, rest: Trie)

  /** The leaf that unlink_large_chunk promotes: follow right children, or left where there is no right. */
  ghost function Pull(t: Trie): Pulled
    requires t.Node?
  {
    if t.right.Node? then
      var p := Pull(t.right);
      Pulled(p.size, p.ring, t.(right := p.rest))
    else if t.left.Node? then
      var p := Pull(t.left);
      Pulled(p.size, p.ring, t.(left := p.rest))
    else
      Pulled(t.size, t.ring, Nil)
  }

  /** What takes the place of a node that goes away: its promoted leaf, with its other descendants. */
  ghost function DropNode(t: Trie): Trie
    requires t.Node?
  {
    if t.right.Node? then
      var p := Pull(t.right);
      Node(p.size, p.ring, t.left, p.rest)
    else if t.left.Node? then
      var p := Pull(t.left);
      Node(p.size, p.ring, p.rest, t.right)
    else
      Nil
  }

  ghost function IndexOf(s: seq<nat>, a: nat): (i: nat)
    requires a in s
    ensures i < |s| && s[i] == a
  {
    var i :| 0 <= i < |s| && s[i] == a;
    i
  }

  /** A ring without one of its chunks; if the tree node itself leaves, its `bk` neighbour takes over. */
  ghost function RingWithout(ring: seq<nat>, a: nat): seq<nat>
    requires a in ring
  {
    var n, j := |ring|, IndexOf(ring, a);
    if j == 0 && n > 1 then [ring[n - 1]] + ring[1..n - 1] else ring[..j] + ring[j + 1..]
  }

  /** unlink_large_chunk on values. */
  ghost function Remove(t: Trie, a: nat, s: nat, lo: nat, k: nat): Trie {
    match t
    case Nil => Nil
    case Node(s0, ring, l, r) =>
      if s == s0 then
        if a !in ring then t
        else if |ring| > 1 then Node(s0, RingWithout(ring, a), l, r)
        else DropNode(t)
      else if k == 0 then t
      else if s < lo + Pow2(k - 1) then Node(s0, ring, Remove(l, a, s, lo, k - 1), r)
      else Node(s0, ring, l, Remove(r, a, s, lo + Pow2(k - 1), k - 1))
  }

  lemma {:induction false} PullHas(t: Trie, b: nat, z: nat)
    requires t.Node?
    ensures Has(t, b, z) <==> Has(Pull(t).rest, b, z) || (z == Pull(t).size && b in Pull(t).ring)
    ensures HasSize(t, z) <==> HasSize(Pull(t).rest, z) || z == Pull(t).size
    decreases t
  {
    if t.right.Node? {
      PullHas(t.right, b, z);
    } else if t.left.Node? {
      PullHas(t.left, b, z);
    }
  }

  lemma {:induction false} PullValid(t: Trie, lo: nat, k: nat)
    requires Valid(t, lo, k) && t.Node?
    ensures Valid(Pull(t).rest, lo, k) && lo <= Pull(t).size < lo + Pow2(k)
    ensures Pull(t).ring != [] && Distinct(Pull(t).ring)
    ensures HasSize(t, Pull(t).size) && !HasSize(Pull(t).rest, Pull(t).size)
    decreases t
  {
    PullHas(t, 0, Pull(t).size);
    SizeInRange(t, lo, k, Pull(t).size);
    if t.right.Node? {
      PullValid(t.right, lo + Pow2(k - 1), k - 1);
      PullHas(t.right, 0, t.size);
      SizeInRange(t.right, lo + Pow2(k - 1), k - 1, Pull(t).size);
      if HasSize(t.left, Pull(t).size) { SizeInRange(t.left, lo, k - 1, Pull(t).size); }
    } else if t.left.Node? {
      PullValid(t.left, lo, k - 1);
      PullHas(t.left, 0, t.size);
    }
  }

  lemma RingWithoutKeeps(ring: seq<nat>, a: nat)
    requires a in ring && Distinct(ring) && |ring| > 1
    ensures RingWithout(ring, a) != [] && Distinct(RingWithout(ring, a))
    ensures forall b :: b in RingWithout(ring, a) <==> b in ring && b != a
  {
    var n, j, w := |ring|, IndexOf(ring, a), RingWithout(ring, a);
    forall b | b in ring && b != a ensures b in w {
      var i := IndexOf(ring, b);
      if j == 0 {
        assert i == n - 1 ==> w[0] == b;
        assert i < n - 1 ==> w[i] == b;
      } else {
        assert w[if i < j then i else i - 1] == b;
      }
    }
  }

  lemma DropNodeKeeps(t: Trie, lo: nat, k: nat, b: nat, z: nat)
    requires Valid(t, lo, k) && t.Node?
    ensures Valid(DropNode(t), lo, k)
    ensures Has(DropNode(t), b, z) <==> Has(t.left, b, z) || Has(t.right, b, z)
    ensures HasSize(DropNode(t), z) <==> HasSize(t.left, z) || HasSize(t.right, z)
  {
    if t.right.Node? {
      var p := Pull(t.right);
      PullValid(t.right, lo + Pow2(k - 1), k - 1);
      PullHas(t.right, b, z);
      if HasSize(t.left, p.size) { SizeInRange(t.left, lo, k - 1, p.size); }
    } else if t.left.Node? {
      PullValid(t.left, lo, k - 1);
      PullHas(t.left, b, z);
    }
  }

  lemma {:induction false} RemoveHas(t: Trie, a: nat, s: nat, lo: nat, k: nat, b: nat, z: nat)
    requires Valid(t, lo, k) && Has(t, a, s)
    ensures Has(Remove(t, a, s, lo, k), b, z) <==> Has(t, b, z) && !(b == a && z == s)
    ensures HasSize(Remove(t, a, s, lo, k), z) ==> HasSize(t, z)
    decreases t
  {
    HasHasSize(t, a, s);
    SizeInRange(t, lo, k, s);
    if t.size == s {
      if Has(t.left, a, s) { HasHasSize(t.left, a, s); }
      if Has(t.right, a, s) { HasHasSize(t.right, a, s); }
      if Has(t.left, b, z) { HasHasSize(t.left, b, z); }
      if Has(t.right, b, z) { HasHasSize(t.right, b, z); }
      if |t.ring| > 1 { RingWithoutKeeps(t.ring, a); } else { DropNodeKeeps(t, lo, k, b, z); }
    } else {
      BranchHas(t, a, s, lo, k);
      if s < lo + Pow2(k - 1) {
        if Has(t.right, b, z) { OtherBranch(t, lo, k, b, z); }
        RemoveHas(t.left, a, s, lo, k - 1, b, z);
      } else {
        if Has(t.left, b, z) { OtherBranch(t, lo, k, b, z); }
        RemoveHas(t.right, a, s, lo + Pow2(k - 1), k - 1, b, z);
      }
    }
  }

  /** A size below the root is in the half its digit names. */
  lemma BranchHas(t: Trie, a: nat, s: nat, lo: nat, k: nat)
    requires Valid(t, lo, k) && Has(t, a, s) && t.size != s
    ensures k > 0
    ensures if s < lo + Pow2(k - 1) then Has(t.left, a, s) else Has(t.right, a, s)
  {
    OtherBranch(t, lo, k, a, s);
  }

  lemma OtherBranch(t: Trie, lo: nat, k: nat, b: nat, z: nat)
    requires Valid(t, lo, k) && t.Node? && (Has(t.left, b, z) || Has(t.right, b, z))
    ensures k > 0
    ensures Has(t.left, b, z) ==> lo <= z < lo + Pow2(k - 1)
    ensures Has(t.right, b, z) ==> lo + Pow2(k - 1) <= z
    ensures z != t.size
  {
    if Has(t.left, b, z) {
      HasHasSize(t.left, b, z);
      SizeInRange(t.left, lo, k - 1, z);
    }
    if Has(t.right, b, z) {
      HasHasSize(t.right, b, z);
      SizeInRange(t.right, lo + Pow2(k - 1), k - 1, z);
    }
  }

  /** Removal keeps the trie in order. */
  lemma {:induction false} RemoveValid(t: Trie, a: nat, s: nat, lo: nat, k: nat)
    requires Valid(t, lo, k) && Has(t, a, s)
    ensures Valid(Remove(t, a, s, lo, k), lo, k)
    decreases t
  {
    HasHasSize(t, a, s);
    if t.size == s {
      if Has(t.left, a, s) { HasHasSize(t.left, a, s); }
      if Has(t.right, a, s) { HasHasSize(t.right, a, s); }
      if |t.ring| > 1 { RingWithoutKeeps(t.ring, a); } else { DropNodeKeeps(t, lo, k, a, s); }
    } else {
      BranchHas(t, a, s, lo, k);
      if s < lo + Pow2(k - 1) {
        RemoveValid(t.left, a, s, lo, k - 1);
        RemoveHas(t.left, a, s, lo, k - 1, a, t.size);
      } else {
        RemoveValid(t.right, a, s, lo + Pow2(k - 1), k - 1);
        RemoveHas(t.right, a, s, lo + Pow2(k - 1), k - 1, a, t.size);
      }
    }
  }

  // ---- searching for the best fit

  function LeftmostChild(t: Trie): Trie
    requires t.Node?
  {
    if t.left.Node? then t.left else t.right
  }

  /** The smallest size met on the leftmost path. */
  ghost function Least(t: Trie): nat
    requires t.Node?
  {
    var c := LeftmostChild(t);
    if c.Node? && Least(c) < t.size then Least(c) else t.size
  }

  /** The smallest chunk of a trie lies on its leftmost path. */
  lemma {:induction false} LeastIsLeast(t: Trie, lo: nat, k: nat, s: nat)
    requires Valid(t, lo, k) && HasSize(t, s)
    ensures HasSize(t, Least(t)) && Least(t) <= s
    decreases t
  {
    var c := LeftmostChild(t);
    if c.Node? {
      var clo := if t.left.Node? then lo else lo + Pow2(k - 1);
      LeastIsLeast(c, clo, k - 1, if HasSize(c, s) then s else c.size);
      SizeInRange(c, clo, k - 1, Least(c));
      if HasSize(t.right, s) { SizeInRange(t.right, lo + Pow2(k - 1), k - 1, s); }
    }
  }

  /** A subtree with the range of sizes it covers. */
  datatype Sub = Sub(trie: Trie, lo: nat, k: nat) {
    ghost predicate Ok() { Valid(trie, lo, k) }
    ghost function End(): nat { lo + Pow2(k) }
  }

  /**
   The search of tmalloc_large part-way down `root`: `best` is the smallest fitting size met so far, `here` the
   subtree about to be visited, `rst` the deepest right subtree passed by. Every better size still lies in `here`,
   in `rst`, or beyond the sizes of `rst`.
   */
  ghost predicate Covers(root: Trie, nb: nat, best: nat, here: Sub, rst: Sub) {
    && here.Ok() && rst.Ok()
    && here.lo <= nb < here.End()
    && (rst.trie.Node? ==> here.End() <= rst.lo)
    && (forall s: nat :: HasSize(here.trie, s) || HasSize(rst.trie, s) ==> HasSize(root, s))
    && forall s: nat :: HasSize(root, s) && nb <= s < best ==> Wanted(here, rst, s)
  }

  function Child(here: Sub, nb: nat): Sub
    requires here.trie.Node? && here.k > 0
  {
    var half := Pow2(here.k - 1);
    if nb < here.lo + half then Sub(here.trie.left, here.lo, here.k - 1)
    else Sub(here.trie.right, here.lo + half, here.k - 1)
  }

  function PassedRight(here: Sub, nb: nat, rst: Sub): Sub
    requires here.trie.Node? && here.k > 0
  {
    var half := Pow2(here.k - 1);
    if nb < here.lo + half && here.trie.right.Node? then Sub(here.trie.right, here.lo + half, here.k - 1)
    else rst
  }

  /** A size the search may still want. */
  ghost predicate Wanted(here: Sub, rst: Sub, s: nat) {
    HasSize(here.trie, s) || (rst.trie.Node? && (HasSize(rst.trie, s) || rst.End() <= s))
  }

  lemma WantedStep(nb: nat, here: Sub, rst: Sub, s: nat)
    requires here.Ok() && rst.Ok() && here.trie.Node? && here.k > 0
    requires rst.trie.Node? ==> here.End() <= rst.lo
    requires nb <= s && s != here.trie.size && Wanted(here, rst, s)
    ensures Wanted(Child(here, nb), PassedRight(here, nb, rst), s)
  {
    var t, lo, half := here.trie, here.lo, Pow2(here.k - 1);
    if HasSize(t.left, s) { SizeInRange(t.left, lo, here.k - 1, s); }
    if HasSize(t.right, s) { SizeInRange(t.right, lo + half, here.k - 1, s); }
    if HasSize(rst.trie, s) { SizeInRange(rst.trie, rst.lo, rst.k, s); }
  }

  /** One step down keeps the search covering. */
  lemma CoversStep(root: Trie, nb: nat, best: nat, here: Sub, rst: Sub)
    requires Covers(root, nb, best, here, rst) && here.trie.Node? && here.k > 0
    requires nb <= here.trie.size ==> best <= here.trie.size
    ensures Covers(root, nb, best, Child(here, nb), PassedRight(here, nb, rst))
  {
    forall s: nat | HasSize(root, s) && nb <= s < best
      ensures Wanted(Child(here, nb), PassedRight(here, nb, rst), s)
    {
      WantedStep(nb, here, rst, s);
    }
  }

  /** When the path ends, the answer is the best size met or the least size of the deepest passed subtree. */
  lemma CoversDone(root: Trie, nb: nat, best: nat, here: Sub, rst: Sub)
    requires Covers(root, nb, best, here, rst) && here.trie.Nil?
    ensures rst.trie.Nil? ==> forall s: nat :: HasSize(root, s) && nb <= s ==> best <= s
    ensures rst.trie.Node? ==> nb < Least(rst.trie) && HasSize(root, Least(rst.trie))
    ensures rst.trie.Node? ==> forall s: nat :: HasSize(root, s) && nb <= s ==> best <= s || Least(rst.trie) <= s
  {
    if rst.trie.Node? {
      LeastIsLeast(rst.trie, rst.lo, rst.k, rst.trie.size);
      SizeInRange(rst.trie, rst.lo, rst.k, Least(rst.trie));
      forall s: nat | HasSize(root, s) && nb <= s < best ensures Least(rst.trie) <= s {
        if HasSize(rst.trie, s) { LeastIsLeast(rst.trie, rst.lo, rst.k, s); }
      }
    }
  }
}

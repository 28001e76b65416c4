/**
 What the two hash tables are given: where a key belongs in a table of some size, and which sizes there are. The rest is
 about how far a table must grow until every key has a slot of its own to start from.
 */
module HashPolicies {

  /** The slot a key asks for, in a table of n slots. */
  function HomeIn<K>(index: (K, nat) -> nat, n: nat): K -> nat {
    k => index(k, n)
  }

  lemma HomeIs<K>(index: (K, nat) -> nat, n: nat, k: K)
    ensures HomeIn(index, n)(k) == index(k, n)
  {
  }

  /** What the size policy promises: a size at least as large as asked for. */
  ghost predicate GoodSizes(nextSize: nat -> nat) {
    forall n :: nextSize(n) >= n
  }

  lemma SizeEnough(nextSize: nat -> nat, n: nat)
    requires GoodSizes(nextSize)
    ensures nextSize(n) >= n
  {
  }

  /** What the hash policy promises: slots within the table. */
  ghost predicate GoodIndex<K(!new)>(index: (K, nat) -> nat) {
    forall k, n :: n > 0 ==> index(k, n) < n
  }

  function AtLeast(n: nat, m: nat): (r: nat)
    ensures r >= n && r >= m && (r == n || r == m)
  {
    if n < m then m else n
  }

  // ---- growing

  /** The bucket count of a table of n slots: one slot counts as none. */
  ghost function Counted(n: nat): nat {
    if n == 1 then 0 else n
  }

  /** The bucket count after growing j times, each time to at least `least` and twice as many. */
  ghost function GrownBy(nextSize: nat -> nat, least: nat, b: nat, j: nat): nat
    decreases j
  {
    if j == 0 then b else GrownBy(nextSize, least, nextSize(AtLeast(least, 2 * b)), j - 1)
  }

  ghost predicate Grew(nextSize: nat -> nat, least: nat, b: nat, b': nat) {
    exists j: nat :: b' == GrownBy(nextSize, least, b, j)
  }

  lemma GrewNot(nextSize: nat -> nat, least: nat, b: nat)
    ensures Grew(nextSize, least, b, b)
  {
    assert b == GrownBy(nextSize, least, b, 0);
  }

  lemma GrewOnce(nextSize: nat -> nat, least: nat, b: nat, b': nat)
    requires Grew(nextSize, least, nextSize(AtLeast(least, 2 * b)), b')
    ensures Grew(nextSize, least, b, b')
  {
    var j: nat :| b' == GrownBy(nextSize, least, nextSize(AtLeast(least, 2 * b)), j);
    assert b' == GrownBy(nextSize, least, b, j + 1);
  }

  lemma {:induction false} GrownTwice(nextSize: nat -> nat, least: nat, b: nat, i: nat, j: nat)
    ensures GrownBy(nextSize, least, GrownBy(nextSize, least, b, i), j) == GrownBy(nextSize, least, b, i + j)
    decreases i
  {
    if i > 0 {
      GrownTwice(nextSize, least, nextSize(AtLeast(least, 2 * b)), i - 1, j);
    }
  }

  lemma GrewThen(nextSize: nat -> nat, least: nat, b: nat, b': nat, b'': nat)
    requires Grew(nextSize, least, b, b') && Grew(nextSize, least, b', b'')
    ensures Grew(nextSize, least, b, b'')
  {
    var i: nat :| b' == GrownBy(nextSize, least, b, i);
    var j: nat :| b'' == GrownBy(nextSize, least, b', j);
    GrownTwice(nextSize, least, b, i, j);
  }

  // ---- growing far enough

  /** In a table of n slots no two of the keys ask for the same slot. */
  ghost predicate Apart<K(!new)>(index: (K, nat) -> nat, keys: set<K>, n: nat) {
    forall j, k :: j in keys && k in keys && j != k ==> index(j, n) != index(k, n)
  }

  /** From s slots on the keys are apart and fill at most half of the table. */
  ghost predicate Ample<K(!new)>(index: (K, nat) -> nat, keys: set<K>, s: nat) {
    s > 1 && 2 * |keys| <= s && forall n :: n >= s ==> Apart(index, keys, n)
  }

  /** Growing up to `reach` slots is far enough for the keys. */
  ghost predicate Enough<K(!new)>(index: (K, nat) -> nat, keys: set<K>, reach: nat) {
    exists s: nat :: s <= reach && Ample(index, keys, s)
  }

  lemma FewerElements<K(!new)>(few: set<K>, all: set<K>)
    requires few <= all
    ensures |few| <= |all|
  {
    assert all == few + (all - few);
  }

  lemma EnoughFewer<K(!new)>(index: (K, nat) -> nat, few: set<K>, all: set<K>, reach: nat, more: nat)
    requires Enough(index, all, reach) && few <= all && reach <= more
    ensures Enough(index, few, more)
  {
    var s: nat :| s <= reach && Ample(index, all, s);
    FewerElements(few, all);
    forall n | n >= s ensures Apart(index, few, n) {
      assert Apart(index, all, n);
    }
    assert Ample(index, few, s);
  }

  /** If growing is far enough, then it has gone far enough, or there is further to grow. */
  lemma AmpleOrMore<K(!new)>(index: (K, nat) -> nat, keys: set<K>, fuel: nat, n: nat)
    requires Enough(index, keys, fuel + n)
    ensures fuel > 0 || (n > 1 && 2 * |keys| <= n && Apart(index, keys, n))
  {
    var s: nat :| s <= fuel + n && Ample(index, keys, s);
  }

  // ---- the modulo policies

  function Modulo<K>(hash: K -> nat): (K, nat) -> nat {
    (k, n) => if n == 0 then 0 else hash(k) % n
  }

  ghost function HashBound<K(!new)>(hash: K -> nat, keys: set<K>): (b: nat)
    ensures forall k :: k in keys ==> hash(k) < b
  {
    if keys == {} then 0
    else
      var k :| k in keys;
      var b := HashBound(hash, keys - {k});
      if hash(k) < b then b else hash(k) + 1
  }

  ghost predicate DistinctHashes<K(!new)>(hash: K -> nat, keys: set<K>) {
    forall j, k :: j in keys && k in keys && j != k ==> hash(j) != hash(k)
  }

  lemma SmallRemainder(m: nat, n: nat)
    requires m < n
    ensures m % n == m
  {
  }

  lemma DistinctApart<K(!new)>(hash: K -> nat, keys: set<K>, n: nat)
    requires DistinctHashes(hash, keys) && n > HashBound(hash, keys)
    ensures Apart(Modulo(hash), keys, n)
  {
    hide Modulo;
    forall j, k | j in keys && k in keys && j != k ensures Modulo(hash)(j, n) != Modulo(hash)(k, n) {
      ModuloIs(hash, j, n);
      ModuloIs(hash, k, n);
    }
  }

  lemma ModuloIs<K>(hash: K -> nat, k: K, n: nat)
    requires n > 0
    ensures Modulo(hash)(k, n) == hash(k) % n
    ensures hash(k) < n ==> Modulo(hash)(k, n) == hash(k)
  {
    if hash(k) < n {
      SmallRemainder(hash(k), n);
    }
  }

  /** For slots taken modulo the table size, growing can go far enough just when no two keys have the same hash. */
  lemma ModuloEnough<K(!new)>(hash: K -> nat, keys: set<K>)
    ensures DistinctHashes(hash, keys) <==> exists reach :: Enough(Modulo(hash), keys, reach)
  {
    hide Modulo;
    if DistinctHashes(hash, keys) {
      var s := 2 + 2 * |keys| + HashBound(hash, keys);
      forall n | n >= s ensures Apart(Modulo(hash), keys, n) {
        DistinctApart(hash, keys, n);
      }
      assert Ample(Modulo(hash), keys, s);
      assert Enough(Modulo(hash), keys, s);
    }
    if reach :| Enough(Modulo(hash), keys, reach) {
      var s: nat :| s <= reach && Ample(Modulo(hash), keys, s);
      assert Apart(Modulo(hash), keys, s);
      forall j, k | j in keys && k in keys && j != k ensures hash(j) != hash(k) {
        ModuloIs(hash, j, s);
        ModuloIs(hash, k, s);
      }
    }
  }
}

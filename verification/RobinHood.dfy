/**
 The Robin Hood hash table. Every entry knows its distance from the slot its hash asks for; along the array the
 distance grows by at most one from an entry to the next, so a search can stop as soon as it is further from home
 than the entry it looks at.
 */
module RobinHood {
  import opened HashPolicies
  import opened Words

  datatype Slot<K, V> = Empty | Full(dist: int, key: K, val: V) | Sentinel {
    /** distance_from_desired */
    function Dist(): int {
      match this
      case Empty => -1
      case Full(d, _, _) => d
      case Sentinel => 0
    }
  }

  const MIN_LOOKUPS := 4

  function Log2(n: nat): nat {
    if n < 2 then 0 else 1 + Log2(n / 2)
  }

  lemma {:induction false} Log2Is(n: nat)
    requires n > 0
    ensures Pow2(Log2(n)) <= n < Pow2(Log2(n) + 1)
  {
    if n >= 2 {
      Log2Is(n / 2);
      assert Pow2(Log2(n)) == 2 * Pow2(Log2(n / 2)) && Pow2(Log2(n) + 1) == 2 * Pow2(Log2(n / 2) + 1);
    }
  }

  /** compute_max_lookups */
  function MaxLookups(buckets: nat): nat {
    if Log2(buckets) < MIN_LOOKUPS then MIN_LOOKUPS else Log2(buckets)
  }

  /** The longest way from home in a table of n slots: the binary logarithm of n, but four at the least. */
  ghost predicate LookupLimit(n: nat, limit: nat) {
    limit >= 4 && n < Pow2(limit + 1) && (limit == 4 || Pow2(limit) <= n)
  }

  lemma LookupsAre(n: nat)
    requires n > 0
    ensures LookupLimit(n, MaxLookups(n))
  {
    Log2Is(n);
    if Log2(n) < MIN_LOOKUPS {
      Pow2Less(Log2(n) + 1, 5);
    }
  }

  /** At most half of the buckets are filled, and the longest way from home is as long as their number allows. */
  ghost predicate Loaded(n: nat, buckets: nat, limit: nat) {
    2 * n <= buckets && (buckets > 0 ==> LookupLimit(buckets, limit))
  }

  // ---- contents

  /** The slots hold exactly the pairs of `model`, each once; `place` says where. */
  ghost predicate Holds<K(!new), V(!new)>(slots: seq<Slot<K, V>>, place: map<K, int>, model: map<K, V>) {
    && place.Keys == model.Keys
    && (forall k :: k in model ==> 0 <= place[k] < |slots| && slots[place[k]].Full?)
    && (forall k :: k in model ==> slots[place[k]].key == k && slots[place[k]].val == model[k])
    && (forall i :: 0 <= i < |slots| && slots[i].Full? ==> slots[i].key in place && place[slots[i].key] == i)
  }

  lemma HoldsPut<K(!new), V(!new)>(slots: seq<Slot<K, V>>, place: map<K, int>, model: map<K, V>, i: nat, d: int, k: K,
                                   v: V)
    requires Holds(slots, place, model) && i < |slots| && !slots[i].Full? && k !in model
    ensures Holds(slots[i := Full(d, k, v)], place[k := i], model[k := v])
  {
  }

  lemma HoldsDrop<K(!new), V(!new)>(slots: seq<Slot<K, V>>, place: map<K, int>, model: map<K, V>, i: nat, e: Slot<K, V>)
    requires Holds(slots, place, model) && i < |slots| && slots[i].Full? && !e.Full?
    ensures slots[i].key in model && model[slots[i].key] == slots[i].val
    ensures Holds(slots[i := e], place - {slots[i].key}, model - {slots[i].key})
  {
  }

  lemma HoldsSwap<K(!new), V(!new)>(slots: seq<Slot<K, V>>, place: map<K, int>, model: map<K, V>, i: nat, d: int, k: K,
                                    v: V)
    requires Holds(slots, place, model) && i < |slots| && slots[i].Full? && k !in model
    ensures slots[i].key in model && model[slots[i].key] == slots[i].val
    ensures Holds(slots[i := Full(d, k, v)], (place - {slots[i].key})[k := i], (model - {slots[i].key})[k := v])
  {
  }

  // ---- placement

  ghost predicate HomeOk<K(!new), V(!new)>(slots: seq<Slot<K, V>>, home: K -> nat, i: nat, limit: int)
    requires i < |slots|
  {
    slots[i].Full? ==> 0 <= slots[i].dist < limit && home(slots[i].key) + slots[i].dist == i
  }

  /** Every entry is as far from home as it says, below the limit. */
  ghost predicate Homed<K(!new), V(!new)>(slots: seq<Slot<K, V>>, home: K -> nat, limit: int) {
    forall i :: 0 <= i < |slots| ==> HomeOk(slots, home, i, limit)
  }

  ghost predicate Step<K(!new), V(!new)>(slots: seq<Slot<K, V>>, i: nat)
    requires i + 1 < |slots|
  {
    slots[i + 1].Dist() <= slots[i].Dist() + 1
  }

  /** The probe invariant. */
  ghost predicate Gentle<K(!new), V(!new)>(slots: seq<Slot<K, V>>) {
    forall i :: 0 <= i && i + 1 < |slots| ==> Step(slots, i)
  }

  /** Only the last slot is the sentinel. */
  ghost predicate Ended<K(!new), V(!new)>(slots: seq<Slot<K, V>>) {
    |slots| > 0 && (forall i :: 0 <= i < |slots| ==> (slots[i].Sentinel? <==> i == |slots| - 1))
  }

  ghost predicate Placed<K(!new), V(!new)>(slots: seq<Slot<K, V>>, home: K -> nat, limit: nat) {
    Ended(slots) && Homed(slots, home, limit) && Gentle(slots)
  }

  /** Going back from an entry, distances fall by at most one a slot. */
  lemma {:induction false} Climb<K(!new), V(!new)>(slots: seq<Slot<K, V>>, j: nat, i: nat)
    requires Gentle(slots) && j <= i < |slots|
    ensures slots[i].Dist() - (i - j) <= slots[j].Dist()
    decreases i - j
  {
    if j < i {
      Climb(slots, j + 1, i);
      assert Step(slots, j);
    }
  }

  /** A search that meets an entry closer to its home than the search is will find nothing further on. */
  lemma NotBeyond<K(!new), V(!new)>(slots: seq<Slot<K, V>>, home: K -> nat, limit: nat, k: K, j: nat, i: nat)
    requires Placed(slots, home, limit) && home(k) <= j < |slots| && slots[j].Dist() < j - home(k)
    requires j <= i < |slots| && slots[i].Full?
    ensures slots[i].key != k
  {
    assert HomeOk(slots, home, i, limit);
    Climb(slots, j, i);
  }

  /** A search that is still at or before every entry's distance has not reached the sentinel. */
  lemma BeforeSentinel<K(!new), V(!new)>(slots: seq<Slot<K, V>>, home: K -> nat, limit: nat, k: K, d: nat)
    requires Placed(slots, home, limit) && home(k) + limit < |slots| && home(k) + d < |slots|
      && d <= slots[home(k) + d].Dist()
    requires limit > 0
    ensures home(k) + d + 1 < |slots| && d < limit && slots[home(k) + d].Full?
  {
    var i := home(k) + d;
    assert HomeOk(slots, home, i, limit);
  }

  lemma HomesBelow<K(!new)>(index: (K, nat) -> nat, n: nat)
    requires n > 0 && GoodIndex(index)
    ensures forall k :: HomeIn(index, n)(k) < n
  {
  }

  // ---- one displacement step of an insertion

  /** The new entry, or the one it displaced, is on its way with distance d and has reached slot c. */
  ghost predicate Carrying<K(!new), V(!new)>(slots: seq<Slot<K, V>>, home: K -> nat, limit: nat, c: nat, d: int, k: K) {
    && Placed(slots, home, limit) && 0 <= d && 0 < c && c + 1 < |slots| && home(k) + d == c && d < limit
    && d <= slots[c - 1].Dist() + 1
  }

  /** Putting the carried entry down where the slot is closer to its home keeps the placement. */
  lemma PutDown<K(!new), V(!new)>(slots: seq<Slot<K, V>>, home: K -> nat, limit: nat, c: nat, d: nat, k: K, v: V)
    requires Placed(slots, home, limit) && c + 1 < |slots| && home(k) + d == c && d < limit
    requires (c > 0 ==> d <= slots[c - 1].Dist() + 1) && slots[c].Dist() < d
    ensures Placed(slots[c := Full(d, k, v)], home, limit)
  {
    var s' := slots[c := Full(d, k, v)];
    forall i | 0 <= i < |s'| ensures HomeOk(s', home, i, limit) { assert HomeOk(slots, home, i, limit); }
    forall i | 0 <= i && i + 1 < |s'| ensures Step(s', i) { assert Step(slots, i); }
  }

  /** An insertion of (key, val) at slot c0 under way: `carry` is the entry that has lost its slot. */
  ghost predicate Moving<K(!new), V(!new)>(slots: seq<Slot<K, V>>, place: map<K, int>, home: K -> nat, limit: nat,
                                           full: map<K, V>, c0: nat, c: nat, d: int, carry: Slot<K, V>)
  {
    && carry.Full? && carry.key in full && full[carry.key] == carry.val && c0 < c
    && Carrying(slots, home, limit, c, d, carry.key) && Holds(slots, place, full - {carry.key})
    && slots[c0].Full? && slots[c0].key in full && full[slots[c0].key] == slots[c0].val
  }

  lemma MoveStart<K(!new), V(!new)>(slots: seq<Slot<K, V>>, place: map<K, int>, model: map<K, V>, home: K -> nat,
                                    limit: nat, c: nat, d: nat, key: K, val: V)
    requires Holds(slots, place, model) && Placed(slots, home, limit) && key !in model
    requires c + 1 < |slots| && d < limit && home(key) + d == c && slots[c].Full? && slots[c].dist < d
    requires c > 0 ==> d <= slots[c - 1].Dist() + 1
    requires home(slots[c].key) + limit < |slots|
    ensures Moving(slots[c := Full(d, key, val)], (place - {slots[c].key})[key := c], home, limit, model[key := val],
                   c, c + 1, slots[c].dist + 1, slots[c])
  {
    hide Holds;
    assert HomeOk(slots, home, c, limit);
    HoldsSwap(slots, place, model, c, d, key, val);
    PutDown(slots, home, limit, c, d, key, val);
    assert (model - {slots[c].key})[key := val] == model[key := val] - {slots[c].key};
  }

  lemma MoveSwap<K(!new), V(!new)>(slots: seq<Slot<K, V>>, place: map<K, int>, home: K -> nat, limit: nat,
                                   full: map<K, V>, c0: nat, c: nat, d: int, carry: Slot<K, V>)
    requires Moving(slots, place, home, limit, full, c0, c, d, carry) && slots[c].Full? && slots[c].dist < d
    requires home(slots[c].key) + limit < |slots|
    ensures Moving(slots[c := Full(d, carry.key, carry.val)], (place - {slots[c].key})[carry.key := c], home, limit,
                   full,
                   c0, c + 1, slots[c].dist + 1, slots[c])
  {
    hide Holds;
    assert HomeOk(slots, home, c, limit);
    PutDown(slots, home, limit, c, d, carry.key, carry.val);
    HoldsSwap(slots, place, full - {carry.key}, c, d, carry.key, carry.val);
    assert (full - {carry.key} - {slots[c].key})[carry.key := carry.val] == full - {slots[c].key};
  }

  lemma MoveSkip<K(!new), V(!new)>(slots: seq<Slot<K, V>>, place: map<K, int>, home: K -> nat, limit: nat,
                                   full: map<K, V>, c0: nat, c: nat, d: int, carry: Slot<K, V>)
    requires Moving(slots, place, home, limit, full, c0, c, d, carry) && d <= slots[c].Dist() && d + 1 < limit
    requires home(carry.key) + limit < |slots|
    ensures Moving(slots, place, home, limit, full, c0, c + 1, d + 1, carry)
  {
    hide Holds, Placed;
  }

  lemma MoveDone<K(!new), V(!new)>(slots: seq<Slot<K, V>>, place: map<K, int>, home: K -> nat, limit: nat,
                                   full: map<K, V>, c0: nat, c: nat, d: int, carry: Slot<K, V>)
    requires Moving(slots, place, home, limit, full, c0, c, d, carry) && slots[c].Empty?
    ensures Holds(slots[c := Full(d, carry.key, carry.val)], place[carry.key := c], full)
    ensures Placed(slots[c := Full(d, carry.key, carry.val)], home, limit)
  {
    hide Holds;
    PutDown(slots, home, limit, c, d, carry.key, carry.val);
    HoldsPut(slots, place, full - {carry.key}, c, d, carry.key, carry.val);
    assert (full - {carry.key})[carry.key := carry.val] == full;
  }

  /** Giving the new entry's slot to the entry on its way restores the old contents. */
  lemma MoveBack<K(!new), V(!new)>(slots: seq<Slot<K, V>>, place: map<K, int>, home: K -> nat, limit: nat,
                                   full: map<K, V>, c0: nat, c: nat, d: int, carry: Slot<K, V>)
    requires Moving(slots, place, home, limit, full, c0, c, d, carry)
    ensures Holds(slots[c0 := Full(slots[c0].dist, carry.key, carry.val)], (place - {slots[c0].key})[carry.key := c0],
                  full - {slots[c0].key})
    ensures Ended(slots[c0 := Full(slots[c0].dist, carry.key, carry.val)])
  {
    assert Ended(slots[c0 := Full(slots[c0].dist, carry.key, carry.val)]);
    assert slots[c0].key in place && place[slots[c0].key] == c0;
    hide Holds, Placed;
    HoldsSwap(slots, place, full - {carry.key}, c0, slots[c0].dist, carry.key, carry.val);
    assert (full - {carry.key} - {slots[c0].key})[carry.key := carry.val] == full - {slots[c0].key};
  }

  // ---- when an insertion fits

  /** Whether entries moved on from slot c, the first one at distance d, meet an empty slot before one of them would
      get too far from home. */
  ghost predicate RunFits<K(!new), V(!new)>(slots: seq<Slot<K, V>>, c: nat, d: int, limit: nat)
    decreases |slots| - c
  {
    c < |slots| && (slots[c].Empty? || (
                      if slots[c].Dist() < d then RunFits(slots, c + 1, slots[c].Dist() + 1, limit)
                      else d + 1 != limit && RunFits(slots, c + 1, d + 1, limit)))
  }

  /** How far from home a search from slot i on, at distance d, stops if it does not find its key. */
  ghost function StopAt<K(!new), V(!new)>(slots: seq<Slot<K, V>>, i: nat, d: nat): nat
    decreases |slots| - i
  {
    if i >= |slots| || slots[i].Dist() < d then d else StopAt(slots, i + 1, d + 1)
  }

  lemma OneAdded<K(!new), V(!new)>(model: map<K, V>, k: K, v: V)
    requires k !in model
    ensures model[k := v] - {k} == model && |model[k := v]| == |model| + 1
  {
    assert model[k := v] - {k} == model;
    assert model[k := v].Keys == model.Keys + {k};
    assert |model[k := v]| == |model[k := v].Keys|;
  }

  /** If no two keys ask for the same slot, every entry is at home. */
  lemma {:induction false} AtHome<K(!new), V(!new)>(slots: seq<Slot<K, V>>, place: map<K, int>, model: map<K, V>,
                                                    index: (K, nat) -> nat, n: nat, limit: nat, i: nat)
    requires Holds(slots, place, model) && Placed(slots, HomeIn(index, n), limit) && Apart(index, model.Keys, n)
    requires i < |slots| && slots[i].Full?
    ensures slots[i].dist == 0
  {
    var home := HomeIn(index, n);
    assert HomeOk(slots, home, i, limit);
    if slots[i].dist > 0 {
      assert Step(slots, i - 1) && HomeOk(slots, home, i - 1, limit);
      AtHome(slots, place, model, index, n, limit, i - 1);
    }
  }

  /** Then the slot a new key asks for is empty. */
  lemma HomeEmpty<K(!new), V(!new)>(slots: seq<Slot<K, V>>, place: map<K, int>, model: map<K, V>,
                                    index: (K, nat) -> nat, n: nat, limit: nat, k: K, c: nat, d: nat)
    requires Holds(slots, place, model) && Placed(slots, HomeIn(index, n), limit)
    requires k !in model && Apart(index, model.Keys + {k}, n)
    requires index(k, n) + d == c && index(k, n) + 1 < |slots| && c < |slots|
      && (c > 0 ==> d <= slots[c - 1].Dist() + 1)
    ensures d == 0 && slots[c].Empty?
  {
    var home, h := HomeIn(index, n), index(k, n);
    if slots[h].Full? {
      assert HomeOk(slots, home, h, limit);
      AtHome(slots, place, model, index, n, limit, h);
    }
    if d > 0 {
      assert slots[c - 1].Full?;
      AtHome(slots, place, model, index, n, limit, c - 1);
    }
  }

  class Table<K(==,!new), V(!new)> {
    var entries: array<Slot<K, V>>
    var numSlotsMinusOne: nat
    var maxLookups: nat
    var numElements: nat
    const index: (K, nat) -> nat
    const nextSize: nat -> nat
    ghost var place: map<K, int>
    ghost var model: map<K, V>

    /** The occupied slots hold the model; where they are does not matter. */
    ghost predicate Loose()
      reads this, entries
    {
      && numElements == |model| && entries.Length == numSlotsMinusOne + maxLookups + 1 && maxLookups > 0
      && Holds(entries[..], place, model) && Ended(entries[..]) && GoodSizes(nextSize) && GoodIndex(index)
      && Loaded(numElements, BucketCount(), maxLookups)
    }

    ghost predicate Valid()
      reads this, entries
    {
      Loose() && Placed(entries[..], HomeIn(index, numSlotsMinusOne + 1), maxLookups)
    }

    /** The empty table: four entries, the last of them the sentinel. */
    constructor (index: (K, nat) -> nat, nextSize: nat -> nat)
      requires GoodSizes(nextSize) && GoodIndex(index)
      ensures Valid() && model == map[] && fresh(entries) && BucketCount() == 0
    {
      this.index, this.nextSize := index, nextSize;
      numSlotsMinusOne, maxLookups, numElements := 0, MIN_LOOKUPS - 1, 0;
      entries := new Slot<K, V>[4](i => if i == 3 then Sentinel else Empty);
      place, model := map[], map[];
    }

    /** The probe loop of find and emplace: the entry with the key, or the slot where it belongs. */
    method Probe(key: K) returns (found: bool, i: nat, d: nat)
      requires Valid()
      ensures found <==> key in model
      ensures i < entries.Length && d <= maxLookups && i == HomeIn(index, numSlotsMinusOne + 1)(key) + d
      ensures found ==>
        i + 1 < entries.Length && entries[i].Full? && entries[i].key == key && entries[i].val == model[key]
      ensures !found ==> entries[i].Dist() < d && (i > 0 ==> d <= entries[i - 1].Dist() + 1)
      ensures !found ==> d == StopAt(entries[..], index(key, numSlotsMinusOne + 1), 0)
    {
      hide HomeIn, Holds, Placed, Ended, GoodIndex, GoodSizes;
      ghost var slots, home := entries[..], HomeIn(index, numSlotsMinusOne + 1);
      HomeIs(index, numSlotsMinusOne + 1, key);
      HomesBelow(index, numSlotsMinusOne + 1);
      NeverBelow(slots, home, maxLookups);
      i, d := index(key, numSlotsMinusOne + 1), 0;
      while entries[i].Dist() >= d
        invariant i == home(key) + d && i < |slots| && d <= maxLookups
        invariant i > 0 ==> d <= slots[i - 1].Dist() + 1
        invariant forall j :: home(key) <= j < i ==> slots[j].Full? ==> slots[j].key != key
        invariant StopAt(slots, home(key), 0) == StopAt(slots, i, d)
        decreases |slots| - i
      {
        BeforeSentinel(slots, home, maxLookups, key, d);
        if entries[i].key == key {
          HeldHere(slots, place, model, i);
          return true, i, d;
        }
        d := d + 1;
        i := i + 1;
      }
      found := false;
      if key in model {
        FoundBefore(slots, home, maxLookups, place, model, key, i);
      }
    }

    /** find */
    method Find(key: K) returns (found: bool, i: nat)
      requires Valid()
      ensures found <==> key in model
      ensures found ==>
        i + 1 < entries.Length && entries[i].Full? && entries[i].key == key && entries[i].val == model[key]
      ensures !found ==> i + 1 == entries.Length
    {
      hide Holds, Placed, Ended, HomeIn;
      var d;
      found, i, d := Probe(key);
      if !found {
        i := numSlotsMinusOne + maxLookups;
      }
    }

    /** The displacement loop of emplace_new_key: entries move on until one meets an empty slot, or one would get
        too far from home. */
    method MoveAlong(c0: nat, first: Slot<K, V>, ghost full: map<K, V>, ghost at0: map<K, int>,
                     ghost was: seq<Slot<K, V>>)
      returns (c: nat, d: int, carry: Slot<K, V>, ghost at: map<K, int>)
      requires entries.Length == numSlotsMinusOne + maxLookups + 1 == |was| && first.Full? && GoodIndex(index)
      requires forall i :: c0 < i < |was| ==> was[i] == entries[i]
      requires Moving(entries[..], at0, HomeIn(index, numSlotsMinusOne + 1), maxLookups, full, c0, c0 + 1,
                      first.dist + 1, first)
      modifies entries
      ensures Moving(entries[..], at, HomeIn(index, numSlotsMinusOne + 1), maxLookups, full, c0, c, d, carry)
      ensures c0 < c < entries.Length && carry.Full? && entries[c0] == old(entries[c0])
      ensures entries[c].Empty? || (d + 1 == maxLookups && d <= entries[c].Dist())
      ensures entries[c].Empty? <==> RunFits(was, c0 + 1, first.dist + 1, maxLookups)
    {
      hide Moving, Holds, Placed, Ended, Carrying, HomeIn, GoodIndex;
      HomesBelow(index, numSlotsMinusOne + 1);
      ghost var home, slots := HomeIn(index, numSlotsMinusOne + 1), entries[..];
      c, d, carry, at := c0 + 1, first.dist + 1, first, at0;
      MoveFacts(slots, at, home, maxLookups, full, c0, c, d, carry);
      while !entries[c].Empty?
        invariant c0 < c && c + 1 < |slots| && entries[..] == slots && carry.Full? && entries[c0] == old(entries[c0])
        invariant Moving(slots, at, home, maxLookups, full, c0, c, d, carry)
        invariant forall i :: c <= i < |slots| ==> slots[i] == was[i]
        invariant RunFits(was, c0 + 1, first.dist + 1, maxLookups) == RunFits(was, c, d, maxLookups)
        decreases entries.Length - c
      {
        MoveFacts(slots, at, home, maxLookups, full, c0, c, d, carry);
        if entries[c].Dist() < d {
          MoveSwap(slots, at, home, maxLookups, full, c0, c, d, carry);
          var next := entries[c];
          entries[c] := Full(d, carry.key, carry.val);
          slots, at := slots[c := Full(d, carry.key, carry.val)], (at - {next.key})[carry.key := c];
          carry, d := next, next.dist + 1;
        } else {
          if d + 1 == maxLookups {
            return;
          }
          MoveSkip(slots, at, home, maxLookups, full, c0, c, d, carry);
          d := d + 1;
        }
        c := c + 1;
        MoveFacts(slots, at, home, maxLookups, full, c0, c, d, carry);
      }
    }

    /** The entry on its way takes an empty slot. */
    method Settle(ghost c0: nat, c: nat, d: int, carry: Slot<K, V>, ghost full: map<K, V>, ghost at: map<K, int>)
      requires c0 < c < entries.Length && carry.Full? && GoodSizes(nextSize) && GoodIndex(index) && entries[c].Empty?
        && |full| == numElements + 1
      requires entries.Length == numSlotsMinusOne + maxLookups + 1 && maxLookups > 0
      requires Moving(entries[..], at, HomeIn(index, numSlotsMinusOne + 1), maxLookups, full, c0, c, d, carry)
      requires Loaded(numElements + 1, BucketCount(), maxLookups)
      modifies this`place, this`model, this`numElements, entries
      ensures Valid() && model == full && entries[c0] == old(entries[c0])
    {
      hide Moving, Holds, Placed, Ended, HomeIn;
      ghost var home, slots := HomeIn(index, numSlotsMinusOne + 1), entries[..];
      MoveDone(slots, at, home, maxLookups, full, c0, c, d, carry);
      place, model, numElements := at[carry.key := c], full, numElements + 1;
      entries[c] := Full(d, carry.key, carry.val);
      slots := slots[c := Full(d, carry.key, carry.val)];
      PlacedEnds(slots, home, maxLookups);
      assert entries[..] == slots;
    }

    /** The entry on its way takes the slot of the new one. */
    method PutBack(c0: nat, ghost c: nat, ghost d: int, carry: Slot<K, V>, ghost full: map<K, V>, ghost at: map<K, int>)
      requires c0 < c < entries.Length && carry.Full? && GoodSizes(nextSize) && GoodIndex(index) && entries[c0].Full?
      requires entries.Length == numSlotsMinusOne + maxLookups + 1 && maxLookups > 0
      requires model == full - {entries[c0].key} && numElements == |model|
      requires Moving(entries[..], at, HomeIn(index, numSlotsMinusOne + 1), maxLookups, full, c0, c, d, carry)
      requires Loaded(numElements, BucketCount(), maxLookups)
      modifies this`place, entries
      ensures Loose()
    {
      hide Moving, Holds, Ended, HomeIn;
      ghost var slots := entries[..];
      MoveBack(slots, at, HomeIn(index, numSlotsMinusOne + 1), maxLookups, full, c0, c, d, carry);
      place := (at - {entries[c0].key})[carry.key := c0];
      entries[c0] := Full(entries[c0].dist, carry.key, carry.val);
      slots := slots[c0 := Full(slots[c0].dist, carry.key, carry.val)];
      assert entries[..] == slots;
    }

    /** The last part of emplace_new_key: the new entry takes slot c0, what was there moves on, and so on up to an
        empty slot. If some entry would get too far from home, the last one on its way takes the new entry's slot, and
        the slots hold the old contents again. */
    method Displace(c0: nat, d0: nat, key: K, val: V) returns (placed: bool)
      requires Valid() && key !in model && numSlotsMinusOne > 0
      requires c0 + 1 < entries.Length && d0 < maxLookups && HomeIn(index, numSlotsMinusOne + 1)(key) + d0 == c0
      requires entries[c0].Full? && entries[c0].dist < d0 && (c0 > 0 ==> d0 <= entries[c0 - 1].Dist() + 1)
      requires 2 * (numElements + 1) <= BucketCount()
      modifies this`place, this`model, this`numElements, entries
      ensures placed ==> Valid() && model == old(model)[key := val]
      ensures placed ==> entries[c0].Full? && entries[c0].key == key && entries[c0].val == val
      ensures !placed ==> Loose() && model == old(model)
      ensures placed <==> RunFits(old(entries[..]), c0 + 1, old(entries[c0]).Dist() + 1, maxLookups)
    {
      hide Moving, Holds, Placed, Ended, Carrying, HomeIn, GoodIndex, GoodSizes, RunFits;
      HomesBelow(index, numSlotsMinusOne + 1);
      ghost var home, slots := HomeIn(index, numSlotsMinusOne + 1), entries[..];
      ghost var full, at0 := model[key := val], (place - {entries[c0].key})[key := c0];
      var first := entries[c0];
      MoveStart(slots, place, model, home, maxLookups, c0, d0, key, val);
      entries[c0] := Full(d0, key, val);
      assert entries[..] == slots[c0 := Full(d0, key, val)];
      OneAdded(model, key, val);
      placed := DisplaceOthers(c0, first, full, at0, slots);
    }

    method DisplaceOthers(c0: nat, first: Slot<K, V>, ghost full: map<K, V>, ghost at0: map<K, int>,
                          ghost was: seq<Slot<K, V>>) returns (placed: bool)
      requires entries.Length == numSlotsMinusOne + maxLookups + 1 == |was| && maxLookups > 0 && first.Full?
        && GoodIndex(index) && GoodSizes(nextSize)
      requires forall i :: c0 < i < |was| ==> was[i] == entries[i]
      requires c0 < entries.Length && entries[c0].Full? && model == full - {entries[c0].key} && numElements == |model|
        && |full| == numElements + 1
      requires Moving(entries[..], at0, HomeIn(index, numSlotsMinusOne + 1), maxLookups, full, c0, c0 + 1,
                      first.dist + 1, first)
      requires Loaded(numElements + 1, BucketCount(), maxLookups)
      modifies this`place, this`model, this`numElements, entries
      ensures placed ==> Valid() && model == full && entries[c0] == old(entries[c0])
      ensures !placed ==> Loose() && model == old(model)
      ensures placed <==> RunFits(was, c0 + 1, first.dist + 1, maxLookups)
    {
      hide Table.Valid, Table.Loose, Moving, Holds, Placed, Ended, Carrying, HomeIn, GoodIndex, GoodSizes, RunFits;
      var c, d, carry;
      ghost var at;
      c, d, carry, at := MoveAlong(c0, first, full, at0, was);
      placed := entries[c].Empty?;
      if placed {
        Settle(c0, c, d, carry, full, at);
      } else {
        PutBack(c0, c, d, carry, full, at);
      }
    }

    /** A new entry at slot c, at distance d, fits into the table as it is. */
    ghost predicate FitsAt(c: nat, d: nat)
      reads this, entries
    {
      && numSlotsMinusOne > 0 && d < maxLookups && 2 * (numElements + 1) <= numSlotsMinusOne + 1 && c < entries.Length
      && (entries[c].Empty? || RunFits(entries[..], c + 1, entries[c].Dist() + 1, maxLookups))
    }

    /** A new key fits into the table as it is. */
    ghost predicate HasRoom(key: K)
      reads this, entries
    {
      var h := index(key, numSlotsMinusOne + 1);
      var d := StopAt(entries[..], h, 0);
      FitsAt(h + d, d)
    }

    /** emplace: without growing just when there is room, and always if growing goes far enough. */
    method Emplace(key: K, val: V, fuel: nat) returns (ok: bool, i: nat, inserted: bool)
      requires Valid()
      modifies this, entries
      ensures entries == old(entries) || fresh(entries)
      ensures key in old(model) ==> ok && entries == old(entries)
      ensures key !in old(model) && old(HasRoom(key)) ==> ok && entries == old(entries)
      ensures key !in old(model) && !old(HasRoom(key)) && ok ==> BucketCount() > old(BucketCount())
      ensures Enough(index, old(model).Keys + {key}, fuel + old(BucketCount())) ==> ok
      ensures ok ==> BucketCount() >= old(BucketCount()) && Grew(nextSize, 4, old(BucketCount()), BucketCount())
      ensures ok ==> Valid() && inserted == (key !in old(model))
      ensures ok ==> model == if inserted then old(model)[key := val] else old(model)
      ensures ok ==> i + 1 < entries.Length && entries[i].Full? && entries[i].key == key && entries[i].val == model[key]
      decreases fuel, 2
    {
      hide Table.Valid, Holds, Placed, Ended, HomeIn, GoodIndex, GoodSizes, Enough, StopAt, Table.FitsAt, Grew;
      GrewNot(nextSize, 4, BucketCount());
      HomeIs(index, numSlotsMinusOne + 1, key);
      var found, d;
      found, i, d := Probe(key);
      if found {
        return true, i, false;
      }
      ok, i := EmplaceNewKey(i, d, key, val, fuel);
      inserted := true;
    }

    /** emplace_new_key: an empty slot is filled; otherwise entries are displaced, or the table grows first. */
    method EmplaceNewKey(c: nat, d: nat, key: K, val: V, fuel: nat) returns (ok: bool, i: nat)
      requires Valid() && key !in model && c < entries.Length && d <= maxLookups
      requires HomeIn(index, numSlotsMinusOne + 1)(key) + d == c
      requires entries[c].Dist() < d && (c > 0 ==> d <= entries[c - 1].Dist() + 1)
      modifies this, entries
      ensures entries == old(entries) || fresh(entries)
      ensures old(FitsAt(c, d)) ==> ok && entries == old(entries)
      ensures !old(FitsAt(c, d)) && ok ==> BucketCount() > old(BucketCount())
      ensures Enough(index, old(model).Keys + {key}, fuel + old(BucketCount())) ==> ok
      ensures ok ==> BucketCount() >= old(BucketCount()) && Grew(nextSize, 4, old(BucketCount()), BucketCount())
      ensures ok ==> Valid() && model == old(model)[key := val]
      ensures ok ==> i + 1 < entries.Length && entries[i].Full? && entries[i].key == key && entries[i].val == val
      decreases fuel, 1
    {
      hide Table.Valid, Table.FitsAt, Holds, Placed, Ended, HomeIn, GoodIndex, GoodSizes, Enough, Grew,
        Loaded;
      GrewNot(nextSize, 4, BucketCount());
      if Enough(index, model.Keys + {key}, fuel + BucketCount()) {
        EnoughFits(c, d, key, fuel);
      }
      i := c;
      ok := PutInPlace(c, d, key, val);
      if !ok {
        ok, i := GrowAndEmplace(key, val, fuel);
      }
    }

    /** The part of emplace_new_key that does without growing. */
    method PutInPlace(c: nat, d: nat, key: K, val: V) returns (placed: bool)
      requires Valid() && key !in model && c < entries.Length && d <= maxLookups
      requires HomeIn(index, numSlotsMinusOne + 1)(key) + d == c
      requires entries[c].Dist() < d && (c > 0 ==> d <= entries[c - 1].Dist() + 1)
      modifies this`place, this`model, this`numElements, entries
      ensures placed <==> old(FitsAt(c, d))
      ensures placed ==> Valid() && model == old(model)[key := val] && c + 1 < entries.Length
      ensures placed ==> entries[c].Full? && entries[c].key == key && entries[c].val == val
      ensures !placed ==> Loose() && model == old(model)
    {
      hide Holds, Placed, Ended, HomeIn, GoodIndex, GoodSizes, RunFits;
      if numSlotsMinusOne == 0 || d == maxLookups || 2 * (numElements + 1) > numSlotsMinusOne + 1 {
        placed := false;
      } else {
        placed := FillOrDisplace(c, d, key, val);
      }
    }

    /** If growing goes far enough and no growing is left, a new key finds the slot it asks for empty. */
    lemma EnoughFits(c: nat, d: nat, key: K, fuel: nat)
      requires Valid() && key !in model && c < entries.Length && d <= maxLookups
      requires HomeIn(index, numSlotsMinusOne + 1)(key) + d == c && (c > 0 ==> d <= entries[c - 1].Dist() + 1)
      requires Enough(index, model.Keys + {key}, fuel + BucketCount())
      ensures fuel > 0 || FitsAt(c, d)
    {
      hide Holds, Placed, Ended, Enough, Apart, RunFits, GoodSizes, GoodIndex, HomeIn;
      HomesBelow(index, numSlotsMinusOne + 1);
      HomeIs(index, numSlotsMinusOne + 1, key);
      AmpleOrMore(index, model.Keys + {key}, fuel, BucketCount());
      if fuel == 0 {
        HomeEmpty(entries[..], place, model, index, numSlotsMinusOne + 1, maxLookups, key, c, d);
      }
    }

    method FillOrDisplace(c: nat, d: nat, key: K, val: V) returns (placed: bool)
      requires Valid() && key !in model && numSlotsMinusOne > 0 && d < maxLookups && c < entries.Length
      requires HomeIn(index, numSlotsMinusOne + 1)(key) + d == c
      requires entries[c].Dist() < d && (c > 0 ==> d <= entries[c - 1].Dist() + 1)
      requires 2 * (numElements + 1) <= BucketCount()
      modifies this`place, this`model, this`numElements, entries
      ensures placed ==> Valid() && model == old(model)[key := val] && c + 1 < entries.Length
      ensures placed ==> entries[c].Full? && entries[c].key == key && entries[c].val == val
      ensures !placed ==> Loose() && model == old(model)
      ensures placed <==> old(entries[c].Empty? || RunFits(entries[..], c + 1, entries[c].Dist() + 1, maxLookups))
    {
      hide Holds, Placed, Ended, HomeIn, GoodIndex, GoodSizes, RunFits;
      HomesBelow(index, numSlotsMinusOne + 1);
      InnerSlot(entries[..], c);
      if entries[c].Empty? {
        ghost var home, slots := HomeIn(index, numSlotsMinusOne + 1), entries[..];
        PutDown(slots, home, maxLookups, c, d, key, val);
        HoldsPut(slots, place, model, c, d, key, val);
        place, model, numElements := place[key := c], model[key := val], numElements + 1;
        entries[c] := Full(d, key, val);
        assert entries[..] == slots[c := Full(d, key, val)];
        PlacedEnds(entries[..], home, maxLookups);
        placed := true;
      } else {
        placed := Displace(c, d, key, val);
      }
    }

    method GrowAndEmplace(key: K, val: V, fuel: nat) returns (ok: bool, i: nat)
      requires Loose() && key !in model
      modifies this, entries
      ensures entries == old(entries) || fresh(entries)
      ensures fuel > 0 && Enough(index, old(model).Keys + {key}, fuel + old(BucketCount())) ==> ok
      ensures ok ==> BucketCount() > old(BucketCount()) && Grew(nextSize, 4, old(BucketCount()), BucketCount())
      ensures ok ==> Valid() && model == old(model)[key := val]
      ensures ok ==> i + 1 < entries.Length && entries[i].Full? && entries[i].key == key && entries[i].val == val
      decreases fuel, 0
    {
      hide Table.Valid, Holds, Placed, Ended, HomeIn, GoodIndex, GoodSizes, Enough, Grew, Loaded;
      ghost var keys, was := model.Keys + {key}, BucketCount();
      i := 0;
      if fuel == 0 {
        return false, 0;
      }
      if Enough(index, keys, fuel + was) {
        EnoughFewer(index, model.Keys, keys, fuel + was, fuel + was);
      }
      ok := Grow(fuel);
      if ok {
        ghost var next := BucketCount();
        if Enough(index, keys, fuel + was) {
          EnoughFewer(index, keys, keys, fuel + was, fuel - 1 + next);
        }
        var inserted;
        ok, i, inserted := Emplace(key, val, fuel - 1);
        if ok {
          GrewThen(nextSize, 4, was, next, BucketCount());
        }
      }
    }

    /** grow */
    method Grow(fuel: nat) returns (ok: bool)
      requires Loose() && fuel > 0
      modifies this, entries
      ensures entries == old(entries) || fresh(entries)
      ensures Enough(index, old(model).Keys, fuel + old(BucketCount())) ==> ok
      ensures ok ==> Valid() && model == old(model) && BucketCount() > old(BucketCount())
      ensures ok ==> Grew(nextSize, 4, old(BucketCount()), BucketCount())
      decreases fuel - 1, 6
    {
      hide Table.Valid, Holds, Placed, Ended, HomeIn, GoodIndex, GoodSizes, Enough, Grew;
      ghost var was := BucketCount();
      var buckets := AtLeast(4, 2 * BucketCount());
      SizeEnough(nextSize, buckets);
      if Enough(index, model.Keys, fuel + was) {
        EnoughFewer(index, model.Keys, model.Keys, fuel + was, fuel - 1 + buckets);
      }
      assert AtLeast(buckets, 2 * |model|) == buckets;
      ok := Rehash(buckets, fuel - 1);
      if ok {
        GrewOnce(nextSize, 4, was, BucketCount());
      }
    }

    function BucketCount(): nat
      reads this`numSlotsMinusOne
    {
      if numSlotsMinusOne == 0 then 0 else numSlotsMinusOne + 1
    }

    /** rehash: also rebuilds a table whose entries are out of place, as grow relies on. */
    method Rehash(n: nat, fuel: nat) returns (ok: bool)
      requires Loose() && (Valid() || n > BucketCount())
      modifies this, entries
      ensures entries == old(entries) || fresh(entries)
      ensures ok ==>
        Valid() && model == old(model) && (AtLeast(n, 2 * |model|) > 1 ==> BucketCount() >= AtLeast(n, 2 * |model|))
      ensures var least := AtLeast(n, 2 * |old(model)|);
        least == 0 || (least > 1 && Enough(index, old(model).Keys, fuel + least)) ==> ok
      ensures ok ==>
        var least := AtLeast(n, 2 * |old(model)|);
        Grew(nextSize, 4, if least == 0 then 0 else Counted(nextSize(least)), BucketCount())
      decreases fuel, 5
    {
      hide Holds, Placed, HomeIn, GoodIndex, Enough, Grew, Loaded;
      var buckets := AtLeast(n, 2 * numElements);
      if buckets == 0 {
        Reset();
        GrewNot(nextSize, 4, 0);
        return true;
      }
      ghost var reach := fuel + buckets;
      buckets := nextSize(buckets);
      GrewNot(nextSize, 4, BucketCount());
      if buckets == BucketCount() {
        return true;
      }
      if Enough(index, model.Keys, reach) {
        EnoughFewer(index, model.Keys, model.Keys, reach, fuel + buckets);
      }
      ok := Rebuild(buckets, fuel);
    }

    /** reset_to_empty_state */
    method Reset()
      requires Loose() && numElements == 0
      modifies this
      ensures Valid() && model == old(model) && fresh(entries) && BucketCount() == 0
    {
      entries := new Slot<K, V>[4](i => if i == 3 then Sentinel else Empty);
      numSlotsMinusOne, maxLookups := 0, MIN_LOOKUPS - 1;
      place := map[];
      assert model == map[];
    }

    /** The part of rehash that moves every entry into a new array. */
    method Rebuild(buckets: nat, fuel: nat) returns (ok: bool)
      requires Loose() && buckets > 0
      modifies this
      ensures ok ==> Valid() && model == old(model) && (buckets > 1 ==> BucketCount() >= buckets)
      ensures ok ==> Grew(nextSize, 4, Counted(buckets), BucketCount())
      ensures buckets > 1 && Enough(index, old(model).Keys, fuel + buckets) ==> ok
      ensures fresh(entries)
      decreases fuel, 4
    {
      hide Table.Valid, Holds, Placed, HomeIn, GoodIndex, GoodSizes, Enough, Moved, Ended, Grew;
      ghost var was, wasPlace, wasModel := entries[..], place, model;
      var before, count := entries, entries.Length - 1;
      StartMoved(was, wasPlace, wasModel);
      NewTable(buckets);
      GrewNot(nextSize, 4, BucketCount());
      ok := true;
      var j := 0;
      while j < count && ok
        invariant j <= count == |was| - 1 && fresh(entries) && before[..] == was && before != entries
        invariant ok ==>
          Valid() && Moved(was, wasPlace, wasModel, model, j) && (buckets > 1 ==> BucketCount() >= buckets)
        invariant ok ==> Grew(nextSize, 4, Counted(buckets), BucketCount())
        invariant buckets > 1 && Enough(index, wasModel.Keys, fuel + buckets) ==> ok
      {
        if buckets > 1 && Enough(index, wasModel.Keys, fuel + buckets) {
          EnoughFewer(index, wasModel.Keys, wasModel.Keys, fuel + buckets, fuel + BucketCount());
        }
        ghost var size := BucketCount();
        ok := MoveOver(before[j], fuel, was, wasPlace, wasModel, j);
        if ok {
          GrewThen(nextSize, 4, Counted(buckets), size, BucketCount());
        }
        j := j + 1;
      }
      if ok {
        AllMoved(was, wasPlace, wasModel, model, j);
      }
    }

    /** One slot of the old array. */
    method MoveOver(x: Slot<K, V>, fuel: nat, ghost was: seq<Slot<K, V>>, ghost wasPlace: map<K, int>,
                    ghost wasModel: map<K, V>, ghost j: nat)
      returns (ok: bool)
      requires Valid() && j < |was| && x == was[j] && Moved(was, wasPlace, wasModel, model, j)
      modifies this, entries
      ensures entries == old(entries) || fresh(entries)
      ensures ok ==> Valid() && Moved(was, wasPlace, wasModel, model, j + 1) && BucketCount() >= old(BucketCount())
      ensures ok ==> Grew(nextSize, 4, old(BucketCount()), BucketCount())
      ensures Enough(index, wasModel.Keys, fuel + old(BucketCount())) ==> ok
      decreases fuel, 3
    {
      hide Table.Valid, Holds, Placed, Ended, HomeIn, GoodIndex, GoodSizes, Enough, Moved,
        Grew;
      GrewNot(nextSize, 4, BucketCount());
      ok := true;
      if x.Full? {
        MoveNext(was, wasPlace, wasModel, model, j);
        ghost var reach := fuel + BucketCount();
        if Enough(index, wasModel.Keys, reach) {
          EnoughFewer(index, model.Keys + {x.key}, wasModel.Keys, reach, reach);
        }
        var i, inserted;
        ok, i, inserted := Emplace(x.key, x.val, fuel);
      } else {
        MoveNothing(was, wasPlace, wasModel, model, j);
      }
    }

    method NewTable(buckets: nat)
      requires buckets > 0 && GoodSizes(nextSize) && GoodIndex(index)
      modifies this
      ensures Valid() && model == map[] && fresh(entries) && numSlotsMinusOne == buckets - 1
    {
      LookupsAre(buckets);
      var lookups := MaxLookups(buckets);
      var last := buckets + lookups - 1;
      entries := new Slot<K, V>[buckets + lookups](i => if i == last then Sentinel else Empty);
      numSlotsMinusOne, maxLookups, numElements := buckets - 1, lookups, 0;
      place, model := map[], map[];
    }

    // ---- erase

    method StepBack(i: nat)
      requires i + 1 < entries.Length && entries[i + 1].Full?
      modifies entries
      ensures entries[..] == MovedBack(old(entries[..]), i)
    {
      var next := entries[i + 1];
      entries[i] := Full(next.dist - 1, next.key, next.val);
      entries[i + 1] := Empty;
    }

    /** The entries after an emptied slot move back one slot, up to one that is at home. */
    method ShiftBack(i: nat, ghost left: map<K, V>, ghost at0: map<K, int>) returns (ghost at: map<K, int>)
      requires i + 1 < entries.Length && Gap(entries[..], HomeIn(index, numSlotsMinusOne + 1), maxLookups, i + 1, 1)
      requires Holds(entries[..], at0, left)
      modifies entries
      ensures Placed(entries[..], HomeIn(index, numSlotsMinusOne + 1), maxLookups) && Ended(entries[..])
      ensures Holds(entries[..], at, left)
    {
      hide Holds, Placed, Ended, HomeIn, Gap, MovedBack;
      ghost var home, slots := HomeIn(index, numSlotsMinusOne + 1), entries[..];
      var current := i;
      at := at0;
      GapFacts(slots, home, maxLookups, current + 1, 1);
      while entries[current + 1].Dist() > 0
        invariant i <= current && current + 1 < |slots| && entries[..] == slots
        invariant Gap(slots, home, maxLookups, current + 1, 1) && Holds(slots, at, left)
        modifies entries
        decreases entries.Length - current
      {
        GapFacts(slots, home, maxLookups, current + 1, 1);
        BackOne(slots, home, maxLookups, at, left, current);
        at := at[entries[current + 1].key := current];
        StepBack(current);
        slots := MovedBack(slots, current);
        current := current + 1;
        GapFacts(slots, home, maxLookups, current + 1, 1);
      }
      GapEnd(slots, home, maxLookups, current + 1, 1);
    }

    /** erase of one entry */
    method Erase(i: nat)
      requires Valid() && i + 1 < entries.Length && entries[i].Full?
      modifies this`place, this`model, this`numElements, entries
      ensures Valid() && old(entries[i]).key in old(model) && model == old(model) - {old(entries[i]).key}
    {
      hide Holds, Placed, Ended, HomeIn, Gap;
      ghost var slots := entries[..];
      ghost var at, left := place - {entries[i].key}, model - {entries[i].key};
      HoldsDrop(slots, place, model, i, Empty);
      GapStart(slots, HomeIn(index, numSlotsMinusOne + 1), maxLookups, i);
      entries[i] := Empty;
      assert entries[..] == slots[i := Empty];
      at := ShiftBack(i, left, at);
      numElements, place, model := numElements - 1, at, left;
    }

    /** The first loop of erase of a range: every entry in it is destroyed. */
    method ClearRange(b: nat, e: nat)
      requires Loose() && b <= e < entries.Length
      modifies this`place, this`model, this`numElements, entries
      ensures Loose() && Cleared(old(entries[..]), entries[..], b, e)
      ensures Remains(old(model), old(place), model, place, b, e)
    {
      hide Holds, Ended, Remains, Cleared;
      ghost var was, slots := entries[..], entries[..];
      ghost var at, left := place, model;
      NothingRemoved(was, model, place, b);
      var it, n := b, numElements;
      while it < e
        invariant b <= it <= e && entries[..] == slots && numElements >= n == |left| && |slots| == |was|
        invariant Swept(was, model, place, slots, left, at, b, it)
        modifies entries
      {
        if entries[it].Full? {
          SweepOne(was, model, place, slots, left, at, b, it);
          ghost var k := entries[it].key;
          entries[it] := Empty;
          n := n - 1;
          slots, at, left := slots[it := Empty], at - {k}, left - {k};
        } else {
          SweepNone(was, model, place, slots, left, at, b, it);
        }
        it := it + 1;
      }
      place, model, numElements := at, left, n;
    }

    /** The second loop of erase of a range: entries after it move back, by less and less, up to one that is at home. */
    method CloseGap(e: nat, m0: nat)
      requires Loose() && Gap(entries[..], HomeIn(index, numSlotsMinusOne + 1), maxLookups, e, m0)
      modifies this`place, entries
      ensures Valid()
      ensures old(entries[e].Dist() > 0) ==>
        m0 <= e < entries.Length && entries[e - m0].Full? && entries[e - m0].key == old(entries[e]).key
    {
      hide Holds, Placed, Ended, HomeIn, Gap;
      ghost var home, slots := HomeIn(index, numSlotsMinusOne + 1), entries[..];
      ghost var at := place;
      var it: nat, m: nat := e, m0;
      GapFacts(slots, home, maxLookups, it, m);
      while entries[it].Dist() > 0
        invariant e <= it < |slots| && entries[..] == slots
        invariant Gap(slots, home, maxLookups, it, m) && Holds(slots, at, model)
        invariant it == e ==> m == m0 && slots == old(entries[..])
        invariant it > e ==> old(entries[e]).Full? && e - m0 < it - m
        invariant it > e ==> slots[e - m0].Full? && slots[e - m0].key == old(entries[e]).key
        modifies entries
        decreases entries.Length - it
      {
        GapFacts(slots, home, maxLookups, it, m);
        var x, d := entries[it], entries[it + 1].Dist();
        var m': nat := if 0 < d < m then d else m;
        GapMove(slots, home, maxLookups, it, m, m');
        HoldsMove(slots, at, model, it, it - m, x.dist - m);
        entries[it - m] := Full(x.dist - m, x.key, x.val);
        entries[it] := Empty;
        slots := slots[it - m := Full(x.dist - m, x.key, x.val)][it := Empty];
        at := at[x.key := it - m];
        it, m := it + 1, m';
        GapFacts(slots, home, maxLookups, it, m);
      }
      GapEnd(slots, home, maxLookups, it, m);
      place := at;
    }

    /** erase of a range: removes the entries in it and nothing else; returns where the entry after it is now. */
    method EraseRange(b: nat, e: nat) returns (next: nat)
      requires Valid() && b <= e < entries.Length && (e + 1 < entries.Length ==> entries[e].Full?)
      modifies this`place, this`model, this`numElements, entries
      ensures Valid()
      ensures forall k :: k in model <==> k in old(model) && !(b <= old(place)[k] < e)
      ensures forall k :: k in model ==> model[k] == old(model)[k]
      ensures e + 1 == entries.Length ==> next == e
      ensures e + 1 < entries.Length ==> next <= e && entries[next].Full? && entries[next].key == old(entries[e]).key
    {
      hide Holds, Placed, Ended, HomeIn, Gap;
      ghost var home, slots := HomeIn(index, numSlotsMinusOne + 1), entries[..];
      next := e;
      if b == e {
        return;
      }
      ClearRange(b, e);
      EndDist(slots, home, maxLookups, e);
      var d := entries[e].Dist();
      if d == 0 {
        ClearedPlaced(slots, entries[..], home, maxLookups, b, e);
      } else {
        var m := if d < e - b then d else e - b;
        ClearedGap(slots, entries[..], home, maxLookups, b, e, m);
        next := e - m;
        CloseGap(e, m);
      }
    }

    /** erase by key */
    method EraseKey(key: K) returns (n: nat)
      requires Valid()
      modifies this`place, this`model, this`numElements, entries
      ensures Valid() && model == old(model) - {key} && n == if key in old(model) then 1 else 0
    {
      hide Holds, Placed, Ended, HomeIn;
      var found, i := Find(key);
      n := 0;
      if found {
        Erase(i);
        n := 1;
      }
      assert model == old(model) - {key};
    }

    /** Iteration from begin to end: every key once, in the order of the slots. */
    method Keys() returns (keys: seq<K>)
      requires Valid()
      ensures forall k :: k in keys <==> k in model
      ensures forall i, j :: 0 <= i < j < |keys| ==> keys[i] != keys[j]
    {
      hide Placed, HomeIn;
      keys := [];
      var i := 0;
      while !entries[i].Sentinel?
        invariant i < entries.Length && forall k :: k in keys <==> k in model && place[k] < i
        invariant forall a, b :: 0 <= a < b < |keys| ==>
          keys[a] in model && keys[b] in model && place[keys[a]] < place[keys[b]]
        decreases entries.Length - i
      {
        if entries[i].Full? {
          keys := keys + [entries[i].key];
        }
        i := i + 1;
      }
    }
  }

  ghost predicate Cleared<K(!new), V(!new)>(slots: seq<Slot<K, V>>, s': seq<Slot<K, V>>, b: nat, e: nat) {
    |s'| == |slots| && forall j :: 0 <= j < |slots| ==> s'[j] == if b <= j < e then Empty else slots[j]
  }

  /** model' is model without the keys placed from b up to e. */
  ghost predicate Remains<K(!new), V(!new)>(model: map<K, V>, place: map<K, int>, model': map<K, V>,
                                            place': map<K, int>, b: nat, e: nat) {
    && place.Keys == model.Keys && place'.Keys == model'.Keys
    && (forall k :: k in model' <==> k in model && !(b <= place[k] < e))
    && (forall k :: k in model' ==> model'[k] == model[k] && place'[k] == place[k])
  }

  /** The entries of the first n slots, and only they, have been moved. */
  ghost predicate Moved<K(!new), V(!new)>(slots: seq<Slot<K, V>>, place: map<K, int>, model: map<K, V>, now: map<K, V>,
                                          n: nat) {
    && Holds(slots, place, model)
    && (forall k :: k in now <==> k in model && place[k] < n)
    && (forall k :: k in now ==> now[k] == model[k])
  }

  lemma StartMoved<K(!new), V(!new)>(slots: seq<Slot<K, V>>, place: map<K, int>, model: map<K, V>)
    requires Holds(slots, place, model)
    ensures Moved(slots, place, model, map[], 0)
  {
  }

  lemma InnerSlot<K(!new), V(!new)>(slots: seq<Slot<K, V>>, c: nat)
    requires Ended(slots) && c + 1 < |slots|
    ensures !slots[c].Sentinel?
  {
  }

  lemma MoveNext<K(!new), V(!new)>(slots: seq<Slot<K, V>>, place: map<K, int>, model: map<K, V>, now: map<K, V>, n: nat)
    requires Moved(slots, place, model, now, n) && n < |slots| && slots[n].Full?
    ensures slots[n].key !in now && Moved(slots, place, model, now[slots[n].key := slots[n].val], n + 1)
    ensures now.Keys + {slots[n].key} <= model.Keys
  {
  }

  lemma MoveNothing<K(!new), V(!new)>(slots: seq<Slot<K, V>>, place: map<K, int>, model: map<K, V>, now: map<K, V>,
                                      n: nat)
    requires Moved(slots, place, model, now, n) && n < |slots| && !slots[n].Full?
    ensures Moved(slots, place, model, now, n + 1)
  {
  }

  lemma AllMoved<K(!new), V(!new)>(slots: seq<Slot<K, V>>, place: map<K, int>, model: map<K, V>, now: map<K, V>, n: nat)
    requires Moved(slots, place, model, now, n) && n + 1 == |slots| && Ended(slots)
    ensures now == model
  {
  }

  lemma MoveFacts<K(!new), V(!new)>(slots: seq<Slot<K, V>>, place: map<K, int>, home: K -> nat, limit: nat,
                                    full: map<K, V>, c0: nat, c: nat, d: int, carry: Slot<K, V>)
    requires Moving(slots, place, home, limit, full, c0, c, d, carry)
    ensures c + 1 < |slots| && d < limit && carry.Full? && (slots[c].Empty? || slots[c].Full?)
    ensures c0 < |slots| && slots[c0].Full?
  {
  }

  lemma PlacedEnds<K(!new), V(!new)>(slots: seq<Slot<K, V>>, home: K -> nat, limit: nat)
    requires Placed(slots, home, limit)
    ensures Ended(slots)
  {
  }

  lemma NeverBelow<K(!new), V(!new)>(slots: seq<Slot<K, V>>, home: K -> nat, limit: nat)
    requires Placed(slots, home, limit)
    ensures forall i :: 0 <= i < |slots| ==> slots[i].Dist() >= -1
  {
    forall i | 0 <= i < |slots| ensures slots[i].Dist() >= -1 { assert HomeOk(slots, home, i, limit); }
  }

  lemma HeldHere<K(!new), V(!new)>(slots: seq<Slot<K, V>>, place: map<K, int>, model: map<K, V>, i: nat)
    requires Holds(slots, place, model) && i < |slots| && slots[i].Full?
    ensures slots[i].key in model && model[slots[i].key] == slots[i].val
  {
  }

  /** A key of the model is before the slot where a search for it stops. */
  lemma FoundBefore<K(!new), V(!new)>(slots: seq<Slot<K, V>>, home: K -> nat, limit: nat, place: map<K, int>,
                                      model: map<K, V>, k: K, j: nat)
    requires Placed(slots, home, limit) && home(k) <= j < |slots| && slots[j].Dist() < j - home(k)
    requires Holds(slots, place, model) && k in model
    ensures home(k) <= place[k] < j && slots[place[k]].Full? && slots[place[k]].key == k
  {
    var p := place[k];
    assert HomeOk(slots, home, p, limit);
    if j <= p {
      NotBeyond(slots, home, limit, k, j, p);
    }
  }

  // ---- closing gaps

  /** The m slots before slot it are empty; all else is in place, and what is at slot it may move back m slots. */
  ghost predicate Gap<K(!new), V(!new)>(slots: seq<Slot<K, V>>, home: K -> nat, limit: nat, it: nat, m: nat) {
    && 0 < m <= it < |slots| && Ended(slots) && Homed(slots, home, limit)
    && (forall i :: it - m <= i < it ==> slots[i].Empty?)
    && (forall i :: 0 <= i && i + 1 < |slots| && i != it - 1 ==> Step(slots, i))
    && (slots[it].Dist() > 0 ==> m <= slots[it].Dist())
    && (it - m > 0 ==> slots[it].Dist() - m <= slots[it - m - 1].Dist() + 1)
  }

  lemma GapFacts<K(!new), V(!new)>(slots: seq<Slot<K, V>>, home: K -> nat, limit: nat, it: nat, m: nat)
    requires Gap(slots, home, limit, it, m)
    ensures 0 < m <= it < |slots|
      && (slots[it].Dist() > 0 ==> slots[it].Full? && m <= slots[it].dist && it + 1 < |slots|)
    ensures forall i :: it - m <= i < it ==> slots[i].Empty?
  {
    if slots[it].Dist() > 0 {
      assert !slots[it].Sentinel?;
    }
  }

  lemma GapStart<K(!new), V(!new)>(slots: seq<Slot<K, V>>, home: K -> nat, limit: nat, i: nat)
    requires Placed(slots, home, limit) && i + 1 < |slots| && slots[i].Full?
    ensures Gap(slots[i := Empty], home, limit, i + 1, 1)
  {
    var s' := slots[i := Empty];
    forall j | 0 <= j < |s'| ensures HomeOk(s', home, j, limit) { assert HomeOk(slots, home, j, limit); }
    forall j | 0 <= j && j + 1 < |s'| && j != i ensures Step(s', j) {
      assert Step(slots, j);
      assert HomeOk(slots, home, j, limit);
    }
    assert Step(slots, i);
    assert i > 0 ==> Step(slots, i - 1);
  }

  /** Moving one entry back over the gap moves the gap on; it may get narrower. */
  lemma GapMove<K(!new), V(!new)>(slots: seq<Slot<K, V>>, home: K -> nat, limit: nat, it: nat, m: nat, m': nat)
    requires Gap(slots, home, limit, it, m) && slots[it].Full? && slots[it].dist > 0 && it + 1 < |slots| && 0 < m' <= m
    requires m' == m || m' == slots[it + 1].Dist()
    requires slots[it + 1].Dist() > 0 ==> m' <= slots[it + 1].Dist()
    ensures Gap(slots[it - m := Full(slots[it].dist - m, slots[it].key, slots[it].val)][it := Empty], home, limit,
                it + 1, m')
  {
    var s' := slots[it - m := Full(slots[it].dist - m, slots[it].key, slots[it].val)][it := Empty];
    assert HomeOk(slots, home, it, limit);
    assert Step(slots, it);
    forall j | 0 <= j < |s'| ensures HomeOk(s', home, j, limit) { assert HomeOk(slots, home, j, limit); }
    forall j | 0 <= j && j + 1 < |s'| && j != it ensures Step(s', j) {
      assert j != it - 1 ==> Step(slots, j);
      assert HomeOk(slots, home, j, limit);
    }
  }

  lemma GapEnd<K(!new), V(!new)>(slots: seq<Slot<K, V>>, home: K -> nat, limit: nat, it: nat, m: nat)
    requires Gap(slots, home, limit, it, m) && slots[it].Dist() <= 0
    ensures Placed(slots, home, limit) && Ended(slots)
  {
    forall j | 0 <= j && j + 1 < |slots| ensures Step(slots, j) {
      assert j != it - 1 ==> Step(slots, j);
    }
  }

  ghost function MovedBack<K(!new), V(!new)>(slots: seq<Slot<K, V>>, i: nat): (r: seq<Slot<K, V>>)
    requires i + 1 < |slots| && slots[i + 1].Full?
    ensures |r| == |slots|
  {
    slots[i := Full(slots[i + 1].dist - 1, slots[i + 1].key, slots[i + 1].val)][i + 1 := Empty]
  }

  lemma BackOne<K(!new), V(!new)>(slots: seq<Slot<K, V>>, home: K -> nat, limit: nat, place: map<K, int>,
                                  model: map<K, V>, i: nat)
    requires Gap(slots, home, limit, i + 1, 1) && Holds(slots, place, model) && i + 2 < |slots| && slots[i].Empty?
    requires slots[i + 1].Full? && slots[i + 1].dist > 0
    ensures Gap(MovedBack(slots, i), home, limit, i + 2, 1)
    ensures Holds(MovedBack(slots, i), place[slots[i + 1].key := i], model)
  {
    hide Gap, Holds;
    GapMove(slots, home, limit, i + 1, 1, 1);
    HoldsMove(slots, place, model, i + 1, i, slots[i + 1].dist - 1);
  }

  lemma HoldsMove<K(!new), V(!new)>(slots: seq<Slot<K, V>>, place: map<K, int>, model: map<K, V>, i: nat, j: nat,
                                    d: int)
    requires Holds(slots, place, model) && i < |slots| && j < |slots| && slots[i].Full? && slots[j].Empty?
    ensures Holds(slots[j := Full(d, slots[i].key, slots[i].val)][i := Empty], place[slots[i].key := j], model)
  {
  }

  /** The sweep of a range has come to slot it: slots, left and at are the table without the entries from b up to it. */
  ghost predicate Swept<K(!new), V(!new)>(was: seq<Slot<K, V>>, model: map<K, V>, place: map<K, int>,
                                          slots: seq<Slot<K, V>>, left: map<K, V>, at: map<K, int>, b: nat, it: nat)
  {
    Cleared(was, slots, b, it) && Remains(model, place, left, at, b, it) && Holds(slots, at, left) && Ended(slots)
  }

  lemma NothingRemoved<K(!new), V(!new)>(slots: seq<Slot<K, V>>, model: map<K, V>, place: map<K, int>, b: nat)
    requires Holds(slots, place, model) && Ended(slots)
    ensures Swept(slots, model, place, slots, model, place, b, b)
  {
  }

  lemma SweepOne<K(!new), V(!new)>(was: seq<Slot<K, V>>, model: map<K, V>, place: map<K, int>,
                                   slots: seq<Slot<K, V>>, left: map<K, V>, at: map<K, int>, b: nat, it: nat)
    requires Swept(was, model, place, slots, left, at, b, it) && b <= it && it + 1 < |slots| && slots[it].Full?
    ensures Swept(was, model, place, slots[it := Empty], left - {slots[it].key}, at - {slots[it].key}, b, it + 1)
    ensures |left - {slots[it].key}| == |left| - 1
  {
    var k := slots[it].key;
    HoldsDrop(slots, at, left, it, Empty);
    assert left == (left - {k})[k := left[k]];
    EndedStill(slots, it);
  }

  lemma SweepNone<K(!new), V(!new)>(was: seq<Slot<K, V>>, model: map<K, V>, place: map<K, int>,
                                    slots: seq<Slot<K, V>>, left: map<K, V>, at: map<K, int>, b: nat, it: nat)
    requires Swept(was, model, place, slots, left, at, b, it) && b <= it && it + 1 < |slots| && !slots[it].Full?
    ensures Swept(was, model, place, slots, left, at, b, it + 1)
  {
    InnerEmpty(slots, it);
    assert forall k :: k in left ==> at[k] != it;
  }

  lemma EndedStill<K(!new), V(!new)>(slots: seq<Slot<K, V>>, it: nat)
    requires Ended(slots) && it + 1 < |slots|
    ensures Ended(slots[it := Empty])
  {
  }

  lemma InnerEmpty<K(!new), V(!new)>(slots: seq<Slot<K, V>>, it: nat)
    requires Ended(slots) && it + 1 < |slots| && !slots[it].Full?
    ensures slots[it].Empty?
  {
  }

  lemma EndDist<K(!new), V(!new)>(slots: seq<Slot<K, V>>, home: K -> nat, limit: nat, e: nat)
    requires Placed(slots, home, limit) && e < |slots| && (slots[e].Full? || e + 1 == |slots|)
    ensures slots[e].Dist() >= 0 && (e + 1 == |slots| ==> slots[e].Dist() == 0)
  {
    assert HomeOk(slots, home, e, limit);
  }

  lemma ClearedHomed<K(!new), V(!new)>(slots: seq<Slot<K, V>>, s': seq<Slot<K, V>>, home: K -> nat, limit: nat, b: nat,
                                       e: nat)
    requires Placed(slots, home, limit) && b < e < |slots| && Cleared(slots, s', b, e)
    ensures Ended(s') && Homed(s', home, limit)
    ensures forall j :: 0 <= j && j + 1 < |s'| && j != e - 1 ==> Step(s', j)
  {
    forall j | 0 <= j < |s'| ensures HomeOk(s', home, j, limit) { assert HomeOk(slots, home, j, limit); }
    forall j | 0 <= j && j + 1 < |s'| && j != e - 1 ensures Step(s', j) {
      assert Step(slots, j);
      assert HomeOk(s', home, j, limit);
    }
  }

  lemma ClearedPlaced<K(!new), V(!new)>(slots: seq<Slot<K, V>>, s': seq<Slot<K, V>>, home: K -> nat, limit: nat, b: nat,
                                        e: nat)
    requires Placed(slots, home, limit) && b < e < |slots| && Cleared(slots, s', b, e) && slots[e].Dist() <= 0
    ensures Placed(s', home, limit)
  {
    ClearedHomed(slots, s', home, limit, b, e);
    forall j | 0 <= j && j + 1 < |s'| ensures Step(s', j) {
      assert j == e - 1 ==> s'[j].Empty?;
    }
  }

  lemma ClearedGap<K(!new), V(!new)>(slots: seq<Slot<K, V>>, s': seq<Slot<K, V>>, home: K -> nat, limit: nat, b: nat,
                                     e: nat, m: nat)
    requires Placed(slots, home, limit) && b < e < |slots| && Cleared(slots, s', b, e) && slots[e].Dist() > 0
    requires m == if slots[e].Dist() < e - b then slots[e].Dist() else e - b
    ensures Gap(s', home, limit, e, m)
  {
    ClearedHomed(slots, s', home, limit, b, e);
    if e - m > 0 {
      assert HomeOk(s', home, e - m - 1, limit);
      if m == e - b {
        Climb(slots, b - 1, e);
      }
    }
  }
}

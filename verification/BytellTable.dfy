/** The operations of the bytell hash table on its slot array. */
module BytellTable {
  import opened Bytell
  import opened HashPolicies

  ghost predicate NoneReserved<K(!new), V(!new)>(slots: seq<Slot<K, V>>, but: int) {
    forall s :: 0 <= s < |slots| && s != but ==> !slots[s].Reserved?
  }

  /** Where the chain of a key starts, if there is one, and that every key is on its chain. */
  lemma KeyOnChain<K(!new), V(!new)>(slots: seq<Slot<K, V>>, home: K -> nat, chains: map<int, seq<int>>,
                                     spot: map<int, Spot>, place: map<K, int>, model: map<K, V>, k: K)
    requires Threaded(slots, home, chains, spot) && Holds(slots, place, model) && k in model
    ensures home(k) in chains && place[k] in chains[home(k)]
  {
    var s := place[k];
    assert Spotted(slots, chains, spot, s);
    var g, i := spot[s].home, spot[s].pos;
    assert ChainOk(slots, home, g, chains[g]) && Node(slots, home, g, chains[g], i);
  }

  lemma HeadIsHit<K(!new), V(!new)>(slots: seq<Slot<K, V>>, home: K -> nat, chains: map<int, seq<int>>,
                                    spot: map<int, Spot>, h: nat)
    requires Threaded(slots, home, chains, spot) && h < |slots|
    ensures h in chains <==> slots[h].Full? && slots[h].hit
  {
    if h in chains {
      assert ChainOk(slots, home, h, chains[h]) && Node(slots, home, h, chains[h], 0);
    }
    if slots[h].Full? && slots[h].hit {
      assert Spotted(slots, chains, spot, h);
      var g, i := spot[h].home, spot[h].pos;
      assert ChainOk(slots, home, g, chains[g]) && Node(slots, home, g, chains[g], i);
    }
  }

  /** One step along a chain: the jump code is 0 at the last entry and leads to the next one elsewhere. */
  lemma StepAlong<K(!new), V(!new)>(slots: seq<Slot<K, V>>, home: K -> nat, chains: map<int, seq<int>>,
                                    spot: map<int, Spot>, h: int, i: nat)
    requires Threaded(slots, home, chains, spot) && h in chains && i < |chains[h]|
    ensures var s := chains[h][i];
            && 0 <= s < |slots| && slots[s].Full? && home(slots[s].key) == h && slots[s].jump < NUM_JUMPS
            && (slots[s].hit <==> i == 0)
            && (slots[s].jump == 0 <==> i + 1 == |chains[h]|)
            && (i + 1 < |chains[h]| ==> Hop(s, slots[s].jump, |slots|) == chains[h][i + 1])
  {
    assert ChainOk(slots, home, h, chains[h]) && Node(slots, home, h, chains[h], i);
    assert i + 1 < |chains[h]| ==> Link(slots, chains[h], i);
  }

  /** The least number of slots that n entries may fill, for a maximum load of 15/16. */
  function LeastSlots(n: nat): (r: nat)
    ensures 15 * r >= 16 * n && (r > 0 ==> 15 * (r - 1) < 16 * n)
  {
    (16 * n + 14) / 15
  }

  ghost predicate Loaded(n: nat, buckets: nat) {
    16 * n <= 15 * buckets
  }

  lemma LoadedLess(n: nat, buckets: nat)
    requires Loaded(n, buckets)
    ensures n > 0 ==> Loaded(n - 1, buckets)
  {
  }

  // ---- when an insertion fits

  /** The first jump code from j on that leads from a slot to an empty one, or 0. */
  ghost function FreeFrom<K(!new), V(!new)>(slots: seq<Slot<K, V>>, parent: nat, j: nat): nat
    requires |slots| > 0
    decreases NUM_JUMPS - j
  {
    if j >= NUM_JUMPS then 0 else if slots[Hop(parent, j, |slots|)].Empty? then j else FreeFrom(slots, parent, j + 1)
  }

  ghost function FreeJump<K(!new), V(!new)>(slots: seq<Slot<K, V>>, parent: nat): nat
    requires |slots| > 0
  {
    FreeFrom(slots, parent, 1)
  }

  /** Whether the entries of tail from position q on can be moved, one after the other, each to a free slot within a
      jump of where the one before it went; slot b is not free while there are more. */
  ghost predicate TailFits<K(!new), V(!new)>(slots: seq<Slot<K, V>>, parent: nat, tail: seq<int>, q: nat, b: nat)
    decreases |tail| - q
  {
    && q < |tail| && parent < |slots| && slots[parent].Full? && 0 <= tail[q] < |slots| && slots[tail[q]].Full?
    && FreeJump(slots, parent) != 0
    && (q + 1 < |tail| ==>
          var j := FreeJump(slots, parent);
          var f := Hop(parent, j, |slots|);
          TailFits(Relocated(slots, parent, j, f, tail[q], if tail[q] == b then Reserved else Empty), f, tail, q + 1,
                   b))
  }

  lemma TailFitsStep<K(!new), V(!new)>(slots: seq<Slot<K, V>>, parent: nat, tail: seq<int>, q: nat, b: nat, f: nat,
                                       slots': seq<Slot<K, V>>)
    requires q < |tail| && parent < |slots| && slots[parent].Full? && 0 <= tail[q] < |slots| && slots[tail[q]].Full?
    requires FreeJump(slots, parent) != 0 && f == Hop(parent, FreeJump(slots, parent), |slots|)
    requires slots' == Relocated(slots, parent, FreeJump(slots, parent), f, tail[q],
                                 if q + 1 < |tail| && tail[q] == b then Reserved else Empty)
    ensures TailFits(slots, parent, tail, q, b) <==> (q + 1 < |tail| ==> TailFits(slots', f, tail, q + 1, b))
  {
    hide FreeJump, Hop, Relocated;
  }

  /** If no two keys ask for the same slot, every entry is in the slot it asks for. */
  lemma AtHome<K(!new), V(!new)>(slots: seq<Slot<K, V>>, chains: map<int, seq<int>>, spot: map<int, Spot>,
                                 place: map<K, int>, model: map<K, V>, index: (K, nat) -> nat, s: nat)
    requires Holds(slots, place, model) && Threaded(slots, HomeIn(index, |slots|), chains, spot)
    requires s < |slots| && slots[s].Full? && Apart(index, model.Keys, |slots|)
    ensures index(slots[s].key, |slots|) == s && slots[s].key in model
  {
    hide Threaded, Hop;
    var home := HomeIn(index, |slots|);
    var p := PositionOf(slots, home, chains, spot, s);
    var h := home(slots[s].key);
    ChainStarts(slots, home, chains, spot, h);
    StepAlong(slots, home, chains, spot, h, 0);
  }

  /** Then the slot a new key asks for is empty. */
  lemma HomeEmpty<K(!new), V(!new)>(slots: seq<Slot<K, V>>, chains: map<int, seq<int>>, spot: map<int, Spot>,
                                    place: map<K, int>, model: map<K, V>, index: (K, nat) -> nat, k: K)
    requires Holds(slots, place, model) && Threaded(slots, HomeIn(index, |slots|), chains, spot)
      && NoneReserved(slots, -1)
    requires k !in model && Apart(index, model.Keys + {k}, |slots|) && index(k, |slots|) < |slots|
    ensures index(k, |slots|) !in chains && slots[index(k, |slots|)].Empty?
  {
    hide Holds, Threaded;
    var h := index(k, |slots|);
    HeadIsHit(slots, HomeIn(index, |slots|), chains, spot, h);
    if slots[h].Full? {
      AtHome(slots, chains, spot, place, model, index, h);
    }
  }

  class Table<K(==,!new), V(!new)> {
    var entries: array<Slot<K, V>>
    var numSlotsMinusOne: nat
    var numElements: nat
    const index: (K, nat) -> nat
    const nextSize: nat -> nat
    ghost var place: map<K, int>
    ghost var model: map<K, V>
    ghost var chains: map<int, seq<int>>
    ghost var spot: map<int, Spot>

    /** The occupied slots hold the model; how they are linked does not matter. */
    ghost predicate Loose()
      reads this, entries
    {
      && numElements == |model| && entries.Length == numSlotsMinusOne + 1
      && Holds(entries[..], place, model) && GoodSizes(nextSize) && GoodIndex(index)
      && (numSlotsMinusOne == 0 ==> model == map[]) && Loaded(numElements, BucketCount())
    }

    ghost predicate Valid()
      reads this, entries
    {
      Loose() && Threaded(entries[..], HomeIn(index, entries.Length), chains, spot) && NoneReserved(entries[..], -1)
    }

    constructor (index: (K, nat) -> nat, nextSize: nat -> nat)
      requires GoodSizes(nextSize) && GoodIndex(index)
      ensures Valid() && model == map[] && fresh(entries) && BucketCount() == 0
    {
      this.index, this.nextSize := index, nextSize;
      numSlotsMinusOne, numElements := 0, 0;
      entries := new Slot<K, V>[1](_ => Empty);
      place, model, chains, spot := map[], map[], map[], map[];
    }

    /** The walk of find and emplace: to the entry with the key, to the last entry of its chain, or to the slot where
        a chain for it would start. */
    method Walk(key: K) returns (found: bool, i: nat, first: bool)
      requires Valid()
      ensures i < entries.Length && (found <==> key in model)
      ensures found ==> entries[i].Full? && entries[i].key == key && entries[i].val == model[key]
      ensures !found && first ==>
        i == index(key, numSlotsMinusOne + 1) && i !in chains && !(entries[i].Full? && entries[i].hit)
      ensures !found && !first ==>
        var h := index(key, numSlotsMinusOne + 1);
        h in chains && h < entries.Length && |chains[h]| > 0 && i == Last(chains[h])
    {
      hide Holds, Threaded, Hop;
      ghost var slots, home := entries[..], HomeIn(index, entries.Length);
      var h := index(key, numSlotsMinusOne + 1);
      i := h;
      HeadIsHit(slots, home, chains, spot, h);
      if key in model {
        KeyOnChain(slots, home, chains, spot, place, model, key);
      }
      if !(entries[i].Full? && entries[i].hit) {
        return false, i, true;
      }
      ghost var c, pos := chains[h], 0;
      ChainStarts(slots, home, chains, spot, h);
      while true
        invariant 0 <= pos < |c| && i == c[pos] && i < entries.Length
        invariant forall j :: 0 <= j < pos ==> 0 <= c[j] < |slots| && slots[c[j]].Full? && slots[c[j]].key != key
        decreases |c| - pos
      {
        StepAlong(slots, home, chains, spot, h, pos);
        if entries[i].key == key {
          HeldHere(slots, place, model, i);
          return true, i, false;
        }
        if entries[i].jump == 0 {
          if key in model {
            HeldThere(slots, place, model, key);
          }
          return false, i, false;
        }
        i := Hop(i, entries[i].jump, entries.Length);
        pos := pos + 1;
        StepAlong(slots, home, chains, spot, h, pos);
      }
    }

    /** find */
    method Find(key: K) returns (found: bool, i: nat)
      requires Valid()
      ensures found <==> key in model
      ensures found ==> i < entries.Length && entries[i].Full? && entries[i].key == key && entries[i].val == model[key]
    {
      hide Holds, Threaded;
      var first;
      found, i, first := Walk(key);
    }

    /** find_free_index: a jump code that leads from a slot to an empty one, or 0. */
    method FindFree(parent: nat) returns (j: nat, f: nat)
      requires entries.Length > 0
      ensures j < NUM_JUMPS && f < entries.Length
      ensures j != 0 ==> f == Hop(parent, j, entries.Length) && entries[f].Empty?
      ensures j == 0 ==> forall i :: 0 < i < NUM_JUMPS ==> !entries[Hop(parent, i, entries.Length)].Empty?
      ensures j == FreeJump(entries[..], parent)
    {
      hide Hop;
      j := 1;
      while j < NUM_JUMPS
        invariant 1 <= j <= NUM_JUMPS
        invariant forall i :: 0 < i < j ==> !entries[Hop(parent, i, entries.Length)].Empty?
        invariant FreeJump(entries[..], parent) == FreeFrom(entries[..], parent, j)
      {
        f := Hop(parent, j, entries.Length);
        if entries[f].Empty? {
          return;
        }
        j := j + 1;
      }
      j, f := 0, 0;
    }

    /** find_parent_block: the entry before a given one on its chain. */
    method FindParent(child: nat) returns (parent: nat, ghost p: int)
      requires Valid() && child < entries.Length && entries[child].Full? && !entries[child].hit
      ensures var h := index(entries[child].key, numSlotsMinusOne + 1);
              && h in chains && 0 < p < |chains[h]| && chains[h][p] == child && parent == chains[h][p - 1]
              && parent < entries.Length && entries[parent].Full? && parent != child && child in spot
              && spot[child] == Spot(h, p)
    {
      hide Holds, Threaded, Hop;
      ghost var slots, home := entries[..], HomeIn(index, entries.Length);
      var h := index(entries[child].key, numSlotsMinusOne + 1);
      p := PositionOf(slots, home, chains, spot, child);
      parent := h;
      ghost var i := 0;
      ChainStarts(slots, home, chains, spot, h);
      StepAlong(slots, home, chains, spot, h, 0);
      while Hop(parent, entries[parent].jump, entries.Length) != child
        invariant 0 <= i < p && parent == chains[h][i] && parent < entries.Length && entries[parent].Full?
        decreases p - i
      {
        StepAlong(slots, home, chains, spot, h, i);
        parent := Hop(parent, entries[parent].jump, entries.Length);
        i := i + 1;
        StepAlong(slots, home, chains, spot, h, i);
        if i == p {
          assert false;
        }
      }
      StepAlong(slots, home, chains, spot, h, i);
      SamePosition(slots, home, chains, spot, h, i + 1, p);
      ChainSlots(slots, home, chains, spot, h);
    }

    /** One round of the relocation loop of emplace_direct_hit: the entry of slot `it` moves to slot f, which is linked
        after slot parent. While more entries are to come, slot b is reserved. */
    method RelocateOne(parent: nat, j: nat, f: nat, it: nat, b: nat, more: bool)
      requires parent < entries.Length && f < entries.Length && it < entries.Length && b < entries.Length
      requires entries[parent].Full? && entries[it].Full? && entries[f].Empty? && parent != it
      requires more && it != b ==> entries[b].Reserved?
      modifies entries
      ensures entries[..] == Relocated(old(entries[..]), parent, j, f, it, if more && it == b then Reserved else Empty)
    {
      var x := entries[it];
      entries[f] := Full(false, 0, x.key, x.val);
      entries[parent] := Jumping(entries[parent], j);
      entries[it] := Empty;
      if more {
        entries[b] := Reserved;
      }
    }

    /** One round, and the search for the slot of the next one: `j'` is 0 if there is none. */
    method RelocateRound(b: nat, parent: nat, j: nat, f: nat, it: nat, ghost home: K -> nat,
                         ghost cs: map<int, seq<int>>, ghost sp: map<int, Spot>,
                         ghost at: map<K, int>, ghost h: int, ghost tail: seq<int>, ghost q: nat, ghost p: nat)
      returns (more: bool, it': nat, parent': nat, j': nat, f': nat, ghost cs': map<int, seq<int>>,
               ghost sp': map<int, Spot>, ghost at': map<K, int>)
      requires Moving(entries[..], home, cs, sp, at, model, h, tail, q, p, b, parent, j, f) && q < |tail|
        && it == tail[q]
      requires j == FreeJump(entries[..], parent)
      modifies entries
      ensures TailFits(old(entries[..]), parent, tail, q, b) <==>
        (more ==> TailFits(entries[..], parent', tail, q + 1, b))
      ensures more ==> j' == FreeJump(entries[..], parent')
      ensures Holds(entries[..], at', model) && b < entries.Length && (more ==> q + 1 < |tail| && it' == tail[q + 1])
      ensures !more ==> Threaded(entries[..], home, cs', sp') && NoneReserved(entries[..], b) && !entries[b].Full?
      ensures more && j' != 0 ==> Moving(entries[..], home, cs', sp', at', model, h, tail, q + 1, p, b, parent', j', f')
    {
      hide Holds, Threaded, Torn, Hop, Moving, Relocated, NoneReserved, Closed, FreeJump, TailFits;
      ghost var slots := entries[..];
      MoveFacts(slots, home, cs, sp, at, model, h, tail, q, p, b, parent, j, f);
      MoveOne(slots, home, cs, sp, at, model, h, tail, q, p, b, parent, j, f);
      var x := entries[it];
      more := x.jump != 0;
      RelocateOne(parent, j, f, it, b, more);
      TailFitsStep(slots, parent, tail, q, b, f, entries[..]);
      cs', sp', at' := cs[h := cs[h] + [f]], (sp - {it})[f := Spot(h, |cs[h]|)], at[x.key := f];
      it', parent', j', f' := it, f, 0, f;
      if more {
        it' := Hop(it, x.jump, entries.Length);
        j', f' := FindFree(parent');
        if j' != 0 {
          MoveOn(entries[..], home, cs', sp', at', model, h, tail, q + 1, p, b, parent', j', f');
        }
      } else {
        Mend(entries[..], home, cs', sp', h, tail);
      }
    }

    /** The relocation loop of emplace_direct_hit. It fails when some entry has no free slot within a jump of the one
        before it; then every entry is still in some slot, though not all of them can be reached. */
    method RelocateTail(b: nat, parent0: nat, j0: nat, f0: nat, ghost h: int, ghost p: nat) returns (done: bool)
      requires entries.Length == numSlotsMinusOne + 1 && b < entries.Length && h in chains && p < |chains[h]|
        && chains[h][p] == b
      requires Moving(entries[..], HomeIn(index, entries.Length), chains[h := chains[h][..p]], TornSpots(spot, h, p),
                      place, model,
                      h, chains[h], p, p, b, parent0, j0, f0)
      requires j0 == FreeJump(entries[..], parent0)
      modifies entries, this`place, this`chains, this`spot
      ensures done <==> TailFits(old(entries[..]), parent0, old(chains)[h], p, b)
      ensures Holds(entries[..], place, model)
      ensures done ==>
        Threaded(entries[..], HomeIn(index, entries.Length), chains, spot) && NoneReserved(entries[..], b)
      ensures done ==> !entries[b].Full?
    {
      hide Holds, Threaded, Hop, Moving, NoneReserved, TornSpots, FreeJump;
      ghost var home, tail, q, was := HomeIn(index, entries.Length), chains[h], p, entries[..];
      ghost var cs, sp, at := chains[h := chains[h][..p]], TornSpots(spot, h, p), place;
      var parent, j, f, it := parent0, j0, f0, b;
      var more := true;
      MoveFacts(entries[..], home, cs, sp, at, model, h, tail, q, p, b, parent, j, f);
      while more && j != 0
        invariant Holds(entries[..], at, model) && (more ==> p <= q < |tail| && it == tail[q])
        invariant TailFits(was, parent0, tail, p, b) <==> (more ==> TailFits(entries[..], parent, tail, q, b))
        invariant more ==> j == FreeJump(entries[..], parent)
        invariant more && j != 0 ==> Moving(entries[..], home, cs, sp, at, model, h, tail, q, p, b, parent, j, f)
        invariant !more ==> Threaded(entries[..], home, cs, sp) && NoneReserved(entries[..], b) && !entries[b].Full?
        modifies entries
        decreases more, |tail| - q
      {
        more, it, parent, j, f, cs, sp, at := RelocateRound(b, parent, j, f, it, home, cs, sp, at, h, tail, q, p);
        q := q + 1;
      }
      done := !more;
      place := at;
      chains, spot := cs, sp;
    }

    /** One more entry fills at most fifteen sixteenths of the slots. */
    ghost predicate Spare()
      reads this
    {
      numSlotsMinusOne > 0 && 16 * (numElements + 1) <= 15 * (numSlotsMinusOne + 1)
    }

    /** is_full, for a maximum load of 15/16 */
    predicate IsFull()
      reads this
    {
      numSlotsMinusOne == 0 || 16 * (numElements + 1) > 15 * (numSlotsMinusOne + 1)
    }

    /** A chain of one entry in slot b, its home. */
    method PutFirst(b: nat, key: K, val: V)
      requires Loose() && Threaded(entries[..], HomeIn(index, entries.Length), chains, spot)
        && NoneReserved(entries[..], b)
      requires key !in model && b == index(key, numSlotsMinusOne + 1) < entries.Length && !entries[b].Full?
        && Spare()
      modifies entries, this`place, this`model, this`chains, this`spot, this`numElements
      ensures Valid() && model == old(model)[key := val] && entries[b].Full? && entries[b].key == key
        && entries[b].val == val
    {
      hide Holds, Threaded;
      ghost var slots, home := entries[..], HomeIn(index, entries.Length);
      StartChain(slots, home, chains, spot, b, key, val);
      HoldsPut(slots, place, model, b, true, key, val);
      place, model, numElements := place[key := b], model[key := val], numElements + 1;
      chains, spot := chains[b := [b]], spot[b := Spot(b, 0)];
      entries[b] := Full(true, 0, key, val);
      assert entries[..] == slots[b := Full(true, 0, key, val)];
    }

    /** The entry in slot b and the ones after it on its chain can be moved. */
    ghost predicate TailMoves(b: nat)
      reads this, entries
    {
      && b < entries.Length && b in spot && spot[b].home in chains && 0 < spot[b].pos < |chains[spot[b].home]|
      && chains[spot[b].home][spot[b].pos - 1] >= 0
      && TailFits(entries[..], chains[spot[b].home][spot[b].pos - 1], chains[spot[b].home], spot[b].pos, b)
    }

    /** A new key fits into the table as it is: its slot is free, or can be made free, or its chain can be extended. */
    ghost predicate HasRoom(key: K)
      reads this, entries
    {
      var h := index(key, numSlotsMinusOne + 1);
      && Spare() && h < entries.Length
      && if h in chains then ChainGrows(h) else entries[h].Empty? || TailMoves(h)
    }

    ghost predicate ChainGrows(h: nat)
      reads this, entries
    {
      && h in chains && |chains[h]| > 0 && Last(chains[h]) >= 0
      && entries.Length > 0 && FreeJump(entries[..], Last(chains[h])) != 0
    }

    /** The entry in slot b belongs to another chain: the tail of that chain from b on is relocated. */
    method MakeRoom(b: nat) returns (done: bool)
      requires Valid() && b < entries.Length && entries[b].Full? && !entries[b].hit
      modifies entries, this`place, this`chains, this`spot
      ensures done <==> old(TailMoves(b))
      ensures Loose()
      ensures done ==>
        Threaded(entries[..], HomeIn(index, entries.Length), chains, spot) && NoneReserved(entries[..], b)
      ensures done ==> !entries[b].Full?
    {
      hide Holds, Threaded, Torn, Hop, FreeJump;
      ghost var slots, home := entries[..], HomeIn(index, entries.Length);
      var parent;
      ghost var p;
      parent, p := FindParent(b);
      var j, f := FindFree(parent);
      if j == 0 {
        return false;
      }
      ghost var h := index(entries[b].key, numSlotsMinusOne + 1);
      MoveBegin(slots, home, chains, spot, place, model, h, p, b, parent, j, f);
      done := RelocateTail(b, parent, j, f, h, p);
    }

    /** emplace: without growing just when there is room, and always if growing goes far enough. */
    method Emplace(key: K, val: V, fuel: nat) returns (ok: bool, i: nat, inserted: bool)
      requires Valid()
      modifies this, entries
      ensures entries == old(entries) || fresh(entries)
      ensures key in old(model) ==> ok && entries == old(entries)
      ensures key !in old(model) && old(HasRoom(key)) ==> ok && entries == old(entries)
      ensures key !in old(model) && !old(HasRoom(key)) && ok ==> BucketCount() > old(BucketCount())
      ensures Enough(index, old(model).Keys + {key}, fuel + old(BucketCount())) ==> ok
      ensures ok ==> BucketCount() >= old(BucketCount()) && Grew(nextSize, 10, old(BucketCount()), BucketCount())
      ensures ok ==> Valid() && inserted == (key !in old(model))
      ensures ok ==> model == if inserted then old(model)[key := val] else old(model)
      ensures ok ==> i < entries.Length && entries[i].Full? && entries[i].key == key && entries[i].val == model[key]
      decreases fuel, 2
    {
      hide Table.Valid, Table.TailMoves, Table.ChainGrows, Table.IsFull, Table.Spare, Enough, Grew;
      GrewNot(nextSize, 10, BucketCount());
      var found, first;
      found, i, first := Walk(key);
      inserted := !found;
      if !found && Enough(index, model.Keys + {key}, fuel + BucketCount()) {
        EnoughFits(key, fuel);
      }
      if found {
        ok := true;
      } else if first {
        ok, i := EmplaceDirectHit(i, key, val, fuel);
      } else {
        ok, i := EmplaceNewKey(i, key, val, fuel);
      }
    }

    /** emplace_direct_hit: the home slot of the key is free, or held by an entry of another chain. */
    method EmplaceDirectHit(b: nat, key: K, val: V, fuel: nat) returns (ok: bool, i: nat)
      requires Valid() && key !in model && b == index(key, numSlotsMinusOne + 1) < entries.Length
      requires !(entries[b].Full? && entries[b].hit)
      modifies this, entries
      ensures entries == old(entries) || fresh(entries)
      ensures old(Spare() && (entries[b].Empty? || TailMoves(b))) ==> ok && entries == old(entries)
      ensures !old(Spare() && (entries[b].Empty? || TailMoves(b))) && ok ==> BucketCount() > old(BucketCount())
      ensures fuel > 0 && Enough(index, old(model).Keys + {key}, fuel + old(BucketCount())) ==> ok
      ensures ok ==> BucketCount() >= old(BucketCount()) && Grew(nextSize, 10, old(BucketCount()), BucketCount())
      ensures ok ==> Valid() && model == old(model)[key := val]
      ensures ok ==> i < entries.Length && entries[i].Full? && entries[i].key == key && entries[i].val == val
      decreases fuel, 1
    {
      hide Holds, Threaded, Hop, Grew;
      GrewNot(nextSize, 10, BucketCount());
      i := b;
      if IsFull() {
        ok, i := GrowAndEmplace(key, val, fuel);
      } else {
        ok := true;
        if !entries[b].Empty? {
          assert !entries[..][b].Reserved?;
          ok := MakeRoom(b);
        }
        if ok {
          PutFirst(b, key, val);
        } else {
          ok, i := GrowAndEmplace(key, val, fuel);
        }
      }
    }

    /** emplace_new_key: the key goes to a free slot after the last entry of its chain. */
    method EmplaceNewKey(parent: nat, key: K, val: V, fuel: nat) returns (ok: bool, i: nat)
      requires Valid() && key !in model && parent < entries.Length
      requires var h := index(key, numSlotsMinusOne + 1); h in chains && |chains[h]| > 0 && parent == Last(chains[h])
      modifies this, entries
      ensures entries == old(entries) || fresh(entries)
      ensures old(Spare() && ChainGrows(index(key, numSlotsMinusOne + 1))) ==> ok && entries == old(entries)
      ensures !old(Spare() && ChainGrows(index(key, numSlotsMinusOne + 1))) && ok ==>
        BucketCount() > old(BucketCount())
      ensures fuel > 0 && Enough(index, old(model).Keys + {key}, fuel + old(BucketCount())) ==> ok
      ensures ok ==> BucketCount() >= old(BucketCount()) && Grew(nextSize, 10, old(BucketCount()), BucketCount())
      ensures ok ==> Valid() && model == old(model)[key := val]
      ensures ok ==> i < entries.Length && entries[i].Full? && entries[i].key == key && entries[i].val == val
      decreases fuel, 1
    {
      hide Holds, Threaded, Hop, NoneReserved, Grew;
      GrewNot(nextSize, 10, BucketCount());
      if IsFull() {
        ok, i := GrowAndEmplace(key, val, fuel);
      } else {
        var j;
        j, i := FindFree(parent);
        if j == 0 {
          ok, i := GrowAndEmplace(key, val, fuel);
        } else {
          PutLast(parent, j, i, key, val);
          ok := true;
        }
      }
    }

    method PutLast(parent: nat, j: nat, f: nat, key: K, val: V)
      requires Valid() && key !in model && parent < entries.Length && f < entries.Length && entries[f].Empty?
        && 0 < j < NUM_JUMPS && Spare()
      requires f == Hop(parent, j, entries.Length)
      requires var h := index(key, numSlotsMinusOne + 1); h in chains && |chains[h]| > 0 && parent == Last(chains[h])
      modifies entries, this`place, this`model, this`chains, this`spot, this`numElements
      ensures Valid() && model == old(model)[key := val] && entries[f].Full? && entries[f].key == key
        && entries[f].val == val
    {
      hide Holds, Threaded, Hop;
      ghost var slots, home, h := entries[..], HomeIn(index, entries.Length), index(key, numSlotsMinusOne + 1);
      StepAlong(slots, home, chains, spot, h, |chains[h]| - 1);
      ExtendChain(slots, home, chains, spot, h, parent, j, f, key, val);
      HoldsPut(slots, place, model, f, false, key, val);
      HoldsJump(slots[f := Full(false, 0, key, val)], place[key := f], model[key := val], parent, j);
      place, model, numElements := place[key := f], model[key := val], numElements + 1;
      chains, spot := chains[h := chains[h] + [f]], spot[f := Spot(h, |chains[h]|)];
      entries[f] := Full(false, 0, key, val);
      entries[parent] := Jumping(entries[parent], j);
      assert entries[..] == Extended(slots, parent, j, f, key, val);
    }

    method GrowAndEmplace(key: K, val: V, fuel: nat) returns (ok: bool, i: nat)
      requires Loose() && key !in model
      modifies this, entries
      ensures entries == old(entries) || fresh(entries)
      ensures fuel > 0 && Enough(index, old(model).Keys + {key}, fuel + old(BucketCount())) ==> ok
      ensures ok ==> BucketCount() > old(BucketCount()) && Grew(nextSize, 10, old(BucketCount()), BucketCount())
      ensures ok ==> Valid() && model == old(model)[key := val]
      ensures ok ==> i < entries.Length && entries[i].Full? && entries[i].key == key && entries[i].val == val
      decreases fuel, 0
    {
      hide Table.Valid, Holds, Threaded, NoneReserved, GoodIndex, GoodSizes, HomeIn, Enough, Grew;
      ghost var keys, was := model.Keys + {key}, BucketCount();
      i := 0;
      if fuel == 0 {
        return false, 0;
      }
      if Enough(index, keys, fuel + was) {
        EnoughFewer(index, model.Keys, keys, fuel + was, fuel + was);
      }
      ok := Grow(fuel);
      if ok {
        ghost var next := BucketCount();
        if Enough(index, keys, fuel + was) {
          EnoughFewer(index, keys, keys, fuel + was, fuel - 1 + next);
        }
        var inserted;
        ok, i, inserted := Emplace(key, val, fuel - 1);
        if ok {
          GrewThen(nextSize, 10, was, next, BucketCount());
        }
      }
    }

    /** grow */
    method Grow(fuel: nat) returns (ok: bool)
      requires Loose() && fuel > 0
      modifies this, entries
      ensures entries == old(entries) || fresh(entries)
      ensures Enough(index, old(model).Keys, fuel + old(BucketCount())) ==> ok
      ensures ok ==> Valid() && model == old(model) && BucketCount() > old(BucketCount())
      ensures ok ==> Grew(nextSize, 10, old(BucketCount()), BucketCount())
      decreases fuel - 1, 6
    {
      hide Table.Valid, LeastSlots, Holds, Threaded, NoneReserved, GoodIndex, GoodSizes, HomeIn, Enough, Grew;
      ghost var was := BucketCount();
      var buckets := AtLeast(10, 2 * BucketCount());
      SizeEnough(nextSize, buckets);
      if Enough(index, model.Keys, fuel + was) {
        EnoughFewer(index, model.Keys, model.Keys, fuel + was, fuel - 1 + buckets);
      }
      assert AtLeast(buckets, LeastSlots(|model|)) == buckets;
      ok := Rehash(buckets, fuel - 1);
      if ok {
        GrewOnce(nextSize, 10, was, BucketCount());
      }
    }

    function BucketCount(): nat
      reads this`numSlotsMinusOne
    {
      if numSlotsMinusOne == 0 then 0 else numSlotsMinusOne + 1
    }

    /** rehash: also rebuilds a table with entries out of reach, as grow relies on. */
    method Rehash(n: nat, fuel: nat) returns (ok: bool)
      requires Loose() && (Valid() || (n > BucketCount() && n > 1))
      modifies this, entries
      ensures entries == old(entries) || fresh(entries)
      ensures ok ==> Valid() && model == old(model)
      ensures ok && AtLeast(n, LeastSlots(|model|)) > 1 ==> BucketCount() >= AtLeast(n, LeastSlots(|model|))
      ensures var least := AtLeast(n, LeastSlots(|old(model)|));
        least == 0 || (least > 1 && Enough(index, old(model).Keys, fuel + least)) ==> ok
      ensures ok ==>
        var least := AtLeast(n, LeastSlots(|old(model)|));
        Grew(nextSize, 10, if least == 0 then 0 else Counted(nextSize(least)), BucketCount())
      decreases fuel, 5
    {
      hide Holds, Threaded, NoneReserved, GoodIndex, HomeIn, Enough, Grew;
      var items := AtLeast(n, LeastSlots(numElements));
      if items == 0 {
        Reset();
        GrewNot(nextSize, 10, 0);
        return true;
      }
      ghost var reach := fuel + items;
      items := nextSize(items);
      GrewNot(nextSize, 10, BucketCount());
      if items == numSlotsMinusOne + 1 {
        return true;
      }
      if Enough(index, model.Keys, reach) {
        EnoughFewer(index, model.Keys, model.Keys, reach, fuel + items);
      }
      ok := Rebuild(items, fuel);
    }

    /** reset_to_empty_state */
    method Reset()
      requires Loose() && numElements == 0
      modifies this
      ensures Valid() && model == old(model) && fresh(entries) && BucketCount() == 0
    {
      entries := new Slot<K, V>[1](_ => Empty);
      numSlotsMinusOne := 0;
      place, chains, spot := map[], map[], map[];
      assert model == map[];
    }

    /** The part of rehash that moves every entry into a new array. */
    method Rebuild(items: nat, fuel: nat) returns (ok: bool)
      requires Loose() && items > 0
      modifies this
      ensures ok ==> Valid() && model == old(model) && (items > 1 ==> BucketCount() >= items)
      ensures ok ==> Grew(nextSize, 10, Counted(items), BucketCount())
      ensures items > 1 && Enough(index, old(model).Keys, fuel + items) ==> ok
      ensures fresh(entries)
      decreases fuel, 4
    {
      hide Table.Valid, Holds, Threaded, NoneReserved, GoodIndex, GoodSizes, HomeIn, Enough, Moved, Grew;
      ghost var was, wasPlace, wasModel := entries[..], place, model;
      var before, count := entries, entries.Length;
      StartMoved(was, wasPlace, wasModel);
      NewTable(items);
      GrewNot(nextSize, 10, BucketCount());
      ok := true;
      var s := 0;
      while s < count && ok
        invariant s <= count == |was| && fresh(entries) && before[..] == was && before != entries
        invariant ok ==> Valid() && Moved(was, wasPlace, wasModel, model, s) && (items > 1 ==> BucketCount() >= items)
        invariant ok ==> Grew(nextSize, 10, Counted(items), BucketCount())
        invariant items > 1 && Enough(index, wasModel.Keys, fuel + items) ==> ok
      {
        if items > 1 && Enough(index, wasModel.Keys, fuel + items) {
          EnoughFewer(index, wasModel.Keys, wasModel.Keys, fuel + items, fuel + BucketCount());
        }
        ghost var size := BucketCount();
        ok := MoveOver(before[s], fuel, was, wasPlace, wasModel, s);
        if ok {
          GrewThen(nextSize, 10, Counted(items), size, BucketCount());
        }
        s := s + 1;
      }
      if ok {
        AllMoved(was, wasPlace, wasModel, model);
      }
    }

    /** One slot of the old array. */
    method MoveOver(x: Slot<K, V>, fuel: nat, ghost was: seq<Slot<K, V>>, ghost wasPlace: map<K, int>,
                    ghost wasModel: map<K, V>, ghost s: nat)
      returns (ok: bool)
      requires Valid() && s < |was| && x == was[s] && Moved(was, wasPlace, wasModel, model, s)
      modifies this, entries
      ensures entries == old(entries) || fresh(entries)
      ensures ok ==> Valid() && Moved(was, wasPlace, wasModel, model, s + 1) && BucketCount() >= old(BucketCount())
      ensures ok ==> Grew(nextSize, 10, old(BucketCount()), BucketCount())
      ensures Enough(index, wasModel.Keys, fuel + old(BucketCount())) ==> ok
      decreases fuel, 3
    {
      hide Table.Valid, Holds, GoodIndex, GoodSizes, HomeIn, Enough, Moved, Grew;
      GrewNot(nextSize, 10, BucketCount());
      ok := true;
      if x.Full? {
        MovedNext(was, wasPlace, wasModel, model, s);
        ghost var reach := fuel + BucketCount();
        if Enough(index, wasModel.Keys, reach) {
          EnoughFewer(index, model.Keys + {x.key}, wasModel.Keys, reach, reach);
        }
        var i, inserted;
        ok, i, inserted := Emplace(x.key, x.val, fuel);
      } else {
        MovedNothing(was, wasPlace, wasModel, model, s);
      }
    }

    /** If growing goes far enough and no growing is left, a new key finds the slot it asks for empty. */
    lemma EnoughFits(key: K, fuel: nat)
      requires Valid() && key !in model && Enough(index, model.Keys + {key}, fuel + BucketCount())
      ensures fuel > 0 || HasRoom(key)
    {
      hide Holds, Threaded, NoneReserved, Enough, GoodSizes, TailFits, FreeJump, Apart;
      AmpleOrMore(index, model.Keys + {key}, fuel, BucketCount());
      if fuel == 0 {
        HomeEmpty(entries[..], chains, spot, place, model, index, key);
      }
    }

    method NewTable(items: nat)
      requires items > 0 && GoodSizes(nextSize) && GoodIndex(index)
      modifies this
      ensures Valid() && model == map[] && fresh(entries) && numSlotsMinusOne == items - 1
    {
      entries := new Slot<K, V>[items](_ => Empty);
      numSlotsMinusOne, numElements := items - 1, 0;
      place, model, chains, spot := map[], map[], map[], map[];
    }

    // ---- erase

    /** The last two entries of the chain of s, which has a next one. */
    method LastTwo(s: nat) returns (previous: nat, last: nat)
      requires Valid() && s < entries.Length && entries[s].Full? && entries[s].jump != 0
      ensures var h := index(entries[s].key, numSlotsMinusOne + 1);
              && h in chains && |chains[h]| > 1 && s in spot && spot[s].home == h && 0 <= spot[s].pos < |chains[h]| - 1
              && chains[h][spot[s].pos] == s && last == Last(chains[h]) && previous == chains[h][|chains[h]| - 2]
              && previous < entries.Length && last < entries.Length && entries[previous].Full? && entries[last].Full?
              && last != s && last != previous && HomeIn(index, entries.Length)(entries[last].key) == h
    {
      hide Holds, Threaded, Hop;
      ghost var slots, home := entries[..], HomeIn(index, entries.Length);
      ghost var h := index(entries[s].key, numSlotsMinusOne + 1);
      ghost var p := PositionOf(slots, home, chains, spot, s);
      ghost var c, i := chains[h], p + 1;
      StepAlong(slots, home, chains, spot, h, p);
      previous, last := s, Hop(s, entries[s].jump, entries.Length);
      StepAlong(slots, home, chains, spot, h, i);
      while entries[last].jump != 0
        invariant p < i < |c| && last == c[i] && previous == c[i - 1] && last < entries.Length
          && previous < entries.Length
        invariant entries[last].Full? && entries[previous].Full?
        decreases |c| - i
      {
        StepAlong(slots, home, chains, spot, h, i);
        previous, last := last, Hop(last, entries[last].jump, entries.Length);
        i := i + 1;
        StepAlong(slots, home, chains, spot, h, i);
      }
      StepAlong(slots, home, chains, spot, h, i);
      ChainSlots(slots, home, chains, spot, h);
    }

    method WriteInner(s: nat, previous: nat, last: nat)
      requires s < entries.Length && previous < entries.Length && last < entries.Length && s != last && previous != last
      requires entries[s].Full? && entries[previous].Full? && entries[last].Full?
      modifies entries
      ensures entries[..] == WithoutInner(old(entries[..]), s, previous, last)
    {
      entries[s] := Holding(entries[s], entries[last].key, entries[last].val);
      entries[last] := Empty;
      entries[previous] := Jumping(entries[previous], 0);
    }

    method WriteLast(s: nat, parent: nat)
      requires s < entries.Length && parent < entries.Length && s != parent && entries[s].Full? && entries[parent].Full?
      modifies entries
      ensures entries[..] == Shortened(old(entries[..]), s, parent)
    {
      entries[parent] := Jumping(entries[parent], 0);
      entries[s] := Empty;
    }

    /** erase of one entry that has a next one: the last entry of the chain takes its slot. */
    method EraseInner(s: nat)
      requires Valid() && s < entries.Length && entries[s].Full? && entries[s].jump != 0
      modifies this`place, this`model, this`numElements, this`chains, this`spot, entries
      ensures Valid() && old(entries[s]).key in old(model) && model == old(model) - {old(entries[s]).key}
      ensures Erased(old(entries[..]), old(chains), old(spot), entries[..], spot, s)
    {
      hide Loaded, Table.BucketCount, Holds, Threaded, Hop, NoneReserved, Erased, GoodIndex, GoodSizes, HomeIn,
        WithoutInner, Shortened;
      LoadedLess(numElements, BucketCount());
      ghost var slots, home := entries[..], HomeIn(index, entries.Length);
      ghost var h := index(entries[s].key, numSlotsMinusOne + 1);
      var previous, last := LastTwo(s);
      ghost var after, cs, sp, at, left := InnerErased(slots, home, chains, spot, place, model, s, h, previous, last);
      numElements := numElements - 1;
      chains, spot, place, model := cs, sp, at, left;
      WriteInner(s, previous, last);
    }

    /** erase of one entry that is the last of its chain. */
    method EraseLast(s: nat)
      requires Valid() && s < entries.Length && entries[s].Full? && entries[s].jump == 0
      modifies this`place, this`model, this`numElements, this`chains, this`spot, entries
      ensures Valid() && old(entries[s]).key in old(model) && model == old(model) - {old(entries[s]).key}
      ensures Erased(old(entries[..]), old(chains), old(spot), entries[..], spot, s)
    {
      hide Loaded, Table.BucketCount, Holds, Threaded, NoneReserved, Erased, GoodIndex, GoodSizes, HomeIn;
      if !entries[s].hit {
        EraseTail(s);
      } else {
        EraseOnly(s);
      }
    }

    /** The entry before it becomes the last one. */
    method EraseTail(s: nat)
      requires Valid() && s < entries.Length && entries[s].Full? && entries[s].jump == 0 && !entries[s].hit
      modifies this`place, this`model, this`numElements, this`chains, this`spot, entries
      ensures Valid() && old(entries[s]).key in old(model) && model == old(model) - {old(entries[s]).key}
      ensures Erased(old(entries[..]), old(chains), old(spot), entries[..], spot, s)
    {
      hide Loaded, Table.BucketCount, Holds, Threaded, Hop, NoneReserved, Erased, GoodIndex, GoodSizes, HomeIn,
        WithoutInner, Shortened;
      LoadedLess(numElements, BucketCount());
      ghost var slots, home := entries[..], HomeIn(index, entries.Length);
      ghost var h := index(entries[s].key, numSlotsMinusOne + 1);
      HomeIs(index, entries.Length, entries[s].key);
      ghost var after, cs, sp, at, left;
      var parent;
      ghost var p;
      parent, p := FindParent(s);
      after, cs, sp, at, left := LastErased(slots, home, chains, spot, place, model, s, h, parent, p);
      numElements := numElements - 1;
      chains, spot, place, model := cs, sp, at, left;
      WriteLast(s, parent);
    }

    /** It was the only one. */
    method EraseOnly(s: nat)
      requires Valid() && s < entries.Length && entries[s].Full? && entries[s].jump == 0 && entries[s].hit
      modifies this`place, this`model, this`numElements, this`chains, this`spot, entries
      ensures Valid() && old(entries[s]).key in old(model) && model == old(model) - {old(entries[s]).key}
      ensures Erased(old(entries[..]), old(chains), old(spot), entries[..], spot, s)
    {
      hide Loaded, Table.BucketCount, Holds, Threaded, Hop, NoneReserved, Erased, GoodIndex, GoodSizes, HomeIn;
      LoadedLess(numElements, BucketCount());
      ghost var slots, home := entries[..], HomeIn(index, entries.Length);
      ghost var h := index(entries[s].key, numSlotsMinusOne + 1);
      HomeIs(index, entries.Length, entries[s].key);
      ghost var after, cs, sp, at, left;
      after, cs, sp, at, left := OnlyErased(slots, home, chains, spot, place, model, s, h);
      numElements := numElements - 1;
      chains, spot, place, model := cs, sp, at, left;
      entries[s] := Empty;
      assert entries[..] == slots[s := Empty];
    }

    /** erase of one entry */
    method Erase(s: nat)
      requires Valid() && s < entries.Length && entries[s].Full?
      modifies this`place, this`model, this`numElements, this`chains, this`spot, entries
      ensures Valid() && old(entries[s]).key in old(model) && model == old(model) - {old(entries[s]).key}
      ensures Erased(old(entries[..]), old(chains), old(spot), entries[..], spot, s)
    {
      hide Holds, Threaded, Hop, NoneReserved, Erased;
      if entries[s].jump != 0 {
        EraseInner(s);
      } else {
        EraseLast(s);
      }
    }

    /** How far along its chain an entry is: erase of a range counts from the start of the chain. */
    method Depth(s: nat) returns (d: nat)
      requires Valid() && s < entries.Length && entries[s].Full?
      ensures s in spot && spot[s].pos == d
    {
      hide Holds, Threaded, Hop, NoneReserved;
      ghost var slots, home := entries[..], HomeIn(index, entries.Length);
      var h := index(entries[s].key, numSlotsMinusOne + 1);
      ghost var p := PositionOf(slots, home, chains, spot, s);
      d := 0;
      if !entries[s].hit {
        var root := h;
        ChainStarts(slots, home, chains, spot, h);
        StepAlong(slots, home, chains, spot, h, 0);
        d := 1;
        while Hop(root, entries[root].jump, entries.Length) != s
          invariant 0 < d <= p && root == chains[h][d - 1] && 0 <= root < entries.Length && entries[root].Full?
          decreases p - d
        {
          StepAlong(slots, home, chains, spot, h, d - 1);
          root := Hop(root, entries[root].jump, entries.Length);
          StepAlong(slots, home, chains, spot, h, d);
          d := d + 1;
          if d == p + 1 {
            assert false;
          }
        }
        StepAlong(slots, home, chains, spot, h, d - 1);
        SamePosition(slots, home, chains, spot, h, d, p);
      }
    }

    /** The entries in slots lo up to hi with their depths, in the order of iteration. */
    method Victims(lo: nat, hi: nat) returns (v: seq<Victim>)
      requires Valid() && lo <= hi <= entries.Length
      ensures Distinct(v) && AllDeep(entries[..], spot, v)
      ensures forall s :: lo <= s < hi && entries[s].Full? ==> Mentions(v, s)
      ensures forall x :: x in v ==> lo <= x.slot < hi
    {
      hide Holds, Threaded, NoneReserved;
      v := [];
      var i := hi;
      while i > lo
        invariant lo <= i <= hi && Distinct(v) && AllDeep(entries[..], spot, v)
        invariant forall s :: i <= s < hi && entries[s].Full? ==> Mentions(v, s)
        invariant forall x :: x in v ==> i <= x.slot < hi
      {
        i := i - 1;
        if entries[i].Full? {
          var d := Depth(i);
          ghost var was := v;
          v := v + [Victim(d, i)];
          forall s | i <= s < hi && entries[s].Full? ensures Mentions(v, s) { MentionsMore(was, Victim(d, i), s); }
        }
      }
    }

    /** Erasing, from the deepest on, entries listed by depth removes exactly them: the entry an erase moves is the
        last of its chain, and none of the entries still to be erased is. */
    method EraseInOrder(order: seq<Victim>)
      requires Valid() && Distinct(order) && AllDeep(entries[..], spot, order) && ByDepth(order)
      modifies this`place, this`model, this`numElements, this`chains, this`spot, entries
      ensures Valid() && Without(old(entries[..]), old(model), model, order, 0)
    {
      hide Holds, Threaded, NoneReserved, Erased, AllDeep, ByDepth, Distinct, Without;
      ghost var was, wasModel := entries[..], model;
      var i := |order|;
      NothingWithout(was, spot, wasModel, order);
      while i > 0
        invariant 0 <= i <= |order| && Valid() && |was| == entries.Length
        invariant AllDeep(entries[..], spot, order[..i]) && Kept(was, entries[..], order[..i])
        invariant Without(was, wasModel, model, order, i)
      {
        i := i - 1;
        var s := order[i].slot;
        ghost var slots, cs, sp, md := entries[..], chains, spot, model;
        NextVictim(was, slots, spot, order, i);
        Erase(s);
        PendingStay(slots, HomeIn(index, entries.Length), cs, sp, entries[..], spot, was, order, i);
        OneLess(was, wasModel, md, model, order, i);
      }
    }

    /** operator++ of the iterators, which go down the slots; -1 is the end. */
    method NextEntry(i: nat) returns (n: int)
      requires Valid() && i <= entries.Length
      ensures -1 <= n < i && (n >= 0 ==> entries[n].Full?) && forall s :: n < s < i ==> entries[s].Empty?
    {
      hide Holds, Threaded;
      n := i - 1;
      while n >= 0 && entries[n].Empty?
        invariant -1 <= n < i && forall s :: n < s < i ==> entries[s].Empty?
      {
        n := n - 1;
      }
      assert n >= 0 ==> !entries[..][n].Reserved?;
    }

    /** begin */
    method Begin() returns (n: int)
      requires Valid()
      ensures -1 <= n < entries.Length && (n >= 0 ==> entries[n].Full?) && forall s :: n < s < entries.Length ==>
        entries[s].Empty?
    {
      hide Threaded;
      n := NextEntry(if numSlotsMinusOne == 0 then 0 else entries.Length);
      assert numSlotsMinusOne == 0 ==> !entries[..][0].Full? && !entries[..][0].Reserved?;
    }

    /** The iterator that an erase of the entry in slot s gives back. */
    method Following(s: nat) returns (n: int)
      requires Valid() && s < entries.Length
      ensures FirstFrom(entries[..], s, n)
    {
      hide Holds, Threaded, NoneReserved;
      n := s;
      if entries[s].Empty? {
        n := NextEntry(s);
      } else {
        NotReserved(entries[..], s);
      }
    }

    /** clear */
    method Clear()
      requires Valid()
      modifies this`place, this`model, this`numElements, this`chains, this`spot, entries
      ensures Valid() && model == map[] && forall s :: 0 <= s < entries.Length ==> entries[s].Empty?
    {
      hide Threaded;
      if numSlotsMinusOne == 0 {
        assert !entries[..][0].Full? && !entries[..][0].Reserved?;
        return;
      }
      var s := 0;
      while s < entries.Length
        invariant s <= entries.Length && forall i :: 0 <= i < s ==> entries[i].Empty?
      {
        entries[s] := Empty;
        s := s + 1;
      }
      numElements := 0;
      place, model, chains, spot := map[], map[], map[], map[];
      NothingThreaded(entries[..], HomeIn(index, entries.Length));
    }

    /** erase of a range: from the iterator at slot hi - 1 down to the one at slot lo - 1, which stays. The result is
        the slot the range began at if it holds an entry again, otherwise the next entry. */
    method EraseRange(lo: nat, hi: nat) returns (next: int)
      requires Valid() && lo <= hi <= entries.Length
      requires (hi > 0 ==> entries[hi - 1].Full?) && (lo > 0 ==> entries[lo - 1].Full?)
      modifies this`place, this`model, this`numElements, this`chains, this`spot, entries
      ensures Valid() && FirstFrom(entries[..], hi - 1, next)
      ensures RangeGone(old(place), old(model), model, lo, hi)
    {
      hide Loaded, Table.BucketCount, GoodIndex, GoodSizes, Holds, Threaded, NoneReserved, Erased, RangeGone;
      ghost var slots, at, md := entries[..], place, model;
      if lo == hi {
        NoneGone(slots, at, md, lo);
        return hi - 1;
      }
      var second := NextEntry(hi - 1);
      if second == lo - 1 {
        OneGone(slots, at, md, lo, hi);
        Erase(hi - 1);
        next := Following(hi - 1);
        return;
      }
      var first := Begin();
      if first == hi - 1 && lo == 0 {
        AllGone(slots, at, md, hi);
        Clear();
        return -1;
      }
      EraseSome(lo, hi);
      next := Following(hi - 1);
    }

    /** The general case of erasing a range. */
    method EraseSome(lo: nat, hi: nat)
      requires Valid() && lo <= hi <= entries.Length
      modifies this`place, this`model, this`numElements, this`chains, this`spot, entries
      ensures Valid()
      ensures RangeGone(old(place), old(model), model, lo, hi)
    {
      hide Holds, Threaded, NoneReserved, AllDeep, ByDepth, Distinct, Without;
      ghost var slots, at, md := entries[..], place, model;
      var v := Victims(lo, hi);
      var order := SortByDepth(v);
      Sorting(slots, spot, v);
      EraseInOrder(order);
      RangeWithout(slots, at, md, model, v, order, lo, hi);
    }
  }

  // ---- ranges of entries

  /** The first entry an iterator going down from slot b meets; -1 is the end. */
  ghost predicate FirstFrom<K(!new), V(!new)>(slots: seq<Slot<K, V>>, b: int, n: int) {
    b < |slots| && -1 <= n <= b && (n >= 0 ==> slots[n].Full?) && forall s :: n < s <= b ==> slots[s].Empty?
  }

  /** Exactly the keys placed from lo up to hi are gone. */
  ghost predicate RangeGone<K(!new), V(!new)>(place: map<K, int>, model: map<K, V>, now: map<K, V>, lo: nat, hi: nat) {
    && (forall k :: k in now <==> k in model && k in place && !(lo <= place[k] < hi))
    && (forall k :: k in now ==> now[k] == model[k])
  }

  lemma NoneGone<K(!new), V(!new)>(slots: seq<Slot<K, V>>, place: map<K, int>, model: map<K, V>, lo: nat)
    requires Holds(slots, place, model)
    ensures RangeGone(place, model, model, lo, lo)
  {
  }

  lemma NotReserved<K(!new), V(!new)>(slots: seq<Slot<K, V>>, s: nat)
    requires NoneReserved(slots, -1) && s < |slots|
    ensures !slots[s].Reserved?
  {
  }

  lemma NothingThreaded<K(!new), V(!new)>(slots: seq<Slot<K, V>>, home: K -> nat)
    requires forall s :: 0 <= s < |slots| ==> slots[s].Empty?
    ensures Threaded(slots, home, map[], map[]) && Holds(slots, map[], map[]) && NoneReserved(slots, -1)
  {
  }

  lemma OneGone<K(!new), V(!new)>(slots: seq<Slot<K, V>>, place: map<K, int>, model: map<K, V>, lo: nat, hi: nat)
    requires Holds(slots, place, model) && lo < hi <= |slots| && slots[hi - 1].Full?
    requires forall s :: lo <= s < hi - 1 ==> slots[s].Empty?
    ensures RangeGone(place, model, model - {slots[hi - 1].key}, lo, hi)
  {
    forall k | k in model ensures k in place && (lo <= place[k] < hi <==> k == slots[hi - 1].key) {
      assert slots[place[k]].Full?;
    }
  }

  lemma AllGone<K(!new), V(!new)>(slots: seq<Slot<K, V>>, place: map<K, int>, model: map<K, V>, hi: nat)
    requires Holds(slots, place, model) && hi <= |slots| && forall s :: hi <= s < |slots| ==> slots[s].Empty?
    ensures RangeGone(place, model, map[], 0, hi)
  {
    forall k | k in model ensures k in place && 0 <= place[k] < hi {
      assert slots[place[k]].Full?;
    }
  }

  // ---- lists of entries to erase

  datatype Victim = Victim(depth: nat, slot: nat)

  ghost predicate Mentions(v: seq<Victim>, s: int) {
    exists i :: 0 <= i < |v| && v[i].slot == s
  }

  lemma MentionsMore(v: seq<Victim>, x: Victim, s: int)
    requires Mentions(v, s) || x.slot == s
    ensures Mentions(v + [x], s)
  {
    if x.slot == s {
      assert (v + [x])[|v|].slot == s;
    } else {
      var i :| 0 <= i < |v| && v[i].slot == s;
      assert (v + [x])[i].slot == s;
    }
  }

  ghost predicate Distinct(v: seq<Victim>) {
    forall i, j :: 0 <= i < j < |v| ==> v[i].slot != v[j].slot
  }

  ghost predicate Deep<K(!new), V(!new)>(slots: seq<Slot<K, V>>, spot: map<int, Spot>, x: Victim) {
    x.slot < |slots| && slots[x.slot].Full? && x.slot in spot && spot[x.slot].pos == x.depth
  }

  ghost predicate AllDeep<K(!new), V(!new)>(slots: seq<Slot<K, V>>, spot: map<int, Spot>, v: seq<Victim>) {
    forall i :: 0 <= i < |v| ==> Deep(slots, spot, v[i])
  }

  ghost predicate ByDepth(v: seq<Victim>) {
    forall i, j :: 0 <= i < j < |v| ==> v[i].depth <= v[j].depth
  }

  ghost predicate Kept<K(!new), V(!new)>(was: seq<Slot<K, V>>, slots: seq<Slot<K, V>>, v: seq<Victim>) {
    |was| == |slots| && forall i :: 0 <= i < |v| ==>
      v[i].slot < |was| && was[v[i].slot].Full? && slots[v[i].slot].Full? && slots[v[i].slot].key == was[v[i].slot].key
  }

  /** `now` is model without the keys of the entries listed from position i on. */
  ghost predicate Without<K(!new), V(!new)>(was: seq<Slot<K, V>>, model: map<K, V>, now: map<K, V>, order: seq<Victim>,
                                            i: nat) {
    && (forall j :: 0 <= j < |order| ==> order[j].slot < |was| && was[order[j].slot].Full?)
    && (forall k :: k in now <==> k in model && !(exists j :: i <= j < |order| && was[order[j].slot].key == k))
    && (forall k :: k in now ==> now[k] == model[k])
  }

  lemma NothingWithout<K(!new), V(!new)>(was: seq<Slot<K, V>>, spot: map<int, Spot>, model: map<K, V>,
                                         order: seq<Victim>)
    requires AllDeep(was, spot, order)
    ensures Without(was, model, model, order, |order|)
    ensures AllDeep(was, spot, order[..|order|]) && Kept(was, was, order[..|order|])
  {
    assert order[..|order|] == order;
    forall i | 0 <= i < |order|
      ensures order[i].slot < |was| && was[order[i].slot].Full?
    {
      assert Deep(was, spot, order[i]);
    }
  }

  lemma NextVictim<K(!new), V(!new)>(was: seq<Slot<K, V>>, slots: seq<Slot<K, V>>, spot: map<int, Spot>,
                                     order: seq<Victim>, i: nat)
    requires i < |order| && AllDeep(slots, spot, order[..i + 1]) && Kept(was, slots, order[..i + 1])
    ensures order[i].slot < |slots| == |was| && slots[order[i].slot].Full? && was[order[i].slot].Full?
    ensures slots[order[i].slot].key == was[order[i].slot].key
  {
    assert order[..i + 1][i] == order[i];
    assert Deep(slots, spot, order[..i + 1][i]);
  }

  /** An entry still to be erased is never the last of the chain that loses one. */
  lemma NotLast<K(!new), V(!new)>(slots: seq<Slot<K, V>>, home: K -> nat, chains: map<int, seq<int>>,
                                  spot: map<int, Spot>, x: Victim, y: Victim)
    requires Threaded(slots, home, chains, spot) && Deep(slots, spot, x) && Deep(slots, spot, y) && x.slot != y.slot
      && x.depth <= y.depth
    ensures spot[y.slot].home in chains && |chains[spot[y.slot].home]| > 0 && x.slot != Last(chains[spot[y.slot].home])
  {
    var p := PositionOf(slots, home, chains, spot, y.slot);
    var h := spot[y.slot].home;
    NotedAt(slots, home, chains, spot, h, |chains[h]| - 1);
  }

  lemma PendingStay<K(!new), V(!new)>(slots: seq<Slot<K, V>>, home: K -> nat, chains: map<int, seq<int>>,
                                      spot: map<int, Spot>,
                                      slots': seq<Slot<K, V>>, spot': map<int, Spot>, was: seq<Slot<K, V>>,
                                      order: seq<Victim>, i: nat)
    requires Threaded(slots, home, chains, spot) && i < |order| && Distinct(order) && ByDepth(order)
    requires AllDeep(slots, spot, order[..i + 1]) && Kept(was, slots, order[..i + 1])
    requires Erased(slots, chains, spot, slots', spot', order[i].slot)
    ensures AllDeep(slots', spot', order[..i]) && Kept(was, slots', order[..i])
  {
    hide Threaded;
    assert order[..i + 1][i] == order[i] && Deep(slots, spot, order[i]);
    forall j | 0 <= j < i ensures Deep(slots', spot', order[j]) && slots'[order[j].slot].key == was[order[j].slot].key {
      assert order[..i + 1][j] == order[j] && Deep(slots, spot, order[j]);
      NotLast(slots, home, chains, spot, order[j], order[i]);
    }
  }

  lemma OneLess<K(!new), V(!new)>(was: seq<Slot<K, V>>, model: map<K, V>, now: map<K, V>, now': map<K, V>,
                                  order: seq<Victim>, i: nat)
    requires i < |order| && Without(was, model, now, order, i + 1) && order[i].slot < |was| && was[order[i].slot].Full?
    requires now' == now - {was[order[i].slot].key}
    ensures Without(was, model, now', order, i)
  {
    forall k ensures k in now' <==> k in model && !(exists j :: i <= j < |order| && was[order[j].slot].key == k) {
      if exists j :: i <= j < |order| && was[order[j].slot].key == k {
        var j :| i <= j < |order| && was[order[j].slot].key == k;
        assert j == i || k !in now;
      }
    }
  }

  // ---- sorting by depth

  function InsertByDepth(r: seq<Victim>, x: Victim): seq<Victim> {
    if r == [] || x.depth <= r[0].depth then [x] + r else [r[0]] + InsertByDepth(r[1..], x)
  }

  function SortByDepth(v: seq<Victim>): seq<Victim> {
    if v == [] then [] else InsertByDepth(SortByDepth(v[1..]), v[0])
  }

  lemma {:induction false} InsertElements(r: seq<Victim>, x: Victim, y: Victim)
    ensures y in InsertByDepth(r, x) <==> y == x || y in r
  {
    if !(r == [] || x.depth <= r[0].depth) {
      InsertElements(r[1..], x, y);
      assert r == [r[0]] + r[1..];
    }
  }

  lemma {:induction false} InsertSorted(r: seq<Victim>, x: Victim)
    requires ByDepth(r) && Distinct(r) && forall y :: y in r ==> y.slot != x.slot
    ensures ByDepth(InsertByDepth(r, x)) && Distinct(InsertByDepth(r, x))
  {
    var s := InsertByDepth(r, x);
    if !(r == [] || x.depth <= r[0].depth) {
      InsertSorted(r[1..], x);
      var t := InsertByDepth(r[1..], x);
      forall i | 0 <= i < |t| ensures r[0].depth <= t[i].depth && r[0].slot != t[i].slot {
        InsertElements(r[1..], x, t[i]);
        assert t[i] in t;
        if t[i] != x {
          var k :| 0 <= k < |r[1..]| && r[1..][k] == t[i];
          assert r[k + 1] == t[i];
        }
      }
    }
  }

  lemma {:induction false} SortElements(v: seq<Victim>, y: Victim)
    ensures y in SortByDepth(v) <==> y in v
  {
    if v != [] {
      SortElements(v[1..], y);
      InsertElements(SortByDepth(v[1..]), v[0], y);
      assert v == [v[0]] + v[1..];
    }
  }

  lemma {:induction false} SortSorts(v: seq<Victim>)
    requires Distinct(v)
    ensures ByDepth(SortByDepth(v)) && Distinct(SortByDepth(v))
  {
    if v != [] {
      SortSorts(v[1..]);
      forall y | y in SortByDepth(v[1..]) ensures y.slot != v[0].slot {
        SortElements(v[1..], y);
        var k :| 0 <= k < |v[1..]| && v[1..][k] == y;
        assert v[k + 1] == y;
      }
      InsertSorted(SortByDepth(v[1..]), v[0]);
    }
  }

  lemma Sorting<K(!new), V(!new)>(slots: seq<Slot<K, V>>, spot: map<int, Spot>, v: seq<Victim>)
    requires Distinct(v) && AllDeep(slots, spot, v)
    ensures var order := SortByDepth(v);
            Distinct(order) && ByDepth(order) && AllDeep(slots, spot, order) && forall y :: y in order <==> y in v
  {
    var order := SortByDepth(v);
    SortSorts(v);
    forall y ensures y in order <==> y in v { SortElements(v, y); }
    forall i | 0 <= i < |order| ensures Deep(slots, spot, order[i]) {
      assert order[i] in v;
      var k :| 0 <= k < |v| && v[k] == order[i];
    }
  }

  lemma RangeWithout<K(!new), V(!new)>(slots: seq<Slot<K, V>>, place: map<K, int>, model: map<K, V>, now: map<K, V>,
                                       v: seq<Victim>, order: seq<Victim>, lo: nat, hi: nat)
    requires Holds(slots, place, model) && Without(slots, model, now, order, 0) && lo <= hi <= |slots|
    requires forall y :: y in order <==> y in v
    requires forall s :: lo <= s < hi && slots[s].Full? ==> Mentions(v, s)
    requires forall x :: x in v ==> lo <= x.slot < hi
    ensures RangeGone(place, model, now, lo, hi)
  {
    forall k ensures k in now <==> k in model && !(lo <= place[k] < hi) {
      if k in model && lo <= place[k] < hi {
        var i :| 0 <= i < |v| && v[i].slot == place[k];
        assert v[i] in order;
        var j :| 0 <= j < |order| && order[j] == v[i];
        assert slots[order[j].slot].key == k;
      }
      forall j | 0 <= j < |order| ensures lo <= order[j].slot < hi { assert order[j] in order; }
    }
  }

  /** What an erase at slot s does: the chain of s loses its last slot; every other slot keeps entry and position. */
  ghost predicate Erased<K(!new), V(!new)>(slots: seq<Slot<K, V>>, chains: map<int, seq<int>>, spot: map<int, Spot>,
                                           slots': seq<Slot<K, V>>, spot': map<int, Spot>, s: int)
  {
    && |slots'| == |slots| && s in spot && spot[s].home in chains && |chains[spot[s].home]| > 0
    && (forall t :: t in spot' <==> t in spot && t != Last(chains[spot[s].home]))
    && (forall t :: t in spot' ==> spot'[t] == spot[t])
    && (forall t :: 0 <= t < |slots| && t != s && t in spot' && slots[t].Full? ==>
          slots'[t].Full? && slots'[t].key == slots[t].key && slots'[t].val == slots[t].val)
  }

  ghost function WithoutInner<K(!new), V(!new)>(slots: seq<Slot<K, V>>, s: nat, previous: nat,
                                                last: nat): seq<Slot<K, V>>
    requires s < |slots| && previous < |slots| && last < |slots| && slots[s].Full? && slots[previous].Full?
      && slots[last].Full?
  {
    var mid := slots[s := Holding(slots[s], slots[last].key, slots[last].val)];
    Shortened(mid, last, previous)
  }

  lemma Fewer<K(!new), V(!new)>(slots: seq<Slot<K, V>>, place: map<K, int>, model: map<K, V>, s: nat)
    requires Holds(slots, place, model) && s < |slots| && slots[s].Full?
    ensures slots[s].key in model && |model - {slots[s].key}| == |model| - 1
  {
    var k := slots[s].key;
    assert model == (model - {k})[k := model[k]];
  }

  lemma InnerErased<K(!new), V(!new)>(slots: seq<Slot<K, V>>, home: K -> nat, chains: map<int, seq<int>>,
                                      spot: map<int, Spot>,
                                      place: map<K, int>, model: map<K, V>, s: nat, h: int, previous: nat, last: nat)
    returns (slots': seq<Slot<K, V>>, chains': map<int, seq<int>>, spot': map<int, Spot>, place': map<K, int>,
             model': map<K, V>)
    requires Threaded(slots, home, chains, spot) && Holds(slots, place, model) && NoneReserved(slots, -1)
    requires h in chains && |chains[h]| > 1 && s in spot && spot[s].home == h && 0 <= spot[s].pos < |chains[h]| - 1
    requires last == Last(chains[h]) && previous == chains[h][|chains[h]| - 2] && last != s && last != previous
    requires s < |slots| && previous < |slots| && last < |slots| && slots[s].Full? && slots[previous].Full?
      && slots[last].Full?
    requires home(slots[last].key) == h
    ensures slots' == WithoutInner(slots, s, previous, last) && model' == model - {slots[s].key}
    ensures slots[s].key in model && |model'| == |model| - 1
    ensures Threaded(slots', home, chains', spot') && NoneReserved(slots', -1) && Holds(slots', place', model')
    ensures Erased(slots, chains, spot, slots', spot', s)
  {
    hide Holds, Threaded, Hop;
    slots', chains', spot' := WithoutInner(slots, s, previous,
                                           last), chains[h := chains[h][..|chains[h]| - 1]], spot - {last};
    place', model' := (place - {slots[s].key})[slots[last].key := s], model - {slots[s].key};
    var mid := slots[s := Holding(slots[s], slots[last].key, slots[last].val)];
    Fewer(slots, place, model, s);
    Substitute(slots, home, chains, spot, s, slots[last].key, slots[last].val);
    ShortenChain(mid, home, chains, spot, h);
    HoldsReplace(slots, place, model, s, last);
    var gone := mid[last := Empty];
    HoldsJump(gone, (place - {slots[s].key})[slots[last].key := s], model - {slots[s].key}, previous, 0);
    var shut: Slot<K, V> := gone[previous];
    assert WithoutInner(slots, s, previous, last) == gone[previous := Jumping(shut, 0)];
  }

  lemma LastErased<K(!new), V(!new)>(slots: seq<Slot<K, V>>, home: K -> nat, chains: map<int, seq<int>>,
                                     spot: map<int, Spot>,
                                     place: map<K, int>, model: map<K, V>, s: nat, h: int, parent: nat, p: int)
    returns (slots': seq<Slot<K, V>>, chains': map<int, seq<int>>, spot': map<int, Spot>, place': map<K, int>,
             model': map<K, V>)
    requires Threaded(slots, home, chains, spot) && Holds(slots, place, model) && NoneReserved(slots, -1)
    requires s < |slots| && slots[s].Full? && slots[s].jump == 0 && parent < |slots| && slots[parent].Full?
    requires h in chains && 0 < p < |chains[h]| && chains[h][p] == s && chains[h][p - 1] == parent
    ensures slots' == Shortened(slots, s, parent) && model' == model - {slots[s].key}
    ensures slots[s].key in model && |model'| == |model| - 1
    ensures Threaded(slots', home, chains', spot') && NoneReserved(slots', -1) && Holds(slots', place', model')
    ensures Erased(slots, chains, spot, slots', spot', s)
  {
    hide Holds, Threaded, Hop;
    slots', chains', spot' := Shortened(slots, s, parent), chains[h := chains[h][..|chains[h]| - 1]], spot - {s};
    place', model' := place - {slots[s].key}, model - {slots[s].key};
    Fewer(slots, place, model, s);
    StepAlong(slots, home, chains, spot, h, p);
    ChainSlots(slots, home, chains, spot, h);
    NotedAt(slots, home, chains, spot, h, p);
    ShortenChain(slots, home, chains, spot, h);
    HoldsDrop(slots, place, model, s);
    HoldsJump(slots[s := Empty], place - {slots[s].key}, model - {slots[s].key}, parent, 0);
  }

  lemma OnlyErased<K(!new), V(!new)>(slots: seq<Slot<K, V>>, home: K -> nat, chains: map<int, seq<int>>,
                                     spot: map<int, Spot>, place: map<K, int>, model: map<K, V>, s: nat, h: int)
    returns (slots': seq<Slot<K, V>>, chains': map<int, seq<int>>, spot': map<int, Spot>, place': map<K, int>,
             model': map<K, V>)
    requires Threaded(slots, home, chains, spot) && Holds(slots, place, model) && NoneReserved(slots, -1)
    requires s < |slots| && slots[s].Full? && slots[s].jump == 0 && slots[s].hit && h == home(slots[s].key)
    ensures slots' == slots[s := Empty] && model' == model - {slots[s].key}
    ensures slots[s].key in model && |model'| == |model| - 1
    ensures Threaded(slots', home, chains', spot') && NoneReserved(slots', -1) && Holds(slots', place', model')
    ensures Erased(slots, chains, spot, slots', spot', s)
  {
    hide Holds, Threaded, Hop;
    slots', chains', spot' := slots[s := Empty], chains - {h}, spot - {s};
    place', model' := place - {slots[s].key}, model - {slots[s].key};
    Fewer(slots, place, model, s);
    var p := PositionOf(slots, home, chains, spot, s);
    ChainStarts(slots, home, chains, spot, h);
    StepAlong(slots, home, chains, spot, h, p);
    EndChain(slots, home, chains, spot, h);
    HoldsDrop(slots, place, model, s);
  }

  lemma NotedAt<K(!new), V(!new)>(slots: seq<Slot<K, V>>, home: K -> nat, chains: map<int, seq<int>>,
                                  spot: map<int, Spot>, h: int, i: int)
    requires Threaded(slots, home, chains, spot) && h in chains && 0 <= i < |chains[h]|
    ensures chains[h][i] in spot && spot[chains[h][i]] == Spot(h, i)
  {
    assert Noted(chains, spot, h, i);
  }

  lemma HoldsReplace<K(!new), V(!new)>(slots: seq<Slot<K, V>>, place: map<K, int>, model: map<K, V>, s: nat, l: nat)
    requires Holds(slots, place, model) && s < |slots| && l < |slots| && s != l && slots[s].Full? && slots[l].Full?
    ensures slots[s].key in model
    ensures Holds(slots[s := Holding(slots[s], slots[l].key, slots[l].val)][l := Empty],
                  (place - {slots[s].key})[slots[l].key := s], model - {slots[s].key})
  {
  }

  /** The entries of the first n slots, and only they, have been moved. */
  ghost predicate Moved<K(!new), V(!new)>(slots: seq<Slot<K, V>>, place: map<K, int>, model: map<K, V>, now: map<K, V>,
                                          n: nat) {
    && Holds(slots, place, model)
    && (forall k :: k in now <==> k in model && place[k] < n)
    && (forall k :: k in now ==> now[k] == model[k])
  }

  lemma StartMoved<K(!new), V(!new)>(slots: seq<Slot<K, V>>, place: map<K, int>, model: map<K, V>)
    requires Holds(slots, place, model)
    ensures Moved(slots, place, model, map[], 0)
  {
  }

  lemma MovedNext<K(!new), V(!new)>(slots: seq<Slot<K, V>>, place: map<K, int>, model: map<K, V>, now: map<K, V>,
                                    n: nat)
    requires Moved(slots, place, model, now, n) && n < |slots| && slots[n].Full?
    ensures slots[n].key !in now && Moved(slots, place, model, now[slots[n].key := slots[n].val], n + 1)
    ensures now.Keys + {slots[n].key} <= model.Keys
  {
  }

  lemma MovedNothing<K(!new), V(!new)>(slots: seq<Slot<K, V>>, place: map<K, int>, model: map<K, V>, now: map<K, V>,
                                       n: nat)
    requires Moved(slots, place, model, now, n) && n < |slots| && !slots[n].Full?
    ensures Moved(slots, place, model, now, n + 1)
  {
  }

  lemma AllMoved<K(!new), V(!new)>(slots: seq<Slot<K, V>>, place: map<K, int>, model: map<K, V>, now: map<K, V>)
    requires Moved(slots, place, model, now, |slots|)
    ensures now == model
  {
  }

  lemma MoveBegin<K(!new), V(!new)>(slots: seq<Slot<K, V>>, home: K -> nat, chains: map<int, seq<int>>,
                                    spot: map<int, Spot>,
                                    place: map<K, int>, model: map<K, V>, h: int, p: nat, b: nat, parent: nat,
                                    j: nat, f: nat)
    requires Threaded(slots, home, chains, spot) && Holds(slots, place, model) && NoneReserved(slots, -1)
    requires h in chains && 0 < p < |chains[h]| && chains[h][p] == b < |slots| && chains[h][p - 1] == parent < |slots|
    requires slots[parent].Full? && f < |slots| && slots[f].Empty? && 0 < j < NUM_JUMPS && Hop(parent, j, |slots|) == f
    ensures Moving(slots, home, chains[h := chains[h][..p]], TornSpots(spot, h, p), place, model, h, chains[h], p, p, b,
                   parent, j, f)
  {
    hide Threaded, Torn, Holds, Hop, TornSpots;
    Tear(slots, home, chains, spot, h, p);
  }

  /** The tail of chain h is being relocated to make room in slot b: entries up to position q of it have moved, and the
      next one is to go to slot f, reached from slot parent by jump code j. */
  ghost predicate Moving<K(!new), V(!new)>(slots: seq<Slot<K, V>>, home: K -> nat, chains: map<int, seq<int>>,
                                           spot: map<int, Spot>,
                                           place: map<K, int>, model: map<K, V>, h: int, tail: seq<int>, q: nat, p: nat,
                                           b: nat, parent: nat, j: nat, f: nat)
  {
    && Torn(slots, home, chains, spot, h, tail, q) && p <= q < |tail| && tail[p] == b < |slots|
    && parent == Last(chains[h]) && parent < |slots| && slots[parent].Full?
    && f < |slots| && slots[f].Empty? && 0 < j < NUM_JUMPS && Hop(parent, j, |slots|) == f
    && Holds(slots, place, model) && NoneReserved(slots, b) && (q > p ==> slots[b].Reserved?)
  }

  lemma MoveFacts<K(!new), V(!new)>(slots: seq<Slot<K, V>>, home: K -> nat, chains: map<int, seq<int>>,
                                    spot: map<int, Spot>,
                                    place: map<K, int>, model: map<K, V>, h: int, tail: seq<int>, q: nat, p: nat,
                                    b: nat, parent: nat, j: nat, f: nat)
    requires Moving(slots, home, chains, spot, place, model, h, tail, q, p, b, parent, j, f)
    ensures p <= q < |tail| && tail[p] == b < |slots| && parent < |slots| && slots[parent].Full? && f < |slots|
      && slots[f].Empty?
    ensures 0 <= tail[q] < |slots| && slots[tail[q]].Full? && tail[q] != parent && (q > p ==> slots[b].Reserved?)
    ensures slots[tail[q]].jump == 0 <==> q + 1 == |tail|
    ensures q + 1 < |tail| ==> Hop(tail[q], slots[tail[q]].jump, |slots|) == tail[q + 1]
    ensures Holds(slots, place, model) && h in chains && |chains[h]| > 0 && 0 < j && Hop(parent, j, |slots|) == f
  {
    TailSlots(slots, home, chains, spot, h, tail, q);
    TornSlots(slots, home, chains, spot, h, tail, q, h);
    assert q + 1 < |tail| ==> Link(slots, tail, q);
  }

  lemma MoveOn<K(!new), V(!new)>(slots: seq<Slot<K, V>>, home: K -> nat, chains: map<int, seq<int>>,
                                 spot: map<int, Spot>,
                                 place: map<K, int>, model: map<K, V>, h: int, tail: seq<int>, q: nat, p: nat,
                                 b: nat, parent: nat, j: nat, f: nat)
    requires Torn(slots, home, chains, spot, h, tail, q) && p < q < |tail| && tail[p] == b < |slots|
    requires h in chains && |chains[h]| > 0 && parent == Last(chains[h]) && parent < |slots| && slots[parent].Full?
    requires f < |slots| && slots[f].Empty? && 0 < j < NUM_JUMPS && Hop(parent, j, |slots|) == f
    requires Holds(slots, place, model) && NoneReserved(slots, b) && slots[b].Reserved?
    ensures Moving(slots, home, chains, spot, place, model, h, tail, q, p, b, parent, j, f)
  {
    hide Torn, Holds, Hop, NoneReserved;
  }

  lemma MoveOne<K(!new), V(!new)>(slots: seq<Slot<K, V>>, home: K -> nat, chains: map<int, seq<int>>,
                                  spot: map<int, Spot>,
                                  place: map<K, int>, model: map<K, V>, h: int, tail: seq<int>, q: nat, p: nat,
                                  b: nat, parent: nat, j: nat, f: nat)
    requires Moving(slots, home, chains, spot, place, model, h, tail, q, p, b, parent, j, f)
    requires 0 <= tail[q] < |slots| && slots[tail[q]].Full? && tail[q] != parent
    ensures var rest := if q + 1 < |tail| && tail[q] == b then Reserved else Empty;
            var slots', chains', spot' := Relocated(slots, parent, j, f, tail[q], rest), chains[h := chains[h] + [f]],
                                          (spot - {tail[q]})[f := Spot(h, |chains[h]|)];
            && Torn(slots', home, chains', spot', h, tail, q + 1) && Closed(slots', chains'[h])
            && Holds(slots', place[slots[tail[q]].key := f], model) && NoneReserved(slots', b)
            && (q + 1 < |tail| ==> slots'[b].Reserved?) && (q + 1 == |tail| ==> !slots'[b].Full?)
            && slots'[f].Full?
  {
    var it, rest := tail[q], if q + 1 < |tail| && tail[q] == b then Reserved else Empty;
    Relocate(slots, home, chains, spot, h, tail, q, parent, j, f, rest);
    HoldsMove(slots, place, model, it, f, rest);
    var moved := slots[f := Full(false, 0, slots[it].key, slots[it].val)][it := rest];
    HoldsJump(moved, place[slots[it].key := f], model, parent, j);
    assert Relocated(slots, parent, j, f, it, rest) == moved[parent := Jumping(moved[parent], j)];
    TailSlots(slots, home, chains, spot, h, tail, q);
  }

  lemma PositionOf<K(!new), V(!new)>(slots: seq<Slot<K, V>>, home: K -> nat, chains: map<int, seq<int>>,
                                     spot: map<int, Spot>, s: nat)
    returns (p: int)
    requires Threaded(slots, home, chains, spot) && s < |slots| && slots[s].Full?
    ensures var h := home(slots[s].key);
            && h in chains && 0 <= p < |chains[h]| && chains[h][p] == s && (slots[s].hit <==> p == 0)
            && s in spot && spot[s] == Spot(h, p)
  {
    assert Spotted(slots, chains, spot, s);
    var g := spot[s].home;
    p := spot[s].pos;
    assert ChainOk(slots, home, g, chains[g]) && Node(slots, home, g, chains[g], p);
  }

  lemma SamePosition<K(!new), V(!new)>(slots: seq<Slot<K, V>>, home: K -> nat, chains: map<int, seq<int>>,
                                       spot: map<int, Spot>, h: int, i: int, j: int)
    requires Threaded(slots, home, chains, spot) && h in chains && 0 <= i < |chains[h]| && 0 <= j < |chains[h]|
      && chains[h][i] == chains[h][j]
    ensures i == j
  {
    assert Noted(chains, spot, h, i) && Noted(chains, spot, h, j);
  }

  lemma ChainStarts<K(!new), V(!new)>(slots: seq<Slot<K, V>>, home: K -> nat, chains: map<int, seq<int>>,
                                      spot: map<int, Spot>, h: int)
    requires Threaded(slots, home, chains, spot) && h in chains
    ensures |chains[h]| > 0 && chains[h][0] == h
  {
    assert ChainOk(slots, home, h, chains[h]);
  }

  lemma HeldHere<K(!new), V(!new)>(slots: seq<Slot<K, V>>, place: map<K, int>, model: map<K, V>, i: nat)
    requires Holds(slots, place, model) && i < |slots| && slots[i].Full?
    ensures slots[i].key in model && model[slots[i].key] == slots[i].val
  {
  }

  lemma HeldThere<K(!new), V(!new)>(slots: seq<Slot<K, V>>, place: map<K, int>, model: map<K, V>, k: K)
    requires Holds(slots, place, model) && k in model
    ensures k in place && 0 <= place[k] < |slots| && slots[place[k]].Full? && slots[place[k]].key == k
  {
  }
}

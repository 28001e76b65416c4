/**
 The bytell hash table: chains of entries threaded through the slot array. The first entry of a chain sits in the
 slot its hash asks for; every entry has a jump code for the way to the next one.
 */
module Bytell {
  import Words

  const NUM_JUMPS := 126

  /** The jump distances: the first sixteen numbers, 66 triangular numbers, and 44 more that lie further apart. */
  const JUMPS: seq<nat> := NEAR_JUMPS + MIDDLE_JUMPS + LONG_JUMPS + FAR_JUMPS

  const NEAR_JUMPS: seq<nat> := [0, 1, 2, 3, 4, 5, 6, 7, 8, 9, 10, 11, 12, 13, 14, 15]

  const MIDDLE_JUMPS: seq<nat> := [
    21, 28, 36, 45, 55, 66, 78, 91, 105, 120, 136, 153, 171, 190, 210, 231, 253, 276, 300, 325, 351, 378, 406,
    435, 465, 496, 528, 561, 595, 630, 666, 703, 741]

  const LONG_JUMPS: seq<nat> := [
    780, 820, 861, 903, 946, 990, 1035, 1081, 1128, 1176, 1225, 1275, 1326, 1378, 1431, 1485, 1540, 1596, 1653,
    1711, 1770, 1830, 1891, 1953, 2016, 2080, 2145, 2211, 2278, 2346, 2415, 2485, 2556]

  const FAR_JUMPS: seq<nat> := [
    3741, 8385, 18915, 42486, 95703, 215496, 485605, 1091503, 2456436, 5529475, 12437578, 27986421, 62972253,
    141700195, 318819126, 717314626, 1614000520, 3631437253, 8170829695, 18384318876, 41364501751, 93070021080,
    209407709220, 471167588430, 1060127437995, 2385287281530, 5366895564381, 12075513791265, 27169907873235,
    61132301007778, 137547673121001, 309482258302503, 696335090510256, 1566753939653640, 3525196427195653,
    7931691866727775, 17846306747368716, 40154190394120111, 90346928493040500, 203280588949935750,
    457381324898247375, 1029107980662394500, 2315492957028380766, 5209859150892887590]

  /** One slot: its control byte and, if that says so, an entry. `hit` marks the first entry of a chain. */
  datatype Slot<K, V> = Empty | Reserved | Full(hit: bool, jump: nat, key: K, val: V)

  /** set_next */
  function Jumping<K, V>(s: Slot<K, V>, jump: nat): Slot<K, V>
    requires s.Full?
  {
    Full(s.hit, jump, s.key, s.val)
  }

  function Holding<K, V>(s: Slot<K, V>, k: K, v: V): Slot<K, V>
    requires s.Full?
  {
    Full(s.hit, s.jump, k, v)
  }

  /** LinkedListIt::next: the slot a jump code leads to, in a table of n slots. */
  function Hop(i: int, jump: nat, n: nat): (r: int)
    requires n > 0
    ensures 0 <= r < n
  {
    if jump < |JUMPS| then (i + JUMPS[jump]) % n else 0
  }

  /** That is as many slots further on as the distance says, going round the table. */
  lemma HopsAround(i: nat, jump: nat, distance: nat, n: nat, r: nat)
    requires jump < |JUMPS| && distance == JUMPS[jump] && r < n
    ensures Hop(i, jump, n) == r <==> exists rounds: nat :: Onward(i, distance, rounds, n, r)
  {
    hide Onward;
    Around(i, distance, n, r);
  }

  ghost predicate Onward(i: nat, distance: nat, rounds: nat, n: nat, r: nat) {
    i + distance == rounds * n + r
  }

  lemma Around(i: nat, distance: nat, n: nat, r: nat)
    requires r < n
    ensures (i + distance) % n == r <==> exists rounds: nat :: Onward(i, distance, rounds, n, r)
  {
    if exists rounds: nat :: Onward(i, distance, rounds, n, r) {
      var rounds: nat :| Onward(i, distance, rounds, n, r);
      Words.UniqueRemainder(i + distance, rounds, r, n);
    }
    assert Onward(i, distance, (i + distance) / n, n, (i + distance) % n);
  }

  // ---- the control bytes

  const MAGIC_EMPTY := 255
  const MAGIC_RESERVED := 254
  const LIST_ENTRY := 128

  function ControlByte<K, V>(s: Slot<K, V>): nat {
    match s
    case Empty => MAGIC_EMPTY
    case Reserved => MAGIC_RESERVED
    case Full(hit, jump, _, _) => if hit then jump else LIST_ENTRY + jump
  }

  /** With jump codes below 126 the four kinds of control byte never collide, and flag and code can be read back. */
  lemma ControlBytes<K(!new), V(!new)>(s: Slot<K, V>)
    requires s.Full? ==> s.jump < NUM_JUMPS
    ensures ControlByte(s) < 256
    ensures ControlByte(s) == 0xFF <==> s.Empty?
    ensures ControlByte(s) == 0xFE <==> s.Reserved?
    ensures s.Full? && s.hit <==> ControlByte(s) < 0x80
    ensures s.Full? ==> s.jump == ControlByte(s) % 0x80
  {
  }

  // ---- the jump distances

  /** Twice the sum of the numbers up to k. */
  ghost function TwiceTriangle(k: nat): nat {
    k * (k + 1)
  }

  /** Of how many numbers the far jumps are the sums. */
  ghost const FAR_ROWS: seq<nat> := [
    86, 129, 194, 291, 437, 656, 985, 1477, 2216, 3325, 4987, 7481, 11222, 16834, 25251, 37876, 56815, 85222,
    127834, 191751, 287626, 431439, 647159, 970739, 1456109, 2184164, 3276246, 4914369, 7371554, 11057332,
    16585998, 24878997, 37318496, 55977744, 83966617, 125949925, 188924888, 283387333, 425081000, 637621500,
    956432250, 1434648375, 2151972563, 3227958844]

  lemma NearJumps(i: nat)
    requires i < 16
    ensures JUMPS[i] == i
  {
    assert JUMPS[i] == NEAR_JUMPS[i];
  }

  lemma MiddleJumps(i: nat)
    requires i < 66
    ensures 2 * JUMPS[16 + i] == TwiceTriangle(6 + i)
  {
    if i < 33 {
      assert JUMPS[16 + i] == MIDDLE_JUMPS[i];
      FirstRows(i);
    } else {
      assert JUMPS[16 + i] == LONG_JUMPS[i - 33];
      NextRows(i - 33);
    }
  }

  lemma FirstRows(i: nat)
    requires i < 33
    ensures 2 * MIDDLE_JUMPS[i] == TwiceTriangle(6 + i)
  {
    assert i in {0, 1, 2, 3, 4, 5, 6, 7, 8, 9, 10, 11, 12, 13, 14, 15, 16, 17, 18, 19, 20, 21, 22, 23, 24, 25,
                 26, 27, 28, 29, 30, 31, 32};
  }

  lemma NextRows(i: nat)
    requires i < 33
    ensures 2 * LONG_JUMPS[i] == TwiceTriangle(39 + i)
  {
    assert i in {0, 1, 2, 3, 4, 5, 6, 7, 8, 9, 10, 11, 12, 13, 14, 15, 16, 17, 18, 19, 20, 21, 22, 23, 24, 25,
                 26, 27, 28, 29, 30, 31, 32};
  }

  lemma FarJumps(i: nat)
    requires i < 44
    ensures 2 * JUMPS[82 + i] == TwiceTriangle(FAR_ROWS[i])
  {
    assert JUMPS[82 + i] == FAR_JUMPS[i];
    assert i in {0, 1, 2, 3, 4, 5, 6, 7, 8, 9, 10, 11, 12, 13, 14, 15, 16, 17, 18, 19, 20, 21, 22, 23, 24, 25,
                 26, 27, 28, 29, 30, 31, 32, 33, 34, 35, 36, 37, 38, 39, 40, 41, 42, 43};
  }

  // ---- contents

  /** The slots hold exactly the pairs of `model`, each once; `place` says where. */
  ghost predicate Holds<K(!new), V(!new)>(slots: seq<Slot<K, V>>, place: map<K, int>, model: map<K, V>) {
    && place.Keys == model.Keys
    && (forall k :: k in model ==> 0 <= place[k] < |slots| && slots[place[k]].Full?)
    && (forall k :: k in model ==> slots[place[k]].key == k && slots[place[k]].val == model[k])
    && (forall i :: 0 <= i < |slots| && slots[i].Full? ==> slots[i].key in place && place[slots[i].key] == i)
  }

  lemma HoldsPut<K(!new), V(!new)>(slots: seq<Slot<K, V>>, place: map<K, int>, model: map<K, V>, i: nat, hit: bool,
                                   k: K, v: V)
    requires Holds(slots, place, model) && i < |slots| && !slots[i].Full? && k !in model
    ensures Holds(slots[i := Full(hit, 0, k, v)], place[k := i], model[k := v])
  {
  }

  lemma HoldsDrop<K(!new), V(!new)>(slots: seq<Slot<K, V>>, place: map<K, int>, model: map<K, V>, i: nat)
    requires Holds(slots, place, model) && i < |slots| && slots[i].Full?
    ensures slots[i].key in model
    ensures Holds(slots[i := Empty], place - {slots[i].key}, model - {slots[i].key})
  {
  }

  /** Jump codes are no part of the contents. */
  lemma HoldsJump<K(!new), V(!new)>(slots: seq<Slot<K, V>>, place: map<K, int>, model: map<K, V>, i: nat, j: nat)
    requires Holds(slots, place, model) && i < |slots| && slots[i].Full?
    ensures Holds(slots[i := Jumping(slots[i], j)], place, model)
  {
  }

  /** An entry moves to another slot. */
  lemma HoldsMove<K(!new), V(!new)>(slots: seq<Slot<K, V>>, place: map<K, int>, model: map<K, V>, i: nat, f: nat,
                                    rest: Slot<K, V>)
    requires Holds(slots, place, model) && i < |slots| && f < |slots| && slots[i].Full? && !slots[f].Full?
      && !rest.Full?
    ensures Holds(slots[f := Full(false, 0, slots[i].key, slots[i].val)][i := rest], place[slots[i].key := f], model)
  {
  }

  // ---- chains

  datatype Spot = Spot(home: int, pos: int)

  /** Position i of a chain for home slot h holds an entry of that home; the first one of a whole chain is marked. */
  ghost predicate Node<K(!new), V(!new)>(slots: seq<Slot<K, V>>, home: K -> nat, h: int, c: seq<int>, i: int)
    requires 0 <= i < |c|
  {
    0 <= c[i] < |slots| && slots[c[i]].Full? && slots[c[i]].hit == (i == 0) && home(slots[c[i]].key) == h
  }

  ghost predicate Link<K(!new), V(!new)>(slots: seq<Slot<K, V>>, c: seq<int>, i: int)
    requires 0 <= i && i + 1 < |c|
  {
    && 0 <= c[i] < |slots| && slots[c[i]].Full? && 0 < slots[c[i]].jump < NUM_JUMPS
    && Hop(c[i], slots[c[i]].jump, |slots|) == c[i + 1]
  }

  /** The entries of c from position lo on, each linked to the next. */
  ghost predicate Path<K(!new), V(!new)>(slots: seq<Slot<K, V>>, home: K -> nat, h: int, c: seq<int>, lo: nat) {
    && (forall i :: lo <= i < |c| ==> Node(slots, home, h, c, i))
    && (forall i :: lo <= i && i + 1 < |c| ==> Link(slots, c, i))
  }

  ghost predicate Closed<K(!new), V(!new)>(slots: seq<Slot<K, V>>, c: seq<int>)
    requires |c| > 0
  {
    0 <= c[|c| - 1] < |slots| && slots[c[|c| - 1]].Full? && slots[c[|c| - 1]].jump == 0
  }

  ghost predicate ChainOk<K(!new), V(!new)>(slots: seq<Slot<K, V>>, home: K -> nat, h: int, c: seq<int>) {
    |c| > 0 && c[0] == h && Path(slots, home, h, c, 0) && Closed(slots, c)
  }

  /** Every entry is at one position of one chain. */
  ghost predicate Spotted<K(!new), V(!new)>(slots: seq<Slot<K, V>>, chains: map<int, seq<int>>, spot: map<int, Spot>,
                                            s: int)
    requires 0 <= s < |slots|
  {
    slots[s].Full? ==>
      && s in spot && spot[s].home in chains && 0 <= spot[s].pos < |chains[spot[s].home]|
      && chains[spot[s].home][spot[s].pos] == s
  }

  ghost predicate Noted(chains: map<int, seq<int>>, spot: map<int, Spot>, h: int, i: int)
    requires h in chains && 0 <= i < |chains[h]|
  {
    chains[h][i] in spot && spot[chains[h][i]] == Spot(h, i)
  }

  ghost predicate Threaded<K(!new), V(!new)>(slots: seq<Slot<K, V>>, home: K -> nat, chains: map<int, seq<int>>,
                                             spot: map<int, Spot>) {
    && (forall h :: h in chains ==> ChainOk(slots, home, h, chains[h]))
    && (forall s :: 0 <= s < |slots| ==> Spotted(slots, chains, spot, s))
    && (forall h, i :: h in chains && 0 <= i < |chains[h]| ==> Noted(chains, spot, h, i))
  }

  /** A chain is untouched when its own slots are. */
  lemma ChainFrame<K(!new), V(!new)>(slots: seq<Slot<K, V>>, slots': seq<Slot<K, V>>, home: K -> nat, h: int,
                                     c: seq<int>)
    requires ChainOk(slots, home, h, c) && |slots'| == |slots|
    requires forall i :: 0 <= i < |c| ==> 0 <= c[i] < |slots| && slots'[c[i]] == slots[c[i]]
    ensures ChainOk(slots', home, h, c)
  {
    forall i | 0 <= i < |c| ensures Node(slots', home, h, c, i) { assert Node(slots, home, h, c, i); }
    forall i | 0 <= i && i + 1 < |c| ensures Link(slots', c, i) {
      assert Node(slots, home, h, c, i) && Link(slots, c, i);
    }
  }

  /** Changing free slots, and entries of chain h, leaves the other chains alone. */
  lemma OtherChain<K(!new), V(!new)>(slots: seq<Slot<K, V>>, slots': seq<Slot<K, V>>, home: K -> nat,
                                     chains: map<int, seq<int>>, spot: map<int, Spot>, h: int, g: int)
    requires Threaded(slots, home, chains, spot) && g in chains && g != h && |slots'| == |slots|
    requires forall s :: 0 <= s < |slots| && slots[s].Full? && s in spot && spot[s].home != h ==> slots'[s] == slots[s]
    ensures ChainOk(slots', home, g, chains[g])
  {
    var c := chains[g];
    assert ChainOk(slots, home, g, c);
    forall i | 0 <= i < |c| ensures 0 <= c[i] < |slots| && slots'[c[i]] == slots[c[i]] {
      assert Node(slots, home, g, c, i) && Noted(chains, spot, g, i);
    }
    ChainFrame(slots, slots', home, g, c);
  }

  // ---- starting a chain

  lemma StartChain<K(!new), V(!new)>(slots: seq<Slot<K, V>>, home: K -> nat, chains: map<int, seq<int>>,
                                     spot: map<int, Spot>, b: nat, k: K, v: V)
    requires Threaded(slots, home, chains, spot) && b < |slots| && !slots[b].Full? && home(k) == b
    ensures Threaded(slots[b := Full(true, 0, k, v)], home, chains[b := [b]], spot[b := Spot(b, 0)])
  {
    var slots', chains', spot' := slots[b := Full(true, 0, k, v)], chains[b := [b]], spot[b := Spot(b, 0)];
    NoHead(slots, home, chains, spot, b);
    forall h | h in chains' ensures ChainOk(slots', home, h, chains'[h]) {
      if h == b {
        assert Node(slots', home, b, [b], 0);
      } else {
        OtherChain(slots, slots', home, chains, spot, b, h);
      }
    }
    forall s | 0 <= s < |slots'| ensures Spotted(slots', chains', spot', s) { assert Spotted(slots, chains, spot, s); }
    forall h, i | h in chains' && 0 <= i < |chains'[h]| ensures Noted(chains', spot', h, i) {
      if h != b {
        assert Noted(chains, spot, h, i) && ChainOk(slots, home, h, chains[h]) && Node(slots, home, h, chains[h], i);
      }
    }
  }

  lemma NoHead<K(!new), V(!new)>(slots: seq<Slot<K, V>>, home: K -> nat, chains: map<int, seq<int>>,
                                 spot: map<int, Spot>, b: nat)
    requires Threaded(slots, home, chains, spot) && b < |slots| && !slots[b].Full?
    ensures b !in chains
  {
    assert b in chains ==> ChainOk(slots, home, b, chains[b]) && Node(slots, home, b, chains[b], 0);
  }

  // ---- extending a chain

  ghost function Last(c: seq<int>): int
    requires |c| > 0
  {
    c[|c| - 1]
  }

  /** f, a free slot, is linked after the last entry of chain c and gets an entry. */
  ghost function Extended<K(!new), V(!new)>(slots: seq<Slot<K, V>>, parent: nat, j: nat, f: nat, k: K,
                                            v: V): seq<Slot<K, V>>
    requires parent < |slots| && f < |slots| && slots[parent].Full?
  {
    slots[f := Full(false, 0, k, v)][parent := Jumping(slots[parent], j)]
  }

  /** The path with one more entry. */
  lemma ExtendPath<K(!new), V(!new)>(slots: seq<Slot<K, V>>, slots': seq<Slot<K, V>>, home: K -> nat, h: int,
                                     c: seq<int>, f: int)
    requires |c| > 0 && Path(slots, home, h, c, 0) && |slots'| == |slots|
    requires forall i :: 0 <= i < |c| - 1 ==> 0 <= c[i] < |slots| && slots'[c[i]] == slots[c[i]]
    requires 0 <= Last(c) < |slots| && slots'[Last(c)].Full? && slots[Last(c)].Full?
      && slots'[Last(c)].key == slots[Last(c)].key
    requires slots'[Last(c)].hit == slots[Last(c)].hit
    requires 0 < slots'[Last(c)].jump < NUM_JUMPS && Hop(Last(c), slots'[Last(c)].jump, |slots|) == f
    requires 0 <= f < |slots| && slots'[f].Full? && !slots'[f].hit && home(slots'[f].key) == h
    ensures Path(slots', home, h, c + [f], 0)
  {
    var c' := c + [f];
    forall i | 0 <= i < |c'| ensures Node(slots', home, h, c', i) {
      if i < |c| {
        assert Node(slots, home, h, c, i);
      }
    }
    forall i | 0 <= i && i + 1 < |c'| ensures Link(slots', c', i) {
      if i + 1 < |c| {
        assert Node(slots, home, h, c, i) && Link(slots, c, i);
      }
    }
  }

  lemma ExtendChain<K(!new), V(!new)>(slots: seq<Slot<K, V>>, home: K -> nat, chains: map<int, seq<int>>,
                                      spot: map<int, Spot>, h: int, parent: nat, j: nat, f: nat, k: K, v: V)
    requires Threaded(slots, home, chains, spot) && h in chains && |chains[h]| > 0 && parent == Last(chains[h])
    requires f < |slots| && !slots[f].Full? && home(k) == h && 0 < j < NUM_JUMPS && parent < |slots|
      && Hop(parent, j, |slots|) == f
    requires slots[parent].Full?
    ensures Threaded(Extended(slots, parent, j, f, k, v), home, chains[h := chains[h] + [f]],
                     spot[f := Spot(h, |chains[h]|)])
  {
    var c := chains[h];
    var slots', chains', spot' := Extended(slots, parent, j, f, k, v), chains[h := c + [f]], spot[f := Spot(h, |c|)];
    ChainSlots(slots, home, chains, spot, h);
    ExtendPath(slots, slots', home, h, c, f);
    forall g | g in chains' ensures ChainOk(slots', home, g, chains'[g]) {
      if g != h {
        assert Noted(chains, spot, h, |c| - 1);
        OtherChain(slots, slots', home, chains, spot, h, g);
      }
    }
    forall s | 0 <= s < |slots'| ensures Spotted(slots', chains', spot', s) { assert Spotted(slots, chains, spot, s); }
    forall g, i | g in chains' && 0 <= i < |chains'[g]| ensures Noted(chains', spot', g, i) {
      if g != h || i < |c| {
        assert Noted(chains, spot, g, i);
        ChainSlots(slots, home, chains, spot, g);
      }
    }
  }

  /** The slots of a chain are entries, and all different. */
  lemma ChainSlots<K(!new), V(!new)>(slots: seq<Slot<K, V>>, home: K -> nat, chains: map<int, seq<int>>,
                                     spot: map<int, Spot>, h: int)
    requires Threaded(slots, home, chains, spot) && h in chains
    ensures ChainOk(slots, home, h, chains[h])
    ensures forall i :: 0 <= i < |chains[h]| ==> 0 <= chains[h][i] < |slots| && slots[chains[h][i]].Full?
    ensures forall i, j :: 0 <= i < j < |chains[h]| ==> chains[h][i] != chains[h][j]
  {
    var c := chains[h];
    assert ChainOk(slots, home, h, c);
    forall i | 0 <= i < |c| ensures 0 <= c[i] < |slots| && slots[c[i]].Full? { assert Node(slots, home, h, c, i); }
    forall i, j | 0 <= i < j < |c|
      ensures c[i] != c[j]
    {
      assert Noted(chains, spot, h, i) && Noted(chains, spot, h, j);
    }
  }

  // ---- relocating the tail of a chain

  ghost predicate TornSpot<K(!new), V(!new)>(slots: seq<Slot<K, V>>, chains: map<int, seq<int>>, spot: map<int, Spot>,
                                             tail: seq<int>, q: nat, s: int)
    requires 0 <= s < |slots|
  {
    slots[s].Full? ==>
      && s in spot
      && var c := spot[s].home;
         if c == -1 then q <= spot[s].pos < |tail| && tail[spot[s].pos] == s
         else c in chains && 0 <= spot[s].pos < |chains[c]| && chains[c][spot[s].pos] == s
  }

  ghost predicate TailNoted(spot: map<int, Spot>, tail: seq<int>, i: int)
    requires 0 <= i < |tail|
  {
    tail[i] in spot && spot[tail[i]] == Spot(-1, i)
  }

  /** Chain h is being rebuilt: its entries from position q of `tail` on are still where they were but out of reach. */
  ghost predicate Torn<K(!new), V(!new)>(slots: seq<Slot<K, V>>, home: K -> nat, chains: map<int, seq<int>>,
                                         spot: map<int, Spot>, h: int, tail: seq<int>, q: nat)
  {
    && -1 !in chains && h in chains && |chains[h]| > 0 && chains[h][0] == h && Path(slots, home, h, chains[h], 0)
    && (forall g :: g in chains && g != h ==> ChainOk(slots, home, g, chains[g]))
    && 0 < q <= |tail| && Path(slots, home, h, tail, q) && (q < |tail| ==> Closed(slots, tail))
    && (forall s :: 0 <= s < |slots| ==> TornSpot(slots, chains, spot, tail, q, s))
    && (forall g, i :: g in chains && 0 <= i < |chains[g]| ==> Noted(chains, spot, g, i))
    && (forall i :: q <= i < |tail| ==> TailNoted(spot, tail, i))
  }

  ghost function TornSpots(spot: map<int, Spot>, h: int, p: int): map<int, Spot> {
    map s | s in spot :: if spot[s].home == h && spot[s].pos >= p then Spot(-1, spot[s].pos) else spot[s]
  }

  lemma HeadsAreSlots<K(!new), V(!new)>(slots: seq<Slot<K, V>>, home: K -> nat, chains: map<int, seq<int>>,
                                        spot: map<int, Spot>)
    requires Threaded(slots, home, chains, spot)
    ensures forall h :: h in chains ==> 0 <= h < |slots|
  {
    forall h | h in chains ensures 0 <= h < |slots| {
      assert ChainOk(slots, home, h, chains[h]) && Node(slots, home, h, chains[h], 0);
    }
  }

  lemma Tear<K(!new), V(!new)>(slots: seq<Slot<K, V>>, home: K -> nat, chains: map<int, seq<int>>, spot: map<int, Spot>,
                               h: int, p: nat)
    requires Threaded(slots, home, chains, spot) && h in chains && 0 < p < |chains[h]|
    ensures Torn(slots, home, chains[h := chains[h][..p]], TornSpots(spot, h, p), h, chains[h], p)
  {
    var c := chains[h];
    var chains', spot' := chains[h := c[..p]], TornSpots(spot, h, p);
    assert ChainOk(slots, home, h, c);
    HeadsAreSlots(slots, home, chains, spot);
    forall i | 0 <= i < p ensures Node(slots, home, h, c[..p], i) { assert Node(slots, home, h, c, i); }
    forall i | 0 <= i && i + 1 < p ensures Link(slots, c[..p], i) { assert Link(slots, c, i); }
    forall s | 0 <= s < |slots| ensures TornSpot(slots, chains', spot', c, p, s) {
      assert Spotted(slots, chains, spot, s);
    }
    forall g, i | g in chains' && 0 <= i < |chains'[g]|
      ensures Noted(chains', spot', g, i)
    {
      assert Noted(chains, spot, g, i);
    }
    forall i | p <= i < |c| ensures TailNoted(spot', c, i) { assert Noted(chains, spot, h, i); }
  }

  lemma Mend<K(!new), V(!new)>(slots: seq<Slot<K, V>>, home: K -> nat, chains: map<int, seq<int>>, spot: map<int, Spot>,
                               h: int, tail: seq<int>)
    requires Torn(slots, home, chains, spot, h, tail, |tail|) && Closed(slots, chains[h])
    ensures Threaded(slots, home, chains, spot)
  {
    forall s | 0 <= s < |slots|
      ensures Spotted(slots, chains, spot, s)
    {
      assert TornSpot(slots, chains, spot, tail, |tail|, s);
    }
  }

  /** The slots of the rebuilt chain, of the others and of the tail are all different. */
  lemma TornSlots<K(!new), V(!new)>(slots: seq<Slot<K, V>>, home: K -> nat, chains: map<int, seq<int>>,
                                    spot: map<int, Spot>, h: int, tail: seq<int>, q: nat, g: int)
    requires Torn(slots, home, chains, spot, h, tail, q) && g in chains
    ensures forall i :: 0 <= i < |chains[g]| ==> 0 <= chains[g][i] < |slots| && slots[chains[g][i]].Full?
    ensures forall i, j :: 0 <= i < j < |chains[g]| ==> chains[g][i] != chains[g][j]
    ensures forall i, j :: 0 <= i < |chains[g]| && q <= j < |tail| ==> chains[g][i] != tail[j]
    ensures g != h ==> forall i, j :: 0 <= i < |chains[g]| && 0 <= j < |chains[h]| ==> chains[g][i] != chains[h][j]
  {
    var c := chains[g];
    forall i | 0 <= i < |c| ensures 0 <= c[i] < |slots| && slots[c[i]].Full? {
      assert g != h ==> ChainOk(slots, home, g, c);
      assert Node(slots, home, g, c, i);
    }
    forall i, j | 0 <= i < j < |c|
      ensures c[i] != c[j]
    {
      assert Noted(chains, spot, g, i) && Noted(chains, spot, g, j);
    }
    forall i, j | 0 <= i < |c| && q <= j < |tail| ensures c[i] != tail[j] {
      assert Noted(chains, spot, g, i) && TailNoted(spot, tail, j);
    }
    if g != h {
      forall i, j | 0 <= i < |c| && 0 <= j < |chains[h]| ensures c[i] != chains[h][j] {
        assert Noted(chains, spot, g, i) && Noted(chains, spot, h, j);
      }
    }
  }

  lemma TailSlots<K(!new), V(!new)>(slots: seq<Slot<K, V>>, home: K -> nat, chains: map<int, seq<int>>,
                                    spot: map<int, Spot>, h: int, tail: seq<int>, q: nat)
    requires Torn(slots, home, chains, spot, h, tail, q)
    ensures forall i :: q <= i < |tail| ==>
      0 <= tail[i] < |slots| && slots[tail[i]].Full? && !slots[tail[i]].hit && home(slots[tail[i]].key) == h
    ensures forall i, j :: q <= i < j < |tail| ==> tail[i] != tail[j]
  {
    forall i | q <= i < |tail|
      ensures 0 <= tail[i] < |slots| && slots[tail[i]].Full? && !slots[tail[i]].hit && home(slots[tail[i]].key) == h
    {
      assert Node(slots, home, h, tail, i);
    }
    forall i, j | q <= i < j < |tail|
      ensures tail[i] != tail[j]
    {
      assert TailNoted(spot, tail, i) && TailNoted(spot, tail, j);
    }
  }

  /** Moving the first entry out of reach to a free slot after the rebuilt part of the chain. */
  ghost function Relocated<K(!new), V(!new)>(slots: seq<Slot<K, V>>, parent: nat, j: nat, f: nat, it: nat,
                                             rest: Slot<K, V>): seq<Slot<K, V>>
    requires parent < |slots| && f < |slots| && it < |slots| && slots[parent].Full? && slots[it].Full?
  {
    Extended(slots, parent, j, f, slots[it].key, slots[it].val)[it := rest]
  }

  lemma RelocatePaths<K(!new), V(!new)>(slots: seq<Slot<K, V>>, home: K -> nat, chains: map<int, seq<int>>,
                                        spot: map<int, Spot>,
                                        h: int, tail: seq<int>, q: nat, parent: nat, j: nat, f: nat, rest: Slot<K, V>)
    requires Torn(slots, home, chains, spot, h, tail, q) && q < |tail| && parent == Last(chains[h]) && parent < |slots|
    requires slots[parent].Full? && 0 <= tail[q] < |slots| && slots[tail[q]].Full?
    requires f < |slots| && !slots[f].Full? && !rest.Full? && 0 < j < NUM_JUMPS && Hop(parent, j, |slots|) == f
    ensures var slots' := Relocated(slots, parent, j, f, tail[q], rest);
            && Path(slots', home, h, chains[h] + [f], 0) && Closed(slots', chains[h] + [f])
            && Path(slots', home, h, tail, q + 1) && (q + 1 < |tail| ==> Closed(slots', tail))
            && (forall g :: g in chains && g != h ==> ChainOk(slots', home, g, chains[g]))
  {
    var slots' := Relocated(slots, parent, j, f, tail[q], rest);
    TailSlots(slots, home, chains, spot, h, tail, q);
    TornSlots(slots, home, chains, spot, h, tail, q, h);
    ExtendPath(slots, slots', home, h, chains[h], f);
    forall i | q + 1 <= i < |tail| ensures Node(slots', home, h, tail, i) && slots'[tail[i]] == slots[tail[i]] {
      assert Node(slots, home, h, tail, i);
    }
    forall i | q + 1 <= i && i + 1 < |tail| ensures Link(slots', tail, i) { assert Link(slots, tail, i); }
    forall g | g in chains && g != h ensures ChainOk(slots', home, g, chains[g]) {
      TornSlots(slots, home, chains, spot, h, tail, q, g);
      ChainFrame(slots, slots', home, g, chains[g]);
    }
  }

  lemma Relocate<K(!new), V(!new)>(slots: seq<Slot<K, V>>, home: K -> nat, chains: map<int, seq<int>>,
                                   spot: map<int, Spot>,
                                   h: int, tail: seq<int>, q: nat, parent: nat, j: nat, f: nat, rest: Slot<K, V>)
    requires Torn(slots, home, chains, spot, h, tail, q) && q < |tail| && parent == Last(chains[h]) && parent < |slots|
    requires slots[parent].Full? && 0 <= tail[q] < |slots| && slots[tail[q]].Full?
    requires f < |slots| && !slots[f].Full? && !rest.Full? && 0 < j < NUM_JUMPS && Hop(parent, j, |slots|) == f
    ensures Torn(Relocated(slots, parent, j, f, tail[q], rest), home, chains[h := chains[h] + [f]],
                 (spot - {tail[q]})[f := Spot(h, |chains[h]|)], h, tail, q + 1)
    ensures Closed(Relocated(slots, parent, j, f, tail[q], rest), chains[h] + [f])
  {
    var c, it := chains[h], tail[q];
    var slots' := Relocated(slots, parent, j, f, it, rest);
    var chains', spot', q' := chains[h := c + [f]], (spot - {it})[f := Spot(h, |c|)], q + 1;
    RelocatePaths(slots, home, chains, spot, h, tail, q, parent, j, f, rest);
    TailSlots(slots, home, chains, spot, h, tail, q);
    forall s | 0 <= s < |slots'| ensures TornSpot(slots', chains', spot', tail, q', s) {
      assert TornSpot(slots, chains, spot, tail, q, s) && TailNoted(spot, tail, q);
    }
    forall g, i | g in chains' && 0 <= i < |chains'[g]| ensures Noted(chains', spot', g, i) {
      if g != h || i < |c| {
        TornSlots(slots, home, chains, spot, h, tail, q, g);
        assert Noted(chains, spot, g, i);
      }
    }
    forall i | q + 1 <= i < |tail| ensures TailNoted(spot', tail, i) { assert TailNoted(spot, tail, i); }
  }

  // ---- shortening a chain

  ghost function Shortened<K(!new), V(!new)>(slots: seq<Slot<K, V>>, last: nat, prev: nat): seq<Slot<K, V>>
    requires last < |slots| && prev < |slots| && slots[prev].Full?
  {
    slots[last := Empty][prev := Jumping(slots[prev], 0)]
  }

  /** The last entry of a chain goes, and the one before it becomes the last. */
  lemma ShortenChain<K(!new), V(!new)>(slots: seq<Slot<K, V>>, home: K -> nat, chains: map<int, seq<int>>,
                                       spot: map<int, Spot>, h: int)
    requires Threaded(slots, home, chains, spot) && h in chains && |chains[h]| > 1
    ensures var c := chains[h]; var n := |c| - 1;
            && 0 <= c[n] < |slots| && 0 <= c[n - 1] < |slots| && slots[c[n - 1]].Full?
            && Threaded(Shortened(slots, c[n], c[n - 1]), home, chains[h := c[..n]], spot - {c[n]})
  {
    var c := chains[h];
    var n := |c| - 1;
    ChainSlots(slots, home, chains, spot, h);
    var slots', chains', spot' := Shortened(slots, c[n], c[n - 1]), chains[h := c[..n]], spot - {c[n]};
    assert Noted(chains, spot, h, n) && Noted(chains, spot, h, n - 1);
    forall i | 0 <= i < n ensures Node(slots', home, h, c[..n], i) { assert Node(slots, home, h, c, i); }
    forall i | 0 <= i && i + 1 < n ensures Link(slots', c[..n], i) { assert Link(slots, c, i); }
    forall g | g in chains' ensures ChainOk(slots', home, g, chains'[g]) {
      if g != h {
        OtherChain(slots, slots', home, chains, spot, h, g);
      }
    }
    forall s | 0 <= s < |slots'| ensures Spotted(slots', chains', spot', s) { assert Spotted(slots, chains, spot, s); }
    forall g, i | g in chains' && 0 <= i < |chains'[g]|
      ensures Noted(chains', spot', g, i)
    {
      assert Noted(chains, spot, g, i);
    }
  }

  /** A chain of one entry goes altogether. */
  lemma EndChain<K(!new), V(!new)>(slots: seq<Slot<K, V>>, home: K -> nat, chains: map<int, seq<int>>,
                                   spot: map<int, Spot>, h: int)
    requires Threaded(slots, home, chains, spot) && h in chains && |chains[h]| == 1
    ensures 0 <= h < |slots| && Threaded(slots[h := Empty], home, chains - {h}, spot - {h})
  {
    ChainSlots(slots, home, chains, spot, h);
    var slots', chains', spot' := slots[h := Empty], chains - {h}, spot - {h};
    assert Noted(chains, spot, h, 0);
    forall g | g in chains'
      ensures ChainOk(slots', home, g, chains'[g])
    {
      OtherChain(slots, slots', home, chains, spot, h, g);
    }
    forall s | 0 <= s < |slots'| ensures Spotted(slots', chains', spot', s) { assert Spotted(slots, chains, spot, s); }
    forall g, i | g in chains' && 0 <= i < |chains'[g]|
      ensures Noted(chains', spot', g, i)
    {
      assert Noted(chains, spot, g, i);
    }
  }

  /** Another entry of the same home may take an entry's slot. */
  lemma Substitute<K(!new), V(!new)>(slots: seq<Slot<K, V>>, home: K -> nat, chains: map<int, seq<int>>,
                                     spot: map<int, Spot>, s: nat, k: K, v: V)
    requires Threaded(slots, home, chains, spot) && s < |slots| && slots[s].Full? && s in spot
      && home(k) == spot[s].home
    ensures Threaded(slots[s := Holding(slots[s], k, v)], home, chains, spot)
  {
    var slots' := slots[s := Holding(slots[s], k, v)];
    forall g | g in chains ensures ChainOk(slots', home, g, chains[g]) {
      var c := chains[g];
      ChainSlots(slots, home, chains, spot, g);
      forall i | 0 <= i < |c| ensures Node(slots', home, g, c, i) {
        assert Node(slots, home, g, c, i) && Noted(chains, spot, g, i);
      }
      forall i | 0 <= i && i + 1 < |c| ensures Link(slots', c, i) { assert Link(slots, c, i); }
    }
    forall t | 0 <= t < |slots'| ensures Spotted(slots', chains, spot, t) { assert Spotted(slots, chains, spot, t); }
  }
}

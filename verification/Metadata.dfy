/** Metadata trees of objects, and what it means for a tree to be a copy of another under new ids. */
module Metadata {

  type Id = nat

  /** The highest of the 64 bits marks blobs. */
  predicate IsBlob(id: Id) {
    id / 0x8000_0000_0000_0000 % 2 == 1
  }

  /** In plain numbers, for ids of 64 bits and more. */
  ghost predicate BlobId(id: Id) {
    id % 0x1_0000_0000_0000_0000 >= 0x8000_0000_0000_0000
  }

  lemma BlobIds(id: Id)
    ensures IsBlob(id) <==> BlobId(id)
  {
  }

  /** The members that are objects themselves are `subs`, under the names `names`; the plain ones are `fields`. */
  datatype Meta = Meta(id: Id, instance: nat, fields: seq<(string, string)>, names: seq<string>, subs: seq<Meta>)

  ghost function Ids(t: Meta): set<Id>
    decreases t, 1
  {
    {t.id} + Below(t)
  }

  ghost function Below(t: Meta): set<Id>
    decreases t, 0
  {
    set i, x | 0 <= i < |t.subs| && x in Ids(t.subs[i]) :: x
  }

  ghost predicate Distinct(names: seq<string>) {
    forall i, j :: 0 <= i < j < |names| ==> names[i] != names[j]
  }

  /** Every object of the tree is the one that the dictionary has under its id: one id, one object. */
  ghost predicate Known(t: Meta, dict: map<Id, Meta>) {
    t.id in dict && dict[t.id] == t && |t.names| == |t.subs| && Distinct(t.names)
    && forall i :: 0 <= i < |t.subs| ==> Known(t.subs[i], dict)
  }

  /** Every object of the tree lives on the given instance. */
  ghost predicate Local(t: Meta, home: nat) {
    t.instance == home && forall i :: 0 <= i < |t.subs| ==> Local(t.subs[i], home)
  }

  /** The copy has the same members in the same places, with each id replaced as the map says; the metadata of a blob
      is the business of the store. */
  ghost predicate Copied(t: Meta, c: Meta, ids: map<Id, Id>)
    decreases t, 1
  {
    t.id in ids && c.id == ids[t.id] && (BlobId(t.id) || SubsCopied(t, c, ids))
  }

  ghost predicate SubsCopied(t: Meta, c: Meta, ids: map<Id, Id>)
    decreases t, 0
  {
    c.fields == t.fields && c.names == t.names && |c.subs| == |t.subs|
    && forall i :: 0 <= i < |t.subs| ==> Copied(t.subs[i], c.subs[i], ids)
  }

  ghost predicate Extends(m: map<Id, Id>, m': map<Id, Id>) {
    forall x :: x in m ==> x in m' && m'[x] == m[x]
  }

  lemma {:induction false} CopiedMore(t: Meta, c: Meta, m: map<Id, Id>, m': map<Id, Id>)
    requires Copied(t, c, m) && Extends(m, m')
    ensures Copied(t, c, m')
    decreases t
  {
    if !BlobId(t.id) {
      forall i | 0 <= i < |t.subs|
        ensures Copied(t.subs[i], c.subs[i], m')
      {
        CopiedMore(t.subs[i], c.subs[i], m, m');
      }
    }
  }

  lemma {:induction false} KnownIds(t: Meta, dict: map<Id, Meta>, x: Id)
    requires Known(t, dict) && x in Ids(t)
    ensures x in dict && dict[x].id == x && Known(dict[x], dict) && (dict[x] == t || dict[x] < t)
      && Ids(dict[x]) <= Ids(t)
    decreases t
  {
    if x != t.id {
      var i :| 0 <= i < |t.subs| && x in Ids(t.subs[i]);
      KnownIds(t.subs[i], dict, x);
    }
  }

  /** An object does not contain itself. */
  lemma NotBelow(t: Meta, dict: map<Id, Meta>)
    requires Known(t, dict)
    ensures t.id !in Below(t)
  {
    if t.id in Below(t) {
      var i :| 0 <= i < |t.subs| && t.id in Ids(t.subs[i]);
      KnownIds(t.subs[i], dict, t.id);
    }
  }

  // ---- blobs

  /** The blobs that are collected from a tree: those not below an object of another instance. */
  ghost function LocalBlobs(t: Meta, home: nat): set<Id>
    decreases t, |t.subs| + 1
  {
    if t.instance != home then {}
    else (if BlobId(t.id) then {t.id} else {}) + SubBlobs(t, |t.subs|, home)
  }

  /** The same for the first n members. */
  ghost function SubBlobs(t: Meta, n: nat, home: nat): set<Id>
    requires n <= |t.subs|
    decreases t, n
  {
    if n == 0 then {} else SubBlobs(t, n - 1, home) + LocalBlobs(t.subs[n - 1], home)
  }

  /** In a local tree that is every blob. */
  lemma {:induction false} AllBlobs(t: Meta, home: nat)
    requires Local(t, home)
    ensures forall x :: x in LocalBlobs(t, home) <==> x in Ids(t) && BlobId(x)
    decreases t, |t.subs| + 1
  {
    AllSubBlobs(t, |t.subs|, home);
  }

  lemma {:induction false} AllSubBlobs(t: Meta, n: nat, home: nat)
    requires Local(t, home) && n <= |t.subs|
    ensures forall x :: x in SubBlobs(t, n, home) <==> BlobId(x) && exists i :: 0 <= i < n && x in Ids(t.subs[i])
    decreases t, n
  {
    if n > 0 {
      AllSubBlobs(t, n - 1, home);
      AllBlobs(t.subs[n - 1], home);
    }
  }

  // ---- the state of a translation

  ghost predicate Injective(m: map<Id, Id>) {
    forall x, y :: x in m && y in m && m[x] == m[y] ==> x == y
  }

  /** The members of the copy are the copies that the store has for the members. */
  ghost predicate Linked(t: Meta, c: Meta, m: map<Id, Id>, store: map<Id, Meta>) {
    |c.subs| == |t.subs|
    && forall i :: 0 <= i < |t.subs| ==>
         t.subs[i].id in m && m[t.subs[i].id] in store && c.subs[i] == store[m[t.subs[i].id]]
  }

  /** Every id translated so far has its copy in the store, different objects have different copies, and objects that
      share a member share its copy. */
  ghost predicate Settled(m: map<Id, Id>, store: map<Id, Meta>, dict: map<Id, Meta>) {
    Injective(m)
    && forall x :: x in m ==>
         x in dict && m[x] in store && Copied(dict[x], store[m[x]], m)
         && (BlobId(x) || Linked(dict[x], store[m[x]], m, store))
  }

  ghost predicate Grown(store: map<Id, Meta>, store': map<Id, Meta>) {
    forall x :: x in store ==> x in store' && store'[x] == store[x]
  }

  /** One more object is translated, to an id that is new. */
  lemma SettleOne(m: map<Id, Id>, store: map<Id, Meta>, dict: map<Id, Meta>, t: Meta, id: Id, m': map<Id, Id>)
    requires Settled(m, store, dict)
    requires t.id !in m && t.id in dict && dict[t.id] == t && id in store && (forall x :: x in m ==> m[x] != id)
    requires m' == m[t.id := id] && Copied(t, store[id], m') && (BlobId(t.id) || Linked(t, store[id], m, store))
    ensures Settled(m', store, dict) && Extends(m, m')
  {
    hide Copied, BlobId;
    assert Extends(m, m');
    forall x | x in m
      ensures Copied(dict[x], store[m[x]], m')
    {
      CopiedMore(dict[x], store[m[x]], m, m');
    }
  }

  // ---- put_child: the first member of that name is replaced

  function Place(names: seq<string>, name: string): nat
    requires name in names
  {
    if names[0] == name then 0 else 1 + Place(names[1..], name)
  }

  lemma {:induction false} PlaceOf(names: seq<string>, i: nat)
    requires Distinct(names) && i < |names|
    ensures Place(names, names[i]) == i
  {
    if i > 0 {
      PlaceOf(names[1..], i - 1);
    }
  }

  // ---- building a copy

  /** The members before place i have been replaced by the copies in the store. */
  ghost predicate Filled(t: Meta, subs: seq<Meta>, i: nat, m: map<Id, Id>, store: map<Id, Meta>) {
    |subs| == |t.subs|
    && (forall j :: 0 <= j < |subs| && j < i ==>
          t.subs[j].id in m && m[t.subs[j].id] in store && subs[j] == store[m[t.subs[j].id]])
    && (forall j :: 0 <= j < |subs| && i <= j ==> subs[j] == t.subs[j])
  }

  lemma FillNext(t: Meta, subs: seq<Meta>, i: nat, m: map<Id, Id>, m': map<Id, Id>, store: map<Id, Meta>,
      store': map<Id, Meta>, subs': seq<Meta>)
    requires Filled(t, subs, i, m, store) && Extends(m, m') && Grown(store, store') && i < |t.subs|
    requires t.subs[i].id in m' && m'[t.subs[i].id] in store' && subs' == subs[i := store'[m'[t.subs[i].id]]]
    ensures Filled(t, subs', i + 1, m', store')
  {
  }

  lemma AssembleOne(t: Meta, subs: seq<Meta>, m: map<Id, Id>, store: map<Id, Meta>, dict: map<Id, Meta>,
                    m': map<Id, Id>, j: nat)
    requires Settled(m, store, dict) && Known(t, dict) && Filled(t, subs, |t.subs|, m, store)
    requires Extends(m, m') && j < |t.subs|
    ensures Copied(t.subs[j], subs[j], m')
  {
    hide Copied, Below, Extends;
    Member(t, dict, j);
    CopiedMore(t.subs[j], subs[j], m, m');
  }

  lemma Assemble(t: Meta, c: Meta, m: map<Id, Id>, store: map<Id, Meta>, dict: map<Id, Meta>, m': map<Id, Id>)
    requires Settled(m, store, dict) && Known(t, dict) && Filled(t, c.subs, |t.subs|, m, store)
    requires c.fields == t.fields && c.names == t.names && t.id !in m && m' == m[t.id := c.id]
    ensures Copied(t, c, m')
  {
    hide Settled, Known;
    assert Extends(m, m');
    forall j | 0 <= j < |t.subs|
      ensures Copied(t.subs[j], c.subs[j], m')
    {
      AssembleOne(t, c.subs, m, store, dict, m', j);
    }
  }

  lemma Member(t: Meta, dict: map<Id, Meta>, j: nat)
    requires Known(t, dict) && j < |t.subs|
    ensures Known(t.subs[j], dict) && t.subs[j].id in dict && dict[t.subs[j].id] == t.subs[j]
    ensures Ids(t.subs[j]) <= Below(t) && |t.names| == |t.subs| && Distinct(t.names)
  {
    assert t.subs[j].id in Ids(t.subs[j]);
  }

  // ---- copies live here

  /** Everything translated so far has a copy that lives, with all its members, on the given instance. */
  ghost predicate Resident(m: map<Id, Id>, store: map<Id, Meta>, here: nat) {
    forall x :: x in m ==> m[x] in store && Local(store[m[x]], here)
  }

  lemma FilledLocal(t: Meta, c: Meta, m: map<Id, Id>, store: map<Id, Meta>, here: nat)
    requires Filled(t, c.subs, |t.subs|, m, store) && Resident(m, store, here) && c.instance == here
    ensures Local(c, here)
  {
  }

  /** Copies made before stay where they are. */
  lemma ResidentMore(m: map<Id, Id>, store: map<Id, Meta>, store': map<Id, Meta>, here: nat)
    requires Resident(m, store, here) && Grown(store, store')
    ensures Resident(m, store', here)
  {
    hide Local;
  }

  lemma ResidentOne(m: map<Id, Id>, store: map<Id, Meta>, here: nat, x: Id, id: Id)
    requires Resident(m, store, here) && id in store && Local(store[id], here)
    ensures Resident(m[x := id], store, here)
  {
    hide Local;
  }

  // ---- each object is created once

  /** What the store has gained are the copies of the ids translated since, one each, and all under new ids. */
  ghost predicate Created(m: map<Id, Id>, m': map<Id, Id>, store: map<Id, Meta>, store': map<Id, Meta>) {
    && (forall c :: c in store' && c !in store ==> exists x :: x in m' && x !in m && m'[x] == c)
    && (forall x :: x in m' && x !in m ==> m'[x] in store' && m'[x] !in store)
  }

  lemma CreatedNone(m: map<Id, Id>, store: map<Id, Meta>)
    ensures Created(m, m, store, store)
  {
  }

  lemma CreatedTrans(a: map<Id, Id>, b: map<Id, Id>, c: map<Id, Id>, sa: map<Id, Meta>, sb: map<Id, Meta>,
                     sc: map<Id, Meta>)
    requires Created(a, b, sa, sb) && Created(b, c, sb, sc) && Extends(a, b) && Extends(b, c) && Grown(sa, sb)
      && Grown(sb, sc)
    ensures Created(a, c, sa, sc)
  {
    forall k | k in sc && k !in sa ensures exists x :: x in c && x !in a && c[x] == k {
      if k in sb {
        var x :| x in b && x !in a && b[x] == k;
        assert c[x] == k;
      } else {
        var x :| x in c && x !in b && c[x] == k;
        assert x !in a;
      }
    }
  }

  /** One object is created, under an id that was not in use, and then entered. */
  lemma CreatedOne(m: map<Id, Id>, store: map<Id, Meta>, x: Id, id: Id, m': map<Id, Id>, store': map<Id, Meta>)
    requires x !in m && id !in store && id in store' && store'.Keys == store.Keys + {id} && m' == m[x := id]
    ensures Created(m, m', store, store') && Extends(m, m')
  {
    assert x in m' && m'[x] == id;
  }

  lemma ExtendsTrans(a: map<Id, Id>, b: map<Id, Id>, c: map<Id, Id>)
    requires Extends(a, b) && Extends(b, c)
    ensures Extends(a, c)
  {
  }

  lemma GrownTrans(a: map<Id, Meta>, b: map<Id, Meta>, c: map<Id, Meta>)
    requires Grown(a, b) && Grown(b, c)
    ensures Grown(a, c) && a.Keys <= b.Keys <= c.Keys
  {
  }

  lemma Begin(t: Meta, m: map<Id, Id>, store: map<Id, Meta>)
    ensures Filled(t, t.subs, 0, m, store) && Extends(m, m) && Grown(store, store)
  {
  }

  /** A new entry in the store disturbs no translation. */
  lemma Stored(m: map<Id, Id>, store: map<Id, Meta>, dict: map<Id, Meta>, id: Id, store': map<Id, Meta>)
    requires Settled(m, store, dict) && id !in store && id in store' && store' == store[id := store'[id]]
    ensures Settled(m, store', dict) && Grown(store, store') && forall x :: x in m ==> m[x] != id
  {
    hide Copied, BlobId;
  }

  lemma LinkedNow(t: Meta, c: Meta, m: map<Id, Id>, store: map<Id, Meta>, store': map<Id, Meta>)
    requires Filled(t, c.subs, |t.subs|, m, store) && Grown(store, store')
    ensures Linked(t, c, m, store')
  {
  }
}

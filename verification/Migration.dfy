/** Object migration: the sender's messages, the receiver that collects them, and the rebuilding of the objects. */
module Migration {
  import opened Framing
  import opened Metadata
  import opened Protocols

  const MAX_BUFFER_SIZE := 1048576

  ghost function Elements(ids: seq<Id>): set<Id> {
    set x | x in ids
  }

  /** The blobs below the given objects. */
  ghost function Reach(objs: set<Id>, metas: map<Id, Meta>, home: nat): set<Id> {
    set x, b | x in objs && x in metas && b in LocalBlobs(metas[x], home) :: b
  }

  ghost function Joined(pieces: seq<seq<Byte>>): seq<Byte> {
    if pieces == [] then [] else Joined(pieces[..|pieces| - 1]) + pieces[|pieces| - 1]
  }

  class ObjectMigration {
    const objectIds: seq<Id>
    const home: nat                          // the instance of the client
    const codec: Codec
    const metas: map<Id, Meta>               // the client's metadata
    const blobs: map<Id, seq<Byte>>          // the client's blobs
    var blobList: set<Id>
    var objectList: set<Id>
    var wire: seq<Byte>                      // what has been written to the socket
    ghost var script: seq<Step>              // the same as a list of steps

    constructor (objectIds: seq<Id>, home: nat, codec: Codec, metas: map<Id, Meta>, blobs: map<Id, seq<Byte>>)
      ensures this.objectIds == objectIds && this.home == home && this.codec == codec && this.metas == metas
      ensures this.blobs == blobs && blobList == {} && objectList == {} && wire == [] && script == []
    {
      this.objectIds, this.home, this.codec, this.metas, this.blobs := objectIds, home, codec, metas, blobs;
      blobList, objectList, wire, script := {}, {}, [], [];
    }

    method GetBlobList(t: Meta)
      modifies this`blobList
      ensures blobList == old(blobList) + LocalBlobs(t, home)
      decreases t
    {
      if t.instance != home {
        return;
      }
      BlobIds(t.id);
      if IsBlob(t.id) && t.id !in blobList {
        blobList := blobList + {t.id};
      }
      ghost var was := blobList;
      var i := 0;
      while i < |t.subs|
        invariant 0 <= i <= |t.subs|
        invariant blobList == was + SubBlobs(t, i, home)
      {
        GetBlobList(t.subs[i]);
        i := i + 1;
      }
    }

    /** A message goes out behind its length. */
    method Write(root: Root)
      modifies this`wire
      ensures wire == old(wire) + Frame(codec.encode(root))
    {
      var msg := codec.encode(root);
      wire := wire + ToBytes(|msg|, HEADER);
      wire := wire + msg;
    }

    ghost predicate Valid()
      reads this
    {
      && wire == Wire(script, codec) && Sends(script, objectList, metas, {}, blobs)
      && blobList == Reach(objectList, metas, home)
    }

    /** sendObjectMeta: an object named twice is sent once. */
    method SendObjectMeta(id: Id) returns (ok: bool)
      requires Valid()
      modifies this
      ensures ok <==> id in metas
      ensures Valid() && objectList == old(objectList) + if ok then {id} else {}
    {
      hide Wire, Sends, Reach, StepBytes, LocalBlobs;
      if id !in metas {
        return false;
      }
      GetBlobList(metas[id]);
      ReachMore(objectList, metas, home, id);
      if id !in objectList {
        Write(WriteSendObject(id, metas[id]));
        ObjectBytes(id, metas[id], codec);
        WireSnoc(script, Object(id, metas[id]), codec);
        SendsObject(script, objectList, metas, {}, blobs, id);
        script := script + [Object(id, metas[id])];
        objectList := objectList + {id};
      }
      ok := true;
    }

    /** The bytes of a blob go out in pieces of a mebibyte. */
    method SendPieces(data: seq<Byte>) returns (ghost pieces: seq<seq<Byte>>)
      modifies this`wire
      ensures wire == old(wire) + data && Joined(pieces) == data
      ensures forall i :: 0 <= i < |pieces| ==> 0 < |pieces[i]| <= 1048576
      ensures forall i :: 0 <= i && i + 1 < |pieces| ==> |pieces[i]| == 1048576
    {
      var remain, offset := |data|, 0;
      pieces := [];
      while remain > 0
        invariant 0 <= offset <= |data| && offset + remain == |data| && wire == old(wire) + data[..offset]
        invariant Joined(pieces) == data[..offset] && forall i :: 0 <= i < |pieces| ==> 0 < |pieces[i]| <= 1048576
        invariant forall i :: 0 <= i < |pieces| && (remain > 0 || i + 1 < |pieces|) ==> |pieces[i]| == 1048576
      {
        var size := if remain < MAX_BUFFER_SIZE then remain else MAX_BUFFER_SIZE;
        wire := wire + data[offset..offset + size];
        pieces := pieces + [data[offset..offset + size]];
        assert pieces[..|pieces| - 1] + [pieces[|pieces| - 1]] == pieces;
        assert data[..offset] + data[offset..offset + size] == data[..offset + size];
        remain, offset := remain - size, offset + size;
      }
      assert data[..offset] == data;
    }

    method SendBlob(b: Id)
      requires b in blobs
      modifies this`wire, this`script
      ensures script == old(script) + [Blob(b, blobs[b])]
      ensures wire == old(wire) + StepBytes(Blob(b, blobs[b]), codec)
    {
      hide Frame;
      ghost var was := wire;
      Write(WriteSendBlob(b, |blobs[b]|));
      ghost var pieces := SendPieces(blobs[b]);
      assert wire == was + StepBytes(Blob(b, blobs[b]), codec);
      script := script + [Blob(b, blobs[b])];
    }

    method SendObjects() returns (ok: bool)
      requires blobList == {} && objectList == {} && wire == [] && script == []
      modifies this
      ensures ok <==> forall x :: x in objectIds ==> x in metas
      ensures Valid() && (ok ==> objectList == Elements(objectIds))
    {
      hide Wire, Sends, Reach;
      Nothing(metas, blobs, codec, home);
      var i := 0;
      while i < |objectIds|
        invariant 0 <= i <= |objectIds| && Valid() && objectList == Elements(objectIds[..i])
        invariant forall x :: x in objectIds[..i] ==> x in metas
      {
        ok := SendObjectMeta(objectIds[i]);
        if !ok {
          return;
        }
        assert objectIds[..i + 1] == objectIds[..i] + [objectIds[i]];
        i := i + 1;
      }
      assert objectIds[..i] == objectIds;
      ok := true;
    }

    method SendBlobs()
      requires Valid() && blobList <= blobs.Keys
      modifies this`wire, this`script
      ensures wire == Wire(script, codec) && Sends(script, objectList, metas, blobList, blobs)
    {
      hide Wire, Sends, Reach, StepBytes;
      var todo, done := blobList, {};
      while todo != {}
        invariant todo + done == blobList && todo !! done
        invariant wire == Wire(script, codec) && Sends(script, objectList, metas, done, blobs)
        decreases |todo|
      {
        var b :| b in todo;
        WireSnoc(script, Blob(b, blobs[b]), codec);
        SendsBlob(script, objectList, metas, done, blobs, b);
        SendBlob(b);
        todo, done := todo - {b}, done + {b};
      }
    }

    /** Migrate: the objects, then every blob found below them, then the exit request. */
    method Migrate() returns (ok: bool)
      requires blobList == {} && objectList == {} && wire == [] && script == []
      requires Reach(Elements(objectIds), metas, home) <= blobs.Keys
      modifies this
      ensures ok <==> forall x :: x in objectIds ==> x in metas
      ensures ok ==> wire == Wire(script + [Exit], codec)
      ensures ok ==> Sends(script, Elements(objectIds), metas, Reach(Elements(objectIds), metas, home), blobs)
    {
      hide Wire, Sends, Reach, StepBytes, Elements;
      ok := SendObjects();
      if !ok {
        return;
      }
      SendBlobs();
      WireSnoc(script, Exit, codec);
      ExitBytes(codec);
      Write(WriteExit());
    }
  }

  lemma ReachMore(objs: set<Id>, metas: map<Id, Meta>, home: nat, id: Id)
    requires id in metas
    ensures Reach(objs + {id}, metas, home) == Reach(objs, metas, home) + LocalBlobs(metas[id], home)
    ensures id in objs ==> Reach(objs, metas, home) == Reach(objs, metas, home) + LocalBlobs(metas[id], home)
  {
    hide LocalBlobs;
    assert id in objs ==> objs + {id} == objs;
  }

  lemma Nothing(metas: map<Id, Meta>, blobs: map<Id, seq<Byte>>, codec: Codec, home: nat)
    ensures Sends([], {}, metas, {}, blobs) && Wire([], codec) == [] && Reach({}, metas, home) == {}
  {
  }

  lemma ObjectBytes(id: Id, meta: Meta, codec: Codec)
    ensures StepBytes(Object(id, meta), codec) == Frame(codec.encode(WriteSendObject(id, meta)))
  {
    assert Frame(codec.encode(WriteSendObject(id, meta))) + [] == Frame(codec.encode(WriteSendObject(id, meta)));
  }

  lemma ExitBytes(codec: Codec)
    ensures StepBytes(Exit, codec) == Frame(codec.encode(WriteExit()))
  {
    assert Frame(codec.encode(WriteExit())) + [] == Frame(codec.encode(WriteExit()));
  }

  /** The metadata service hands out ids that are not in use. */
  ghost predicate Fresh(pick: set<Id> -> Id) {
    forall used :: pick(used) !in used
  }

  class MigrationServer {
    const pick: set<Id> -> Id               // the id the metadata service chooses, given those in use
    const here: nat                          // the instance of the client
    var objectMap: map<Id, Meta>
    var idMap: map<Id, Id>
    var store: map<Id, Meta>                 // the client's metadata
    var content: map<Id, seq<Byte>>          // the client's blobs

    /** createObject: memoised substitution of ids, from the leaves up. The copy is isomorphic to the tree, ids already
        translated keep their translation, and the store gains one object for each member translated now and
        the copy. */
    method CreateObject(t: Meta, ghost dict: map<Id, Meta>) returns (id: Id)
      requires Fresh(pick)
      requires Settled(idMap, store, dict) && Known(t, dict) && t.id !in idMap && !BlobId(t.id)
      requires Resident(idMap, store, here)
      requires forall x :: x in Below(t) && BlobId(x) ==> x in idMap
      modifies this`idMap, this`store
      ensures Settled(idMap, store, dict) && Extends(old(idMap), idMap) && Grown(old(store), store)
      ensures old(idMap.Keys) <= idMap.Keys <= old(idMap.Keys) + Below(t) && t.id !in idMap
      ensures id in store && id !in old(store) && forall x :: x in idMap ==> idMap[x] != id
      ensures Copied(t, store[id], idMap[t.id := id]) && Linked(t, store[id], idMap, store)
      ensures Resident(idMap, store, here) && Local(store[id], here)
      ensures Created(old(idMap), idMap[t.id := id], old(store), store)
      decreases t, 0
    {
      hide Copied, Linked, Known, Below, Settled, Extends, Grown, Filled, Distinct, Created, Resident, Local;
      var subs, i := t.subs, 0;
      NotBelow(t, dict);
      Begin(t, idMap, store);
      CreatedNone(idMap, store);
      while i < |t.subs|
        invariant 0 <= i <= |t.subs| && Filled(t, subs, i, idMap, store) && |subs| == |t.subs|
        invariant Settled(idMap, store, dict) && Extends(old(idMap), idMap) && Grown(old(store), store)
        invariant old(idMap.Keys) <= idMap.Keys <= old(idMap.Keys) + Below(t)
        invariant Resident(idMap, store, here)
        invariant Created(old(idMap), idMap, old(store), store)
      {
        ghost var m, st, was := idMap, store, subs;
        Member(t, dict, i);
        PlaceOf(t.names, i);
        var new_id := Translate(t.subs[i], dict);
        subs := subs[Place(t.names, t.names[i]) := store[new_id]];
        FillNext(t, was, i, m, idMap, st, store, subs);
        CreatedTrans(old(idMap), m, idMap, old(store), st, store);
        ExtendsTrans(old(idMap), m, idMap);
        GrownTrans(old(store), st, store);
        i := i + 1;
      }
      id := pick(store.Keys);
      ghost var st := store;
      store := store[id := Meta(id, here, t.fields, t.names, subs)];
      FilledLocal(t, store[id], idMap, st, here);
      Assemble(t, store[id], idMap, st, dict, idMap[t.id := id]);
      Stored(idMap, st, dict, id, store);
      ResidentMore(idMap, st, store, here);
      LinkedNow(t, store[id], idMap, st, store);
      CreatedOne(idMap, st, t.id, id, idMap[t.id := id], store);
      CreatedTrans(old(idMap), idMap, idMap[t.id := id], old(store), st, store);
      GrownTrans(old(store), st, store);
    }

    /** What createObject does for a member and the exit request for a received object: look the id up, or create the
        object and enter it. */
    method Translate(t: Meta, ghost dict: map<Id, Meta>) returns (id: Id)
      requires Fresh(pick) && Settled(idMap, store, dict) && Known(t, dict) && Resident(idMap, store, here)
      requires forall x :: x in Ids(t) && BlobId(x) ==> x in idMap
      modifies this`idMap, this`store
      ensures Settled(idMap, store, dict) && Extends(old(idMap), idMap) && Grown(old(store), store)
      ensures old(idMap.Keys) <= idMap.Keys <= old(idMap.Keys) + Ids(t)
      ensures t.id in idMap && idMap[t.id] == id && id in store
      ensures Resident(idMap, store, here)
      ensures Created(old(idMap), idMap, old(store), store)
      ensures t.id in old(idMap) ==> idMap == old(idMap) && store == old(store)
      decreases t, 1
    {
      hide Copied, Linked, Below, Extends, Grown, Created, Resident, Local;
      if t.id in idMap {
        id := idMap[t.id];
        Begin(t, idMap, store);
        CreatedNone(idMap, store);
      } else {
        id := CreateObject(t, dict);
        ghost var m := idMap;
        idMap := idMap[t.id := id];
        ResidentOne(m, store, here, t.id, id);
        SettleOne(m, store, dict, t, id, idMap);
        ExtendsTrans(old(idMap), m, idMap);
      }
    }

    constructor (pick: set<Id> -> Id, here: nat, store: map<Id, Meta>, content: map<Id, seq<Byte>>)
      ensures this.pick == pick && this.here == here && this.store == store && this.content == content
      ensures objectMap == map[] && idMap == map[]
    {
      this.pick, this.here, this.store, this.content := pick, here, store, content;
      objectMap, idMap := map[], map[];
    }

    /** What has arrived after the given steps: the objects, and the blobs under new ids with the same bytes. */
    ghost predicate Received(done: seq<Step>, dict: map<Id, Meta>, content0: map<Id, seq<Byte>>, store0: map<Id, Meta>)
      reads this
    {
      && Arrived(done, objectMap, idMap, content, content0) && Settled(idMap, store, dict) && content.Keys <= store.Keys
      && Created(map[], idMap, store0, store) && Grown(store0, store) && Resident(idMap, store, here)
    }

    /** object_map_.emplace: an entry that is there stays. */
    method TakeObject(id: Id, meta: Meta, ghost done: seq<Step>, ghost dict: map<Id, Meta>,
                      ghost content0: map<Id, seq<Byte>>, ghost store0: map<Id, Meta>)
      requires Received(done, dict, content0, store0) && NewStep(done, Object(id, meta))
      modifies this`objectMap
      ensures Received(done + [Object(id, meta)], dict, content0, store0)
    {
      hide Settled;
      ghost var was := objectMap;
      if id !in objectMap {
        objectMap := objectMap[id := meta];
      }
      ArrivedObject(done, was, idMap, content, content0, id, meta, objectMap);
    }

    /** CreateBlob, Seal and the entry in object_id_map_. */
    method TakeBlob(id: Id, data: seq<Byte>, blobFields: seq<(string, string)>, ghost done: seq<Step>,
        ghost dict: map<Id, Meta>, ghost content0: map<Id, seq<Byte>>, ghost store0: map<Id, Meta>)
      requires Fresh(pick) && Received(done, dict, content0, store0) && NewStep(done, Blob(id, data))
      requires BlobId(id) && id in dict && dict[id].id == id
      modifies this`idMap, this`store, this`content
      ensures Received(done + [Blob(id, data)], dict, content0, store0)
      ensures id !in old(idMap) && id in idMap && idMap == old(idMap)[id := idMap[id]] && idMap[id] !in old(store)
      ensures store[idMap[id]] == Meta(idMap[id], here, blobFields, [], [])
      ensures content == old(content)[idMap[id] := data] && store == old(store)[idMap[id] := store[idMap[id]]]
    {
      hide Settled, Copied, Created, Grown, Extends, Arrived, Resident;
      ghost var m, st, ct := idMap, store, content;
      NotYet(done, objectMap, m, ct, content0, id, data);
      var new_id := pick(store.Keys);
      store := store[new_id := Meta(new_id, here, blobFields, [], [])];
      content := content[new_id := data];
      if id !in idMap {
        idMap := idMap[id := new_id];
      }
      Stored(m, st, dict, new_id, store);
      ArrivedBlob(done, objectMap, m, ct, content0, id, data, new_id, idMap, content);
      ResidentMore(m, st, store, here);
      ResidentOne(m, store, here, id, new_id);
      BlobCopied(dict[id], store[new_id], idMap);
      SettleOne(m, store, dict, dict[id], new_id, idMap);
      CreatedOne(m, st, id, new_id, idMap, store);
      AllExtend(m);
      CreatedTrans(map[], m, idMap, store0, st, store);
      GrownTrans(store0, st, store);
    }

    /** One message off the stream; `next` is the one that is waiting there, if any. */
    method ReadMessage(stream: seq<Byte>, at: nat, codec: Codec, ghost next: Root)
      returns (root: Option<Root>, at': nat)
      requires at <= |stream| && Faithful(codec)
      ensures at <= at' <= |stream| && (root.Some? ==> at < at')
      ensures Waiting(stream, at, codec.encode(next)) ==>
        root == Some(next) && at' == at + HEADER + |codec.encode(next)|
    {
      hide Waiting, FromBytes, Fitting;
      if Waiting(stream, at, codec.encode(next)) {
        WaitingParts(stream, at, codec.encode(next));
      }
      if |stream| - at < HEADER {
        return None, at;
      }
      var length := FromBytes(stream[at..at + HEADER]);
      at' := at + HEADER;
      if |stream| - at' < length {
        return None, at';
      }
      var text := stream[at'..at' + length];
      at' := at' + length;
      root := codec.decode(text);
    }

    /** The bytes of a blob come in the same pieces. */
    method ReadPieces(stream: seq<Byte>, at: nat, size: nat) returns (data: seq<Byte>, at': nat)
      requires at + size <= |stream|
      ensures data == stream[at..at + size] && at' == at + size
    {
      var remain := size;
      data, at' := [], at;
      while remain > 0
        invariant 0 <= remain && at <= at' && at' + remain == at + size && data == stream[at..at']
      {
        var piece := if remain < MAX_BUFFER_SIZE then remain else MAX_BUFFER_SIZE;
        data := data + stream[at'..at' + piece];
        at', remain := at' + piece, remain - piece;
      }
    }

    /** The exit request: every object received is translated. */
    method BuildAll(ghost dict: map<Id, Meta>)
      requires Fresh(pick) && Settled(idMap, store, dict) && Resident(idMap, store, here)
      requires forall x :: x in objectMap ==> Complete(x, objectMap[x], dict, idMap.Keys)
      modifies this`idMap, this`store
      ensures Settled(idMap, store, dict) && Extends(old(idMap), idMap) && Grown(old(store), store)
      ensures Resident(idMap, store, here)
      ensures Created(old(idMap), idMap, old(store), store)
      ensures forall x :: x in objectMap ==> x in idMap
    {
      hide Settled, Extends, Grown, Created, Ids, Known, Resident;
      CreatedNone(idMap, store);
      var todo := objectMap.Keys;
      Begin(Meta(0, 0, [], [], []), idMap, store);
      while todo != {}
        invariant todo <= objectMap.Keys && Settled(idMap, store, dict) && old(idMap.Keys) <= idMap.Keys
        invariant Resident(idMap, store, here)
        invariant Created(old(idMap), idMap, old(store), store)
        invariant Extends(old(idMap), idMap) && Grown(old(store), store)
        invariant forall x :: x in objectMap && x !in todo ==> x in idMap
        decreases |todo|
      {
        var x :| x in todo;
        ghost var m, st := idMap, store;
        var id := Translate(objectMap[x], dict);
        CreatedTrans(old(idMap), m, idMap, old(store), st, store);
        ExtendsTrans(old(idMap), m, idMap);
        GrownTrans(old(store), st, store);
        todo := todo - {x};
      }
    }

    /** Over the messages that a sender writes, all blobs are there when the exit request comes. */
    method TakeExit(ghost script: seq<Step>, ghost objs: set<Id>, ghost metas: map<Id, Meta>, ghost sent: set<Id>,
        ghost blobs: map<Id, seq<Byte>>, ghost dict: map<Id, Meta>, ghost content0: map<Id, seq<Byte>>,
        ghost store0: map<Id, Meta>)
      requires Fresh(pick) && Received(script, dict, content0, store0) && Sends(script, objs, metas, sent, blobs)
      requires forall x :: x in objs && x in metas ==> Complete(x, metas[x], dict, sent)
      modifies this`idMap, this`store
      ensures Rebuilt(objs, metas, sent, blobs, idMap, store, content, content0, store0, dict, here)
    {
      hide Settled, Complete, Sends, Arrived, Created, Rebuilt, Extends, Grown, Resident;
      ghost var m, st := idMap, store;
      AllHere(script, objs, metas, sent, blobs, objectMap, idMap, content, content0, dict);
      BuildAll(dict);
      AllExtend(m);
      CreatedTrans(map[], m, idMap, store0, st, store);
      GrownTrans(store0, st, store);
      Finish(script, objs, metas, sent, blobs, objectMap, m, idMap, store, content, content0, store0, dict,
             here);
    }

    /** One turn of the loop; `script` is what the sender wrote before the exit request, `k` the steps taken. */
    method Turn(stream: seq<Byte>, at: nat, codec: Codec, blobFields: seq<(string, string)>,
        ghost script: seq<Step>, ghost k: nat, ghost objs: set<Id>, ghost metas: map<Id, Meta>, ghost sent: set<Id>,
        ghost blobs: map<Id, seq<Byte>>, ghost dict: map<Id, Meta>, ghost content0: map<Id, seq<Byte>>,
        ghost store0: map<Id, Meta>) returns (ok: bool, at': nat, reading: bool)
      requires Fresh(pick) && Faithful(codec) && k <= |script| && at <= |stream|
      requires stream[at..] == Wire((script + [Exit])[k..], codec) && Sends(script, objs, metas, sent, blobs)
      requires Short(script + [Exit], codec)
      requires Received(script[..k], dict, content0, store0)
      requires forall x :: x in objs && x in metas ==> Complete(x, metas[x], dict, sent)
      requires forall b :: b in sent ==> BlobId(b) && b in dict && dict[b].id == b
      modifies this
      ensures ok && at < at' <= |stream| && reading == (k < |script|)
      ensures reading ==>
        stream[at'..] == Wire((script + [Exit])[k + 1..], codec) && Received(script[..k + 1], dict, content0, store0)
      ensures !reading ==> Rebuilt(objs, metas, sent, blobs, idMap, store, content, content0, store0, dict, here)
    {
      hide Wire, Sends, Settled, Complete, Faithful, Short, Fitting, Frame, Arrived, Rebuilt, Message, ReadSendObject,
        ReadSendBlob, ParseMigrateAction, Received, Waiting, NewStep;
      ghost var all := script + [Exit];
      ghost var text := codec.encode(Message(all[k]));
      Next(stream, at, all, k, codec, text, at + HEADER + |text|);
      StepAt(script, objs, metas, sent, blobs, k);
      KindOf(all[k]);
      var root;
      root, at' := ReadMessage(stream, at, codec, Message(all[k]));
      ok, reading := root.Some?, true;
      if ok {
        match ParseMigrateAction(root.value.kind) {
          case SendObjectRequest =>
            var read := ReadSendObject(root.value);
            ok := read.Some?;
            if ok {
              TakeObject(read.value.0, read.value.1, script[..k], dict, content0, store0);
            }
          case SendBlobBufferRequest =>
            var read := ReadSendBlob(root.value);
            ok := read.Some? && |stream| - at' >= read.value.1;
            if ok {
              var data;
              data, at' := ReadPieces(stream, at', read.value.1);
              TakeBlob(read.value.0, data, blobFields, script[..k], dict, content0, store0);
            }
          case ExitRequest =>
            TakeExit(script, objs, metas, sent, blobs, dict, content0, store0);
            reading := false;
          case NullAction =>
        }
      }
    }

    /** Start: the messages are taken one by one until the exit request. Over the stream that a sender writes, every
        blob arrives once and with its bytes before the exit request, and every object gets a copy. */
    method Start(stream: seq<Byte>, codec: Codec, blobFields: seq<(string, string)>, ghost script: seq<Step>,
        ghost objs: set<Id>, ghost metas: map<Id, Meta>, ghost sent: set<Id>, ghost blobs: map<Id, seq<Byte>>,
        ghost dict: map<Id, Meta>)
      returns (ok: bool)
      requires Fresh(pick) && Faithful(codec) && objectMap == map[] && idMap == map[]
      requires content.Keys <= store.Keys
      requires stream == Wire(script + [Exit], codec) && Sends(script, objs, metas, sent, blobs)
      requires Short(script + [Exit], codec)
      requires forall x :: x in objs && x in metas ==> Complete(x, metas[x], dict, sent)
      requires forall b :: b in sent ==> BlobId(b) && b in dict && dict[b].id == b
      modifies this
      ensures ok && Rebuilt(objs, metas, sent, blobs, idMap, store, content, old(content), old(store), dict, here)
    {
      hide Wire, Sends, Complete, Faithful, Rebuilt, Short;
      ghost var all, k := script + [Exit], 0;
      ghost var content0, store0 := content, store;
      var at, reading := 0, true;
      ok := true;
      assert script[..0] == [] && all[0..] == all && stream[0..] == stream;
      while ok && reading
        invariant ok && 0 <= at <= |stream|
        invariant reading ==> 0 <= k <= |script|
        invariant reading ==> stream[at..] == Wire(all[k..], codec) && Received(script[..k], dict, content0, store0)
        invariant !reading ==> Rebuilt(objs, metas, sent, blobs, idMap, store, content, content0, store0, dict, here)
        decreases |stream| - at
      {
        ok, at, reading := Turn(stream, at, codec, blobFields, script, k, objs, metas, sent, blobs, dict, content0,
                                store0);
        k := k + 1;
      }
    }
  }

  /** Every blob of every received tree is in the id map when the exit request is handled. */
  lemma AllHere(script: seq<Step>, objs: set<Id>, metas: map<Id, Meta>, sent: set<Id>, blobs: map<Id, seq<Byte>>,
                objectMap: map<Id, Meta>, idMap: map<Id, Id>, content: map<Id, seq<Byte>>,
                content0: map<Id, seq<Byte>>, dict: map<Id, Meta>)
    requires Sends(script, objs, metas, sent, blobs) && Arrived(script, objectMap, idMap, content, content0)
    requires forall x :: x in objs && x in metas ==> Complete(x, metas[x], dict, sent)
    ensures forall x :: x in objectMap ==> Complete(x, objectMap[x], dict, idMap.Keys)
  {
    hide Known, Ids, BlobId;
    forall b | b in sent
      ensures b in idMap
    {
      assert Blob(b, blobs[b]) in script;
    }
    forall x | x in objectMap
      ensures Complete(x, objectMap[x], dict, idMap.Keys)
    {
      assert Object(x, objectMap[x]) in script;
    }
  }

  lemma AllExtend(m: map<Id, Id>)
    ensures Extends(map[], m)
  {
  }

  lemma Finish(script: seq<Step>, objs: set<Id>, metas: map<Id, Meta>, sent: set<Id>, blobs: map<Id, seq<Byte>>,
      objectMap: map<Id, Meta>, m: map<Id, Id>, idMap: map<Id, Id>, store: map<Id, Meta>, content: map<Id, seq<Byte>>,
      content0: map<Id, seq<Byte>>, store0: map<Id, Meta>, dict: map<Id, Meta>, here: nat)
    requires Sends(script, objs, metas, sent, blobs) && Arrived(script, objectMap, m, content, content0)
      && Extends(m, idMap)
    requires forall x :: x in objs && x in metas ==> Complete(x, metas[x], dict, sent)
    requires forall x :: x in objectMap ==> x in idMap
    requires Settled(idMap, store, dict) && Created(map[], idMap, store0, store) && Grown(store0, store)
    requires Resident(idMap, store, here)
    ensures Rebuilt(objs, metas, sent, blobs, idMap, store, content, content0, store0, dict, here)
  {
    hide Copied, Linked, Ids, BlobId, Created, Grown, Injective, Resident;
    forall x | x in objs
      ensures x in metas && x in idMap && idMap[x] in store && Copied(metas[x], store[idMap[x]], idMap)
    {
      assert Object(x, metas[x]) in script;
    }
    forall b | b in sent
      ensures b in idMap && idMap[b] in content && content[idMap[b]] == blobs[b]
    {
      assert Blob(b, blobs[b]) in script;
    }
    forall c | c in content && c !in content0
      ensures exists b :: b in sent && b in idMap && idMap[b] == c
    {
      var b :| b in m && m[b] == c;
      assert Blob(b, content[m[b]]) in script;
    }
  }

  ghost function KindOfStep(step: Step): Action {
    match step
    case Object(_, _) => SendObjectRequest
    case Blob(_, _) => SendBlobBufferRequest
    case Exit => ExitRequest
  }

  lemma KindOf(step: Step)
    ensures ParseMigrateAction(Message(step).kind) == KindOfStep(step)
    ensures step.Object? ==> ReadSendObject(Message(step)) == Some((step.id, step.meta))
    ensures step.Blob? ==> ReadSendBlob(Message(step)) == Some((step.id, |step.data|))
  {
    match step
    case Object(id, meta) => ObjectRoundTrip(id, meta);
    case Blob(id, data) => BlobRoundTrip(id, |data|);
    case Exit => ExitRoundTrip();
  }

  /** Between steps, the next message is waiting, and behind it the bytes of the blob and the rest. */
  lemma Next(stream: seq<Byte>, at: nat, all: seq<Step>, k: nat, codec: Codec, text: seq<Byte>, at': nat)
    requires at <= |stream| && k < |all| && stream[at..] == Wire(all[k..], codec) && Short(all, codec)
    requires text == codec.encode(Message(all[k])) && at' == at + HEADER + |text|
    ensures Waiting(stream, at, text) && at' + |Payload(all[k])| <= |stream|
    ensures stream[at'..at' + |Payload(all[k])|] == Payload(all[k])
    ensures stream[at' + |Payload(all[k])|..] == Wire(all[k + 1..], codec)
  {
    hide Message, Payload, Wire, Fitting, Frame;
    WireNext(all, k, codec);
    Cut(stream, at, Frame(text), Payload(all[k]), Wire(all[k + 1..], codec));
  }

  lemma Cut(stream: seq<Byte>, at: nat, a: seq<Byte>, b: seq<Byte>, c: seq<Byte>)
    requires at <= |stream| && stream[at..] == a + (b + c)
    ensures at + |a| + |b| <= |stream| && a <= stream[at..]
    ensures stream[at + |a|..at + |a| + |b|] == b && stream[at + |a| + |b|..] == c
  {
    assert stream == stream[..at] + (a + (b + c));
  }

  /** Every step but the last is an object or a blob, and none repeats an earlier one. */
  lemma StepAt(script: seq<Step>, objs: set<Id>, metas: map<Id, Meta>, sent: set<Id>, blobs: map<Id, seq<Byte>>, k: nat)
    requires Sends(script, objs, metas, sent, blobs) && k <= |script|
    ensures (script + [Exit])[k].Exit? <==> k == |script|
    ensures k == |script| ==> script[..k] == script
    ensures k < |script| ==> NewStep(script[..k], script[k]) && script[..k + 1] == script[..k] + [script[k]]
    ensures k < |script| && script[k].Blob? ==> script[k].id in sent
  {
    assert forall s :: s in script[..k] ==> s in script;
    assert k < |script| ==> script[k] in script;
  }

  ghost predicate NewStep(done: seq<Step>, step: Step) {
    forall s :: s in done ==>
      (s.Object? && step.Object? ==> s.id != step.id) && (s.Blob? && step.Blob? ==> s.id != step.id)
  }

  /** What a whole run achieves: every object has a copy, isomorphic to it under the translation of ids; different
      objects have different copies, and each is created once; every blob has one copy, with its bytes. */
  ghost predicate Rebuilt(objs: set<Id>, metas: map<Id, Meta>, sent: set<Id>, blobs: map<Id, seq<Byte>>,
                          idMap: map<Id, Id>, store: map<Id, Meta>, content: map<Id, seq<Byte>>,
                          content0: map<Id, seq<Byte>>, store0: map<Id, Meta>, dict: map<Id, Meta>, here: nat) {
    (forall x :: x in objs ==>
       x in metas && x in idMap && idMap[x] in store && Copied(metas[x], store[idMap[x]], idMap))
    && (forall b :: b in sent ==> b in blobs && b in idMap && idMap[b] in content && content[idMap[b]] == blobs[b])
    && (forall c :: c in content && c !in content0 ==> exists b :: b in sent && b in idMap && idMap[b] == c)
    && Settled(idMap, store, dict) && Created(map[], idMap, store0, store) && Grown(store0, store)
    && Resident(idMap, store, here)
  }

  /** A received tree is under its own id, and its blobs have arrived. */
  ghost predicate Complete(x: Id, t: Meta, dict: map<Id, Meta>, have: set<Id>) {
    t.id == x && Known(t, dict) && forall b :: b in Ids(t) && BlobId(b) ==> b in have
  }

  ghost predicate Arrived(done: seq<Step>, objectMap: map<Id, Meta>, idMap: map<Id, Id>, content: map<Id, seq<Byte>>,
      content0: map<Id, seq<Byte>>) {
    (forall s :: s in done && s.Object? ==> s.id in objectMap && objectMap[s.id] == s.meta)
    && (forall s :: s in done && s.Blob? ==> s.id in idMap && idMap[s.id] in content && content[idMap[s.id]] == s.data)
    && (forall x :: x in objectMap ==> Object(x, objectMap[x]) in done)
    && (forall b :: b in idMap ==> idMap[b] in content && Blob(b, content[idMap[b]]) in done)
    && (forall c :: c in content0 ==> c in content && content[c] == content0[c])
    && (forall c :: c in content && c !in content0 ==> exists b :: b in idMap && idMap[b] == c)
  }

  lemma ArrivedObject(done: seq<Step>, objectMap: map<Id, Meta>, idMap: map<Id, Id>, content: map<Id, seq<Byte>>,
      content0: map<Id, seq<Byte>>, id: Id, meta: Meta, objectMap': map<Id, Meta>)
    requires Arrived(done, objectMap, idMap, content, content0) && id !in objectMap
      && objectMap' == objectMap[id := meta]
    ensures Arrived(done + [Object(id, meta)], objectMap', idMap, content, content0)
  {
    var more := done + [Object(id, meta)];
    assert more[|done|] == Object(id, meta);
    assert forall s :: s in done ==> s in more;
  }

  lemma ArrivedBlob(done: seq<Step>, objectMap: map<Id, Meta>, idMap: map<Id, Id>, content: map<Id, seq<Byte>>,
                    content0: map<Id, seq<Byte>>, id: Id, data: seq<Byte>, newId: Id, idMap': map<Id, Id>,
                    content': map<Id, seq<Byte>>)
    requires Arrived(done, objectMap, idMap, content, content0) && id !in idMap && newId !in content
    requires idMap' == idMap[id := newId] && content' == content[newId := data]
    ensures Arrived(done + [Blob(id, data)], objectMap, idMap', content', content0)
  {
    var more := done + [Blob(id, data)];
    assert more[|done|] == Blob(id, data);
    assert forall s :: s in done ==> s in more;
    forall c | c in content' && c !in content0
      ensures exists b :: b in idMap' && idMap'[b] == c
    {
      if c == newId {
        assert idMap'[id] == c;
      } else {
        var b :| b in idMap && idMap[b] == c;
        assert idMap'[b] == c;
      }
    }
  }

  /** A new step brings a blob that has not been translated. */
  lemma NotYet(done: seq<Step>, objectMap: map<Id, Meta>, idMap: map<Id, Id>, content: map<Id, seq<Byte>>,
      content0: map<Id, seq<Byte>>, id: Id, data: seq<Byte>)
    requires Arrived(done, objectMap, idMap, content, content0) && NewStep(done, Blob(id, data))
    ensures id !in idMap
  {
    forall b | b in idMap ensures b != id {
      assert Blob(b, content[idMap[b]]) in done;
    }
  }

  lemma BlobCopied(t: Meta, c: Meta, m: map<Id, Id>)
    requires BlobId(t.id) && t.id in m && c.id == m[t.id]
    ensures Copied(t, c, m)
  {
  }

  /** For local objects, what is collected is every blob. */
  lemma ReachAll(objs: set<Id>, metas: map<Id, Meta>, home: nat, dict: map<Id, Meta>)
    requires forall x :: x in objs && x in metas ==> metas[x].id == x && Known(metas[x], dict) && Local(metas[x], home)
    ensures forall x :: x in objs && x in metas ==> Complete(x, metas[x], dict, Reach(objs, metas, home))
    ensures forall b :: b in Reach(objs, metas, home) ==> BlobId(b) && b in dict && dict[b].id == b
  {
    hide Known, Local, LocalBlobs, BlobId, Ids;
    forall x | x in objs && x in metas
      ensures Complete(x, metas[x], dict, Reach(objs, metas, home))
    {
      AllBlobs(metas[x], home);
    }
    forall b | b in Reach(objs, metas, home)
      ensures BlobId(b) && b in dict && dict[b].id == b
    {
      var x :| x in objs && x in metas && b in LocalBlobs(metas[x], home);
      AllBlobs(metas[x], home);
      KnownIds(metas[x], dict, b);
    }
  }

  /** A whole migration of local objects in which one id means one object: it succeeds exactly if the objects exist,
      and then the receiver has a copy of all of them. */
  method Run(objectIds: seq<Id>, home: nat, codec: Codec, metas: map<Id, Meta>, blobs: map<Id, seq<Byte>>,
      server: MigrationServer, blobFields: seq<(string, string)>, ghost dict: map<Id, Meta>) returns (ok: bool)
    requires Fresh(server.pick) && Faithful(codec)
    requires server.objectMap == map[] && server.idMap == map[]
    requires server.content.Keys <= server.store.Keys
    requires forall x :: x in objectIds && x in metas ==>
      metas[x].id == x && Known(metas[x], dict) && Local(metas[x], home)
    requires Reach(Elements(objectIds), metas, home) <= blobs.Keys
    requires ShortAll(Elements(objectIds), metas, Reach(Elements(objectIds), metas, home), blobs, codec)
    modifies server
    ensures ok <==> forall x :: x in objectIds ==> x in metas
    ensures ok ==> Rebuilt(Elements(objectIds), metas, Reach(Elements(objectIds), metas, home), blobs,
                           server.idMap, server.store, server.content, old(server.content), old(server.store), dict,
                           server.here)
    ensures ok ==> forall x, b ::
                     x in objectIds && x in metas && b in Ids(metas[x])
                     && 0x8000_0000_0000_0000 <= b < 0x1_0000_0000_0000_0000 ==>
                     b in server.idMap && b in blobs && server.idMap[b] in server.content
                     && server.content[server.idMap[b]] == blobs[b]
    ensures ok ==> forall x :: x in server.idMap ==>
                     server.idMap[x] in server.store && Local(server.store[server.idMap[x]], server.here)
    ensures !ok ==> server.store == old(server.store) && server.content == old(server.content)
  {
    hide Reach, Known, Local, Sends, Wire, Ids, Settled, Faithful, Short, ShortAll, Created, Grown, Copied;
    var sender := new ObjectMigration(objectIds, home, codec, metas, blobs);
    ok := sender.Migrate();
    ReachAll(Elements(objectIds), metas, home, dict);
    if ok {
      ShortScript(sender.script, Elements(objectIds), metas, Reach(Elements(objectIds), metas, home), blobs, codec);
      ok := server.Start(sender.wire, codec, blobFields, sender.script, Elements(objectIds), metas,
                         Reach(Elements(objectIds), metas, home), blobs, dict);
    }
  }
}

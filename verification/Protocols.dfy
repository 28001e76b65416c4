/** The messages of a migration, and the byte stream that a whole run writes. */
module Protocols {
  import opened Framing
  import opened Metadata

  datatype Option<T> = None | Some(value: T)

  /** A message before it is turned into text: its type and the entries that are present. */
  datatype Root = Root(kind: string, id: Option<Id>, meta: Option<Meta>, blobId: Option<Id>, blobSize: Option<nat>)

  datatype Action = ExitRequest | SendObjectRequest | SendBlobBufferRequest | NullAction

  function ParseMigrateAction(kind: string): Action {
    if kind == "exit_request" then ExitRequest
    else if kind == "send_object_request" then SendObjectRequest
    else if kind == "send_blob_buffer_request" then SendBlobBufferRequest
    else NullAction
  }

  function WriteExit(): Root {
    Root("exit_request", None, None, None, None)
  }

  function WriteSendObject(id: Id, meta: Meta): Root {
    Root("send_object_request", Some(id), Some(meta), None, None)
  }

  function ReadSendObject(root: Root): Option<(Id, Meta)> {
    if root.kind != "send_object_request" || root.id.None? || root.meta.None? then None
    else Some((root.id.value, root.meta.value))
  }

  function WriteSendBlob(id: Id, size: nat): Root {
    Root("send_blob_buffer_request", None, None, Some(id), Some(size))
  }

  function ReadSendBlob(root: Root): Option<(Id, nat)> {
    if root.kind != "send_blob_buffer_request" || root.blobId.None? || root.blobSize.None? then None
    else Some((root.blobId.value, root.blobSize.value))
  }

  lemma ExitRoundTrip()
    ensures ParseMigrateAction(WriteExit().kind) == ExitRequest
  {
  }

  lemma ObjectRoundTrip(id: Id, meta: Meta)
    ensures ParseMigrateAction(WriteSendObject(id, meta).kind) == SendObjectRequest
    ensures ReadSendObject(WriteSendObject(id, meta)) == Some((id, meta))
    ensures WriteSendObject(id, meta) == Root("send_object_request", Some(id), Some(meta), None, None)
  {
    assert "send_object_request"[0] != "exit_request"[0];
  }

  lemma BlobRoundTrip(id: Id, size: nat)
    ensures ParseMigrateAction(WriteSendBlob(id, size).kind) == SendBlobBufferRequest
    ensures ReadSendBlob(WriteSendBlob(id, size)) == Some((id, size))
    ensures WriteSendBlob(id, size) == Root("send_blob_buffer_request", None, None, Some(id), Some(size))
  {
    assert "send_blob_buffer_request"[0] != "exit_request"[0];
    assert "send_blob_buffer_request"[5] != "send_object_request"[5];
  }

  /** The text form of messages. */
  datatype Codec = Codec(encode: Root -> seq<Byte>, decode: seq<Byte> -> Option<Root>)

  /** Reading a text gives back the message written. */
  ghost predicate Faithful(codec: Codec) {
    forall root :: codec.decode(codec.encode(root)) == Some(root)
  }

  // ---- what a run writes

  datatype Step = Object(id: Id, meta: Meta) | Blob(id: Id, data: seq<Byte>) | Exit

  ghost function Message(step: Step): Root {
    match step
    case Object(id, meta) => WriteSendObject(id, meta)
    case Blob(id, data) => WriteSendBlob(id, |data|)
    case Exit => WriteExit()
  }

  ghost function Payload(step: Step): seq<Byte> {
    if step.Blob? then step.data else []
  }

  /** A message in its frame; the bytes of a blob follow as they are. */
  ghost function StepBytes(step: Step, codec: Codec): seq<Byte> {
    Frame(codec.encode(Message(step))) + Payload(step)
  }

  ghost function Wire(script: seq<Step>, codec: Codec): seq<Byte> {
    if script == [] then [] else StepBytes(script[0], codec) + Wire(script[1..], codec)
  }

  lemma {:induction false} WireSnoc(script: seq<Step>, step: Step, codec: Codec)
    ensures Wire(script + [step], codec) == Wire(script, codec) + StepBytes(step, codec)
  {
    hide StepBytes;
    var more := script + [step];
    if script == [] {
      assert more == [step] && more[1..] == [];
      assert Wire(more, codec) == StepBytes(step, codec) + Wire(more[1..], codec);
    } else {
      WireSnoc(script[1..], step, codec);
      assert more[1..] == script[1..] + [step] && more[0] == script[0];
      assert Wire(more, codec) == StepBytes(script[0], codec) + (Wire(script[1..], codec) + StepBytes(step, codec));
    }
  }

  lemma WireNext(script: seq<Step>, k: nat, codec: Codec)
    requires k < |script|
    ensures Wire(script[k..], codec)
         == Frame(codec.encode(Message(script[k]))) + (Payload(script[k]) + Wire(script[k + 1..], codec))
  {
    hide Frame, Message, Payload;
    var rest := script[k..];
    assert rest[0] == script[k] && rest[1..] == script[k + 1..];
  }

  // ---- which steps a run takes

  ghost predicate NoRepeat(script: seq<Step>) {
    forall i, j :: 0 <= i < j < |script| ==> script[i] != script[j]
  }

  /** The steps send the objects `objs` and the blobs `sent`, each once, and as the source has them. */
  ghost predicate Sends(script: seq<Step>, objs: set<Id>, metas: map<Id, Meta>, sent: set<Id>,
                        blobs: map<Id, seq<Byte>>) {
    NoRepeat(script) && Exit !in script
    && (forall s :: s in script && s.Object? ==> s.id in objs)
    && (forall s :: s in script && s.Blob? ==> s.id in sent)
    && (forall x :: x in objs ==> x in metas && Object(x, metas[x]) in script)
    && (forall b :: b in sent ==> b in blobs && Blob(b, blobs[b]) in script)
    && (forall s :: s in script && s.Object? && s.id in metas ==> s.meta == metas[s.id])
    && (forall s :: s in script && s.Blob? && s.id in blobs ==> s.data == blobs[s.id])
  }

  lemma SendsObject(script: seq<Step>, objs: set<Id>, metas: map<Id, Meta>, sent: set<Id>, blobs: map<Id, seq<Byte>>,
                    x: Id)
    requires Sends(script, objs, metas, sent, blobs) && x !in objs && x in metas
    ensures Sends(script + [Object(x, metas[x])], objs + {x}, metas, sent, blobs)
  {
    var step := Object(x, metas[x]);
    var more := script + [step];
    assert more[|script|] == step;
    assert forall s :: s in script ==> s in more;
  }

  lemma SendsBlob(script: seq<Step>, objs: set<Id>, metas: map<Id, Meta>, sent: set<Id>, blobs: map<Id, seq<Byte>>,
                  b: Id)
    requires Sends(script, objs, metas, sent, blobs) && b !in sent && b in blobs
    ensures Sends(script + [Blob(b, blobs[b])], objs, metas, sent + {b}, blobs)
  {
    var step := Blob(b, blobs[b]);
    var more := script + [step];
    assert more[|script|] == step;
    assert forall s :: s in script ==> s in more;
  }

  /** The texts of the messages have lengths that fit the header. */
  ghost predicate Short(script: seq<Step>, codec: Codec) {
    forall s :: s in script ==> Fitting(codec.encode(Message(s)))
  }

  ghost predicate ShortAll(objs: set<Id>, metas: map<Id, Meta>, sent: set<Id>, blobs: map<Id, seq<Byte>>,
                           codec: Codec) {
    (forall x :: x in objs && x in metas ==> Fitting(codec.encode(WriteSendObject(x, metas[x]))))
    && (forall b :: b in sent && b in blobs ==> Fitting(codec.encode(WriteSendBlob(b, |blobs[b]|))))
    && Fitting(codec.encode(WriteExit()))
  }

  lemma ShortScript(script: seq<Step>, objs: set<Id>, metas: map<Id, Meta>, sent: set<Id>, blobs: map<Id, seq<Byte>>,
                    codec: Codec)
    requires Sends(script, objs, metas, sent, blobs) && ShortAll(objs, metas, sent, blobs, codec)
    ensures Short(script + [Exit], codec)
  {
    hide Fitting;
    forall s | s in script + [Exit]
      ensures Fitting(codec.encode(Message(s)))
    {
      match s
      case Object(id, meta) => assert s in script && meta == metas[id];
      case Blob(id, data) => assert s in script && data == blobs[id];
      case Exit =>
    }
  }
}

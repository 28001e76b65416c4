/** Length-prefixed messages over a byte stream whose reads and writes may be short, interrupted or fail. */
module Framing {
  import opened Words

  type Byte = b: int | 0 <= b < 256

  const HEADER := 8                          // sizeof(size_t)

  // ---- the length header: eight bytes, least significant first

  function ToBytes(n: nat, count: nat): (r: seq<Byte>)
    ensures |r| == count
  {
    if count == 0 then [] else [n % 256] + ToBytes(n / 256, count - 1)
  }

  function FromBytes(s: seq<Byte>): nat {
    if s == [] then 0 else s[0] + 256 * FromBytes(s[1..])
  }

  function Limit(count: nat): (r: nat)
    ensures r > 0
  {
    if count == 0 then 1 else 256 * Limit(count - 1)
  }

  lemma {:induction false} HeaderRoundTrip(n: nat, count: nat)
    requires n < Limit(count)
    ensures FromBytes(ToBytes(n, count)) == n
  {
    if count > 0 {
      HeaderRoundTrip(n / 256, count - 1);
      assert ToBytes(n, count)[1..] == ToBytes(n / 256, count - 1);
    }
  }

  lemma {:induction false} HeaderTotal(s: seq<Byte>)
    ensures ToBytes(FromBytes(s), |s|) == s && FromBytes(s) < Limit(|s|)
  {
    if s != [] {
      HeaderTotal(s[1..]);
      assert s == [s[0]] + s[1..];
    }
  }

  function Frame(msg: seq<Byte>): (f: seq<Byte>)
    ensures |f| == HEADER + |msg|
  {
    ToBytes(|msg|, HEADER) + msg
  }

  /** Byte i of the header is digit i of the length to the base 256. */
  lemma {:induction false} HeaderByte(n: nat, count: nat, i: nat)
    requires i < count
    ensures ToBytes(n, count)[i] == n / Limit(i) % 256
  {
    if i > 0 {
      HeaderByte(n / 256, count - 1, i - 1);
      DivideTwice(n, Limit(i - 1));
    }
  }

  lemma DivideTwice(n: nat, b: nat)
    requires b > 0
    ensures n / 256 / b == n / (256 * b)
  {
    var m, r := n / 256, n % 256;
    var q, t := Parts(m, b);
    Regroup(q, b);
    UniqueRemainder(n, q, 256 * t + r, 256 * b);
    UniqueRemainder(m, q, t, b);
  }

  lemma Parts(m: nat, b: nat) returns (q: nat, t: nat)
    requires b > 0
    ensures m == q * b + t && t < b
  {
    q, t := m / b, m % b;
  }

  lemma Regroup(q: nat, b: nat)
    ensures 256 * (q * b) == q * (256 * b)
  {
  }

  /** A message goes behind its length, in eight bytes, the least significant first. */
  lemma FrameBytes(msg: seq<Byte>, i: nat)
    requires i < 8
    ensures |Frame(msg)| == 8 + |msg| && Frame(msg)[8..] == msg && Frame(msg)[i] == |msg| / Limit(i) % 256
    ensures Fitting(msg) <==> |msg| < 0x1_0000_0000_0000_0000
  {
    HeaderByte(|msg|, 8, i);
    EightBytes();
  }

  lemma EightBytes()
    ensures Limit(8) == 0x1_0000_0000_0000_0000
  {
    assert Limit(2) == 0x1_0000 && Limit(4) == 0x1_0000_0000;
    assert Limit(6) == 0x1_0000_0000_0000;
  }

  function Frames(msgs: seq<seq<Byte>>): seq<Byte> {
    if msgs == [] then [] else Frame(msgs[0]) + Frames(msgs[1..])
  }

  /** The length fits the header. */
  ghost predicate Fitting(msg: seq<Byte>) {
    |msg| < Limit(HEADER)
  }

  ghost predicate Sendable(msgs: seq<seq<Byte>>) {
    forall i :: 0 <= i < |msgs| ==> Fitting(msgs[i])
  }

  lemma {:induction false} FramesConcat(a: seq<seq<Byte>>, b: seq<seq<Byte>>)
    ensures Frames(a + b) == Frames(a) + Frames(b)
  {
    hide Frame;
    if a == [] {
      assert a + b == b;
    } else {
      var c := a + b;
      FramesConcat(a[1..], b);
      assert c[1..] == a[1..] + b && c[0] == a[0];
      assert Frames(c) == Frame(a[0]) + (Frames(a[1..]) + Frames(b));
    }
  }

  lemma FramesOne(msg: seq<Byte>)
    ensures Frames([msg]) == Frame(msg)
  {
    hide Frame;
    var one := [msg];
    assert one[1..] == [];
    assert Frames(one) == Frame(one[0]) + Frames([]);
  }

  lemma FramesSnoc(msgs: seq<seq<Byte>>, i: nat)
    requires i < |msgs|
    ensures Frames(msgs[..i + 1]) == Frames(msgs[..i]) + Frame(msgs[i])
  {
    hide Frame, Frames;
    var a, b := msgs[..i], [msgs[i]];
    FramesConcat(a, b);
    assert a + b == msgs[..i + 1];
    FramesOne(msgs[i]);
  }

  lemma FramesSplit(msgs: seq<seq<Byte>>, i: nat)
    requires i <= |msgs|
    ensures Frames(msgs) == Frames(msgs[..i]) + Frames(msgs[i..])
  {
    hide Frame, Frames;
    var a, b := msgs[..i], msgs[i..];
    FramesConcat(a, b);
    assert a + b == msgs;
  }

  lemma PrefixTrans(a: seq<Byte>, b: seq<Byte>, c: seq<Byte>)
    requires a <= b <= c
    ensures a <= c
  {
    assert a == b[..|a|] == c[..|a|];
  }

  // ---- the calls to the operating system

  /** What one read or write does: move some bytes, ask to be called again, report an error or the end. */
  datatype Outcome = Moved(n: nat) | Again | Broken | Ended

  /** Pending: the schedule is used up and the call has not returned. */
  datatype Status = Ok | IOError | Pending

  ghost predicate Fails(call: Outcome) {
    call.Broken? || call.Ended? || call == Moved(0)
  }

  /** A schedule without failures. */
  ghost predicate Calm(schedule: seq<Outcome>) {
    forall i :: 0 <= i < |schedule| ==> !Fails(schedule[i])
  }

  /** What the calls of a schedule would move together. */
  ghost function Total(schedule: seq<Outcome>): nat {
    if schedule == [] then 0
    else
      var last := schedule[|schedule| - 1];
      Total(schedule[..|schedule| - 1]) + if last.Moved? then last.n else 0
  }

  /** How many calls move something before one fails. */
  ghost function Lead(schedule: seq<Outcome>): nat {
    if schedule == [] || Fails(schedule[0]) then 0
    else (if schedule[0].Moved? then 1 else 0) + Lead(schedule[1..])
  }

  ghost function Least(a: nat, b: nat): nat {
    if a < b then a else b
  }

  /** How a transfer of `length` bytes goes, when there are only `available` ones: call after call, until all bytes are
      moved, or a call fails or finds nothing, or there are no more calls. */
  ghost predicate Ran(schedule: seq<Outcome>, rest: seq<Outcome>, status: Status, moved: int, length: nat,
                      available: nat)
  {
    && |rest| <= |schedule| && rest == schedule[|schedule| - |rest|..]
    && var k := |schedule| - |rest|;
       match status
       case Ok =>
         && Calm(schedule[..k]) && moved == length <= available && length <= Total(schedule[..k])
         && if k == 0 then length == 0 else Total(schedule[..k - 1]) < length
       case Pending =>
         rest == [] && Calm(schedule) && moved == Least(Total(schedule), available) < length
       case IOError =>
         && k > 0 && Calm(schedule[..k - 1]) && moved == Least(Total(schedule[..k - 1]), available) < length
         && (Fails(schedule[k - 1]) || (schedule[k - 1].Moved? && moved == available))
  }

  /** Two transfers one after the other; the second one only if the first succeeds. */
  ghost predicate RanBoth(schedule: seq<Outcome>, rest: seq<Outcome>, status: Status, moved: int, first: nat,
                          second: nat, available: nat)
  {
    || (status != Ok && Ran(schedule, rest, status, moved, first, available))
    || (first <= available && exists mid: seq<Outcome> ::
          && Ran(schedule, mid, Ok, first, first, available)
          && Ran(mid, rest, status, moved - first, second, available - first))
  }

  lemma NextCall(schedule: seq<Outcome>, k: nat)
    requires k < |schedule|
    ensures Total(schedule[..k + 1]) == Total(schedule[..k]) + if schedule[k].Moved? then schedule[k].n else 0
    ensures Calm(schedule[..k + 1]) <==> Calm(schedule[..k]) && !Fails(schedule[k])
    ensures schedule[k..][0] == schedule[k] && schedule[k..][1..] == schedule[k + 1..]
    ensures Fails(schedule[k]) ==> Lead(schedule[k..]) == 0
    ensures !Fails(schedule[k]) ==> Lead(schedule[k..]) == Lead(schedule[k + 1..]) + if schedule[k].Moved? then 1 else 0
  {
    assert schedule[..k + 1][..k] == schedule[..k];
    assert schedule[k..][1..] == schedule[k + 1..];
    assert forall i :: 0 <= i <= k ==> schedule[..k + 1][i] == schedule[i];
    assert forall i :: 0 <= i < k ==> schedule[..k][i] == schedule[i];
  }

  class Sender {
    var written: seq<Byte>

    constructor ()
      ensures written == []
    {
      written := [];
    }

    /** send_bytes: whatever the schedule of short writes and retries, what is written is a part of the data from its
        start on, and all of it exactly on success; it fails exactly on a failing call. */
    method SendBytes(data: seq<Byte>, schedule: seq<Outcome>) returns (status: Status, rest: seq<Outcome>)
      modifies this
      ensures old(written) <= written <= old(written) + data
      ensures status == Ok <==> written == old(written) + data
      ensures Ran(schedule, rest, status, |written| - |old(written)|, |data|, |data|)
      ensures Lead(rest) + |written| - |old(written)| >= Lead(schedule) || status == IOError
      ensures status != Ok ==> |written| - |old(written)| >= Lead(schedule)
    {
      hide Total, Lead, Calm;
      var offset, left := 0, |data|;
      rest := schedule;
      ghost var k := 0;
      NoCalls(schedule);
      while left > 0
        invariant 0 <= offset <= |data| && offset + left == |data| && written == old(written) + data[..offset]
        invariant 0 <= k <= |schedule| && rest == schedule[k..] && Calm(schedule[..k])
        invariant offset == Least(Total(schedule[..k]), |data|) && Lead(rest) + offset >= Lead(schedule)
        invariant if k == 0 then offset == 0 else Total(schedule[..k - 1]) < |data|
        decreases |rest|
      {
        if rest == [] {
          NoneLeft(schedule, k);
          return Pending, rest;
        }
        NextCall(schedule, k);
        var now := rest[0];
        rest := rest[1..];
        k := k + 1;
        match now {
          case Again =>
          case Broken => return IOError, rest;
          case Ended => return IOError, rest;
          case Moved(n) =>
            var n' := if n < left then n else left;
            if n' == 0 {
              return IOError, rest;
            }
            written := written + data[offset..offset + n'];
            assert data[..offset] + data[offset..offset + n'] == data[..offset + n'];
            offset, left := offset + n', left - n';
        }
      }
      assert data[..offset] == data;
      status := Ok;
    }

    /** send_message */
    method SendMessage(msg: seq<Byte>, schedule: seq<Outcome>) returns (status: Status, rest: seq<Outcome>)
      modifies this
      ensures old(written) <= written <= old(written) + Frame(msg)
      ensures status == Ok <==> written == old(written) + Frame(msg)
      ensures RanBoth(schedule, rest, status, |written| - |old(written)|, 8, |msg|, 8 + |msg|)
      ensures Lead(rest) + |written| - |old(written)| >= Lead(schedule) || status == IOError
      ensures status != Ok ==> |written| - |old(written)| >= Lead(schedule)
    {
      hide ToBytes, Total, Lead, Calm, Ran;
      ghost var was := written;
      status, rest := SendBytes(ToBytes(|msg|, HEADER), schedule);
      ghost var mid, half := rest, written;
      MoreAvailable(schedule, mid, status, |half| - |was|, 8, 8 + |msg|);
      if status == Ok {
        status, rest := SendBytes(msg, rest);
        assert was + ToBytes(|msg|, HEADER) + msg == was + Frame(msg);
        assert Ran(mid, rest, status, |written| - |was| - 8, |msg|, |msg|);
      }
    }

    /** A sender that goes through its messages until one of them fails. */
    method SendAll(msgs: seq<seq<Byte>>, schedule: seq<Outcome>) returns (status: Status)
      requires written == []
      modifies this
      ensures written <= Frames(msgs) && (status == Ok <==> written == Frames(msgs))
      ensures status != Ok ==> |written| >= Lead(schedule)
    {
      hide Frame, Lead, RanBoth;
      var rest, i := schedule, 0;
      status := Ok;
      assert msgs[..0] == [];
      while i < |msgs|
        invariant 0 <= i <= |msgs| && written == Frames(msgs[..i]) && status == Ok
        invariant Lead(rest) + |written| >= Lead(schedule)
      {
        FramesSnoc(msgs, i);
        FramesSplit(msgs, i + 1);
        status, rest := SendMessage(msgs[i], rest);
        if status != Ok {
          PrefixTrans(written, Frames(msgs[..i + 1]), Frames(msgs));
          return;
        }
        i := i + 1;
      }
      assert msgs[..i] == msgs;
    }
  }

  lemma NoCalls(schedule: seq<Outcome>)
    ensures schedule[0..] == schedule && Total(schedule[..0]) == 0 && Calm(schedule[..0])
  {
  }

  lemma NoneLeft(schedule: seq<Outcome>, k: nat)
    requires k <= |schedule| && schedule[k..] == []
    ensures k == |schedule| && schedule[..k] == schedule && Lead(schedule[k..]) == 0
  {
  }

  /** Bytes that are not asked for make no difference. */
  lemma MoreAvailable(schedule: seq<Outcome>, rest: seq<Outcome>, status: Status, moved: int, length: nat, more: nat)
    requires Ran(schedule, rest, status, moved, length, length) && length <= more
    ensures Ran(schedule, rest, status, moved, length, more)
  {
    hide Total, Calm;
  }

  /** From `at` on, the stream holds the frame of the message. */
  ghost predicate Waiting(stream: seq<Byte>, at: nat, msg: seq<Byte>) {
    at <= |stream| && Fitting(msg) && Frame(msg) <= stream[at..]
  }

  lemma WaitingParts(stream: seq<Byte>, at: nat, msg: seq<Byte>)
    requires Waiting(stream, at, msg)
    ensures at + HEADER + |msg| <= |stream|
    ensures FromBytes(stream[at..at + HEADER]) == |msg|
    ensures stream[at + HEADER..at + HEADER + |msg|] == msg
  {
    var f := Frame(msg);
    assert stream[at..at + |f|] == f;
    assert stream[at..at + HEADER] == f[..HEADER] == ToBytes(|msg|, HEADER);
    assert stream[at + HEADER..at + HEADER + |msg|] == f[HEADER..];
    HeaderRoundTrip(|msg|, HEADER);
  }

  class Receiver {
    const stream: seq<Byte>                  // everything the sender ever writes
    var taken: nat

    ghost predicate Valid()
      reads this
    {
      taken <= |stream|
    }

    constructor (stream: seq<Byte>)
      ensures Valid() && taken == 0 && this.stream == stream
    {
      this.stream, taken := stream, 0;
    }

    /** recv_bytes: on success the bytes are the next ones of the stream; it fails exactly on a failing call or at the
        end of the stream. */
    method RecvBytes(length: nat, schedule: seq<Outcome>) returns (status: Status, data: seq<Byte>, rest: seq<Outcome>)
      requires Valid()
      modifies this`taken
      ensures Valid() && old(taken) <= taken <= old(taken) + length && data == stream[old(taken)..taken]
      ensures status == Ok <==> |data| == length
      ensures Ran(schedule, rest, status, taken - old(taken), length, |stream| - old(taken))
      ensures Lead(rest) + taken - old(taken) >= Lead(schedule) || status == IOError
      ensures status != Ok ==> taken - old(taken) >= Lead(schedule) || old(taken) + length > |stream|
    {
      hide Total, Lead, Calm;
      var left := length;
      data, rest := [], schedule;
      ghost var k, cap := 0, Least(length, |stream| - taken);
      NoCalls(schedule);
      while left > 0
        invariant Valid() && old(taken) <= taken && taken + left == old(taken) + length
        invariant data == stream[old(taken)..taken] && Lead(rest) + taken - old(taken) >= Lead(schedule)
        invariant 0 <= k <= |schedule| && rest == schedule[k..] && Calm(schedule[..k])
        invariant taken - old(taken) == Least(Total(schedule[..k]), cap)
        invariant left == 0 ==> if k == 0 then length == 0 else Total(schedule[..k - 1]) < length
        decreases |rest|
      {
        if rest == [] {
          NoneLeft(schedule, k);
          return Pending, data, rest;
        }
        NextCall(schedule, k);
        var now := rest[0];
        rest := rest[1..];
        k := k + 1;
        match now {
          case Again =>
          case Broken => return IOError, data, rest;
          case Ended => return IOError, data, rest;
          case Moved(n) =>
            var most := if left < |stream| - taken then left else |stream| - taken;
            var n' := if n < most then n else most;
            if n' == 0 {
              return IOError, data, rest;
            }
            data := data + stream[taken..taken + n'];
            taken, left := taken + n', left - n';
        }
      }
      status := Ok;
    }

    /** recv_message: on success the message and its header are the next bytes of the stream, and a message that is
        waiting is received unless a call fails or the calls run out. */
    method RecvMessage(schedule: seq<Outcome>) returns (status: Status, msg: seq<Byte>, rest: seq<Outcome>)
      requires Valid()
      modifies this`taken
      ensures Valid() && old(taken) <= taken
      ensures status == Ok ==> stream[old(taken)..taken] == Frame(msg) && Fitting(msg)
      ensures Lead(rest) + taken - old(taken) >= Lead(schedule) || status == IOError
      ensures forall next :: Waiting(stream, old(taken), next) ==>
        && RanBoth(schedule, rest, status, taken - old(taken), 8, |next|, |stream| - old(taken))
        && (status != Ok ==> Lead(schedule) <= taken - old(taken) < 8 + |next|)
    {
      hide ToBytes, Total, Lead, Calm, Ran, FromBytes, Waiting;
      ghost var at := taken;
      var header;
      status, header, rest := RecvBytes(HEADER, schedule);
      msg := [];
      forall next | Waiting(stream, at, next)
        ensures at + HEADER + |next| <= |stream| && FromBytes(stream[at..at + HEADER]) == |next|
      {
        WaitingParts(stream, at, next);
      }
      ghost var mid := rest;
      if status == Ok {
        HeaderTotal(header);
        RanAll(schedule, rest, taken - at, 8, |stream| - at);
        status, msg, rest := RecvBytes(FromBytes(header), rest);
        if status == Ok {
          assert stream[at..taken] == header + msg;
        }
        assert Ran(mid, rest, status, taken - at - 8, FromBytes(header), |stream| - at - 8);
      }
    }

    /** A receiver that takes messages until one of them fails gets the first of those sent: all those that were written
        completely and for which there are enough calls before one fails. */
    method ReceiveAll(ghost sent: seq<seq<Byte>>, schedule: seq<Outcome>) returns (msgs: seq<seq<Byte>>)
      requires Valid() && taken == 0 && Sendable(sent) && stream <= Frames(sent)
      modifies this`taken
      ensures Valid() && msgs <= sent
      ensures forall n :: |msgs| < n <= |sent| ==>
        Lead(schedule) < |Frames(sent[..n])| || |stream| < |Frames(sent[..n])|
    {
      hide Frame, Lead, Fitting, Waiting, RanBoth;
      var rest := schedule;
      msgs := [];
      ghost var good := 0;
      var status := Ok;
      while status == Ok
        invariant Valid() && good <= taken && (status != IOError ==> Lead(rest) + taken >= Lead(schedule))
        invariant Frames(msgs) == stream[..good] && Sendable(msgs) && msgs <= sent
        invariant status == Ok ==> taken == good
        invariant status != Ok && |msgs| < |sent| ==>
          Lead(schedule) < |Frames(sent[..|msgs| + 1])| || |stream| < |Frames(sent[..|msgs| + 1])|
        decreases |stream| - good, status == Ok
      {
        var msg;
        ghost var at := taken;
        if |msgs| < |sent| {
          NextFrame(sent, msgs, stream, at);
        }
        status, msg, rest := RecvMessage(rest);
        if status == Ok {
          OneMore(sent, msgs, msg, stream, at, taken);
          msgs, good := msgs + [msg], taken;
        }
      }
      forall n | |msgs| < n <= |sent|
        ensures Lead(schedule) < |Frames(sent[..n])| || |stream| < |Frames(sent[..n])|
      {
        LongerFrames(sent, |msgs| + 1, n);
      }
    }
  }

  lemma RanAll(schedule: seq<Outcome>, rest: seq<Outcome>, moved: int, length: nat, available: nat)
    requires Ran(schedule, rest, Ok, moved, length, available)
    ensures moved == length <= available
  {
  }

  lemma {:induction false} LongerFrames(msgs: seq<seq<Byte>>, i: nat, j: nat)
    requires i <= j <= |msgs|
    ensures |Frames(msgs[..i])| <= |Frames(msgs[..j])|
    decreases j - i
  {
    if i < j {
      FramesSnoc(msgs, j - 1);
      LongerFrames(msgs, i, j - 1);
    }
  }

  lemma OneMore(sent: seq<seq<Byte>>, msgs: seq<seq<Byte>>, msg: seq<Byte>, stream: seq<Byte>, at: nat, taken: nat)
    requires Sendable(sent) && Sendable(msgs) && Fitting(msg) && stream <= Frames(sent)
    requires at <= taken <= |stream| && Frames(msgs) == stream[..at] && Frame(msg) == stream[at..taken]
    ensures Frames(msgs + [msg]) == stream[..taken] && Sendable(msgs + [msg]) && msgs + [msg] <= sent && at < taken
  {
    hide Frame, Fitting, Frames;
    var more := msgs + [msg];
    FramesSnoc(more, |msgs|);
    assert more[..|msgs|] == msgs && more[..|msgs| + 1] == more;
    assert stream[..taken] == stream[..at] + stream[at..taken];
    PrefixTrans(Frames(more), stream, Frames(sent));
    FramesPrefix(more, sent);
  }

  /** The next message, if it was written completely, is waiting. */
  lemma NextFrame(sent: seq<seq<Byte>>, msgs: seq<seq<Byte>>, stream: seq<Byte>, at: nat)
    requires Sendable(sent) && msgs < sent && stream <= Frames(sent) && at <= |stream| && Frames(msgs) == stream[..at]
    ensures |Frames(sent[..|msgs| + 1])| == at + 8 + |sent[|msgs|]|
    ensures |Frames(sent[..|msgs| + 1])| <= |stream| ==> Waiting(stream, at, sent[|msgs|])
  {
    hide Fitting, Frames;
    var i := |msgs|;
    FramesSnoc(sent, i);
    FramesSplit(sent, i + 1);
    assert msgs == sent[..i];
    var f := Frames(sent[..i + 1]);
    if |f| <= |stream| {
      assert Frames(sent)[..|f|] == f;
      assert stream[..|f|] == f;
      assert stream[at..][..|f| - at] == f[at..] == Frame(sent[i]);
    }
  }

  /** A stream can be cut into frames in one way only. */
  lemma {:induction false} FramesPrefix(a: seq<seq<Byte>>, b: seq<seq<Byte>>)
    requires Sendable(a) && Sendable(b) && Frames(a) <= Frames(b)
    ensures a <= b
  {
    hide ToBytes, FromBytes, Limit;
    if a != [] {
      var fa, fb := Frames(a), Frames(b);
      assert fa[..HEADER] == ToBytes(|a[0]|, HEADER);
      assert b != [];
      assert fb[..HEADER] == ToBytes(|b[0]|, HEADER);
      assert fa[..HEADER] == fb[..HEADER];
      HeaderRoundTrip(|a[0]|, HEADER);
      HeaderRoundTrip(|b[0]|, HEADER);
      var n := HEADER + |a[0]|;
      assert a[0] == fa[HEADER..n] == fb[HEADER..n] == b[0];
      assert fa[n..] == Frames(a[1..]) && fb[n..] == Frames(b[1..]);
      FramesPrefix(a[1..], b[1..]);
      assert a == [a[0]] + a[1..] && b == [b[0]] + b[1..];
    }
  }

  /** Whatever happens on either side, the messages received are the first of those sent, byte for byte. A message is
      received if on both sides as many calls move something before one fails as it takes bytes up to its end. */
  method Transfer(msgs: seq<seq<Byte>>, sending: seq<Outcome>, receiving: seq<Outcome>)
    returns (received: seq<seq<Byte>>)
    requires Sendable(msgs)
    ensures received <= msgs
    ensures forall n :: |received| < n <= |msgs| ==>
      Lead(sending) < |Frames(msgs[..n])| || Lead(receiving) < |Frames(msgs[..n])|
  {
    hide Lead, Frames, Sendable;
    var sender := new Sender();
    var sent := sender.SendAll(msgs, sending);
    var receiver := new Receiver(sender.written);
    received := receiver.ReceiveAll(msgs, receiving);
    assert msgs[..|msgs|] == msgs;
    forall n | |received| < n <= |msgs|
      ensures Lead(sending) < |Frames(msgs[..n])| || Lead(receiving) < |Frames(msgs[..n])|
    {
      LongerFrames(msgs, n, |msgs|);
    }
  }
}

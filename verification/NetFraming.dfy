/** Messages on the wire: their encoding, and cutting a byte stream back into messages. */
module NetFraming {
  import opened Bytes
  import Sha2Context

  const MAX_PROTOCOL_MSG_SIZE := 8 * 1024 * 1024
  const READ_CHUNK_SIZE := 64 * 1024
  const HEADER := 9
  const BAN_SCORE := 100

  datatype Message = Message(magic: U32, kind: Byte, payload: seq<Byte>)

  datatype Parsed = Parsed(msg: Message) | Malformed

  /** Magic, type, payload length and payload; integers little-endian. */
  function Serialized(m: Message): (s: seq<Byte>)
    ensures |s| == HEADER + |m.payload|
  {
    LE(m.magic, 4) + [m.kind] + LE(|m.payload|, 4) + m.payload
  }

  function DeclaredLength(s: seq<Byte>): nat
    requires |s| >= HEADER
  {
    FromLE(s[5..9])
  }

  /** `NetMessage::Deserialize`. */
  function Deserialized(s: seq<Byte>, networkMagic: U32): (r: Parsed)
    ensures r.Parsed? ==> |s| >= HEADER + |r.msg.payload| && Serialized(r.msg) == s[..HEADER + |r.msg.payload|]
                          && r.msg.magic == networkMagic
  {
    if |s| < HEADER || FromLE(s[0..4]) != networkMagic then Malformed
    else if DeclaredLength(s) > MAX_PROTOCOL_MSG_SIZE || |s| < HEADER + DeclaredLength(s) then Malformed
    else
      HeaderReadsBack(s);
      Parsed(Message(networkMagic, s[4], s[HEADER..HEADER + DeclaredLength(s)]))
  }

  lemma HeaderReadsBack(s: seq<Byte>)
    requires |s| >= HEADER
    ensures s[..HEADER] == LE(FromLE(s[0..4]), 4) + [s[4]] + LE(DeclaredLength(s), 4)
  {
    LEofFromLE(s[0..4]);
    LEofFromLE(s[5..9]);
  }

  /** A message this node accepts. */
  predicate Acceptable(m: Message, networkMagic: U32) {
    m.magic == networkMagic && |m.payload| <= MAX_PROTOCOL_MSG_SIZE
  }

  lemma HeaderOf(m: Message, tail: seq<Byte>, networkMagic: U32)
    requires Acceptable(m, networkMagic)
    ensures var s := Serialized(m) + tail;
      |s| >= HEADER && FromLE(s[0..4]) == m.magic && s[4] == m.kind && DeclaredLength(s) == |m.payload|
  {
    var s := Serialized(m) + tail;
    Sha2Context.Powers();
    assert s[0..4] == LE(m.magic, 4) && s[5..9] == LE(|m.payload|, 4);
    FromLEofLE(m.magic, 4);
    FromLEofLE(|m.payload|, 4);
  }

  /** Deserialising what was serialised, whatever follows. */
  lemma RoundTrip(m: Message, tail: seq<Byte>, networkMagic: U32)
    requires Acceptable(m, networkMagic)
    ensures Deserialized(Serialized(m) + tail, networkMagic) == Parsed(m)
  {
    HeaderOf(m, tail, networkMagic);
    var s := Serialized(m) + tail;
    assert s[HEADER..HEADER + |m.payload|] == m.payload;
  }

  // ---- Cutting a stream ----

  datatype Stop = Waiting | TooLarge | Invalid | Dropped

  datatype Drained = Drained(handled: seq<Message>, rest: seq<Byte>, stop: Stop)

  /** Hand over complete messages from the front of the buffer. `keep` says whether handling the last
      message leaves the connection open. */
  function Drain(buffer: seq<Byte>, handled: seq<Message>, networkMagic: U32, keep: seq<Message> -> bool): Drained
    decreases |buffer|
  {
    if |buffer| < HEADER then Drained(handled, buffer, Waiting)
    else if DeclaredLength(buffer) > MAX_PROTOCOL_MSG_SIZE then Drained(handled, buffer, TooLarge)
    else
      var total := HEADER + DeclaredLength(buffer);
      if |buffer| < total then Drained(handled, buffer, Waiting)
      else
        match Deserialized(buffer[..total], networkMagic)
        case Malformed => Drained(handled, buffer, Invalid)
        case Parsed(msg) =>
          if !keep(handled + [msg]) then Drained(handled + [msg], buffer[total..], Dropped)
          else Drain(buffer[total..], handled + [msg], networkMagic, keep)
  }

  /** A peer between two reads. */
  datatype Peer = Peer(recvBuffer: seq<Byte>, connected: bool, misbehavior: nat, handled: seq<Message>)

  /** What one read makes of a peer. */
  function AfterRead(p: Peer, chunk: seq<Byte>, networkMagic: U32, keep: seq<Message> -> bool): Peer {
    if !p.connected || chunk == [] then p
    else if |p.recvBuffer + chunk| > MAX_PROTOCOL_MSG_SIZE + HEADER then
      Peer(p.recvBuffer + chunk, false, p.misbehavior + 20, p.handled)
    else
      var d := Drain(p.recvBuffer + chunk, p.handled, networkMagic, keep);
      var score := p.misbehavior + (if d.stop.TooLarge? then 20 else if d.stop.Invalid? then 10 else 0);
      Peer(d.rest, d.stop.Waiting? || (d.stop.Invalid? && score < BAN_SCORE), score, d.handled)
  }

  function AfterReads(p: Peer, chunks: seq<seq<Byte>>, networkMagic: U32, keep: seq<Message> -> bool): Peer {
    if chunks == [] then p
    else
      var n := |chunks| - 1;
      AfterRead(AfterReads(p, chunks[..n], networkMagic, keep), chunks[n], networkMagic, keep)
  }

  class Node {
    const networkMagic: U32
    const keep: seq<Message> -> bool
    var recvBuffer: seq<Byte>
    var connected: bool
    var misbehavior: nat
    var handled: seq<Message>

    constructor (networkMagic: U32, keep: seq<Message> -> bool)
      ensures this.networkMagic == networkMagic && this.keep == keep
      ensures State() == Peer([], true, 0, [])
    {
      this.networkMagic := networkMagic;
      this.keep := keep;
      recvBuffer, connected, misbehavior, handled := [], true, 0, [];
    }

    function State(): Peer
      reads this
    {
      Peer(recvBuffer, connected, misbehavior, handled)
    }

    /** `HandleMessage`, as far as framing is concerned. */
    method HandleMessage(msg: Message)
      modifies this`handled, this`connected
      ensures handled == old(handled) + [msg] && connected == (old(connected) && keep(handled))
    {
      handled := handled + [msg];
      connected := connected && keep(handled);
    }

    /** Take in what one read returned. */
    method HandleRead(chunk: seq<Byte>)
      requires connected
      modifies this
      ensures State() == AfterRead(old(State()), chunk, networkMagic, keep)
    {
      if |chunk| == 0 {
        return;
      }
      recvBuffer := recvBuffer + chunk;
      if |recvBuffer| > MAX_PROTOCOL_MSG_SIZE + HEADER {
        misbehavior := misbehavior + 20;
        connected := false;
        return;
      }
      ghost var d := Drain(recvBuffer, handled, networkMagic, keep);
      while |recvBuffer| >= HEADER
        invariant connected && misbehavior == old(misbehavior)
        invariant d == Drain(recvBuffer, handled, networkMagic, keep)
        decreases |recvBuffer|
      {
        var payloadSize := DeclaredLength(recvBuffer);
        if payloadSize > MAX_PROTOCOL_MSG_SIZE {
          misbehavior := misbehavior + 20;
          connected := false;
          return;
        }
        var total := HEADER + payloadSize;
        if |recvBuffer| < total {
          break;
        }
        match Deserialized(recvBuffer[..total], networkMagic)
        case Malformed =>
          misbehavior := misbehavior + 10;
          if misbehavior >= BAN_SCORE {
            connected := false;
          }
          return;
        case Parsed(msg) =>
          recvBuffer := recvBuffer[total..];
          HandleMessage(msg);
          if !connected {
            return;
          }
      }
    }
  }

  // ---- Whole streams ----

  function Stream(ms: seq<Message>): seq<Byte> {
    if ms == [] then [] else Serialized(ms[0]) + Stream(ms[1..])
  }

  /** A complete message at the front is handed over. */
  lemma DrainMessage(m: Message, tail: seq<Byte>, handled: seq<Message>, networkMagic: U32, keep: seq<Message> -> bool)
    requires Acceptable(m, networkMagic) && keep(handled + [m])
    ensures Drain(Serialized(m) + tail, handled, networkMagic, keep) == Drain(tail, handled + [m], networkMagic, keep)
  {
    var s := Serialized(m) + tail;
    HeaderOf(m, tail, networkMagic);
    var total := HEADER + |m.payload|;
    assert s[..total] == Serialized(m) + [] && s[total..] == tail;
    RoundTrip(m, [], networkMagic);
  }

  /** A message not complete yet is left in the buffer. */
  lemma DrainPart(m: Message, n: nat, handled: seq<Message>, networkMagic: U32, keep: seq<Message> -> bool)
    requires Acceptable(m, networkMagic) && n < |Serialized(m)|
    ensures Drain(Serialized(m)[..n], handled, networkMagic, keep) == Drained(handled, Serialized(m)[..n], Waiting)
  {
    var s := Serialized(m)[..n];
    if n >= HEADER {
      HeaderOf(m, [], networkMagic);
      assert Serialized(m) + [] == Serialized(m);
      assert s[5..9] == Serialized(m)[5..9];
    }
  }

  /** Draining what has arrived of a stream leaves the incomplete message and nothing else. */
  lemma {:induction false} DrainStream(left: seq<Message>, handled: seq<Message>, buffer: seq<Byte>, future: seq<Byte>,
                                       networkMagic: U32, keep: seq<Message> -> bool) returns (j: nat)
    requires forall m :: m in left ==> Acceptable(m, networkMagic)
    requires forall h :: keep(h)
    requires Stream(left) == buffer + future
    ensures j <= |left|
    ensures var d := Drain(buffer, handled, networkMagic, keep);
      && d.stop == Waiting && d.handled == handled + left[..j] && Stream(left[j..]) == d.rest + future
      && (j < |left| ==> |d.rest| < |Serialized(left[j])|)
  {
    if left == [] {
      j := 0;
    } else {
      var s := Serialized(left[0]);
      if |buffer| >= |s| {
        var tail := buffer[|s|..];
        FrontComplete(s, Stream(left[1..]), buffer, future);
        DrainMessage(left[0], tail, handled, networkMagic, keep);
        var k := DrainStream(left[1..], handled + [left[0]], tail, future, networkMagic, keep);
        j := k + 1;
        TakeOneMore(left, handled, k);
      } else {
        j := 0;
        FrontIncomplete(s, Stream(left[1..]), buffer, future);
        DrainPart(left[0], |buffer|, handled, networkMagic, keep);
        assert left[..0] == [] && left[0..] == left && handled + [] == handled;
      }
    }
  }

  lemma FrontComplete(s: seq<Byte>, more: seq<Byte>, buffer: seq<Byte>, future: seq<Byte>)
    requires s + more == buffer + future && |buffer| >= |s|
    ensures buffer == s + buffer[|s|..] && more == buffer[|s|..] + future
  {
    assert buffer[..|s|] == (buffer + future)[..|s|] == s;
    assert more == (buffer + future)[|s|..];
  }

  lemma FrontIncomplete(s: seq<Byte>, more: seq<Byte>, buffer: seq<Byte>, future: seq<Byte>)
    requires s + more == buffer + future && |buffer| < |s|
    ensures buffer == s[..|buffer|]
  {
    assert buffer == (buffer + future)[..|buffer|] == (s + more)[..|buffer|];
  }

  lemma TakeOneMore(left: seq<Message>, handled: seq<Message>, k: nat)
    requires left != [] && k < |left|
    ensures handled + [left[0]] + left[1..][..k] == handled + left[..k + 1] && left[1..][k..] == left[k + 1..]
  {}

  /** Exactly the messages complete so far have been handed over, and the buffer holds the start of
      the next one. */
  ghost predicate Framed(ms: seq<Message>, handled: seq<Message>, buffer: seq<Byte>, got: seq<Byte>) {
    && handled <= ms && Stream(handled) + buffer == got
    && (handled < ms ==> |buffer| < |Serialized(ms[|handled|])|)
    && (handled == ms ==> buffer == [])
  }

  lemma {:induction false} StreamConcat(a: seq<Message>, b: seq<Message>)
    ensures Stream(a + b) == Stream(a) + Stream(b)
  {
    if a == [] {
      assert a + b == b;
    } else {
      assert (a + b)[1..] == a[1..] + b;
      StreamConcat(a[1..], b);
    }
  }

  /** What has arrived decides what has been handed over. */
  lemma {:induction false} FramedUnique(ms: seq<Message>, h: seq<Message>, b: seq<Byte>, h': seq<Message>, b': seq<Byte>, got: seq<Byte>)
    requires Framed(ms, h, b, got) && Framed(ms, h', b', got) && |h| <= |h'|
    ensures h == h' && b == b'
  {
    assert h' == h + h'[|h|..];
    StreamConcat(h, h'[|h|..]);
    assert b == got[|Stream(h)|..];
    assert h == h'[..|h|];
  }

  /** The whole stream: every message, in order. */
  lemma FramedAll(ms: seq<Message>, handled: seq<Message>, buffer: seq<Byte>)
    requires Framed(ms, handled, buffer, Stream(ms))
    ensures handled == ms && buffer == []
  {
    assert ms + [] == ms && Stream(ms) + [] == Stream(ms);
    FramedUnique(ms, handled, buffer, ms, [], Stream(ms));
  }

  /** What a read can bring in behind the last byte of message j, together with it, stays within the limit. */
  predicate FitsRead(ms: seq<Message>, j: nat, size: nat)
    requires j < |ms|
  {
    |ms[j].payload| + BehindInRead(ms, j, size) <= MAX_PROTOCOL_MSG_SIZE
  }

  /** The most bytes behind message j that come in with its last byte, when a read returns up to size bytes. */
  function BehindInRead(ms: seq<Message>, j: nat, size: nat): nat
    requires j < |ms|
  {
    var behind := |Stream(ms[j + 1..])|;
    if size == 0 then 0 else if behind < size - 1 then behind else size - 1
  }

  predicate AllAcceptable(ms: seq<Message>, networkMagic: U32) {
    forall j :: 0 <= j < |ms| ==> Acceptable(ms[j], networkMagic)
  }

  predicate FitsReads(ms: seq<Message>, size: nat) {
    forall j :: 0 <= j < |ms| ==> FitsRead(ms, j, size)
  }

  /** Reads of up to size bytes that bring in the stream, or the beginning of it. */
  predicate IsCut(ms: seq<Message>, chunks: seq<seq<Byte>>, size: nat) {
    Concat(chunks) <= Stream(ms) && forall i :: 0 <= i < |chunks| ==> |chunks[i]| <= size
  }

  /** What is in the buffer and what follows is the stream of the messages not handed over. */
  lemma LeftToCome(ms: seq<Message>, handled: seq<Message>, buffer: seq<Byte>, got: seq<Byte>, chunk: seq<Byte>)
    requires Framed(ms, handled, buffer, got) && got + chunk <= Stream(ms)
    ensures var left := ms[|handled|..];
      ms == handled + left && Stream(left) == (buffer + chunk) + Stream(ms)[|got + chunk|..]
  {
    var left := ms[|handled|..];
    assert ms == handled + left;
    StreamConcat(handled, left);
    StillToCome(Stream(handled), Stream(left), buffer, chunk, Stream(ms)[|got + chunk|..]);
  }

  lemma RoomForRead(ms: seq<Message>, handled: seq<Message>, buffer: seq<Byte>, got: seq<Byte>, chunk: seq<Byte>, size: nat)
    requires FitsReads(ms, size) && |chunk| <= size
    requires Framed(ms, handled, buffer, got) && got + chunk <= Stream(ms)
    ensures |buffer + chunk| <= MAX_PROTOCOL_MSG_SIZE + HEADER
  {
    LeftToCome(ms, handled, buffer, got, chunk);
    if handled == ms {
      assert ms[|handled|..] == [];
    } else {
      var j := |handled|;
      assert ms[j..][1..] == ms[j + 1..];
      assert FitsRead(ms, j, size);
    }
  }

  lemma FramedStep(ms: seq<Message>, handled: seq<Message>, buffer: seq<Byte>, got: seq<Byte>, chunk: seq<Byte>,
                   size: nat, networkMagic: U32, keep: seq<Message> -> bool)
    requires AllAcceptable(ms, networkMagic) && FitsReads(ms, size) && forall h :: keep(h)
    requires Framed(ms, handled, buffer, got) && got + chunk <= Stream(ms) && |chunk| <= size
    ensures |buffer + chunk| <= MAX_PROTOCOL_MSG_SIZE + HEADER
    ensures var d := Drain(buffer + chunk, handled, networkMagic, keep);
      d.stop == Waiting && Framed(ms, d.handled, d.rest, got + chunk)
  {
    var left, future := ms[|handled|..], Stream(ms)[|got + chunk|..];
    LeftToCome(ms, handled, buffer, got, chunk);
    RoomForRead(ms, handled, buffer, got, chunk, size);
    var j := DrainStream(left, handled, buffer + chunk, future, networkMagic, keep);
    var d := Drain(buffer + chunk, handled, networkMagic, keep);
    FramedAfter(handled, left, j, d.rest, buffer + chunk, future);
    Associated(Stream(handled), buffer, chunk);
  }

  lemma Associated<T>(a: seq<T>, b: seq<T>, c: seq<T>)
    ensures (a + b) + c == a + (b + c)
  {}

  /** The first j of the messages left are complete, and the rest is the start of the next one. */
  lemma FramedAfter(handled: seq<Message>, left: seq<Message>, j: nat, rest: seq<Byte>, buffer: seq<Byte>, future: seq<Byte>)
    requires j <= |left| && Stream(left) == buffer + future && Stream(left[j..]) == rest + future
    requires j < |left| ==> |rest| < |Serialized(left[j])|
    ensures Framed(handled + left, handled + left[..j], rest, Stream(handled) + buffer)
  {
    StreamConcat(handled, left[..j]);
    StreamConcat(left[..j], left[j..]);
    assert left == left[..j] + left[j..];
    HandedOver(Stream(handled), Stream(left[..j]), rest, buffer, future);
    Associated(handled, left[..j], left[j..]);
    if j == |left| { assert left[j..] == []; }
  }

  lemma StillToCome(h: seq<Byte>, l: seq<Byte>, buffer: seq<Byte>, chunk: seq<Byte>, future: seq<Byte>)
    requires h + l == (h + buffer) + chunk + future
    ensures l == (buffer + chunk) + future
  {
    assert l == (h + l)[|h|..];
    assert (h + buffer) + chunk + future == h + ((buffer + chunk) + future);
  }

  lemma HandedOver(h: seq<Byte>, l: seq<Byte>, rest: seq<Byte>, buffer: seq<Byte>, future: seq<Byte>)
    requires l + (rest + future) == buffer + future
    ensures (h + l) + rest == h + buffer
  {
    assert (l + rest) + future == buffer + future;
    assert l + rest == ((l + rest) + future)[..|l + rest|];
    assert buffer == (buffer + future)[..|buffer|];
  }

  /** The peer is still there and has handed over the messages complete so far. */
  ghost predicate InOrder(ms: seq<Message>, got: seq<Byte>, p: Peer) {
    p.connected && Framed(ms, p.handled, p.recvBuffer, got)
  }

  lemma {:induction false} ReadsFramed(ms: seq<Message>, chunks: seq<seq<Byte>>, size: nat, score: nat, networkMagic: U32,
                                       keep: seq<Message> -> bool)
    requires AllAcceptable(ms, networkMagic) && FitsReads(ms, size) && forall h :: keep(h)
    requires IsCut(ms, chunks, size)
    ensures var p := AfterReads(Peer([], true, score, []), chunks, networkMagic, keep);
      InOrder(ms, Concat(chunks), p) && p.misbehavior == score
  {
    if chunks == [] {
      FramedStart(ms);
    } else {
      var n := |chunks| - 1;
      CutShorter(ms, chunks, size);
      ReadsFramed(ms, chunks[..n], size, score, networkMagic, keep);
      OneReadMore(ms, AfterReads(Peer([], true, score, []), chunks[..n], networkMagic, keep), Concat(chunks[..n]), chunks[n], size,
                  networkMagic, keep);
    }
  }

  lemma CutShorter(ms: seq<Message>, chunks: seq<seq<Byte>>, size: nat)
    requires chunks != [] && IsCut(ms, chunks, size)
    ensures IsCut(ms, chunks[..|chunks| - 1], size)
  {}

  lemma OneReadMore(ms: seq<Message>, p: Peer, got: seq<Byte>, chunk: seq<Byte>, size: nat, networkMagic: U32,
                    keep: seq<Message> -> bool)
    requires AllAcceptable(ms, networkMagic) && FitsReads(ms, size) && forall h :: keep(h)
    requires InOrder(ms, got, p) && got + chunk <= Stream(ms) && |chunk| <= size
    ensures var q := AfterRead(p, chunk, networkMagic, keep);
      InOrder(ms, got + chunk, q) && q.misbehavior == p.misbehavior
  {
    if chunk == [] {
      assert got + chunk == got;
    } else {
      FramedStep(ms, p.handled, p.recvBuffer, got, chunk, size, networkMagic, keep);
    }
  }

  /** However the stream is cut into reads, the node hands over the messages complete so far. */
  method ReadAll(node: Node, ms: seq<Message>, chunks: seq<seq<Byte>>)
    requires node.connected && node.handled == [] && node.recvBuffer == [] && forall h :: node.keep(h)
    requires AllAcceptable(ms, node.networkMagic) && FitsReads(ms, READ_CHUNK_SIZE) && IsCut(ms, chunks, READ_CHUNK_SIZE)
    modifies node
    ensures node.connected && node.misbehavior == old(node.misbehavior)
    ensures Framed(ms, node.handled, node.recvBuffer, Concat(chunks))
    ensures Concat(chunks) == Stream(ms) ==> node.handled == ms && node.recvBuffer == []
  {
    for i := 0 to |chunks|
      invariant node.State() == AfterReads(old(node.State()), chunks[..i], node.networkMagic, node.keep)
      invariant node.connected
    {
      assert chunks[..i + 1][..i] == chunks[..i];
      CutPrefix(ms, chunks, i + 1, READ_CHUNK_SIZE);
      ReadsFramed(ms, chunks[..i + 1], READ_CHUNK_SIZE, old(node.misbehavior), node.networkMagic, node.keep);
      node.HandleRead(chunks[i]);
    }
    assert chunks[..|chunks|] == chunks;
    ReadsFramed(ms, chunks, READ_CHUNK_SIZE, old(node.misbehavior), node.networkMagic, node.keep);
    if Concat(chunks) == Stream(ms) {
      FramedAll(ms, node.handled, node.recvBuffer);
    }
  }

  lemma {:induction false} CutPrefix(ms: seq<Message>, chunks: seq<seq<Byte>>, i: nat, size: nat)
    requires i <= |chunks| && IsCut(ms, chunks, size)
    ensures IsCut(ms, chunks[..i], size)
    decreases |chunks|
  {
    if i < |chunks| {
      CutShorter(ms, chunks, size);
      CutPrefix(ms, chunks[..|chunks| - 1], i, size);
      assert chunks[..|chunks| - 1][..i] == chunks[..i];
    } else {
      assert chunks[..i] == chunks;
    }
  }

  lemma FramedStart(ms: seq<Message>)
    ensures Framed(ms, [], [], [])
  {}

  /** Bytes one at a time. */
  function Singly(s: seq<Byte>): (chunks: seq<seq<Byte>>)
    ensures |chunks| == |s| && forall i :: 0 <= i < |s| ==> |chunks[i]| == 1
  {
    if s == [] then [] else Singly(s[..|s| - 1]) + [[s[|s| - 1]]]
  }

  lemma {:induction false} ConcatSingly(s: seq<Byte>)
    ensures Concat(Singly(s)) == s
  {
    if s != [] {
      var n := |s| - 1;
      ConcatSingly(s[..n]);
      assert Singly(s)[..n] == Singly(s[..n]);
      assert s[..n] + [s[n]] == s;
    }
  }

  /** The stream up to the last byte of message j, that byte, and what is behind it. */
  lemma AroundMessage(ms: seq<Message>, j: nat)
    requires j < |ms|
    ensures var s := Serialized(ms[j]);
      var front := Stream(ms[..j]) + s[..|s| - 1];
      && |Stream(ms)| == |front| + 1 + |Stream(ms[j + 1..])| && front <= Stream(ms)
      && Framed(ms, ms[..j], s[..|s| - 1], front)
  {
    assert ms == ms[..j] + ms[j..] && ms[j..][0] == ms[j] && ms[j..][1..] == ms[j + 1..];
    StreamConcat(ms[..j], ms[j..]);
    var s := Serialized(ms[j]);
    assert Stream(ms) == (Stream(ms[..j]) + s[..|s| - 1]) + (s[|s| - 1..] + Stream(ms[j + 1..]));
  }

  /** A message that does not fit is lost in some cut of the stream: when all but its last byte came in
      singly, and that byte comes with as much behind it as a read returns. */
  lemma LongPayloadDropped(ms: seq<Message>, j: nat, size: nat, score: nat, networkMagic: U32, keep: seq<Message> -> bool)
      returns (chunks: seq<seq<Byte>>)
    requires AllAcceptable(ms, networkMagic) && (forall h :: keep(h)) && j < |ms| && size > 0 && !FitsRead(ms, j, size)
    ensures IsCut(ms, chunks, size)
    ensures var p := AfterReads(Peer([], true, score, []), chunks, networkMagic, keep);
      !p.connected && p.handled == ms[..j] && p.misbehavior == score + 20
  {
    AroundMessage(ms, j);
    var s := Serialized(ms[j]);
    var front := Stream(ms[..j]) + s[..|s| - 1];
    var last := Stream(ms)[|front|..|front| + 1 + BehindInRead(ms, j, size)];
    AllButLastByte(ms, j, front, score, networkMagic, keep);
    chunks := OneChunkMore(Stream(ms), front, last, size);
    assert chunks[..|chunks| - 1] == Singly(front);
  }

  lemma OneChunkMore(stream: seq<Byte>, front: seq<Byte>, last: seq<Byte>, size: nat) returns (chunks: seq<seq<Byte>>)
    requires front <= stream && |front| + |last| <= |stream| && last == stream[|front|..|front| + |last|] && 0 < |last| <= size
    ensures chunks == Singly(front) + [last]
    ensures Concat(chunks) <= stream && forall i :: 0 <= i < |chunks| ==> |chunks[i]| <= size
  {
    ConcatSingly(front);
    chunks := Singly(front) + [last];
    assert chunks[..|chunks| - 1] == Singly(front);
    assert front + last == stream[..|front| + |last|];
  }

  /** Everything up to the last byte of message j came in, one byte at a time. */
  lemma AllButLastByte(ms: seq<Message>, j: nat, front: seq<Byte>, score: nat, networkMagic: U32, keep: seq<Message> -> bool)
    requires AllAcceptable(ms, networkMagic) && (forall h :: keep(h)) && j < |ms|
    requires front == Stream(ms[..j]) + Serialized(ms[j])[..|Serialized(ms[j])| - 1]
    ensures AfterReads(Peer([], true, score, []), Singly(front), networkMagic, keep)
         == Peer(Serialized(ms[j])[..|Serialized(ms[j])| - 1], true, score, ms[..j])
  {
    var part := Serialized(ms[j])[..|Serialized(ms[j])| - 1];
    AroundMessage(ms, j);
    ConcatSingly(front);
    ReadsFramed(ms, Singly(front), 1, score, networkMagic, keep);
    var p := AfterReads(Peer([], true, score, []), Singly(front), networkMagic, keep);
    if |p.handled| <= j {
      FramedUnique(ms, p.handled, p.recvBuffer, ms[..j], part, front);
    } else {
      FramedUnique(ms, ms[..j], part, p.handled, p.recvBuffer, front);
    }
  }

  /** So no cut of the stream loses a message exactly when every message fits. */
  lemma DeliveredExactly(ms: seq<Message>, size: nat, score: nat, networkMagic: U32, keep: seq<Message> -> bool)
    requires AllAcceptable(ms, networkMagic) && (forall h :: keep(h)) && size > 0
    ensures (forall chunks :: IsCut(ms, chunks, size) ==>
              InOrder(ms, Concat(chunks), AfterReads(Peer([], true, score, []), chunks, networkMagic, keep)))
      <==> FitsReads(ms, size)
  {
    if FitsReads(ms, size) {
      forall chunks | IsCut(ms, chunks, size)
        ensures InOrder(ms, Concat(chunks), AfterReads(Peer([], true, score, []), chunks, networkMagic, keep))
      {
        ReadsFramed(ms, chunks, size, score, networkMagic, keep);
      }
    } else {
      var j :| 0 <= j < |ms| && !FitsRead(ms, j, size);
      var chunks := LongPayloadDropped(ms, j, size, score, networkMagic, keep);
    }
  }

  /** Payloads up to one read short of the limit always fit; a longer one does not, with a full read behind it. */
  lemma FitsWhateverFollows(ms: seq<Message>, j: nat, size: nat)
    requires j < |ms| && 0 < size <= MAX_PROTOCOL_MSG_SIZE
    ensures |ms[j].payload| <= MAX_PROTOCOL_MSG_SIZE - size + 1 ==> FitsRead(ms, j, size)
    ensures |Stream(ms[j + 1..])| >= size - 1 ==> (FitsRead(ms, j, size) <==> |ms[j].payload| <= MAX_PROTOCOL_MSG_SIZE - size + 1)
  {}
}

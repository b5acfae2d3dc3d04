/**
 Length-prefixed frames on a peer connection. The payload codecs are parameters; all that is
 asked of them is that what they write they read back.
 */
module Framing {
  import opened Basics
  import opened ByteOrder
  import opened Endian
  import opened Formats

  datatype Codec<!M> = Codec(write: (Format, M) -> Option<Bytes>, read: (Format, Bytes) -> Option<M>)

  ghost predicate RoundTrips<M(!new)>(codec: Codec<M>) {
    forall f, m :: codec.write(f, m).Some? ==> codec.read(f, codec.write(f, m).value) == Some(m)
  }

  function ToWireByte(f: Format): Byte {
    match f
    case Json => 0x01
    case Bincode => 0x02
  }

  function FromWireByte(b: Byte): Option<Format> {
    if b == 0x01 then Some(Json) else if b == 0x02 then Some(Bincode) else None
  }

  /** No frame when the codec fails or the payload and its format byte exceed 32 bits. */
  function EncodeFrame<M>(codec: Codec<M>, f: Format, m: M): Option<Bytes> {
    match codec.write(f, m)
    case Some(payload) =>
      if |payload| + 1 > MAX_U32 then None
      else Some(Be32(|payload| + 1) + [ToWireByte(f)] + payload)
    case None => None
  }

  datatype ReadResult<M> =
    | Read(format: Format, message: M)
    | MissingFormat
    | UnknownFormat
    | Undecodable
    | TooLarge(length: nat)
    | EndOfStream

  function DecodeFrame<M>(codec: Codec<M>, b: Bytes): ReadResult<M> {
    if b == [] then MissingFormat
    else match FromWireByte(b[0])
      case None => UnknownFormat
      case Some(f) =>
        match codec.read(f, b[1..])
        case Some(m) => Read(f, m)
        case None => Undecodable
  }

  /** One read off the front of the stream, and what is left of it. */
  function Next<M>(codec: Codec<M>, limit: nat, b: Bytes): (ReadResult<M>, Bytes) {
    if |b| < 4 then (EndOfStream, [])
    else
      var length := FromBe32(b[..4]);
      if length > limit then (TooLarge(length), b[4..])
      else if |b| < 4 + length then (EndOfStream, [])
      else (DecodeFrame(codec, b[4..4 + length]), b[4 + length..])
  }

  lemma NextOfFrame<M(!new)>(codec: Codec<M>, limit: nat, f: Format, m: M, rest: Bytes)
    requires RoundTrips(codec) && EncodeFrame(codec, f, m).Some?
    ensures var frame := EncodeFrame(codec, f, m).value;
            var length := |frame| - 4;
            Next(codec, limit, frame + rest) ==
              if length <= limit then (Read(f, m), rest) else (TooLarge(length), (frame + rest)[4..])
  {
    var payload := codec.write(f, m).value;
    var frame := EncodeFrame(codec, f, m).value;
    var b := frame + rest;
    var length := |payload| + 1;
    Be32RoundTrip(length);
    assert b[..4] == Be32(length);
    assert b[4..4 + length] == [ToWireByte(f)] + payload;
    assert b[4 + length..] == rest;
  }

  /** A frame on the wire: four length bytes, most significant first, a format byte, the payload. */
  lemma FrameLayout<M>(codec: Codec<M>, f: Format, m: M)
    requires codec.write(f, m).Some? && |codec.write(f, m).value| + 1 <= 0xFFFF_FFFF
    ensures var payload := codec.write(f, m).value;
            var n := |payload| + 1;
            EncodeFrame(codec, f, m) ==
              Some([n / 0x100_0000, n / 0x1_0000 % 0x100, n / 0x100 % 0x100, n % 0x100] + [if f.Json? then 1 else 2] + payload)
  {
    Bytes32(|codec.write(f, m).value| + 1);
  }

  /** One read, by the bytes at the front. */
  lemma NextByBytes<M>(codec: Codec<M>, limit: nat, b: Bytes)
    ensures |b| < 4 ==> Next(codec, limit, b) == (EndOfStream, [])
    ensures |b| >= 4 ==>
              var n := Quad(b[0], b[1], b[2], b[3]);
              && (n > limit ==> Next(codec, limit, b) == (TooLarge(n), b[4..]))
              && (n <= limit && |b| < 4 + n ==> Next(codec, limit, b) == (EndOfStream, []))
              && (n <= limit && |b| >= 4 + n ==>
                    && Next(codec, limit, b).1 == b[4 + n..]
                    && Next(codec, limit, b).0 ==
                         if n == 0 then MissingFormat
                         else if b[4] != 1 && b[4] != 2 then UnknownFormat
                         else match codec.read(if b[4] == 1 then Json else Bincode, b[5..4 + n])
                           case Some(m) => Read(if b[4] == 1 then Json else Bincode, m)
                           case None => Undecodable)
  {
    if |b| >= 4 {
      Number32(b[..4]);
      var n := FromBe32(b[..4]);
      if n <= limit && 0 < n && |b| >= 4 + n { assert b[4..4 + n][1..] == b[5..4 + n]; }
    }
  }

  // ----- Streams of frames

  datatype Item<M> = Item(format: Format, message: M)

  predicate Sendable<M>(codec: Codec<M>, limit: nat, item: Item<M>) {
    var frame := EncodeFrame(codec, item.format, item.message);
    frame.Some? && |frame.value| - 4 <= limit
  }

  /** Exactly the messages within the limit of the receiver arrive. */
  lemma SendableArrives<M(!new)>(codec: Codec<M>, limit: nat, item: Item<M>, rest: Bytes)
    requires RoundTrips(codec) && EncodeFrame(codec, item.format, item.message).Some?
    ensures var frame := EncodeFrame(codec, item.format, item.message).value;
            Sendable(codec, limit, item) <==> Next(codec, limit, frame + rest) == (Read(item.format, item.message), rest)
  {
    NextOfFrame(codec, limit, item.format, item.message, rest);
  }

  ghost predicate AllSendable<M>(codec: Codec<M>, limit: nat, items: seq<Item<M>>) {
    forall i :: 0 <= i < |items| ==> Sendable(codec, limit, items[i])
  }

  ghost function Stream<M>(codec: Codec<M>, limit: nat, items: seq<Item<M>>): Bytes
    requires AllSendable(codec, limit, items)
  {
    if items == [] then []
    else
      assert Sendable(codec, limit, items[0]);
      EncodeFrame(codec, items[0].format, items[0].message).value + Stream(codec, limit, items[1..])
  }

  /** The reading end of a connection. */
  class Reader {
    const bytes: Bytes
    var position: nat

    predicate Valid()
      reads this
    {
      position <= |bytes|
    }

    function Left(): Bytes
      requires Valid()
      reads this
    {
      bytes[position..]
    }

    constructor (bytes: Bytes)
      ensures Valid() && this.bytes == bytes && Left() == bytes
    {
      this.bytes, position := bytes, 0;
    }

    method ReadExact(n: nat) returns (r: Option<Bytes>)
      requires Valid()
      modifies this
      ensures Valid()
      ensures r == if n <= |old(Left())| then Some(old(Left())[..n]) else None
      ensures Left() == if r.Some? then old(Left())[n..] else []
    {
      if n > |bytes| - position {
        position := |bytes|;
        return None;
      }
      assert Left()[..n] == bytes[position..position + n] && Left()[n..] == bytes[position + n..];
      r := Some(bytes[position..position + n]);
      position := position + n;
    }

    method ReadMessage<M>(codec: Codec<M>, limit: nat) returns (r: ReadResult<M>)
      requires Valid()
      modifies this
      ensures Valid() && (r, Left()) == Next(codec, limit, old(Left()))
    {
      var header := ReadExact(4);
      if header.None? { return EndOfStream; }
      var length := FromBe32(header.value);
      if length > limit { return TooLarge(length); }
      ghost var b := old(Left());
      assert |b| >= 4 + length ==> b[4..][..length] == b[4..4 + length] && b[4..][length..] == b[4 + length..];
      var frame := ReadExact(length);
      if frame.None? { return EndOfStream; }
      r := DecodeFrame(codec, frame.value);
    }
  }

  lemma NextOfStream<M(!new)>(codec: Codec<M>, limit: nat, items: seq<Item<M>>)
    requires RoundTrips(codec) && AllSendable(codec, limit, items)
    ensures AllSendable(codec, limit, if items == [] then [] else items[1..])
    ensures Next(codec, limit, Stream(codec, limit, items)) ==
            if items == [] then (EndOfStream, [])
            else (Read(items[0].format, items[0].message), Stream(codec, limit, items[1..]))
  {
    if items != [] {
      assert Sendable(codec, limit, items[0]);
      NextOfFrame(codec, limit, items[0].format, items[0].message, Stream(codec, limit, items[1..]));
    }
  }

  method ReadItem<M(!new)>(reader: Reader, codec: Codec<M>, limit: nat, ghost items: seq<Item<M>>)
    returns (item: Option<Item<M>>)
    requires reader.Valid() && RoundTrips(codec) && AllSendable(codec, limit, items)
    requires reader.Left() == Stream(codec, limit, items)
    modifies reader
    ensures reader.Valid() && AllSendable(codec, limit, if items == [] then [] else items[1..])
    ensures items == [] ==> item == None && reader.Left() == []
    ensures items != [] ==> item == Some(items[0]) && reader.Left() == Stream(codec, limit, items[1..])
  {
    NextOfStream(codec, limit, items);
    var r := reader.ReadMessage(codec, limit);
    item := if r.Read? then Some(Item(r.format, r.message)) else None;
  }

  lemma Regroup<T>(a: seq<T>, b: seq<T>)
    requires b != []
    ensures a + b == a + [b[0]] + b[1..]
  {
  }

  /** Reading a stream of frames gives back the messages and formats in order and uses it up. */
  method ReadAll<M(!new)>(reader: Reader, codec: Codec<M>, limit: nat, ghost items: seq<Item<M>>)
    returns (out: seq<Item<M>>)
    requires reader.Valid() && RoundTrips(codec) && AllSendable(codec, limit, items)
    requires reader.Left() == Stream(codec, limit, items)
    modifies reader
    ensures reader.Valid() && out == items && reader.Left() == []
  {
    out := [];
    ghost var rest := items;
    while true
      invariant reader.Valid() && AllSendable(codec, limit, rest) && items == out + rest
      invariant reader.Left() == Stream(codec, limit, rest)
      decreases |rest|
    {
      var item := ReadItem(reader, codec, limit, rest);
      if item.None? { break; }
      Regroup(out, rest);
      rest := rest[1..];
      out := out + [item.value];
    }
  }

  // ----- Public and internal messages

  datatype WireError =
    | ProtocolMismatch(expected: nat, got: nat)
    | OpRejected(reason: string)
    | RateLimited(retryAfterMs: Option<nat>)
    | NotAuthorized(reason: string)
    | Internal(reason: string)

  datatype ProtocolWireError =
    | ProtocolMismatch(expected: nat, got: nat)
    | OpRejected(reason: string)
    | RateLimited(retryAfterMs: Option<nat>)
    | NotAuthorized(reason: string)
    | Internal(reason: string)
    | BootstrapRejected(reason: string)

  datatype Message<Op> =
    | Hello(node: nat, version: nat, supported: seq<Format>, preferred: Format)
    | HelloAck(node: nat, version: nat, selected: Format)
    | PushOps(ops: seq<Op>)
    | PushOpsAck(received: nat)
    | PullSince(since: Option<string>)
    | Ping
    | Pong
    | Error(error: WireError)

  datatype WireMessage<Op> =
    | Hello(node: nat, version: nat, supported: seq<Format>, preferred: Format)
    | HelloAck(node: nat, version: nat, selected: Format)
    | PushOps(ops: seq<Op>)
    | PushOpsAck(received: nat)
    | PullSince(since: Option<string>)
    | Ping
    | Pong
    | Error(error: ProtocolWireError)
    | BootstrapHello(node: nat, version: nat, supported: seq<Format>, preferred: Format, cluster: string,
                     endpoint: Option<string>, maxResults: nat)
    | BootstrapAck(node: nat, version: nat, selected: Format, cluster: string, candidates: seq<string>, ttlMs: nat)

  function ErrorToWire(e: WireError): ProtocolWireError {
    match e
    case ProtocolMismatch(expected, got) => ProtocolWireError.ProtocolMismatch(expected, got)
    case OpRejected(reason) => ProtocolWireError.OpRejected(reason)
    case RateLimited(ms) => ProtocolWireError.RateLimited(ms)
    case NotAuthorized(reason) => ProtocolWireError.NotAuthorized(reason)
    case Internal(reason) => ProtocolWireError.Internal(reason)
  }

  function ErrorFromWire(e: ProtocolWireError): Option<WireError> {
    match e
    case ProtocolMismatch(expected, got) => Some(WireError.ProtocolMismatch(expected, got))
    case OpRejected(reason) => Some(WireError.OpRejected(reason))
    case RateLimited(ms) => Some(WireError.RateLimited(ms))
    case NotAuthorized(reason) => Some(WireError.NotAuthorized(reason))
    case Internal(reason) => Some(WireError.Internal(reason))
    case BootstrapRejected(_) => None
  }

  function ToWire<Op>(m: Message<Op>): WireMessage<Op> {
    match m
    case Hello(node, version, supported, preferred) => WireMessage.Hello(node, version, supported, preferred)
    case HelloAck(node, version, selected) => WireMessage.HelloAck(node, version, selected)
    case PushOps(ops) => WireMessage.PushOps(ops)
    case PushOpsAck(received) => WireMessage.PushOpsAck(received)
    case PullSince(since) => WireMessage.PullSince(since)
    case Ping => WireMessage.Ping
    case Pong => WireMessage.Pong
    case Error(error) => WireMessage.Error(ErrorToWire(error))
  }

  function FromWire<Op>(w: WireMessage<Op>): Option<Message<Op>> {
    match w
    case Hello(node, version, supported, preferred) => Some(Message.Hello(node, version, supported, preferred))
    case HelloAck(node, version, selected) => Some(Message.HelloAck(node, version, selected))
    case PushOps(ops) => Some(Message.PushOps(ops))
    case PushOpsAck(received) => Some(Message.PushOpsAck(received))
    case PullSince(since) => Some(Message.PullSince(since))
    case Ping => Some(Message.Ping)
    case Pong => Some(Message.Pong)
    case Error(error) =>
      (match ErrorFromWire(error)
       case Some(e) => Some(Message.Error(e))
       case None => None)
    case BootstrapHello(_, _, _, _, _, _, _) => None
    case BootstrapAck(_, _, _, _, _, _) => None
  }

  predicate IsBootstrap<Op>(w: WireMessage<Op>) {
    w.BootstrapHello? || w.BootstrapAck? || (w.Error? && w.error.BootstrapRejected?)
  }

  /** The two errors are of the same kind and carry the same values. */
  predicate SameError(e: WireError, w: ProtocolWireError) {
    || (e.ProtocolMismatch? && w.ProtocolMismatch? && e.expected == w.expected && e.got == w.got)
    || (e.OpRejected? && w.OpRejected? && e.reason == w.reason)
    || (e.RateLimited? && w.RateLimited? && e.retryAfterMs == w.retryAfterMs)
    || (e.NotAuthorized? && w.NotAuthorized? && e.reason == w.reason)
    || (e.Internal? && w.Internal? && e.reason == w.reason)
  }

  predicate SameMessage<Op(==)>(m: Message<Op>, w: WireMessage<Op>) {
    || (m.Hello? && w.Hello? && m.node == w.node && m.version == w.version && m.supported == w.supported && m.preferred == w.preferred)
    || (m.HelloAck? && w.HelloAck? && m.node == w.node && m.version == w.version && m.selected == w.selected)
    || (m.PushOps? && w.PushOps? && m.ops == w.ops)
    || (m.PushOpsAck? && w.PushOpsAck? && m.received == w.received)
    || (m.PullSince? && w.PullSince? && m.since == w.since)
    || (m.Ping? && w.Ping?)
    || (m.Pong? && w.Pong?)
    || (m.Error? && w.Error? && SameError(m.error, w.error))
  }

  /** The conversions change neither the kind of a message nor its values. */
  lemma ConversionsKeepMessages<Op>(m: Message<Op>, w: WireMessage<Op>)
    ensures SameMessage(m, ToWire(m))
    ensures FromWire(w).Some? ==> SameMessage(FromWire(w).value, w)
  {
    if w.Error? && FromWire(w).Some? {
      assert SameError(FromWire(w).value.error, w.error);
    }
  }

  /** Public messages are exactly the wire messages without bootstrap variants. */
  lemma PublicMessages<Op>(m: Message<Op>, w: WireMessage<Op>)
    ensures FromWire(ToWire(m)) == Some(m)
    ensures FromWire(w).Some? <==> !IsBootstrap(w)
    ensures FromWire(w).Some? ==> ToWire(FromWire(w).value) == w
  {
  }

  /**
   A codec for wire messages read by a peer that wants public ones: what was sent as a public
   message arrives, whichever of the two types it was written as.
   */
  function PublicCodec<Op>(codec: Codec<WireMessage<Op>>): Codec<Message<Op>> {
    Codec((f, m) => codec.write(f, ToWire(m)),
          (f, b) => match codec.read(f, b) case Some(w) => FromWire(w) case None => None)
  }

  lemma PublicCodecRoundTrips<Op(!new)>(codec: Codec<WireMessage<Op>>)
    requires RoundTrips(codec)
    ensures RoundTrips(PublicCodec(codec))
  {
    forall f, m: Message<Op> | PublicCodec(codec).write(f, m).Some?
      ensures PublicCodec(codec).read(f, PublicCodec(codec).write(f, m).value) == Some(m)
    {
      PublicMessages(m, ToWire(m));
    }
  }
}

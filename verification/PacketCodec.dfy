/**
 * The frame protocol: a 20-byte big-endian header, then the payload.
 *
 * `PacketCodec` mutates one buffer; `Next` says on values what one step of it does and
 * `Drain` what the receive loops of both ends make of a whole buffer.
 */
module PacketCodec {
  type byte = b: int | 0 <= b < 256

  const MAGIC := 0x58594350
  const CURRENT_VERSION := 1
  const HEADER_SIZE: nat := 20
  const MAX_PAYLOAD_SIZE: nat := 4 * 1024 * 1024

  datatype Packet = Packet(version: nat, messageType: nat, requestId: nat, payload: seq<byte>)

  datatype Step = NeedMoreData | InvalidData | PacketReady(packet: Packet, rest: seq<byte>)

  // ---------------------------------------------------------------- big-endian fields

  function Power256(width: nat): (power: nat)
    ensures power > 0
  {
    if width == 0 then 1 else 256 * Power256(width - 1)
  }

  function ToBytes(value: nat, width: nat): (bytes: seq<byte>)
    ensures |bytes| == width
  {
    if width == 0 then [] else ToBytes(value / 256, width - 1) + [value % 256]
  }

  function FromBytes(bytes: seq<byte>): nat {
    if bytes == [] then 0 else 256 * FromBytes(bytes[..|bytes| - 1]) + bytes[|bytes| - 1]
  }

  lemma {:induction false} FieldRoundTrip(value: nat, width: nat)
    requires value < Power256(width)
    ensures FromBytes(ToBytes(value, width)) == value
  {
    if width > 0 {
      FieldRoundTrip(value / 256, width - 1);
      assert ToBytes(value, width)[..width - 1] == ToBytes(value / 256, width - 1);
    }
  }

  lemma {:induction false} FieldIsCanonical(bytes: seq<byte>)
    ensures FromBytes(bytes) < Power256(|bytes|)
    ensures ToBytes(FromBytes(bytes), |bytes|) == bytes
  {
    if bytes != [] {
      FieldIsCanonical(bytes[..|bytes| - 1]);
    }
  }

  /** The most significant byte of the value comes first. */
  predicate IsBigEndian(bytes: seq<byte>, value: nat) {
    forall k | 0 <= k < |bytes| :: bytes[k] == value / Power256(|bytes| - 1 - k) % 256
  }

  lemma {:induction false} FieldIsBigEndian(value: nat, width: nat)
    ensures IsBigEndian(ToBytes(value, width), value)
  {
    if width > 0 {
      var higher := ToBytes(value / 256, width - 1);
      FieldIsBigEndian(value / 256, width - 1);
      forall k | 0 <= k < width - 1
        ensures higher[k] == value / Power256(width - 1 - k) % 256
      {
        DivideTwice(value, Power256(width - 2 - k));
      }
    }
  }

  lemma Distribute(factor: nat, a: nat, d: nat)
    ensures factor * (a + d) == factor * a + factor * d
  {
  }

  lemma MultipleOrder(factor: nat, a: nat, b: nat)
    requires factor > 0
    ensures a <= b <==> factor * a <= factor * b
  {
    if a <= b {
      Distribute(factor, a, b - a);
    } else {
      Distribute(factor, b, a - b);
    }
  }

  lemma QuotientIs(value: nat, divisor: nat, q: nat, rest: nat)
    requires divisor > 0 && value == divisor * q + rest && rest < divisor
    ensures value / divisor == q
  {
    var p := value / divisor;
    MultipleOrder(divisor, p + 1, q);
    MultipleOrder(divisor, q + 1, p);
  }

  lemma DivideTwice(value: nat, power: nat)
    requires power > 0
    ensures value / 256 / power == value / (256 * power)
  {
    var q, r, s := value / 256 / power, value / 256 % power, value % 256;
    assert value == 256 * (power * q + r) + s;
    Associate(256, power, q);
    QuotientIs(value, 256 * power, q, 256 * r + s);
  }

  lemma Associate(a: nat, b: nat, c: nat)
    ensures (a * b) * c == a * (b * c)
  {
  }

  // ---------------------------------------------------------------- frames

  function Header(packet: Packet): (header: seq<byte>)
    ensures |header| == HEADER_SIZE
  {
    ToBytes(MAGIC, 4) + ToBytes(packet.version, 2) + ToBytes(packet.messageType, 2)
    + ToBytes(packet.requestId, 8) + ToBytes(|packet.payload|, 4)
  }

  /** An oversized payload encodes to nothing. */
  function Encode(packet: Packet): seq<byte> {
    if |packet.payload| > MAX_PAYLOAD_SIZE then [] else Header(packet) + packet.payload
  }

  /** What a packet of the current version may hold, given the widths of the fields. */
  predicate Sendable(packet: Packet) {
    && packet.version == 1
    && packet.messageType < Power256(2)
    && packet.requestId < Power256(8)
    && |packet.payload| <= 4194304
  }

  function Next(buffer: seq<byte>): (step: Step)
    ensures step.PacketReady? ==> |step.rest| < |buffer|
  {
    if |buffer| < HEADER_SIZE then NeedMoreData
    else if FromBytes(buffer[0..4]) != MAGIC then InvalidData
    else if FromBytes(buffer[4..6]) != CURRENT_VERSION then InvalidData
    else
      var length := FromBytes(buffer[16..20]);
      if length > MAX_PAYLOAD_SIZE then InvalidData
      else if |buffer| < HEADER_SIZE + length then NeedMoreData
      else
        PacketReady(Packet(FromBytes(buffer[4..6]), FromBytes(buffer[6..8]), FromBytes(buffer[8..16]),
                           buffer[HEADER_SIZE..HEADER_SIZE + length]),
                    buffer[HEADER_SIZE + length..])
  }

  class Codec {
    var buffer: seq<byte>

    constructor ()
      ensures buffer == []
    {
      buffer := [];
    }

    method AppendData(data: seq<byte>)
      modifies this
      ensures buffer == old(buffer) + data
    {
      buffer := buffer + data;
    }

    method NextPacket() returns (step: Step)
      modifies this
      ensures step == Next(old(buffer))
      ensures buffer == match step
                        case NeedMoreData => old(buffer)
                        case InvalidData => []
                        case PacketReady(_, rest) => rest
    {
      if |buffer| < HEADER_SIZE {
        return NeedMoreData;
      }
      var magic := FromBytes(buffer[0..4]);
      var version := FromBytes(buffer[4..6]);
      var messageType := FromBytes(buffer[6..8]);
      var requestId := FromBytes(buffer[8..16]);
      var payloadLength := FromBytes(buffer[16..20]);
      if magic != MAGIC {
        buffer := [];
        return InvalidData;
      }
      if version != CURRENT_VERSION {
        buffer := [];
        return InvalidData;
      }
      if payloadLength > MAX_PAYLOAD_SIZE {
        buffer := [];
        return InvalidData;
      }
      var packetLength := HEADER_SIZE + payloadLength;
      if |buffer| < packetLength {
        return NeedMoreData;
      }
      var payload := buffer[HEADER_SIZE..packetLength];
      buffer := buffer[packetLength..];
      return PacketReady(Packet(version, messageType, requestId, payload), buffer);
    }

    /** The receive loop of both ends: append what arrived, then hand on every whole packet. */
    method OnReadyRead(chunk: seq<byte>) returns (packets: seq<Packet>, invalid: bool)
      modifies this
      ensures Drained(packets, buffer, invalid) == Drain(old(buffer) + chunk)
    {
      hide Next;
      AppendData(chunk);
      packets, invalid := [], false;
      while true
        invariant !invalid
        invariant var d := Drain(buffer);
                  Drain(old(buffer) + chunk) == d.(packets := packets + d.packets)
        decreases |buffer|
      {
        var step := NextPacket();
        match step
        case NeedMoreData =>
          return;
        case InvalidData =>
          invalid := true;
          return;
        case PacketReady(packet, _) =>
          packets := packets + [packet];
      }
    }
  }

  // ---------------------------------------------------------------- draining

  /** The packets taken out, what stays in the buffer, and whether the stream was cut off as invalid. */
  datatype Drained = Drained(packets: seq<Packet>, rest: seq<byte>, invalid: bool)

  function Drain(buffer: seq<byte>): Drained {
    match Next(buffer)
    case NeedMoreData => Drained([], buffer, false)
    case InvalidData => Drained([], [], true)
    case PacketReady(packet, rest) =>
      var d := Drain(rest);
      d.(packets := [packet] + d.packets)
  }

  /** One connection: each chunk is drained as it arrives, until the first invalid frame ends it. */
  function Feed(buffer: seq<byte>, chunks: seq<seq<byte>>): Drained
    decreases |chunks|
  {
    if chunks == [] then Drained([], buffer, false)
    else
      var first := Drain(buffer + chunks[0]);
      if first.invalid then first
      else
        var d := Feed(first.rest, chunks[1..]);
        d.(packets := first.packets + d.packets)
  }

  function Concat(chunks: seq<seq<byte>>): seq<byte> {
    if chunks == [] then [] else chunks[0] + Concat(chunks[1..])
  }

  // ---------------------------------------------------------------- the decoder inverts the encoder

  lemma FieldWidths()
    ensures Power256(2) == 0x1_0000 && Power256(4) == 0x1_0000_0000
  {
  }

  lemma {:induction false} HeaderFields(packet: Packet, tail: seq<byte>)
    requires Sendable(packet)
    ensures var buffer := Header(packet) + tail;
            && FromBytes(buffer[0..4]) == MAGIC
            && FromBytes(buffer[4..6]) == packet.version
            && FromBytes(buffer[6..8]) == packet.messageType
            && FromBytes(buffer[8..16]) == packet.requestId
            && FromBytes(buffer[16..20]) == |packet.payload|
  {
    FieldWidths();
    hide FromBytes, ToBytes, Power256;
    var buffer := Header(packet) + tail;
    FieldRoundTrip(MAGIC, 4);
    FieldRoundTrip(packet.version, 2);
    FieldRoundTrip(packet.messageType, 2);
    FieldRoundTrip(packet.requestId, 8);
    FieldRoundTrip(|packet.payload|, 4);
    assert buffer[0..4] == ToBytes(MAGIC, 4);
    assert buffer[4..6] == ToBytes(packet.version, 2);
    assert buffer[6..8] == ToBytes(packet.messageType, 2);
    assert buffer[8..16] == ToBytes(packet.requestId, 8);
    assert buffer[16..20] == ToBytes(|packet.payload|, 4);
  }

  lemma FieldsMakeHeader(buffer: seq<byte>, packet: Packet)
    requires |buffer| >= HEADER_SIZE
    requires FromBytes(buffer[0..4]) == MAGIC
    requires FromBytes(buffer[4..6]) == packet.version
    requires FromBytes(buffer[6..8]) == packet.messageType
    requires FromBytes(buffer[8..16]) == packet.requestId
    requires FromBytes(buffer[16..20]) == |packet.payload|
    ensures buffer[..HEADER_SIZE] == Header(packet)
    ensures packet.messageType < Power256(2) && packet.requestId < Power256(8)
  {
    FieldIsCanonical(buffer[0..4]);
    FieldIsCanonical(buffer[4..6]);
    FieldIsCanonical(buffer[6..8]);
    FieldIsCanonical(buffer[8..16]);
    FieldIsCanonical(buffer[16..20]);
    assert buffer[..HEADER_SIZE] ==
           buffer[0..4] + buffer[4..6] + buffer[6..8] + buffer[8..16] + buffer[16..20];
  }

  /** A packet comes out of the buffer exactly when the buffer starts with its encoding. */
  lemma DecodesExactlyEncodings(buffer: seq<byte>, packet: Packet, rest: seq<byte>)
    ensures Next(buffer) == PacketReady(packet, rest) <==> Sendable(packet) && buffer == Encode(packet) + rest
  {
    hide FromBytes, ToBytes, Power256, Header;
    if Next(buffer) == PacketReady(packet, rest) {
      FieldsMakeHeader(buffer, packet);
      assert buffer == buffer[..HEADER_SIZE] + packet.payload + rest;
    }
    if Sendable(packet) && buffer == Encode(packet) + rest {
      assert buffer == Header(packet) + (packet.payload + rest);
      HeaderFields(packet, packet.payload + rest);
    }
  }

  /** With a whole header at hand, a frame is invalid exactly when no continuation would complete it. */
  lemma InvalidExactlyWhenHopeless(buffer: seq<byte>)
    requires |buffer| >= HEADER_SIZE
    ensures Next(buffer).InvalidData? <==> forall more :: !Next(buffer + more).PacketReady?
  {
    if Next(buffer).InvalidData? {
      forall more {
        NextOnPrefix(buffer, more);
      }
    } else {
      var missing := HEADER_SIZE + FromBytes(buffer[16..20]) - |buffer|;
      var more: seq<byte> := if missing > 0 then seq(missing, _ => 0) else [];
      CompletesFrame(buffer, more);
    }
  }

  lemma CompletesFrame(buffer: seq<byte>, more: seq<byte>)
    requires |buffer| >= HEADER_SIZE && !Next(buffer).InvalidData?
    requires |buffer + more| >= HEADER_SIZE + FromBytes(buffer[16..20])
    ensures Next(buffer + more).PacketReady?
  {
    hide FromBytes;
    SameHeader(buffer, more);
  }

  /** A payload of more than four mebibytes is not sent, and nothing else is refused. */
  lemma EncodesExactly(packet: Packet)
    ensures Encode(packet) == [] <==> |packet.payload| > 4194304
  {
  }

  /**
   * What a frame looks like: the four bytes of the magic number, version 1 in two, then the
   * type in two, the request id in eight and the length in four, most significant byte first,
   * and the payload behind them.
   */
  lemma FrameLayout(packet: Packet)
    requires Sendable(packet)
    ensures var frame := Encode(packet);
            && |frame| == 20 + |packet.payload|
            && frame[..6] == [0x58, 0x59, 0x43, 0x50, 0, 1]
            && IsBigEndian(frame[6..8], packet.messageType)
            && IsBigEndian(frame[8..16], packet.requestId)
            && IsBigEndian(frame[16..20], |packet.payload|)
            && frame[20..] == packet.payload
  {
    hide IsBigEndian, ToBytes;
    var frame := Encode(packet);
    MagicBytes();
    assert frame[..6] == ToBytes(MAGIC, 4) + ToBytes(CURRENT_VERSION, 2);
    FieldIsBigEndian(packet.messageType, 2);
    assert frame[6..8] == ToBytes(packet.messageType, 2);
    FieldIsBigEndian(packet.requestId, 8);
    assert frame[8..16] == ToBytes(packet.requestId, 8);
    FieldIsBigEndian(|packet.payload|, 4);
    assert frame[16..20] == ToBytes(|packet.payload|, 4);
  }

  lemma MagicBytes()
    ensures ToBytes(MAGIC, 4) == [0x58, 0x59, 0x43, 0x50]
    ensures ToBytes(CURRENT_VERSION, 2) == [0, 1]
  {
    assert ToBytes(0x58, 1) == [0x58] && ToBytes(0x5859, 2) == [0x58, 0x59];
    assert ToBytes(0x585943, 3) == [0x58, 0x59, 0x43];
    assert ToBytes(0, 1) == [0];
  }

  // ---------------------------------------------------------------- chunking does not matter

  /** A verdict on a prefix of the stream stands, whatever follows. */
  lemma NextOnPrefix(buffer: seq<byte>, more: seq<byte>)
    ensures Next(buffer).InvalidData? ==> Next(buffer + more).InvalidData?
    ensures Next(buffer).PacketReady? ==>
              Next(buffer + more) == PacketReady(Next(buffer).packet, Next(buffer).rest + more)
  {
    if Next(buffer).InvalidData? {
      SameHeader(buffer, more);
    }
    if Next(buffer).PacketReady? {
      var packet, rest := Next(buffer).packet, Next(buffer).rest;
      DecodesExactlyEncodings(buffer, packet, rest);
      assert buffer + more == Encode(packet) + (rest + more);
      DecodesExactlyEncodings(buffer + more, packet, rest + more);
    }
  }

  lemma SameHeader(buffer: seq<byte>, more: seq<byte>)
    requires |buffer| >= HEADER_SIZE
    ensures (buffer + more)[0..4] == buffer[0..4]
    ensures (buffer + more)[4..6] == buffer[4..6]
    ensures (buffer + more)[16..20] == buffer[16..20]
  {
  }

  lemma {:induction false} DrainInTwo(buffer: seq<byte>, more: seq<byte>)
    ensures var d := Drain(buffer);
            if d.invalid then Drain(buffer + more) == d
            else
              var e := Drain(d.rest + more);
              Drain(buffer + more) == e.(packets := d.packets + e.packets)
    decreases |buffer|
  {
    hide Next;
    NextOnPrefix(buffer, more);
    match Next(buffer)
    case NeedMoreData =>
      var e := Drain(buffer + more);
      assert [] + e.packets == e.packets;
    case InvalidData =>
    case PacketReady(packet, rest) =>
      DrainInTwo(rest, more);
      var d := Drain(rest);
      if !d.invalid {
        var e := Drain(d.rest + more);
        assert [packet] + (d.packets + e.packets) == ([packet] + d.packets) + e.packets;
      }
  }

  /** A drained buffer holds no whole packet. */
  lemma {:induction false} RestIsIncomplete(buffer: seq<byte>)
    ensures !Drain(buffer).invalid ==> Next(Drain(buffer).rest).NeedMoreData?
    decreases |buffer|
  {
    if Next(buffer).PacketReady? {
      RestIsIncomplete(Next(buffer).rest);
    }
  }

  /**
   * However the stream is split, the same packets come out up to the first invalid frame,
   * the connection is cut off or not alike, and the same bytes stay behind.
   */
  lemma {:induction false} ChunkingDoesNotMatter(buffer: seq<byte>, chunks: seq<seq<byte>>)
    requires Next(buffer).NeedMoreData?
    ensures Feed(buffer, chunks) == Drain(buffer + Concat(chunks))
    decreases |chunks|
  {
    if chunks == [] {
      assert buffer + Concat(chunks) == buffer;
    } else {
      var first := Drain(buffer + chunks[0]);
      assert buffer + Concat(chunks) == (buffer + chunks[0]) + Concat(chunks[1..]);
      DrainInTwo(buffer + chunks[0], Concat(chunks[1..]));
      if !first.invalid {
        RestIsIncomplete(buffer + chunks[0]);
        ChunkingDoesNotMatter(first.rest, chunks[1..]);
      }
    }
  }

  function EncodeAll(packets: seq<Packet>): seq<byte> {
    if packets == [] then [] else Encode(packets[0]) + EncodeAll(packets[1..])
  }

  /** Sendable packets, encoded back to back, come out as sent and leave nothing behind. */
  lemma {:induction false} DrainInvertsEncodeAll(packets: seq<Packet>)
    requires forall i | 0 <= i < |packets| :: Sendable(packets[i])
    ensures Drain(EncodeAll(packets)) == Drained(packets, [], false)
  {
    hide Next, Encode, Sendable;
    if packets == [] {
      NothingToDrain();
    } else {
      DrainInvertsEncodeAll(packets[1..]);
      DecodesExactlyEncodings(EncodeAll(packets), packets[0], EncodeAll(packets[1..]));
    }
  }

  lemma NothingToDrain()
    ensures Drain([]) == Drained([], [], false)
  {
  }

  /** The same through any chunking of the encoded stream. */
  lemma {:induction false} StreamRoundTrip(packets: seq<Packet>, chunks: seq<seq<byte>>)
    requires forall i | 0 <= i < |packets| :: Sendable(packets[i])
    requires Concat(chunks) == EncodeAll(packets)
    ensures Feed([], chunks) == Drained(packets, [], false)
  {
    ChunkingDoesNotMatter([], chunks);
    DrainInvertsEncodeAll(packets);
    assert [] + Concat(chunks) == Concat(chunks);
  }

  /** Conversely, whatever was handed on re-encodes to the bytes it was read from. */
  lemma {:induction false} DrainedPacketsReencode(buffer: seq<byte>)
    ensures var d := Drain(buffer);
            && (forall i | 0 <= i < |d.packets| :: Sendable(d.packets[i]))
            && EncodeAll(d.packets) <= buffer
            && (!d.invalid ==> buffer == EncodeAll(d.packets) + d.rest)
    decreases |buffer|
  {
    hide Next, Encode, Sendable;
    if Next(buffer).PacketReady? {
      var packet, rest := Next(buffer).packet, Next(buffer).rest;
      DrainedPacketsReencode(rest);
      DecodesExactlyEncodings(buffer, packet, rest);
      var d := Drain(rest);
      assert Drain(buffer).packets[1..] == d.packets;
      assert EncodeAll([packet] + d.packets) == Encode(packet) + EncodeAll(d.packets);
      assert Encode(packet) + (EncodeAll(d.packets) + d.rest) == (Encode(packet) + EncodeAll(d.packets)) + d.rest;
    }
  }
}

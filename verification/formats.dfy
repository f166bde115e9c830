/** The records of network/formats.hh built from the wire types:
    `VideoChunk`, `Packet` with its sender and receiver sections and side
    channel, `Record`, and `KeyMessage`.

    The bodies of `VideoChunk` and `Packet`'s triads and of `to_record`
    live in a file outside this model; they are modelled as field-by-field
    composition of the fields' triads in declaration order. */
module Formats {
  import opened BigEndian
  import opened Results
  import opened Codec
  import opened WireTypes

  /** `VideoChunk::frames_per_packet`: chunks per packet, and so the
      redundancy factor. */
  const FramesPerPacket: nat := 2
  /** Capacity of `ReceiverSection::packets_received`. */
  const MaxPacketsReceived: nat := 32
  /** Capacity of a chunk's payload buffer, whose length is a `uint16_t`. */
  const MaxChunkPayload: nat := 512

  // ---------------------------------------------------------------------
  // VideoChunk
  // ---------------------------------------------------------------------

  type Payload = s: seq<byte> | |s| <= MaxChunkPayload

  /** A fragment of one encoded NAL unit. */
  datatype VideoChunk = VideoChunk(frameIndex: u32, endOfNal: bool, nalIndex: u32, data: Payload)

  /** The `bool` field goes through the codec's integer path as one byte:
      written as 0 or 1, read back as "non-zero". */
  function BoolByte(b: bool): byte {
    if b then 1 else 0
  }

  function ChunkLength(c: VideoChunk): nat {
    4 + 1 + 4 + BufferLength(2, c.data)
  }

  /** frame_index:u32 | end_of_nal:u8 | nal_index:u32 | len:u16 | payload */
  function EncodeChunk(c: VideoChunk): seq<byte> {
    Bytes(c.frameIndex, 4) + Bytes(BoolByte(c.endOfNal), 1) + Bytes(c.nalIndex, 4) + EncodeBuffer(2, c.data)
  }

  function SerializeChunk(s: Serializer, c: VideoChunk): Result<Serializer> {
    var s1 :- WriteInteger(s, 4, c.frameIndex);
    var s2 :- WriteInteger(s1, 1, BoolByte(c.endOfNal));
    var s3 :- WriteInteger(s2, 4, c.nalIndex);
    WriteObject(s3, c.data, Success(BufferLength(2, c.data)), (s', d) => SerializeBuffer(s', 2, d))
  }

  function ParsePayload(p: Parser, out: Payload): (r: (Parser, Payload))
    ensures Follows(p, r.0)
    ensures p.error ==> r == (p, out)
  {
    ParseBuffer(p, 2, MaxChunkPayload, out)
  }

  function ParseChunk(p: Parser, out: VideoChunk): (r: (Parser, VideoChunk))
    ensures Follows(p, r.0)
    ensures p.error ==> r == (p, out)
  {
    var (p1, frameIndex) := ReadU32(p, out.frameIndex);
    var (p2, endOfNal) := ReadInteger(p1, 1, BoolByte(out.endOfNal));
    var (p3, nalIndex) := ReadU32(p2, out.nalIndex);
    var (p4, data) := ReadObject(p3, out.data, ParsePayload);
    FollowsTransitive(p, p1, p2);
    FollowsTransitive(p, p2, p3);
    FollowsTransitive(p, p3, p4);
    (p4, VideoChunk(frameIndex, endOfNal != 0, nalIndex, data))
  }

  function ChunkTriad(): Triad<VideoChunk> {
    Triad(ChunkLength, SerializeChunk, ParseChunk, EncodeChunk)
  }

  /** `serialized_length` is the size of the wire form, and serializing
      a chunk writes exactly that wire form (or fails with `NoRoom`). */
  lemma ChunkWrites(c: VideoChunk, s: Serializer)
    ensures ChunkLength(c) == |EncodeChunk(c)|
    ensures SerializeChunk(s, c) == WriteString(s, EncodeChunk(c))
  {
    var a, b, d := Bytes(c.frameIndex, 4), Bytes(BoolByte(c.endOfNal), 1), Bytes(c.nalIndex, 4);
    var e := EncodeBuffer(2, c.data);
    assert EncodeChunk(c) == a + (b + (d + e));
    WriteStringConcat(s, a, b + (d + e));
    WriteIntegerIsWriteString(s, 4, c.frameIndex);
    match WriteString(s, a)
    case Failure(_) =>
    case Success(s1) =>
      WriteStringConcat(s1, b, d + e);
      WriteIntegerIsWriteString(s1, 1, BoolByte(c.endOfNal));
      match WriteString(s1, b)
      case Failure(_) =>
      case Success(s2) =>
        WriteStringConcat(s2, d, e);
        WriteIntegerIsWriteString(s2, 4, c.nalIndex);
        match WriteString(s2, d)
        case Failure(_) =>
        case Success(s3) =>
          SerializeBufferWrites(s3, 2, c.data);
  }

  /** Round trip: a chunk's wire form parses back to the same chunk,
      whatever the destination held before, consuming exactly the wire
      form. */
  lemma ChunkRoundTrip(c: VideoChunk, slot: VideoChunk, rest: seq<byte>)
    ensures ParseChunk(NewParser(EncodeChunk(c) + rest), slot) == (NewParser(rest), c)
  {
    Pow256Widths();
    var e := EncodeBuffer(2, c.data) + rest;
    var t3 := Bytes(c.nalIndex, 4) + e;
    var t2 := Bytes(BoolByte(c.endOfNal), 1) + t3;
    assert EncodeChunk(c) + rest == Bytes(c.frameIndex, 4) + t2;
    ReadIntegerOfBytes(c.frameIndex, 4, t2, slot.frameIndex);
    ReadIntegerOfBytes(BoolByte(c.endOfNal), 1, t3, BoolByte(slot.endOfNal));
    ReadIntegerOfBytes(c.nalIndex, 4, e, slot.nalIndex);
    BufferRoundTrip(2, MaxChunkPayload, c.data, slot.data, rest);
  }

  lemma ChunkLawful(c: VideoChunk)
    ensures Writes(ChunkTriad(), c) && ReadsBack(ChunkTriad(), c)
  {
    forall s: Serializer ensures ChunkTriad().serialize(s, c) == WriteString(s, ChunkTriad().encode(c)) {
      ChunkWrites(c, s);
    }
    forall rest: seq<byte>, slot: VideoChunk
      ensures ChunkTriad().parse(NewParser(ChunkTriad().encode(c) + rest), slot) == (NewParser(rest), c)
    {
      ChunkRoundTrip(c, slot, rest);
    }
  }

  /** A truncated chunk is rejected: whichever field the cut falls in,
      that field's read sets the error, and the later reads keep it. */
  lemma ChunkRejectsTruncated(c: VideoChunk, slot: VideoChunk, k: nat)
    requires k < |EncodeChunk(c)|
    ensures ParseChunk(NewParser(EncodeChunk(c)[..k]), slot).0.error
  {
    Pow256Widths();
    var a, b, d := Bytes(c.frameIndex, 4), Bytes(BoolByte(c.endOfNal), 1), Bytes(c.nalIndex, 4);
    var e := EncodeBuffer(2, c.data);
    assert EncodeChunk(c) == a + (b + (d + e));
    if 4 <= k {
      CutAfter(a, b + (d + e), k);
      ReadIntegerOfBytes(c.frameIndex, 4, (b + (d + e))[..k - 4], slot.frameIndex);
      if 5 <= k {
        CutAfter(b, d + e, k - 4);
        ReadIntegerOfBytes(BoolByte(c.endOfNal), 1, (d + e)[..k - 5], BoolByte(slot.endOfNal));
        if 9 <= k {
          CutAfter(d, e, k - 5);
          ReadIntegerOfBytes(c.nalIndex, 4, e[..k - 9], slot.nalIndex);
          BufferRejectsTruncated(2, MaxChunkPayload, c.data, slot.data, k - 9);
        }
      }
    }
  }

  lemma ChunkRejects(c: VideoChunk)
    ensures RejectsTruncated(ChunkTriad(), c)
  {
    forall k: nat, slot: VideoChunk | k < |ChunkTriad().encode(c)|
      ensures ChunkTriad().parse(NewParser(ChunkTriad().encode(c)[..k]), slot).0.error
    {
      ChunkRejectsTruncated(c, slot, k);
    }
  }

  // ---------------------------------------------------------------------
  // Packet
  // ---------------------------------------------------------------------

  /** The data half: a sequence number and up to two chunks. */
  datatype SenderSection = SenderSection(sequenceNumber: u32, frames: NetArray<VideoChunk>)

  /** The feedback half: the cumulative watermark and up to 32 recently
      received sequence numbers. */
  datatype ReceiverSection = ReceiverSection(nextFrameNeeded: u32, packetsReceived: NetArray<u32>)

  /** `Packet<VideoChunk>`: one datagram. */
  datatype Packet = Packet(sender: SenderSection, receiver: ReceiverSection, unreliableData: NetString)

  /** The storage sizes the templates fix. */
  predicate Shaped(x: Packet) {
    && Capacity(x.sender.frames) == FramesPerPacket
    && Capacity(x.receiver.packetsReceived) == MaxPacketsReceived
  }

  /** What serialization demands of the in-memory packet. */
  predicate Serializable(x: Packet) {
    Shaped(x) && InBounds(x.sender.frames) && InBounds(x.receiver.packetsReceived)
  }

  /** Two packets carry the same data: equal fields, arrays compared by
      their views. */
  ghost predicate SamePacket(x: Packet, y: Packet) {
    && x.sender.sequenceNumber == y.sender.sequenceNumber
    && SameView(x.sender.frames, y.sender.frames)
    && x.receiver.nextFrameNeeded == y.receiver.nextFrameNeeded
    && SameView(x.receiver.packetsReceived, y.receiver.packetsReceived)
    && x.unreliableData == y.unreliableData
  }

  /** `Packet::serialized_length`: throws when an array is oversized. */
  function PacketLength(x: Packet): (r: Result<nat>)
    ensures r.Failure? <==> !InBounds(x.sender.frames) || !InBounds(x.receiver.packetsReceived)
  {
    var frames :- ArrayLength(x.sender.frames, ChunkTriad());
    var received :- ArrayLength(x.receiver.packetsReceived, NetU32());
    Success(4 + frames + 4 + received + BufferLength(1, x.unreliableData))
  }

  /** sequence_number:u32 | frames */
  function EncodeSender(x: SenderSection): seq<byte>
    requires InBounds(x.frames)
  {
    Bytes(x.sequenceNumber, 4) + EncodeArray(x.frames, ChunkTriad())
  }

  /** next_frame_needed:u32 | packets_received */
  function EncodeReceiver(x: ReceiverSection): seq<byte>
    requires InBounds(x.packetsReceived)
  {
    Bytes(x.nextFrameNeeded, 4) + EncodeArray(x.packetsReceived, NetU32())
  }

  /** SenderSection | ReceiverSection | len:u8 | side channel */
  function EncodePacket(x: Packet): seq<byte>
    requires InBounds(x.sender.frames) && InBounds(x.receiver.packetsReceived)
  {
    EncodeSender(x.sender) + EncodeReceiver(x.receiver) + EncodeBuffer(1, x.unreliableData)
  }

  function SerializeSender(s: Serializer, x: SenderSection): Result<Serializer> {
    var s1 :- WriteInteger(s, 4, x.sequenceNumber);
    WriteArrayObject(s1, x.frames, ChunkTriad())
  }

  function SerializeReceiver(s: Serializer, x: ReceiverSection): Result<Serializer> {
    var s1 :- WriteInteger(s, 4, x.nextFrameNeeded);
    WriteArrayObject(s1, x.packetsReceived, NetU32())
  }

  function SerializePacket(s: Serializer, x: Packet): Result<Serializer> {
    var s1 :- SerializeSender(s, x.sender);
    var s2 :- SerializeReceiver(s1, x.receiver);
    WriteObject(s2, x.unreliableData, Success(BufferLength(1, x.unreliableData)),
                (s', d: NetString) => SerializeBuffer(s', 1, d))
  }

  /** The two arrays' parses, as handed to `Parser::object`. */
  function ParseFrames(p: Parser, out: NetArray<VideoChunk>): (Parser, NetArray<VideoChunk>) {
    ParseArray(p, out, ChunkTriad())
  }

  function ParseReceived(p: Parser, out: NetArray<u32>): (Parser, NetArray<u32>) {
    ParseArray(p, out, NetU32())
  }

  function ParsePacket(p: Parser, out: Packet): (r: (Parser, Packet))
    ensures p.error ==> r == (p, out)
    ensures Shaped(out) ==> Shaped(r.1)
  {
    var (p1, sequenceNumber) := ReadU32(p, out.sender.sequenceNumber);
    var (p2, frames) := ReadObject(p1, out.sender.frames, ParseFrames);
    var (p3, nextFrameNeeded) := ReadU32(p2, out.receiver.nextFrameNeeded);
    var (p4, received) := ReadObject(p3, out.receiver.packetsReceived, ParseReceived);
    var (p5, data) := ReadObject(p4, out.unreliableData, ParseNetString);
    (p5, Packet(SenderSection(sequenceNumber, frames), ReceiverSection(nextFrameNeeded, received), data))
  }

  lemma FramesLawful(a: NetArray<VideoChunk>)
    ensures forall i :: 0 <= i < a.length as int && i < |a.elements| ==>
      Writes(ChunkTriad(), a.elements[i]) && ReadsBack(ChunkTriad(), a.elements[i])
  {
    forall i | 0 <= i < a.length as int && i < |a.elements| {
      ChunkLawful(a.elements[i]);
    }
  }

  lemma ReceivedLawful(a: NetArray<u32>)
    ensures forall i :: 0 <= i < a.length as int && i < |a.elements| ==>
      Writes(NetU32(), a.elements[i]) && ReadsBack(NetU32(), a.elements[i])
  {
    forall i | 0 <= i < a.length as int && i < |a.elements| {
      NetU32Lawful(a.elements[i]);
    }
  }

  lemma FramesRejectTruncated(a: NetArray<VideoChunk>)
    ensures forall i :: 0 <= i < a.length as int && i < |a.elements| ==>
      ReadsBack(ChunkTriad(), a.elements[i]) && RejectsTruncated(ChunkTriad(), a.elements[i])
  {
    forall i | 0 <= i < a.length as int && i < |a.elements|
      ensures ReadsBack(ChunkTriad(), a.elements[i]) && RejectsTruncated(ChunkTriad(), a.elements[i])
    {
      ChunkLawful(a.elements[i]);
      ChunkRejects(a.elements[i]);
    }
  }

  lemma ReceivedRejectTruncated(a: NetArray<u32>)
    ensures forall i :: 0 <= i < a.length as int && i < |a.elements| ==>
      ReadsBack(NetU32(), a.elements[i]) && RejectsTruncated(NetU32(), a.elements[i])
  {
    forall i | 0 <= i < a.length as int && i < |a.elements|
      ensures ReadsBack(NetU32(), a.elements[i]) && RejectsTruncated(NetU32(), a.elements[i])
    {
      NetU32Lawful(a.elements[i]);
      NetU32RejectsTruncated(a.elements[i]);
    }
  }

  /** The sender section writes its sequence number and then its frames,
      or fails with `NoRoom`. */
  lemma SenderWrites(x: SenderSection, s: Serializer)
    requires InBounds(x.frames)
    ensures SerializeSender(s, x) == WriteString(s, EncodeSender(x))
  {
    FramesLawful(x.frames);
    var a := Bytes(x.sequenceNumber, 4);
    WriteStringConcat(s, a, EncodeArray(x.frames, ChunkTriad()));
    WriteIntegerIsWriteString(s, 4, x.sequenceNumber);
    match WriteString(s, a)
    case Failure(_) =>
    case Success(s1) =>
      WriteArrayObjectWrites(s1, x.frames, ChunkTriad());
  }

  /** The receiver section writes its watermark and then the received
      sequence numbers, or fails with `NoRoom`. */
  lemma ReceiverWrites(x: ReceiverSection, s: Serializer)
    requires InBounds(x.packetsReceived)
    ensures SerializeReceiver(s, x) == WriteString(s, EncodeReceiver(x))
  {
    ReceivedLawful(x.packetsReceived);
    var a := Bytes(x.nextFrameNeeded, 4);
    WriteStringConcat(s, a, EncodeArray(x.packetsReceived, NetU32()));
    WriteIntegerIsWriteString(s, 4, x.nextFrameNeeded);
    match WriteString(s, a)
    case Failure(_) =>
    case Success(s1) =>
      WriteArrayObjectWrites(s1, x.packetsReceived, NetU32());
  }

  /** `serialized_length` of a serializable packet is the size of its
      wire form, and serializing it writes exactly that wire form or
      fails with `NoRoom`. */
  lemma PacketWrites(x: Packet, s: Serializer)
    requires InBounds(x.sender.frames) && InBounds(x.receiver.packetsReceived)
    ensures PacketLength(x) == Success(|EncodePacket(x)|)
    ensures SerializePacket(s, x) == WriteString(s, EncodePacket(x))
  {
    FramesLawful(x.sender.frames);
    ReceivedLawful(x.receiver.packetsReceived);
    ArrayLengthIsSize(x.sender.frames, ChunkTriad());
    ArrayLengthIsSize(x.receiver.packetsReceived, NetU32());
    var a, b, c := EncodeSender(x.sender), EncodeReceiver(x.receiver), EncodeBuffer(1, x.unreliableData);
    assert EncodePacket(x) == a + (b + c);
    WriteStringConcat(s, a, b + c);
    SenderWrites(x.sender, s);
    match WriteString(s, a)
    case Failure(_) =>
    case Success(s1) =>
      WriteStringConcat(s1, b, c);
      ReceiverWrites(x.receiver, s1);
      match WriteString(s1, b)
      case Failure(_) =>
      case Success(s2) =>
        SerializeBufferWrites(s2, 1, x.unreliableData);
  }

  /** Round trip: parsing a serializable packet's wire form into any
      packet of the same shape yields the same packet data and consumes
      exactly the wire form. */
  lemma PacketRoundTrip(x: Packet, slot: Packet, rest: seq<byte>)
    requires Serializable(x) && Shaped(slot)
    ensures ParsePacket(NewParser(EncodePacket(x) + rest), slot).0 == NewParser(rest)
    ensures SamePacket(ParsePacket(NewParser(EncodePacket(x) + rest), slot).1, x)
  {
    Pow256Widths();
    var frames, received := x.sender.frames, x.receiver.packetsReceived;
    FramesLawful(frames);
    ReceivedLawful(received);
    var t4 := EncodeBuffer(1, x.unreliableData) + rest;
    var t3 := EncodeArray(received, NetU32()) + t4;
    var t2 := Bytes(x.receiver.nextFrameNeeded, 4) + t3;
    var t1 := EncodeArray(frames, ChunkTriad()) + t2;
    assert EncodePacket(x) + rest == Bytes(x.sender.sequenceNumber, 4) + t1;
    ReadIntegerOfBytes(x.sender.sequenceNumber, 4, t1, slot.sender.sequenceNumber);
    ArrayRoundTrip(frames, slot.sender.frames, ChunkTriad(), t2);
    ReadIntegerOfBytes(x.receiver.nextFrameNeeded, 4, t3, slot.receiver.nextFrameNeeded);
    ArrayRoundTrip(received, slot.receiver.packetsReceived, NetU32(), t4);
    NetStringRoundTrip(x.unreliableData, slot.unreliableData, rest);
  }

  /** Parsing a packet, from any bytes at all, only drops a prefix of
      the input and never clears the error flag. */
  lemma ParsePacketFollows(p: Parser, out: Packet)
    ensures Follows(p, ParsePacket(p, out).0)
  {
    assert Consumes(ChunkTriad());
    NetU32Consumes();
    var (p1, sequenceNumber) := ReadU32(p, out.sender.sequenceNumber);
    var (p2, frames) := ReadObject(p1, out.sender.frames, ParseFrames);
    ParseArrayFollows(p1, out.sender.frames, ChunkTriad());
    var (p3, nextFrameNeeded) := ReadU32(p2, out.receiver.nextFrameNeeded);
    var (p4, received) := ReadObject(p3, out.receiver.packetsReceived, ParseReceived);
    ParseArrayFollows(p3, out.receiver.packetsReceived, NetU32());
    var (p5, data) := ReadObject(p4, out.unreliableData, ParseNetString);
    FollowsTransitive(p, p1, p2);
    FollowsTransitive(p, p2, p3);
    FollowsTransitive(p, p3, p4);
    FollowsTransitive(p, p4, p5);
  }

  /** A truncated packet is rejected: parsing any strict prefix of a
      serializable packet's wire form sets the error. The cut falls in
      one of the five fields; the fields before it read back whole, that
      field's read fails, and the error stays set. */
  lemma PacketRejectsTruncated(x: Packet, slot: Packet, k: nat)
    requires Serializable(x) && Shaped(slot)
    requires k < |EncodePacket(x)|
    ensures ParsePacket(NewParser(EncodePacket(x)[..k]), slot).0.error
  {
    if k < 4 + |EncodeArray(x.sender.frames, ChunkTriad())| {
      SenderCutRejects(x, slot, k);
    } else {
      ReceiverCutRejects(x, slot, k);
    }
  }

  /** The cut falls in the sequence number or in the frames array. */
  lemma SenderCutRejects(x: Packet, slot: Packet, k: nat)
    requires Serializable(x) && Shaped(slot)
    requires k < 4 + |EncodeArray(x.sender.frames, ChunkTriad())|
    ensures ParsePacket(NewParser(EncodePacket(x)[..k]), slot).0.error
  {
    var frames := x.sender.frames;
    var a, f := Bytes(x.sender.sequenceNumber, 4), EncodeArray(frames, ChunkTriad());
    var t1 := f + (EncodeReceiver(x.receiver) + EncodeBuffer(1, x.unreliableData));
    assert EncodePacket(x) == a + t1;
    if 4 <= k {
      var k1 := k - 4;
      var p1 := NewParser(f[..k1]);
      assert ReadU32(NewParser(EncodePacket(x)[..k]), slot.sender.sequenceNumber).0 == p1 by {
        Pow256Widths();
        CutAfter(a, t1, k);
        assert t1[..k1] == f[..k1];
        ReadIntegerOfBytes(x.sender.sequenceNumber, 4, f[..k1], slot.sender.sequenceNumber);
      }
      FramesRejectTruncated(frames);
      ArrayRejectsTruncated(frames, slot.sender.frames, ChunkTriad(), k1);
    }
  }

  /** The cut falls past the frames array: the sender section reads back
      whole, and the receiver section or side channel is cut. */
  lemma ReceiverCutRejects(x: Packet, slot: Packet, k: nat)
    requires Serializable(x) && Shaped(slot)
    requires 4 + |EncodeArray(x.sender.frames, ChunkTriad())| <= k < |EncodePacket(x)|
    ensures ParsePacket(NewParser(EncodePacket(x)[..k]), slot).0.error
  {
    var frames := x.sender.frames;
    var a, f := Bytes(x.sender.sequenceNumber, 4), EncodeArray(frames, ChunkTriad());
    var t2 := EncodeReceiver(x.receiver) + EncodeBuffer(1, x.unreliableData);
    var k2 := k - 4 - |f|;
    assert EncodePacket(x) == a + (f + t2);
    assert ReadU32(NewParser(EncodePacket(x)[..k]), slot.sender.sequenceNumber).0 == NewParser(f + t2[..k2]) by {
      Pow256Widths();
      CutAfter(a, f + t2, k);
      CutAfter(f, t2, k - 4);
      ReadIntegerOfBytes(x.sender.sequenceNumber, 4, f + t2[..k2], slot.sender.sequenceNumber);
    }
    assert ParseFrames(NewParser(f + t2[..k2]), slot.sender.frames).0 == NewParser(t2[..k2]) by {
      FramesRejectTruncated(frames);
      ArrayRoundTrip(frames, slot.sender.frames, ChunkTriad(), t2[..k2]);
    }
    ReceiverRejectsTruncated(x, slot, k2);
  }

  /** The receiver section and side channel of a truncated packet: the
      rest of `ParsePacket` once the sender section has been read whole. */
  lemma ReceiverRejectsTruncated(x: Packet, slot: Packet, k: nat)
    requires Serializable(x) && Shaped(slot)
    requires k < |EncodeReceiver(x.receiver) + EncodeBuffer(1, x.unreliableData)|
    ensures
      var p3 := ReadU32(NewParser((EncodeReceiver(x.receiver) + EncodeBuffer(1, x.unreliableData))[..k]),
                        slot.receiver.nextFrameNeeded).0;
      var p4 := ReadObject(p3, slot.receiver.packetsReceived, ParseReceived).0;
      ReadObject(p4, slot.unreliableData, ParseNetString).0.error
  {
    Pow256Widths();
    var received := x.receiver.packetsReceived;
    ReceivedRejectTruncated(received);
    var b, r := Bytes(x.receiver.nextFrameNeeded, 4), EncodeArray(received, NetU32());
    var d := EncodeBuffer(1, x.unreliableData);
    var t3 := r + d;
    assert EncodeReceiver(x.receiver) + d == b + t3;
    if 4 <= k {
      var k3 := k - 4;
      CutAfter(b, t3, k);
      ReadIntegerOfBytes(x.receiver.nextFrameNeeded, 4, t3[..k3], slot.receiver.nextFrameNeeded);
      if k3 < |r| {
        assert t3[..k3] == r[..k3];
        ArrayRejectsTruncated(received, slot.receiver.packetsReceived, NetU32(), k3);
      } else {
        CutAfter(r, d, k3);
        ArrayRoundTrip(received, slot.receiver.packetsReceived, NetU32(), d[..k3 - |r|]);
        BufferRejectsTruncated(1, NetStringCapacity, x.unreliableData, slot.unreliableData, k3 - |r|);
      }
    }
  }

  /** The first concrete case: a two-byte chunk is 4+1+4+2+2 = 13 bytes
      on the wire and parses back to itself. */
  lemma SmallChunkScenario(slot: VideoChunk)
    ensures var c := VideoChunk(5, true, 0, [65, 66]);
      && |EncodeChunk(c)| == 13 && ChunkLength(c) == 13
      && ParseChunk(NewParser(EncodeChunk(c)), slot) == (NewParser([]), c)
  {
    var c := VideoChunk(5, true, 0, [65, 66]);
    ChunkRoundTrip(c, slot, []);
    assert EncodeChunk(c) + [] == EncodeChunk(c);
  }

  /** Parsing never crashes and never reads past its input; a count field
      above its capacity sets the error instead of overrunning storage. */
  lemma OversizedFrameCountRejected(seqNo: seq<byte>, count: byte, rest: seq<byte>, slot: Packet)
    requires |seqNo| == 4 && count as int > FramesPerPacket && Shaped(slot)
    ensures ParsePacket(NewParser(seqNo + [count] + rest), slot).0.error
    ensures ParsePacket(NewParser(seqNo + [count] + rest), slot).1.sender.frames.elements
      == slot.sender.frames.elements
  {
    var input := seqNo + [count] + rest;
    assert input[..4] == seqNo && input[4..] == [count] + rest;
    assert ([count] + rest)[0] == count && ([count] + rest)[1..] == rest;
  }

  // ---------------------------------------------------------------------
  // Record
  // ---------------------------------------------------------------------

  /** A compact digest of a sent packet: its sequence number and the frame
      indices of its chunks. */
  datatype Record = Record(sequenceNumber: u32, frames: NetArray<u32>)

  function EmptyFrameList(): (a: NetArray<u32>)
    ensures Capacity(a) == FramesPerPacket && a.length == 0
  {
    NetArray([0, 0], 0)
  }

  /** `push_back` of each chunk's frame index, in order. */
  function PushFrameIndices(acc: NetArray<u32>, chunks: seq<VideoChunk>): (r: Result<NetArray<u32>>)
    requires CapacityFits(acc) && InBounds(acc)
    ensures r.Success? <==> acc.length as int + |chunks| <= Capacity(acc)
    ensures r.Success? ==>
      && Capacity(r.value) == Capacity(acc)
      && InBounds(r.value)
      && |View(r.value)| == acc.length as int + |chunks|
      && View(r.value)[..acc.length] == View(acc)
      && forall i :: 0 <= i < |chunks| ==> View(r.value)[acc.length as int + i] == chunks[i].frameIndex
    decreases |chunks|
  {
    if |chunks| == 0 then Success(acc)
    else
      var acc' :- PushBack(acc, chunks[0].frameIndex);
      PushFrameIndices(acc', chunks[1..])
  }

  /** `SenderSection::to_record`. */
  function ToRecord(section: SenderSection): (r: Record)
    requires InBounds(section.frames) && section.frames.length as int <= FramesPerPacket
    ensures r.sequenceNumber == section.sequenceNumber
    ensures Capacity(r.frames) == FramesPerPacket && InBounds(r.frames)
    ensures |View(r.frames)| == section.frames.length as int
    ensures forall i :: 0 <= i < section.frames.length as int ==>
      View(r.frames)[i] == section.frames.elements[i].frameIndex
  {
    var frames := PushFrameIndices(EmptyFrameList(), View(section.frames));
    Record(section.sequenceNumber, frames.value)
  }

  // ---------------------------------------------------------------------
  // KeyMessage
  // ---------------------------------------------------------------------

  /** The id byte of a key request and of the server's keyed answer. */
  const KeyRequestId: byte := 254
  const KeyRequestServerId: byte := 255

  /** `KeyPair` is opaque here: a blob of key bytes, written raw. Its size
      is fixed by the type, so a parse reads as many bytes as the
      destination key pair holds. */
  datatype KeyPair = KeyPair(blob: seq<byte>)

  datatype KeyMessage = KeyMessage(id: byte, keyPair: KeyPair)

  /** `KeyMessage::serialized_length`: the id byte plus the key pair. */
  function KeyMessageLength(m: KeyMessage): nat {
    1 + |m.keyPair.blob|
  }

  function EncodeKeyMessage(m: KeyMessage): seq<byte> {
    Bytes(m.id, 1) + m.keyPair.blob
  }

  function SerializeKeyMessage(s: Serializer, m: KeyMessage): Result<Serializer> {
    var s1 :- WriteInteger(s, 1, m.id);
    WriteObject(s1, m.keyPair, Success(|m.keyPair.blob|), (s', k: KeyPair) => WriteString(s', k.blob))
  }

  function ParseKeyPair(p: Parser, out: KeyPair): (r: (Parser, KeyPair))
    ensures |r.1.blob| == |out.blob|
  {
    var (q, blob) := ReadString(p, out.blob);
    (q, KeyPair(blob))
  }

  function ParseKeyMessage(p: Parser, out: KeyMessage): (r: (Parser, KeyMessage))
    ensures Follows(p, r.0)
    ensures p.error ==> r == (p, out)
  {
    Pow256Widths();
    ReadIntegerFits(p, 1, out.id);
    var (p1, id) := ReadInteger(p, 1, out.id);
    var id': byte := id;
    var (p2, keyPair) := ReadObject(p1, out.keyPair, ParseKeyPair);
    (p2, KeyMessage(id', keyPair))
  }

  lemma KeyMessageWrites(m: KeyMessage, s: Serializer)
    ensures KeyMessageLength(m) == |EncodeKeyMessage(m)|
    ensures SerializeKeyMessage(s, m) == WriteString(s, EncodeKeyMessage(m))
  {
    WriteIntegerIsWriteString(s, 1, m.id);
    WriteStringConcat(s, Bytes(m.id, 1), m.keyPair.blob);
  }

  lemma KeyMessageRoundTrip(m: KeyMessage, slot: KeyMessage, rest: seq<byte>)
    requires |slot.keyPair.blob| == |m.keyPair.blob|
    ensures ParseKeyMessage(NewParser(EncodeKeyMessage(m) + rest), slot) == (NewParser(rest), m)
  {
    Pow256Widths();
    var tail := m.keyPair.blob + rest;
    assert EncodeKeyMessage(m) + rest == Bytes(m.id, 1) + tail;
    ReadIntegerOfBytes(m.id, 1, tail, slot.id);
    ReadStringOfBytes(m.keyPair.blob, rest, slot.keyPair.blob);
  }

  /** A truncated key message is rejected: a cut in the id or in the
      key bytes sets the error. */
  lemma KeyMessageRejectsTruncated(m: KeyMessage, slot: KeyMessage, k: nat)
    requires |slot.keyPair.blob| == |m.keyPair.blob|
    requires k < |EncodeKeyMessage(m)|
    ensures ParseKeyMessage(NewParser(EncodeKeyMessage(m)[..k]), slot).0.error
  {
    Pow256Widths();
    if 1 <= k {
      CutAfter(Bytes(m.id, 1), m.keyPair.blob, k);
      ReadIntegerOfBytes(m.id, 1, m.keyPair.blob[..k - 1], slot.id);
    }
  }

  /** A key request and the server's keyed answer: the id goes out as the
      single byte 254 or 255 ahead of the raw key bytes, and each message
      reads back with its id intact. */
  lemma KeyRequestScenario(k: KeyPair, slot: KeyMessage)
    requires |slot.keyPair.blob| == |k.blob|
    ensures EncodeKeyMessage(KeyMessage(KeyRequestId, k)) == [254] + k.blob
    ensures EncodeKeyMessage(KeyMessage(KeyRequestServerId, k)) == [255] + k.blob
    ensures ParseKeyMessage(NewParser(EncodeKeyMessage(KeyMessage(KeyRequestId, k))), slot).1.id == KeyRequestId
    ensures ParseKeyMessage(NewParser(EncodeKeyMessage(KeyMessage(KeyRequestServerId, k))), slot).1.id == KeyRequestServerId
  {
    Pow256Widths();
    var request := KeyMessage(KeyRequestId, k);
    var answer := KeyMessage(KeyRequestServerId, k);
    KeyMessageRoundTrip(request, slot, []);
    KeyMessageRoundTrip(answer, slot, []);
    assert EncodeKeyMessage(request) + [] == EncodeKeyMessage(request);
    assert EncodeKeyMessage(answer) + [] == EncodeKeyMessage(answer);
  }
}

/** The current wire codec: a logical message is framed into packets, and one packet is parsed
    back into a fragment (`Message::encode`, `Message::_buildPacket`, `Message::decode`). */
module Codec {
  import opened Bytes
  import opened Flags

  /** Bytes of a packet up to and including the length byte, without the fragment index/count
      pair: identifier (3), message id (2), flag (1), length (1). */
  const ShortHeaderSize: nat := 7
  /** The same with the fragment index/count pair. */
  const LongHeaderSize: nat := 9
  /** Payload capacity of one packet of each header variant; the length byte must hold it. */
  const MaxShortPayload: nat := 244
  const MaxLongPayload: nat := 242

  /** A logical message: 16-bit id, flag byte and payload of any length. */
  datatype Message = Message(id: u16, flag: MessageFlag, data: seq<byte>)

  /** A successfully parsed packet (`MessageParsingResult` with `success` set). A packet
      without the fragment pair reads as fragment 0 of 1. */
  datatype Fragment = Fragment(messageId: u16, packetNumber: byte, packetCount: byte,
                               msgType: MessageType, contentType: ContentType, payload: seq<byte>)

  /** `MessageParsingResult`: a failure carries nothing. */
  datatype ParseResult = ParseError | Parsed(fragment: Fragment)

  /** The `Message(id, type, content, data)` constructor: the flag is built from type and
      content and marked long exactly when the payload exceeds one short packet. */
  function NewMessage(id: u16, t: MessageType, c: ContentType, data: seq<byte>): (m: Message)
    ensures m.id == id && m.data == data && GetContentType(m.flag) == c
    ensures t != Error ==> GetMessageType(m.flag) == t && WellFormed(m)
    ensures t == Error ==> IsLong(m.flag)
  {
    var f := FlagOf(t, c);
    MarkAsLongKeepsGetters(f);
    Message(id, if |data| > MaxShortPayload then MarkAsLong(f) else f, data)
  }

  /** The long bit agrees with the payload size. */
  predicate WellFormed(m: Message)
  {
    IsLong(m.flag) <==> |m.data| > MaxShortPayload
  }

  /** Index of the length byte for a flag's header variant. */
  function LengthOffset(f: MessageFlag): nat
  {
    if IsLong(f) then LongHeaderSize - 1 else ShortHeaderSize - 1
  }

  /** Per-packet payload capacity for a flag's header variant (`maxPayloadSize`). */
  function Capacity(f: MessageFlag): nat
  {
    if IsLong(f) then MaxLongPayload else MaxShortPayload
  }

  // ---------------------------------------------------------------- decoding

  /** `Message::decode(packet)`. */
  function Decoded(p: seq<byte>): ParseResult
  {
    if |p| < ShortHeaderSize then ParseError
    else if p[..3] != Identifier then ParseError
    else
      var id := p[3] as int * 256 + p[4] as int;
      var flag := MessageFlag(p[5]);
      var at := LengthOffset(flag);
      if |p| <= at then ParseError
      else if p[at] == 0 then
        Parsed(Fragment(id, 0, 1, GetMessageType(flag), GetContentType(flag), []))
      else if |p| - (at + 1) != p[at] then ParseError
      else if IsLong(flag) then
        Parsed(Fragment(id, p[at - 2], p[at - 1], GetMessageType(flag), GetContentType(flag), p[at + 1..]))
      else
        Parsed(Fragment(id, 0, 1, GetMessageType(flag), GetContentType(flag), p[at + 1..]))
  }

  method Decode(packet: seq<byte>) returns (r: ParseResult)
    ensures r == Decoded(packet)
  {
    if |packet| < ShortHeaderSize {
      return ParseError;
    }
    for i := 0 to 3
      invariant packet[..i] == Identifier[..i]
    {
      if packet[i] != Identifier[i] {
        assert packet[..3][i] != Identifier[i];
        return ParseError;
      }
    }
    assert packet[..3] == Identifier[..3];
    var messageId := packet[3] as int * 256 + packet[4] as int;
    var flag := MessageFlag(packet[5]);
    var payloadStart := ShortHeaderSize - 1;
    if IsLong(flag) {
      payloadStart := LongHeaderSize - 1;
    }
    if |packet| <= payloadStart {
      return ParseError;
    }
    var dataSize := packet[payloadStart];
    if dataSize == 0 {
      return Parsed(Fragment(messageId, 0, 1, GetMessageType(flag), GetContentType(flag), []));
    }
    var payload: seq<byte> := [];
    for i := payloadStart + 1 to |packet|
      invariant payload == packet[payloadStart + 1..i]
    {
      payload := payload + [packet[i]];
    }
    if |payload| != dataSize {
      return ParseError;
    }
    if IsLong(flag) {
      return Parsed(Fragment(messageId, packet[payloadStart - 2], packet[payloadStart - 1],
                             GetMessageType(flag), GetContentType(flag), payload));
    }
    return Parsed(Fragment(messageId, 0, 1, GetMessageType(flag), GetContentType(flag), payload));
  }

  /** `Message::decode(packets)`: the packets are joined and parsed as one packet. */
  method DecodePackets(packets: seq<seq<byte>>) returns (r: ParseResult)
    ensures r == Decoded(Flatten(packets))
  {
    var payload: seq<byte> := [];
    for j := 0 to |packets|
      invariant payload == Flatten(packets[..j])
    {
      var packet := packets[j];
      for i := 0 to |packet|
        invariant payload == Flatten(packets[..j]) + packet[..i]
      {
        payload := payload + [packet[i]];
      }
      assert packets[..j + 1][..j] == packets[..j];
      assert packet[..|packet|] == packet;
    }
    assert packets[..|packets|] == packets;
    r := Decode(payload);
  }

  /** `Message::operator==`: same flag, same id, same payload bytes. */
  method Equals(a: Message, b: Message) returns (eq: bool)
    ensures eq <==> a == b
  {
    if a.flag == b.flag && |a.data| == |b.data| && a.id == b.id {
      for i := 0 to |a.data|
        invariant a.data[..i] == b.data[..i]
      {
        if a.data[i] != b.data[i] {
          return false;
        }
      }
      assert a.data == a.data[..|a.data|] && b.data == b.data[..|b.data|];
      return true;
    }
    return false;
  }

  // ---------------------------------------------------------------- encoding

  /** Identifier, big-endian message id and flag byte: the first six bytes of every packet. */
  function Header(m: Message): (h: seq<byte>)
    ensures |h| == ShortHeaderSize - 1
  {
    Identifier + [m.id / 256, m.id % 256, m.flag.raw]
  }

  /** A chunk larger than its header variant's capacity. */
  predicate Oversized(f: MessageFlag, chunk: seq<byte>)
  {
    (|chunk| > MaxShortPayload && !IsLong(f)) || (|chunk| > MaxLongPayload && IsLong(f))
  }

  /** `Message::_buildPacket(data, packetNumber, packetCount)`. */
  function Packet(m: Message, chunk: seq<byte>, number: byte, count: byte): seq<byte>
  {
    if Oversized(m.flag, chunk) then Header(m) + [0]
    else Header(m) + (if count > 1 then [number, count] else []) + [|chunk|] + chunk
  }

  method BuildPacket(m: Message, chunk: seq<byte>, number: byte, count: byte) returns (packet: seq<byte>)
    ensures packet == Packet(m, chunk, number, count)
  {
    packet := [];
    for i := 0 to |IdentifierLiteral|
      invariant packet == Identifier[..if i < 3 then i else 3]
    {
      if IdentifierLiteral[i] != 0 {
        packet := packet + [IdentifierLiteral[i]];
      }
    }
    packet := packet + [m.id / 256];
    packet := packet + [m.id % 256];
    packet := packet + [m.flag.raw];
    if |chunk| > MaxShortPayload && !IsLong(m.flag) {
      packet := packet + [0];
      return;
    } else if |chunk| > MaxLongPayload && IsLong(m.flag) {
      packet := packet + [0];
      return;
    }
    if count > 1 {
      packet := packet + [number];
      packet := packet + [count];
    }
    packet := packet + [|chunk|];
    ghost var prefix := packet;
    for i := 0 to |chunk|
      invariant packet == prefix + chunk[..i]
    {
      packet := packet + [chunk[i]];
    }
    assert chunk[..|chunk|] == chunk;
  }

  /** `numPackets`: for a long message the ceiling of the payload over the long capacity, kept
      in a `uint8_t` (so a ceiling of 256 is stored as 0); otherwise 1. */
  function NumPackets(m: Message): byte
  {
    if IsLong(m.flag) then CeilDiv(|m.data|, MaxLongPayload) % 256 else 1
  }

  /** `(uint8_t)fNumPackets` is defined: the whole part of the float quotient of a long payload
      over the long capacity fits a `uint8_t`. */
  predicate EncodeDefined(m: Message)
  {
    !IsLong(m.flag) || |m.data| < 256 * MaxLongPayload
  }

  /** The packet count, after rounding up, still fits its `uint8_t`: at most 255 long packets. */
  predicate CountFits(m: Message)
  {
    !IsLong(m.flag) || |m.data| <= 255 * MaxLongPayload
  }

  /** Consecutive slices of `s` of `size` bytes each, the last one possibly shorter. */
  function Chunks(s: seq<byte>, size: nat): seq<seq<byte>>
    requires size > 0
    decreases |s|
  {
    if |s| == 0 then []
    else
      var k := if |s| > size then size else |s|;
      [s[..k]] + Chunks(s[k..], size)
  }

  /** The payload carried by each packet `encode` emits, in emission order. */
  function PayloadChunks(m: Message): seq<seq<byte>>
  {
    if |m.data| == 0 then [[]] else Chunks(m.data, Capacity(m.flag))
  }

  /** `packetIndex++` on a `uint8_t`. */
  function NextIndex(index: byte): (r: byte)
    ensures r == (index + 1) % 256
  {
    if index == 255 then 0 else index + 1
  }

  /** The packets the loop of `encode` emits for the remaining `slice`, numbering from `index`. */
  function PacketsFrom(m: Message, slice: seq<byte>, index: byte, count: byte): seq<seq<byte>>
    decreases |slice|
  {
    if |slice| == 0 then []
    else
      var k := if |slice| > Capacity(m.flag) then Capacity(m.flag) else |slice|;
      [Packet(m, slice[..k], index, count)] + PacketsFrom(m, slice[k..], NextIndex(index), count)
  }

  /** `Message::encode`. An empty payload yields one packet built with the default fragment
      arguments 0 of 1. */
  function Encoded(m: Message): seq<seq<byte>>
    requires EncodeDefined(m)
  {
    if |m.data| == 0 then [Packet(m, [], 0, 1)]
    else PacketsFrom(m, m.data, 0, NumPackets(m))
  }

  method Encode(m: Message) returns (packets: seq<seq<byte>>)
    requires EncodeDefined(m)
    ensures packets == Encoded(m)
  {
    packets := [];
    var slice := m.data;
    if |slice| == 0 {
      var packet := BuildPacket(m, slice, 0, 1);
      packets := packets + [packet];
      return;
    }
    var numPackets: byte := 1;
    if IsLong(m.flag) {
      // the float quotient is exact enough here for its whole part and its fraction test
      var whole := |slice| / MaxLongPayload;
      if |slice| % MaxLongPayload != 0 {
        numPackets := (whole + 1) % 256;
      } else {
        numPackets := whole;
      }
      CeilDivQuotient(|slice|);
    }
    var packetIndex: byte := 0;
    var maxPayloadSize := if IsLong(m.flag) then MaxLongPayload else MaxShortPayload;
    assert maxPayloadSize == Capacity(m.flag);
    ghost var all := PacketsFrom(m, m.data, 0, numPackets);
    while |slice| > 0
      invariant packets + PacketsFrom(m, slice, packetIndex, numPackets) == all
      decreases |slice|
    {
      var offset := if |slice| > maxPayloadSize then maxPayloadSize else |slice|;
      var packetData := slice[..offset];
      var packet := BuildPacket(m, packetData, packetIndex, numPackets);
      ghost var rest := PacketsFrom(m, slice[offset..], NextIndex(packetIndex), numPackets);
      PacketsFromStep(m, slice, packetIndex, numPackets, offset);
      ConsAppend(packets, packet, rest);
      slice := slice[offset..];
      packets := packets + [packet];
      packetIndex := NextIndex(packetIndex);
    }
    assert packets + [] == packets;
  }

  /** The integer ceiling is the truncated quotient, plus one when there is a remainder. */
  lemma CeilDivQuotient(a: nat)
    ensures CeilDiv(a, MaxLongPayload)
         == a / MaxLongPayload + (if a % MaxLongPayload == 0 then 0 else 1)
  {
    var r := CeilDiv(a, MaxLongPayload);
    assert r * MaxLongPayload >= a && (r - 1) * MaxLongPayload < a;
  }

  lemma ConsAppend<T>(prefix: seq<T>, x: T, rest: seq<T>)
    ensures (prefix + [x]) + rest == prefix + ([x] + rest)
  { }

  /** One turn of the loop of `encode`: the first packet, then the packets of the rest. */
  lemma PacketsFromStep(m: Message, slice: seq<byte>, index: byte, count: byte, k: nat)
    requires |slice| > 0 && k == if |slice| > Capacity(m.flag) then Capacity(m.flag) else |slice|
    ensures PacketsFrom(m, slice, index, count)
         == [Packet(m, slice[..k], index, count)] + PacketsFrom(m, slice[k..], NextIndex(index), count)
  { }

  /** The count `encode` writes into its packets: 1 for an empty payload. */
  function EmittedCount(m: Message): byte
    requires EncodeDefined(m)
  {
    if |m.data| == 0 then 1 else NumPackets(m)
  }

  // ---------------------------------------------------------------- properties

  /** Slicing covers the input exactly, in order, with `ceil(|s| / size)` non-empty slices of
      at most `size` bytes. */
  lemma {:induction false} ChunksPartition(s: seq<byte>, size: nat)
    requires size > 0
    ensures Flatten(Chunks(s, size)) == s
    ensures |Chunks(s, size)| == CeilDiv(|s|, size)
    ensures forall i :: 0 <= i < |Chunks(s, size)| ==> 0 < |Chunks(s, size)[i]| <= size
    decreases |s|
  {
    if |s| > 0 {
      var k := if |s| > size then size else |s|;
      var rest := Chunks(s[k..], size);
      ChunksPartition(s[k..], size);
      assert Chunks(s, size) == [s[..k]] + rest;
      FlattenAppend([s[..k]], rest);
      FlattenOne(s[..k]);
      assert s[..k] + s[k..] == s;
    }
  }

  /** Slice `i` on its own: non-empty and at most `size` bytes. */
  lemma ChunkSize(s: seq<byte>, size: nat, i: nat)
    requires size > 0 && i < |Chunks(s, size)|
    ensures 0 < |Chunks(s, size)[i]| <= size
  {
    ChunksPartition(s, size);
  }

  /** The loop's packets, counted from `index`, are the packets of the successive slices, the
      index wrapping as a `uint8_t`. */
  lemma {:induction false} PacketsFromChunks(m: Message, slice: seq<byte>, index: byte, count: byte)
    ensures |PacketsFrom(m, slice, index, count)| == |Chunks(slice, Capacity(m.flag))|
    ensures forall i :: 0 <= i < |PacketsFrom(m, slice, index, count)| ==>
      PacketsFrom(m, slice, index, count)[i]
        == Packet(m, Chunks(slice, Capacity(m.flag))[i], (index + i) % 256, count)
    decreases |slice|
  {
    if |slice| > 0 {
      var cap := Capacity(m.flag);
      var k := if |slice| > cap then cap else |slice|;
      var ps := PacketsFrom(m, slice[k..], NextIndex(index), count);
      var cs := Chunks(slice[k..], cap);
      PacketsFromChunks(m, slice[k..], NextIndex(index), count);
      PacketsFromStep(m, slice, index, count, k);
      assert Chunks(slice, cap) == [slice[..k]] + cs;
      forall i | 1 <= i < |PacketsFrom(m, slice, index, count)|
        ensures PacketsFrom(m, slice, index, count)[i]
             == Packet(m, Chunks(slice, cap)[i], (index + i) % 256, count)
      {
        assert PacketsFrom(m, slice, index, count)[i] == ps[i - 1];
        assert Chunks(slice, cap)[i] == cs[i - 1];
        assert (NextIndex(index) + (i - 1)) % 256 == (index + i) % 256;
      }
    }
  }

  /** Packet `i` of `encode` is the packet of chunk `i`, numbered `i` modulo 256, with the
      emitted count. */
  lemma EncodedPackets(m: Message)
    requires EncodeDefined(m)
    ensures |Encoded(m)| == |PayloadChunks(m)|
    ensures forall i :: 0 <= i < |Encoded(m)| ==>
      Encoded(m)[i] == Packet(m, PayloadChunks(m)[i], i % 256, EmittedCount(m))
  {
    if |m.data| > 0 {
      PacketsFromChunks(m, m.data, 0, NumPackets(m));
    }
  }

  /** A packet from `_buildPacket` carries the index/count pair exactly when the count exceeds 1,
      and a chunk over its variant's capacity is replaced by a bare zero length byte. */
  lemma PacketLength(m: Message, chunk: seq<byte>, number: byte, count: byte)
    ensures Packet(m, chunk, number, count)[..ShortHeaderSize - 1] == Header(m)
    ensures Oversized(m.flag, chunk) ==>
      |Packet(m, chunk, number, count)| == ShortHeaderSize
      && Packet(m, chunk, number, count)[ShortHeaderSize - 1] == 0
    ensures !Oversized(m.flag, chunk) ==>
      |Packet(m, chunk, number, count)| == ShortHeaderSize + (if count > 1 then 2 else 0) + |chunk|
    ensures !Oversized(m.flag, chunk) ==>
      Packet(m, chunk, number, count)[ShortHeaderSize - 1 + (if count > 1 then 2 else 0)] == |chunk|
      && Packet(m, chunk, number, count)[ShortHeaderSize + (if count > 1 then 2 else 0)..] == chunk
  {
  }

  /** A packet with a non-empty chunk that fits and a count above one carries its index and
      count in bytes 6 and 7. */
  lemma PacketIndexPair(m: Message, chunk: seq<byte>, number: byte, count: byte)
    requires 0 < |chunk| <= Capacity(m.flag) && count > 1
    ensures |Packet(m, chunk, number, count)| > LongHeaderSize
    ensures Packet(m, chunk, number, count)[6] == number && Packet(m, chunk, number, count)[7] == count
  {
  }

  /** The id is written high byte first and read back as `(hi << 8) | lo`. */
  lemma IdBytesRoundTrip(id: u16)
    ensures (id / 256) * 256 + id % 256 == id
    ensures id / 256 < 256
  {
  }

  /** Parsing a packet built from a non-empty chunk that fits, with the index/count pair present
      exactly when the long bit is set, gives back id, type, content, position and the chunk. */
  lemma DecodeBuiltPacket(m: Message, chunk: seq<byte>, number: byte, count: byte)
    requires 0 < |chunk| <= Capacity(m.flag)
    requires IsLong(m.flag) <==> count > 1
    ensures Decoded(Packet(m, chunk, number, count))
         == Parsed(Fragment(m.id, if IsLong(m.flag) then number else 0,
                            if IsLong(m.flag) then count else 1,
                            GetMessageType(m.flag), GetContentType(m.flag), chunk))
  {
    var p := Packet(m, chunk, number, count);
    var at := LengthOffset(m.flag);
    IdBytesRoundTrip(m.id);
    assert p[..3] == Identifier;
    assert p[3] == m.id / 256 && p[4] == m.id % 256 && p[5] == m.flag.raw;
    assert MessageFlag(p[5]) == m.flag;
    assert |p| == at + 1 + |chunk|;
    assert p[at] == |chunk|;
    assert p[at + 1..] == chunk;
    if IsLong(m.flag) {
      assert p[at - 2] == number && p[at - 1] == count;
    }
  }

  /** Parsing the lone packet of an empty message: a short one reads back as an empty payload,
      a long one (whose packet lacks the index/count pair) is rejected. */
  lemma DecodeEmptyPacket(m: Message)
    ensures Decoded(Packet(m, [], 0, 1))
         == if IsLong(m.flag) then ParseError
            else Parsed(Fragment(m.id, 0, 1, GetMessageType(m.flag), GetContentType(m.flag), []))
  {
    var p := Packet(m, [], 0, 1);
    IdBytesRoundTrip(m.id);
    assert p == Identifier + [m.id / 256, m.id % 256, m.flag.raw, 0];
    assert p[..3] == Identifier;
    assert MessageFlag(p[5]) == m.flag;
  }

  /** Packet `i` of `encode` on its own. */
  lemma EncodedPacket(m: Message, i: nat)
    requires EncodeDefined(m) && i < |PayloadChunks(m)|
    ensures |Encoded(m)| == |PayloadChunks(m)|
    ensures Encoded(m)[i] == Packet(m, PayloadChunks(m)[i], i % 256, EmittedCount(m))
  {
    EncodedPackets(m);
  }

  /** Size of `encode`'s output for every message it accepts: one packet for an empty payload,
      otherwise `ceil(|data| / capacity)` packets whose chunks fit and join to the payload. */
  lemma EncodeShape(m: Message)
    requires EncodeDefined(m)
    ensures |Encoded(m)| == |PayloadChunks(m)|
    ensures |m.data| == 0 ==> |Encoded(m)| == 1
    ensures |m.data| > 0 ==> |Encoded(m)| == CeilDiv(|m.data|, Capacity(m.flag))
    ensures Flatten(PayloadChunks(m)) == m.data
    ensures forall i :: 0 <= i < |PayloadChunks(m)| ==> |PayloadChunks(m)[i]| <= Capacity(m.flag)
  {
    EncodedPackets(m);
    if |m.data| == 0 {
      FlattenOne([]);
    } else {
      ChunksPartition(m.data, Capacity(m.flag));
    }
  }

  /** Every packet of `encode` starts with the same identifier, id and flag. */
  lemma EncodeHeaders(m: Message)
    requires EncodeDefined(m)
    ensures forall i :: 0 <= i < |Encoded(m)| ==>
      |Encoded(m)[i]| >= ShortHeaderSize && Encoded(m)[i][..ShortHeaderSize - 1] == Header(m)
  {
    EncodedPackets(m);
    forall i | 0 <= i < |Encoded(m)|
      ensures |Encoded(m)[i]| >= ShortHeaderSize && Encoded(m)[i][..ShortHeaderSize - 1] == Header(m)
    {
      EncodedPacket(m, i);
      PacketLength(m, PayloadChunks(m)[i], i % 256, EmittedCount(m));
    }
  }

  /** With a long message of more than one packet, bytes 6 and 7 of packet `i` are its index
      `i` and the packet count. */
  lemma EncodeIndexPair(m: Message)
    requires EncodeDefined(m) && IsLong(m.flag) && |m.data| > 0 && NumPackets(m) > 1
    ensures forall i :: 0 <= i < |Encoded(m)| ==>
      |Encoded(m)[i]| > LongHeaderSize && Encoded(m)[i][6] == i && Encoded(m)[i][7] == NumPackets(m)
  {
    EncodeShape(m);
    ChunksPartition(m.data, MaxLongPayload);
    LongCountBound(m);
    forall i | 0 <= i < |Encoded(m)|
      ensures |Encoded(m)[i]| > LongHeaderSize && Encoded(m)[i][6] == i && Encoded(m)[i][7] == NumPackets(m)
    {
      EncodedPacket(m, i);
      assert i % 256 == i;
      PacketIndexPair(m, PayloadChunks(m)[i], i, NumPackets(m));
    }
  }

  /** A long payload accepted by `encode` needs at most 256 packets, so every index below the
      packet count is its own `uint8_t` value. */
  lemma LongCountBound(m: Message)
    requires EncodeDefined(m) && IsLong(m.flag)
    ensures CeilDiv(|m.data|, MaxLongPayload) <= 256
  {
    var r := CeilDiv(|m.data|, MaxLongPayload);
    assert (r - 1) * MaxLongPayload < 256 * MaxLongPayload;
  }

  /** While the count fits, the count `encode` writes is the exact ceiling, at most 255. */
  lemma CountFitsIsExact(m: Message)
    requires CountFits(m) && IsLong(m.flag)
    ensures NumPackets(m) == CeilDiv(|m.data|, MaxLongPayload) <= 255
  {
    var r := CeilDiv(|m.data|, MaxLongPayload);
    assert (r - 1) * MaxLongPayload < 255 * MaxLongPayload + 1;
  }

  /** Packet counts of a well-formed message: a long one has `NumPackets` packets, more than one
      and at most 255; a short one has exactly one. */
  lemma EncodeCount(m: Message)
    requires WellFormed(m) && CountFits(m)
    ensures |Encoded(m)| == |PayloadChunks(m)|
    ensures IsLong(m.flag) ==> 1 < |Encoded(m)| == NumPackets(m)
    ensures !IsLong(m.flag) ==> |Encoded(m)| == 1
    ensures |Encoded(m)| <= 255
  {
    EncodeShape(m);
    if |m.data| > 0 {
      if IsLong(m.flag) {
        CountFitsIsExact(m);
        assert NumPackets(m) * MaxLongPayload >= |m.data| > MaxLongPayload;
      } else {
        assert CeilDiv(|m.data|, MaxShortPayload) == 1;
      }
    }
  }

  /** Packet `i` of a well-formed message parses to the message's id, type and content, its
      position and count (0 of 1 when short) and chunk `i`. */
  lemma EncodedPacketDecodes(m: Message, i: nat)
    requires WellFormed(m) && CountFits(m) && i < |PayloadChunks(m)|
    ensures |Encoded(m)| == |PayloadChunks(m)| <= 255
    ensures Decoded(Encoded(m)[i])
         == Parsed(Fragment(m.id, if IsLong(m.flag) then i else 0,
                            if IsLong(m.flag) then |Encoded(m)| else 1,
                            GetMessageType(m.flag), GetContentType(m.flag), PayloadChunks(m)[i]))
  {
    EncodedPacket(m, i);
    EncodeCount(m);
    if |m.data| == 0 {
      DecodeEmptyPacket(m);
    } else {
      var chunk := PayloadChunks(m)[i];
      ChunkSize(m.data, Capacity(m.flag), i);
      assert i % 256 == i;
      assert Encoded(m)[i] == Packet(m, chunk, i, NumPackets(m));
      DecodeBuiltPacket(m, chunk, i, NumPackets(m));
    }
  }

  /** Round trip: every packet of a well-formed message parses, carrying the message's id, type
      and content, its position (long messages) or 0 of 1 (short ones) and its chunk; the chunks
      join back to the payload. A short message is one packet. */
  lemma EncodeDecodeRoundTrip(m: Message)
    requires WellFormed(m) && CountFits(m)
    ensures |Encoded(m)| == |PayloadChunks(m)|
    ensures IsLong(m.flag) ==> |Encoded(m)| == NumPackets(m) <= 255
    ensures !IsLong(m.flag) ==> |Encoded(m)| == 1
    ensures Flatten(PayloadChunks(m)) == m.data
    ensures forall i :: 0 <= i < |Encoded(m)| ==>
      Decoded(Encoded(m)[i])
        == Parsed(Fragment(m.id, if IsLong(m.flag) then i else 0,
                           if IsLong(m.flag) then |Encoded(m)| else 1,
                           GetMessageType(m.flag), GetContentType(m.flag), PayloadChunks(m)[i]))
  {
    EncodeShape(m);
    EncodeCount(m);
    forall i | 0 <= i < |Encoded(m)|
      ensures Decoded(Encoded(m)[i])
           == Parsed(Fragment(m.id, if IsLong(m.flag) then i else 0,
                              if IsLong(m.flag) then |Encoded(m)| else 1,
                              GetMessageType(m.flag), GetContentType(m.flag), PayloadChunks(m)[i]))
    {
      EncodedPacketDecodes(m, i);
    }
  }

  /** The inconsistency between the two halves: with the long bit set but a payload that fits
      one long packet, `encode` omits the index/count pair while `decode` expects it, so the
      payload never comes back; an empty long message is rejected outright. */
  lemma LongSinglePacketDoesNotRoundTrip(m: Message)
    requires IsLong(m.flag) && |m.data| <= MaxLongPayload
    ensures |Encoded(m)| == 1
    ensures !(Decoded(Encoded(m)[0]).Parsed? && Decoded(Encoded(m)[0]).fragment.payload == m.data)
    ensures |m.data| <= 1 ==> Decoded(Encoded(m)[0]) == ParseError
  {
    if |m.data| == 0 {
      DecodeEmptyPacket(m);
    } else {
      assert CeilDiv(|m.data|, MaxLongPayload) == 1;
      var p := Packet(m, m.data, 0, 1);
      assert m.data[|m.data|..] == [];
      assert m.data[..|m.data|] == m.data;
      assert PacketsFrom(m, m.data, 0, 1) == [p] + PacketsFrom(m, [], 1, 1);
      assert Encoded(m) == [p];
      LongPacketWithoutPairLosesChunk(m, m.data, 0, 1);
    }
  }

  /** A long packet built without the index/count pair (count 0 or 1) is read with the length
      byte two places too far on: the chunk it carries never comes back, and a one-byte chunk
      is rejected. */
  lemma LongPacketWithoutPairLosesChunk(m: Message, chunk: seq<byte>, number: byte, count: byte)
    requires IsLong(m.flag) && count <= 1 && 0 < |chunk| <= MaxLongPayload
    ensures !(Decoded(Packet(m, chunk, number, count)).Parsed?
              && Decoded(Packet(m, chunk, number, count)).fragment.payload == chunk)
    ensures |chunk| == 1 ==> Decoded(Packet(m, chunk, number, count)) == ParseError
  {
    var p := Packet(m, chunk, number, count);
    assert p == Header(m) + [|chunk|] + chunk;
    assert |p| == ShortHeaderSize + |chunk|;
    assert p[..3] == Identifier;
    assert MessageFlag(p[5]) == m.flag;
    if |p| > LongHeaderSize - 1 {
      assert p[LongHeaderSize - 1] == chunk[1];
    }
  }

  /** The count-wrap window: a long payload of 61711 to 61951 bytes needs 256 packets, a count
      `(uint8_t)fNumPackets + 1` stores as 0. The 256 packets then carry no index/count pair, and
      none of them gives its chunk back to `decode`. */
  lemma CountWrapsToZero(m: Message)
    requires IsLong(m.flag) && 255 * MaxLongPayload < |m.data| < 256 * MaxLongPayload
    ensures EncodeDefined(m) && !CountFits(m)
    ensures NumPackets(m) == 0
    ensures |Encoded(m)| == |PayloadChunks(m)| == 256
    ensures forall i :: 0 <= i < |Encoded(m)| ==>
      !(Decoded(Encoded(m)[i]).Parsed? && Decoded(Encoded(m)[i]).fragment.payload == PayloadChunks(m)[i])
  {
    var r := CeilDiv(|m.data|, MaxLongPayload);
    assert r * MaxLongPayload > 255 * MaxLongPayload;
    assert (r - 1) * MaxLongPayload < 256 * MaxLongPayload;
    assert r == 256;
    EncodeShape(m);
    forall i | 0 <= i < |Encoded(m)|
      ensures !(Decoded(Encoded(m)[i]).Parsed? && Decoded(Encoded(m)[i]).fragment.payload == PayloadChunks(m)[i])
    {
      EncodedPacket(m, i);
      ChunkSize(m.data, MaxLongPayload, i);
      LongPacketWithoutPairLosesChunk(m, PayloadChunks(m)[i], i % 256, 0);
    }
  }

  /** A successful parse accounts for the whole packet: when it returns a payload, re-framing the
      parsed fields reproduces the packet byte for byte (nothing truncated, nothing left over);
      an empty payload comes only from a zero length byte. */
  lemma DecodedFrameIsExact(p: seq<byte>)
    requires Decoded(p).Parsed?
    ensures p[..3] == Identifier
    ensures Decoded(p).fragment.messageId == p[3] as int * 256 + p[4] as int
    ensures Decoded(p).fragment.msgType == GetMessageType(MessageFlag(p[5]))
    ensures Decoded(p).fragment.contentType == GetContentType(MessageFlag(p[5]))
    ensures Decoded(p).fragment.payload == [] ==> p[LengthOffset(MessageFlag(p[5]))] == 0
    ensures Decoded(p).fragment.payload != [] ==>
      var f := Decoded(p).fragment;
      p == Identifier + [p[3], p[4], p[5]]
           + (if IsLong(MessageFlag(p[5])) then [f.packetNumber, f.packetCount] else [])
           + [|f.payload|] + f.payload
  {
    var f := Decoded(p).fragment;
    var at := LengthOffset(MessageFlag(p[5]));
    if f.payload != [] {
      if IsLong(MessageFlag(p[5])) {
        assert p == p[..3] + [p[3], p[4], p[5]] + [p[at - 2], p[at - 1]] + [p[at]] + p[at + 1..];
      } else {
        assert p == p[..3] + [p[3], p[4], p[5]] + [p[at]] + p[at + 1..];
      }
    }
  }

  /** Malformed input is always rejected: too short, wrong identifier, no room for the length
      byte, or a non-zero length that disagrees with the bytes that follow it. */
  lemma DecodeRejectsMalformed(p: seq<byte>)
    ensures |p| < ShortHeaderSize ==> Decoded(p) == ParseError
    ensures |p| >= 3 && p[..3] != Identifier ==> Decoded(p) == ParseError
    ensures |p| >= ShortHeaderSize && |p| <= LengthOffset(MessageFlag(p[5])) ==> Decoded(p) == ParseError
    ensures |p| > ShortHeaderSize - 1 && LengthOffset(MessageFlag(p[5])) < |p|
            && p[LengthOffset(MessageFlag(p[5]))] != 0
            && p[LengthOffset(MessageFlag(p[5]))] != |p| - LengthOffset(MessageFlag(p[5])) - 1
            ==> Decoded(p) == ParseError
  {
  }

  /** The accepting side of the zero-length check: a zero length byte in a packet with the
      identifier gives an empty payload, position 0 of 1, whatever bytes follow it. */
  lemma ZeroLengthAcceptsAnyTail(p: seq<byte>)
    requires |p| >= ShortHeaderSize && p[..3] == Identifier
    requires LengthOffset(MessageFlag(p[5])) < |p| && p[LengthOffset(MessageFlag(p[5]))] == 0
    ensures Decoded(p) == Parsed(Fragment(p[3] as int * 256 + p[4] as int, 0, 1,
                                          GetMessageType(MessageFlag(p[5])),
                                          GetContentType(MessageFlag(p[5])), []))
  {
  }

  /** A short packet for message 1 with a zero length byte and two stray bytes after it. */
  lemma ZeroLengthIgnoresTrailingBytes()
    ensures Decoded([78, 70, 82, 0, 1, 0, 0, 99, 99])
         == Parsed(Fragment(1, 0, 1, GetMessageType(DefaultFlag), GetContentType(DefaultFlag), []))
  {
    var p: seq<byte> := [78, 70, 82, 0, 1, 0, 0, 99, 99];
    assert p[..3] == Identifier;
    ZeroLengthAcceptsAnyTail(p);
  }

  /** A request or response built with the constructor survives the trip through the wire:
      the parsed fragments carry its id, type, content type, and join to its payload. */
  lemma NewMessageRoundTrip(id: u16, t: MessageType, c: ContentType, data: seq<byte>)
    requires t != Error
    requires CountFits(NewMessage(id, t, c, data))
    ensures var m := NewMessage(id, t, c, data);
      forall i :: 0 <= i < |Encoded(m)| ==>
        Decoded(Encoded(m)[i]).Parsed?
        && Decoded(Encoded(m)[i]).fragment.messageId == id
        && Decoded(Encoded(m)[i]).fragment.msgType == t
        && Decoded(Encoded(m)[i]).fragment.contentType == c
    ensures var m := NewMessage(id, t, c, data);
      Flatten(seq(|Encoded(m)|, i requires 0 <= i < |Encoded(m)| => Decoded(Encoded(m)[i]).fragment.payload)) == data
  {
    var m := NewMessage(id, t, c, data);
    EncodeDecodeRoundTrip(m);
    var ps := seq(|Encoded(m)|, i requires 0 <= i < |Encoded(m)| => Decoded(Encoded(m)[i]).fragment.payload);
    assert ps == PayloadChunks(m);
  }
}

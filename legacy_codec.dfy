/** The earlier inline codec of the header revision: a five-byte header (identifier, flag,
    length) with no message id and no fragment fields, and packets of up to 256 payload bytes. */
module LegacyCodec {
  import opened Bytes
  import opened Flags

  /** `MAX_PACKET_SIZE`. */
  const MaxPacketSize: nat := 256
  /** Identifier, flag and length byte. */
  const LegacyHeaderSize: nat := 5

  /** The header revision's `Message`: a flag and a payload. */
  datatype LegacyMessage = LegacyMessage(flag: MessageFlag, data: seq<byte>)

  /** That revision's `MessageParsingResult`: a content type and a payload on success. */
  datatype LegacyParseResult = LegacyParseError | LegacyParsed(contentType: ContentType, payload: seq<byte>)

  /** `Message::decode` of the header revision. The content type is read from bit 2 alone. */
  function LegacyDecoded(p: seq<byte>): LegacyParseResult
  {
    if |p| < LegacyHeaderSize then LegacyParseError
    else if p[..3] != Identifier then LegacyParseError
    else
      var flag := MessageFlag(p[3]);
      var dataSize := p[4];
      if dataSize == 0 then LegacyParsed(Meta, [])
      else if |p| - LegacyHeaderSize != dataSize then LegacyParseError
      else LegacyParsed(ContentOfCode((flag.raw / 4) % 2), p[LegacyHeaderSize..])
  }

  method LegacyDecode(packet: seq<byte>) returns (r: LegacyParseResult)
    ensures r == LegacyDecoded(packet)
  {
    if |packet| < 5 {
      return LegacyParseError;
    }
    for i := 0 to 3
      invariant packet[..i] == Identifier[..i]
    {
      if packet[i] != Identifier[i] {
        assert packet[..3][i] != Identifier[i];
        return LegacyParseError;
      }
    }
    assert packet[..3] == Identifier[..3];
    var flag := MessageFlag(packet[3]);
    var dataSize := packet[4];
    if dataSize == 0 {
      return LegacyParsed(Meta, []);
    }
    var payload: seq<byte> := [];
    for i := 5 to |packet|
      invariant payload == packet[5..i]
    {
      payload := payload + [packet[i]];
    }
    if |payload| != dataSize {
      return LegacyParseError;
    }
    return LegacyParsed(ContentOfCode((flag.raw / 4) % 2), payload);
  }

  /** `_buildPacket(data)` of the header revision: the length byte is the size truncated to
      eight bits, and a slice over `MAX_PACKET_SIZE` becomes a bare zero length byte. */
  function LegacyPacket(m: LegacyMessage, data: seq<byte>): seq<byte>
  {
    if |data| > MaxPacketSize then Identifier + [m.flag.raw, 0]
    else Identifier + [m.flag.raw, |data| % 256] + data
  }

  method LegacyBuildPacket(m: LegacyMessage, data: seq<byte>) returns (packet: seq<byte>)
    ensures packet == LegacyPacket(m, data)
  {
    packet := [];
    for i := 0 to |IdentifierLiteral|
      invariant packet == Identifier[..if i < 3 then i else 3]
    {
      if IdentifierLiteral[i] != 0 {
        packet := packet + [IdentifierLiteral[i]];
      }
    }
    packet := packet + [m.flag.raw];
    if |data| > MaxPacketSize {
      packet := packet + [0];
      return;
    }
    packet := packet + [|data| % 256];
    ghost var prefix := packet;
    for i := 0 to |data|
      invariant packet == prefix + data[..i]
    {
      packet := packet + [data[i]];
    }
    assert data[..|data|] == data;
  }

  /** The packets `encode` emits for the remaining `slice`: each is built from the WHOLE
      remaining slice, after which `MAX_PACKET_SIZE` bytes are dropped. */
  function LegacyPackets(m: LegacyMessage, slice: seq<byte>): seq<seq<byte>>
    decreases |slice|
  {
    if |slice| == 0 then []
    else
      var offset := if |slice| > MaxPacketSize then MaxPacketSize else |slice|;
      [LegacyPacket(m, slice)] + LegacyPackets(m, slice[offset..])
  }

  /** `Message::encode` of the header revision. */
  function LegacyEncoded(m: LegacyMessage): seq<seq<byte>>
  {
    LegacyPackets(m, m.data)
  }

  method LegacyEncode(m: LegacyMessage) returns (packets: seq<seq<byte>>)
    ensures packets == LegacyEncoded(m)
  {
    packets := [];
    var slice := m.data;
    while |slice| > 0
      invariant packets + LegacyPackets(m, slice) == LegacyEncoded(m)
      decreases |slice|
    {
      var packet := LegacyBuildPacket(m, slice);
      var offset := if |slice| > MaxPacketSize then MaxPacketSize else |slice|;
      assert packets + [packet] + LegacyPackets(m, slice[offset..]) == packets + LegacyPackets(m, slice);
      slice := slice[offset..];
      packets := packets + [packet];
    }
    assert packets + [] == packets;
  }

  // ---------------------------------------------------------------- properties

  /** The parse fails on a short packet, a wrong identifier or a non-zero length that disagrees
      with the trailing byte count; a zero length succeeds as an empty Meta payload whatever follows. */
  lemma LegacyDecodeCases(p: seq<byte>)
    ensures |p| < LegacyHeaderSize ==> LegacyDecoded(p) == LegacyParseError
    ensures |p| >= 3 && p[..3] != Identifier ==> LegacyDecoded(p) == LegacyParseError
    ensures |p| >= LegacyHeaderSize && p[..3] == Identifier && p[4] == 0 ==> LegacyDecoded(p) == LegacyParsed(Meta, [])
    ensures |p| >= LegacyHeaderSize && p[4] != 0 && p[4] != |p| - LegacyHeaderSize ==> LegacyDecoded(p) == LegacyParseError
  {
  }

  /** A successful parse returns a payload equal to the bytes after the header and a content type
      taken from the low content bit alone, so only Meta or Drive can come back. */
  lemma LegacyDecodedPayloadIsTail(p: seq<byte>)
    requires LegacyDecoded(p).LegacyParsed?
    ensures LegacyDecoded(p).contentType in {Meta, Drive}
    ensures LegacyDecoded(p).payload != [] ==>
      p == Identifier + [p[3], |LegacyDecoded(p).payload|] + LegacyDecoded(p).payload
  {
    var r := LegacyDecoded(p);
    if r.payload != [] {
      assert p == p[..3] + [p[3], p[4]] + p[5..];
    }
  }

  /** Packet `i` of `encode` is built from the payload with its first `256 * i` bytes dropped;
      there are `ceil(|data| / 256)` packets, none for an empty payload. */
  lemma {:induction false} LegacyPacketsFromSuffixes(m: LegacyMessage, slice: seq<byte>)
    ensures |LegacyPackets(m, slice)| == CeilDiv(|slice|, MaxPacketSize)
    ensures forall i :: 0 <= i < |LegacyPackets(m, slice)| ==>
      MaxPacketSize * i < |slice| && LegacyPackets(m, slice)[i] == LegacyPacket(m, slice[MaxPacketSize * i..])
    decreases |slice|
  {
    if |slice| > 0 {
      var offset := if |slice| > MaxPacketSize then MaxPacketSize else |slice|;
      var rest := slice[offset..];
      LegacyPacketsFromSuffixes(m, rest);
      forall i | 1 <= i < |LegacyPackets(m, slice)|
        ensures MaxPacketSize * i < |slice| && LegacyPackets(m, slice)[i] == LegacyPacket(m, slice[MaxPacketSize * i..])
      {
        assert LegacyPackets(m, slice)[i] == LegacyPackets(m, rest)[i - 1];
        assert offset == MaxPacketSize;
        assert rest[MaxPacketSize * (i - 1)..] == slice[MaxPacketSize * i..];
      }
    }
  }

  /** A payload of 1 to 255 bytes goes out as one packet that parses back to the same bytes,
      with the content type reduced to its low bit. */
  lemma LegacyRoundTrip(m: LegacyMessage)
    requires 0 < |m.data| < MaxPacketSize
    ensures |LegacyEncoded(m)| == 1
    ensures LegacyDecoded(LegacyEncoded(m)[0])
         == LegacyParsed(ContentOfCode(ContentCode(GetContentType(m.flag)) % 2), m.data)
  {
    LegacyPacketsFromSuffixes(m, m.data);
    var p := LegacyPacket(m, m.data);
    assert LegacyEncoded(m)[0] == p;
    assert p[..3] == Identifier && p[3] == m.flag.raw && p[4] == |m.data|;
    assert p[LegacyHeaderSize..] == m.data;
  }

  /** A payload of exactly 256 bytes gets the length byte 256 mod 256 = 0 and so parses back as
      an empty Meta message: the data is lost. */
  lemma LegacyFullPacketReadsEmpty(m: LegacyMessage)
    requires |m.data| == MaxPacketSize
    ensures |LegacyEncoded(m)| == 1
    ensures LegacyEncoded(m)[0][4] == 0
    ensures LegacyDecoded(LegacyEncoded(m)[0]) == LegacyParsed(Meta, [])
  {
    LegacyPacketsFromSuffixes(m, m.data);
    assert LegacyEncoded(m)[0] == LegacyPacket(m, m.data);
  }

  /** With more than 256 bytes, every packet but the last is built from a slice over the limit and
      so carries no payload at all: only the last (at most 256-byte) remainder is transmitted. */
  lemma LegacyLongPayloadLosesPrefix(m: LegacyMessage)
    requires |m.data| > MaxPacketSize
    ensures |LegacyEncoded(m)| >= 2
    ensures forall i :: 0 <= i < |LegacyEncoded(m)| - 1 ==>
      LegacyEncoded(m)[i] == Identifier + [m.flag.raw, 0]
      && LegacyDecoded(LegacyEncoded(m)[i]) == LegacyParsed(Meta, [])
  {
    LegacyPacketsFromSuffixes(m, m.data);
    var n := |LegacyEncoded(m)|;
    assert n * MaxPacketSize >= |m.data|;
    forall i | 0 <= i < n - 1
      ensures LegacyEncoded(m)[i] == Identifier + [m.flag.raw, 0]
    {
      assert (n - 1) * MaxPacketSize < |m.data|;
      assert MaxPacketSize * i + MaxPacketSize <= (n - 1) * MaxPacketSize;
      assert |m.data[MaxPacketSize * i..]| > MaxPacketSize;
    }
  }
}

/** `MessageBuilder` and `MessageParser`: the payload layouts of the four content types, built into
    messages and parsed back out of delivered payloads. */
module Builder {
  import opened Bytes
  import opened Flags
  import opened Codec

  /** `MetaContent`: the schema name's bytes and its version numbers. */
  datatype MetaContent = MetaContent(schemaName: seq<byte>, major: int, minor: int, patch: int)
  /** `DriveContent`. */
  datatype DriveContent = DriveContent(driveContent: seq<byte>)
  /** `SwitchDataRateContent`. */
  datatype SwitchDataRateContent = SwitchDataRateContent(bandwidth: int, frequency: int)
  /** `DataTransferContent`. */
  datatype DataTransferContent = DataTransferContent(data: seq<byte>)

  /** `ContentResult<T>`: `success` false, or true with the parsed content. */
  datatype ContentResult<T> = Rejected | Accepted(content: T)

  /** An `int` pushed into a byte vector: the unsigned conversion keeps it modulo 256. */
  function ToByte(x: int): (b: byte)
    ensures 0 <= x < 256 ==> b == x
    ensures (x - b) % 256 == 0
  {
    x % 256
  }

  // ---------------------------------------------------------------- Meta

  /** The Meta payload: the name's length byte, the name, then major, minor and patch. */
  function MetaPayload(name: seq<byte>, major: int, minor: int, patch: int): (p: seq<byte>)
    ensures |p| == |name| + 4
    ensures p[0] == |name| % 256 && p[1..|name| + 1] == name
    ensures p[|name| + 1..] == [ToByte(major), ToByte(minor), ToByte(patch)]
  {
    [|name| % 256] + name + [ToByte(major), ToByte(minor), ToByte(patch)]
  }

  /** The guard `parseMetaContent` applies before indexing: only the total size is checked. */
  predicate MetaGuardAsWritten(data: seq<byte>)
  {
    !(|data| < 4)
  }

  /** `parseMetaContent` with the bound it evidently intends: besides the size check, the declared
      name length must leave room for the name and the three version bytes. */
  function ParsedMeta(data: seq<byte>): ContentResult<MetaContent>
  {
    if |data| < 4 then Rejected
    else if data[0] as int + 4 > |data| then Rejected
    else
      var n := data[0] as int;
      Accepted(MetaContent(data[1..n + 1], data[n + 1], data[n + 2], data[n + 3]))
  }

  /** `createMetaMessageResponse(id, schemaName, major, minor, patch)`. */
  method CreateMetaMessageResponse(id: u16, schemaName: seq<byte>, major: int, minor: int, patch: int)
    returns (m: Message)
    ensures m == NewMessage(id, Response, Meta, MetaPayload(schemaName, major, minor, patch))
    ensures |schemaName| < 256 ==>
      ParsedMeta(m.data) == Accepted(MetaContent(schemaName, ToByte(major), ToByte(minor), ToByte(patch)))
  {
    var data: seq<byte> := [|schemaName| % 256];
    for i := 0 to |schemaName|
      invariant data == [|schemaName| % 256] + schemaName[..i]
    {
      data := data + [schemaName[i]];
    }
    assert schemaName[..|schemaName|] == schemaName;
    data := data + [ToByte(major)];
    data := data + [ToByte(minor)];
    data := data + [ToByte(patch)];
    m := NewMessage(id, Response, Meta, data);
    if |schemaName| < 256 {
      MetaRoundTrip(schemaName, major, minor, patch);
    }
  }

  /** `parseMetaContent(data)`, with the corrected bound. */
  method ParseMetaContent(data: seq<byte>) returns (r: ContentResult<MetaContent>)
    ensures r == ParsedMeta(data)
  {
    if |data| < 4 {
      return Rejected;
    }
    var schemaNameLength := data[0] as int;
    if schemaNameLength + 4 > |data| {
      return Rejected;
    }
    var schemaName: seq<byte> := [];
    for i := 1 to schemaNameLength + 1
      invariant schemaName == data[1..i]
    {
      schemaName := schemaName + [data[i]];
    }
    var major := data[schemaNameLength + 1];
    var minor := data[schemaNameLength + 2];
    var patch := data[schemaNameLength + 3];
    return Accepted(MetaContent(schemaName, major, minor, patch));
  }

  /** Every index `parseMetaContent` reads lies inside the payload: the name bytes `1..data[0]`
      and the versions at `data[0] + 1`, `data[0] + 2` and `data[0] + 3`, the last being the
      highest. */
  predicate MetaReadsInBounds(data: seq<byte>)
  {
    |data| > 0 && data[0] as int + 3 < |data|
  }

  /** The source's guard lets through payloads whose declared name length runs past the end, so
      the name and version reads index beyond the vector; the corrected parse rejects them. */
  lemma MetaGuardAdmitsOverrun(data: seq<byte>)
    requires |data| >= 4 && data[0] as int + 4 > |data|
    ensures MetaGuardAsWritten(data) && !MetaReadsInBounds(data)
    ensures ParsedMeta(data) == Rejected
  {
  }

  /** A concrete overrun: a declared name of 10 bytes in a 4-byte payload. */
  lemma MetaOverrunExample()
    ensures MetaGuardAsWritten([10, 0, 0, 0])
    ensures ParsedMeta([10, 0, 0, 0]) == Rejected
  {
    MetaGuardAdmitsOverrun([10, 0, 0, 0]);
  }

  /** The corrected parse accepts exactly the payloads it can read in bounds, and then returns
      the declared number of name bytes and three version bytes. */
  lemma ParsedMetaAcceptsInBounds(data: seq<byte>)
    ensures ParsedMeta(data).Accepted? <==> |data| >= 4 && data[0] as int + 4 <= |data|
    ensures ParsedMeta(data).Accepted? ==>
      var c := ParsedMeta(data).content;
      |c.schemaName| == data[0] as int && data[1..|c.schemaName| + 1] == c.schemaName
      && 0 <= c.major < 256 && 0 <= c.minor < 256 && 0 <= c.patch < 256
  {
  }

  /** Round trip of the Meta layout: a name shorter than 256 bytes and the versions reduced to
      bytes come back; trailing bytes after the patch byte are ignored. */
  lemma MetaRoundTrip(name: seq<byte>, major: int, minor: int, patch: int)
    requires |name| < 256
    ensures ParsedMeta(MetaPayload(name, major, minor, patch))
         == Accepted(MetaContent(name, ToByte(major), ToByte(minor), ToByte(patch)))
  {
    var p := MetaPayload(name, major, minor, patch);
    assert p[0] == |name|;
    assert p[1..|name| + 1] == name;
  }

  /** A name of 256 bytes or more has its length byte truncated, so the parse reads a different
      (shorter) name back. */
  lemma MetaLongNameTruncated(name: seq<byte>, major: int, minor: int, patch: int)
    requires |name| >= 256
    ensures ParsedMeta(MetaPayload(name, major, minor, patch)).Accepted?
    ensures |ParsedMeta(MetaPayload(name, major, minor, patch)).content.schemaName| == |name| % 256
    ensures ParsedMeta(MetaPayload(name, major, minor, patch)).content.schemaName != name
  {
  }

  /** `createMetaMessageRequest()`: an empty Meta request (the id comes from the caller). */
  function CreateMetaMessageRequest(id: u16): (m: Message)
    ensures m.id == id && m.data == [] && WellFormed(m) && !IsLong(m.flag)
    ensures GetMessageType(m.flag) == Request && GetContentType(m.flag) == Meta
  {
    NewMessage(id, Request, Meta, [])
  }

  // ---------------------------------------------------------------- Drive

  /** `createDriveMessageResponse(id, driveContent)`: the content's bytes as they are. */
  method CreateDriveMessageResponse(id: u16, driveContent: seq<byte>) returns (m: Message)
    ensures m == NewMessage(id, Response, Drive, driveContent)
    ensures ParsedDrive(m.data) == Accepted(DriveContent(driveContent))
  {
    var data: seq<byte> := [];
    for i := 0 to |driveContent|
      invariant data == driveContent[..i]
    {
      data := data + [driveContent[i]];
    }
    assert driveContent[..|driveContent|] == driveContent;
    m := NewMessage(id, Response, Drive, data);
  }

  /** `parseDriveContent(data)`: every payload is accepted, as the drive content. */
  function ParsedDrive(data: seq<byte>): ContentResult<DriveContent>
  {
    Accepted(DriveContent(data))
  }

  method ParseDriveContent(data: seq<byte>) returns (r: ContentResult<DriveContent>)
    ensures r == ParsedDrive(data)
  {
    var driveContent: seq<byte> := [];
    for i := 0 to |data|
      invariant driveContent == data[..i]
    {
      driveContent := driveContent + [data[i]];
    }
    assert data[..|data|] == data;
    return Accepted(DriveContent(driveContent));
  }

  /** `createDriveMessageRequest()`. */
  function CreateDriveMessageRequest(id: u16): (m: Message)
    ensures m.id == id && m.data == [] && WellFormed(m) && !IsLong(m.flag)
    ensures GetMessageType(m.flag) == Request && GetContentType(m.flag) == Drive
  {
    NewMessage(id, Request, Drive, [])
  }

  // ---------------------------------------------------------------- SwitchDataRate

  /** `parseSwitchDataRateContent(data)`: the first two bytes, or a rejection below two bytes. */
  function ParsedSwitchDataRate(data: seq<byte>): (r: ContentResult<SwitchDataRateContent>)
    ensures r.Accepted? <==> |data| >= 2
    ensures r.Accepted? ==> [r.content.bandwidth, r.content.frequency] == data[..2]
  {
    if |data| < 2 then Rejected
    else Accepted(SwitchDataRateContent(data[0], data[1]))
  }

  /** `createSwitchDataRateMessageRequest(bandwidth, frequency)`: both values reduced to a byte;
      the parse returns them so reduced. */
  function CreateSwitchDataRateMessageRequest(id: u16, bandwidth: int, frequency: int): (m: Message)
    ensures m.id == id && WellFormed(m) && |m.data| == 2
    ensures GetMessageType(m.flag) == Request && GetContentType(m.flag) == SwitchDataRate
    ensures ParsedSwitchDataRate(m.data) == Accepted(SwitchDataRateContent(ToByte(bandwidth), ToByte(frequency)))
  {
    NewMessage(id, Request, SwitchDataRate, [ToByte(bandwidth), ToByte(frequency)])
  }

  /** `createSwitchDataRateMessageResponse(id, okay)`: one byte, 1 or 0. Its payload is too short
      for the SwitchDataRate parser, which therefore rejects every response. */
  function CreateSwitchDataRateMessageResponse(id: u16, okay: bool): (m: Message)
    ensures m.id == id && WellFormed(m)
    ensures GetMessageType(m.flag) == Response && GetContentType(m.flag) == SwitchDataRate
    ensures m.data == [if okay then 1 else 0]
    ensures ParsedSwitchDataRate(m.data) == Rejected
  {
    NewMessage(id, Response, SwitchDataRate, [if okay then 1 else 0])
  }

  // ---------------------------------------------------------------- DataTransfer

  /** `parseDataTransferContent(data)`: every payload is accepted as it is. */
  function ParsedDataTransfer(data: seq<byte>): (r: ContentResult<DataTransferContent>)
    ensures r.Accepted? && r.content.data == data
  {
    Accepted(DataTransferContent(data))
  }

  /** `createDataTransferMessage(data)`: a response carrying the bytes, long when they exceed
      one short packet. */
  function CreateDataTransferMessage(id: u16, data: seq<byte>): (m: Message)
    ensures m.id == id && WellFormed(m) && (IsLong(m.flag) <==> |data| > MaxShortPayload)
    ensures GetMessageType(m.flag) == Response && GetContentType(m.flag) == DataTransfer
    ensures ParsedDataTransfer(m.data) == Accepted(DataTransferContent(data))
  {
    NewMessage(id, Response, DataTransfer, data)
  }

  /** `createDataTransferRequest()`. */
  function CreateDataTransferRequest(id: u16): (m: Message)
    ensures m.id == id && m.data == [] && WellFormed(m) && !IsLong(m.flag)
    ensures GetMessageType(m.flag) == Request && GetContentType(m.flag) == DataTransfer
  {
    NewMessage(id, Request, DataTransfer, [])
  }

  // ---------------------------------------------------------------- over the wire

  /** A Meta response with a name of at most 240 bytes fits one short packet, which parses back
      to the response's id and a payload whose Meta parse returns the name and versions. */
  lemma MetaResponseOverTheWire(id: u16, name: seq<byte>, major: int, minor: int, patch: int)
    requires |name| <= MaxShortPayload - 4
    ensures var m := NewMessage(id, Response, Meta, MetaPayload(name, major, minor, patch));
      && EncodeDefined(m)
      && |Encoded(m)| == 1
      && Decoded(Encoded(m)[0]).Parsed?
      && Decoded(Encoded(m)[0]).fragment.messageId == id
      && Decoded(Encoded(m)[0]).fragment.msgType == Response
      && Decoded(Encoded(m)[0]).fragment.contentType == Meta
      && ParsedMeta(Decoded(Encoded(m)[0]).fragment.payload)
         == Accepted(MetaContent(name, ToByte(major), ToByte(minor), ToByte(patch)))
  {
    var m := NewMessage(id, Response, Meta, MetaPayload(name, major, minor, patch));
    assert !IsLong(m.flag);
    assert EncodeDefined(m);
    EncodeDecodeRoundTrip(m);
    FlattenOne(PayloadChunks(m)[0]);
    assert PayloadChunks(m) == [PayloadChunks(m)[0]];
    MetaRoundTrip(name, major, minor, patch);
  }
}

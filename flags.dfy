/** The packet identifier, the message kinds, the content types and the one-byte message flag
    (`MessageFlag`). */
module Flags {
  import opened Bytes

  /** `MSG_IDENTIFIER`, the letters "NFR" that open every packet. */
  const Identifier: seq<byte> := [78, 70, 82]
  /** The same as a C string literal, with its terminating NUL. */
  const IdentifierLiteral: seq<byte> := Identifier + [0]

  /** `MessageType`: the enumerators carry the values 0, 1 and 2. */
  datatype MessageType = Request | Response | Error

  /** `MessageContentType`: the enumerators carry the values 0 to 3. */
  datatype ContentType = Meta | Drive | SwitchDataRate | DataTransfer

  function TypeCode(t: MessageType): nat
  {
    match t
    case Request => 0
    case Response => 1
    case Error => 2
  }

  function ContentCode(c: ContentType): nat
  {
    match c
    case Meta => 0
    case Drive => 1
    case SwitchDataRate => 2
    case DataTransfer => 3
  }

  /** The content type whose enumerator value is `k`. */
  function ContentOfCode(k: nat): (c: ContentType)
    requires k < 4
    ensures ContentCode(c) == k
  {
    if k == 0 then Meta else if k == 1 then Drive else if k == 2 then SwitchDataRate else DataTransfer
  }

  /** The raw flag byte. Bit 0: response (1) or request (0); bit 1: long message;
      bits 2-3: content type; bits 4-7: reserved. The C++ struct is a one-byte value that is
      copied wherever it is used, so it is modelled as a value. */
  datatype MessageFlag = MessageFlag(raw: byte)

  /** The default constructor: every bit clear. */
  const DefaultFlag: MessageFlag := MessageFlag(0)

  /** `MessageFlag(type, content)`: the type's enumerator value is or-ed into bit 0 upwards and the
      content type's into bits 2-3; starting from 0 with disjoint bits, or is addition. */
  function FlagOf(t: MessageType, c: ContentType): (f: MessageFlag)
    ensures f.raw < 16
    ensures t != Error ==> GetMessageType(f) == t && !IsLong(f)
    ensures GetContentType(f) == c
  {
    MessageFlag(TypeCode(t) + 4 * ContentCode(c))
  }

  /** `getMessageType`: bit 0 only, so no flag ever reads back as `Error`. */
  function GetMessageType(f: MessageFlag): MessageType
  {
    if f.raw % 2 == 0 then Request else Response
  }

  /** `getMessageContentType`: bits 2-3. */
  function GetContentType(f: MessageFlag): ContentType
  {
    ContentOfCode((f.raw / 4) % 4)
  }

  /** `isLongMessage`: bit 1. */
  predicate IsLong(f: MessageFlag)
  {
    (f.raw / 2) % 2 == 1
  }

  /** `markAsLongMessage`: or-ing in bit 1 adds 2 exactly when that bit is clear. */
  function MarkAsLong(f: MessageFlag): (g: MessageFlag)
    ensures IsLong(g)
    ensures g.raw % 2 == f.raw % 2 && g.raw / 4 == f.raw / 4
  {
    if IsLong(f) then f else MessageFlag(f.raw + 2)
  }

  /** Marking only sets bit 1: the type and content getters read the same as before, and
      marking twice is marking once. */
  lemma MarkAsLongKeepsGetters(f: MessageFlag)
    ensures GetMessageType(MarkAsLong(f)) == GetMessageType(f)
    ensures GetContentType(MarkAsLong(f)) == GetContentType(f)
    ensures MarkAsLong(MarkAsLong(f)) == MarkAsLong(f)
  {
  }

  /** The default flag reads as a short Meta request. */
  lemma DefaultFlagReadsAsShortMetaRequest()
    ensures DefaultFlag.raw == 0
    ensures GetMessageType(DefaultFlag) == Request && GetContentType(DefaultFlag) == Meta
    ensures !IsLong(DefaultFlag)
  {
  }

  /** Constructing with `MSG_ERROR` (value 2) sets bit 1: the flag reads as a long request. */
  lemma ErrorFlagReadsAsLongRequest(c: ContentType)
    ensures IsLong(FlagOf(Error, c))
    ensures GetMessageType(FlagOf(Error, c)) == Request
  {
  }
}

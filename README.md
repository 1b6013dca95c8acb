# wircom packet protocol, modelled in Dafny

wircom carries messages between a ground station and a vehicle over a LoRa radio. This project
models its three sequential cores:

- **Wire codec** (`codec.dfy`, `flags.dfy`, `legacy_codec.dfy`). A message has a 16-bit id, a
  one-byte flag and a payload. The flag holds the request/response bit, the long-message bit and
  the content type: Meta, Drive, SwitchDataRate or DataTransfer.
  - `encode` cuts the payload into chunks and frames each one as a packet: `"NFR"`, id high
    byte, id low byte, flag, then an index/count pair (only when the count exceeds 1), a length
    byte and the chunk.
  - `decode` validates one packet and returns a fragment or an error.
  - The earlier inline codec of `message.hpp` has a five-byte header with no id. It is modelled
    beside the current one.
- **Coordinator** (`reassembly.dfy`, `com.dfy`, `legacy_com.dfy`). Handlers are registered per
  content type. A single-packet message goes straight to the handlers of its content type. The
  fragments of a multi-packet message are buffered per message id. Once the count carried by the
  entry's first fragment is reached, they are sorted by index, joined and handed to the handlers.
  - `listen` and `sendMessage` do nothing unless the radio is idle.
  - `sendMessage` transmits every packet and appends the message to the acknowledgement list.
  - The earlier revision in `com_interface.hpp` uses one buffer shared by all message ids,
    sized by `_expectedPackets`.
- **Payload builders and parsers** (`builder.dfy`): the fixed layouts of the four content types.

Modelling choices:
- Bytes are the subset type `byte` (0..255) and ids are `u16`.
- Flag bits are read with `/` and `%`.
- Every C++ narrowing to `uint8_t` is written out as a reduction modulo 256.
- The codec functions are pure, so each operation has two forms. A specification function
  (`Decoded`, `Packet`, `Encoded`, ...) states what it computes. A method with the source's loop
  (`Decode`, `BuildPacket`, `Encode`, ...) is proved equal to that function.
- The lemmas state the properties of the specification functions: rejection of malformed input,
  round trips, packet shapes, and the quirks of the code as written.
- The coordinators are classes whose fields are the source's fields. Their methods are proved
  against the value-level step functions `Receive` and `LegacyReceive`. About those step
  functions the lemmas prove that waiting entries stay waiting, that fragments can arrive in any
  order, that duplicates are counted, and that an encoded message goes end to end through
  `encode`, `decode` and reassembly.
- The radio is abstracted. A received frame is an `Option` parameter of `Listen`. Transmitted
  packets go to a ghost log `sent`. Handler invocations go to a ghost log `dispatched` of
  (handler id, payload) pairs.

## Model

| member | source | states |
|---|---|---|
| Bytes.CeilDiv | src/message.cpp:133-141 | the packet count is the least `r` with `r * 242 >= |data|`: it covers the data, and one packet fewer would not |
| Flags.FlagOf | include/message.hpp:47-69 | a constructed flag has the reserved bits 4-7 clear; for Request and Response the getters return the type and content it was built from, and the long bit is clear |
| Flags.MarkAsLong | include/message.hpp:93-96 | marking sets the long bit and keeps bit 0 and bits 2-7 as they were |
| Flags.MarkAsLongKeepsGetters | include/message.hpp:93-96 | after marking, the type and content getters read the same, and marking twice equals marking once |
| Flags.ErrorFlagReadsAsLongRequest | include/message.hpp:47-74 | a flag built with `MSG_ERROR` (value 2) has the long bit set and reads back as a Request |
| Flags.DefaultFlagReadsAsShortMetaRequest | include/message.hpp:45 | the default flag is 0 and reads as a short Meta request |
| Codec.NewMessage | include/builder.hpp:24 | the id-taking constructor the builders call keeps the id, payload and content type; for Request/Response it keeps the type and sets the long bit exactly when the payload exceeds one short packet (the long-bit marking is assumed, see Left out) |
| Codec.Decode | src/message.cpp:13-81 | the loop that checks the identifier and copies the payload returns `Decoded(packet)` |
| Codec.DecodeRejectsMalformed | src/message.cpp:15-73 | a packet is rejected when it is shorter than the short header, has a wrong identifier, ends at or before the length byte's offset, or has a non-zero length byte that differs from the number of bytes after it |
| Codec.ZeroLengthAcceptsAnyTail | src/message.cpp:52-60 | a packet with the identifier and a zero length byte parses, whatever follows that byte, to its id, type and content with an empty payload, position 0 of 1 |
| Codec.ZeroLengthIgnoresTrailingBytes | src/message.cpp:52-60 | `[78, 70, 82, 0, 1, 0, 0, 99, 99]` parses to an empty Meta request from message 1: the two trailing bytes are never checked |
| Codec.DecodedFrameIsExact | src/message.cpp:32-80 | a successful parse reads the id big-endian and the type and content from byte 5; an empty payload comes only from a zero length byte; re-framing a non-empty parse, with the index/count pair for a long flag, reproduces the packet byte for byte |
| Codec.DecodePackets | src/message.cpp:83-95 | the nested copy loop parses exactly the concatenation of the packets |
| Codec.Equals | src/message.cpp:97-112 | the comparison loop answers true exactly when flag, id and every payload byte agree |
| Codec.BuildPacket | src/message.cpp:166-213 | the byte-by-byte construction returns `Packet(m, chunk, number, count)` |
| Codec.PacketLength | src/message.cpp:166-211 | every packet starts with identifier, id and flag; an oversized chunk gives a bare zero length byte; otherwise the index/count pair appears exactly when the count exceeds 1, the length byte sits at byte 6 (byte 8 after the pair) and holds the chunk's size, and the bytes after it are the chunk |
| Codec.NextIndex | src/message.cpp:162 | `packetIndex++` on a `uint8_t` is the successor modulo 256 |
| Codec.Encode | src/message.cpp:114-164 | the slicing loop, with the count computed as the quotient's whole part plus one when there is a fraction and stored in a `uint8_t`, and with its wrapping `uint8_t` index, returns `Encoded(m)` |
| Codec.CountFitsIsExact | src/message.cpp:128-141 | while a long payload needs at most 255 packets, the stored count is exactly `ceil(|data| / 242)` |
| Codec.CountWrapsToZero | src/message.cpp:128-161 | a long payload of 61711 to 61951 bytes needs 256 packets and the stored count wraps to 0; `encode` emits 256 packets, and none of them parses back to its chunk |
| Codec.LongPacketWithoutPairLosesChunk | src/message.cpp:198-207 | a long packet built with count 0 or 1 lacks the index/count pair, so `decode` reads the length two bytes too far on: the chunk never comes back, and a one-byte chunk is rejected |
| Codec.PacketsFromChunks | src/message.cpp:148-162 | the loop, started at index `index` on a slice, emits one packet per slice of the payload, packet `i` built from slice `i` and numbered `(index + i) mod 256` |
| Codec.EncodedPackets | src/message.cpp:114-164 | packet `i` of `encode` is built from chunk `i`, numbered `i mod 256`, with count 1 for an empty payload and the computed packet count otherwise |
| Codec.ChunksPartition | src/message.cpp:148-161 | slicing covers the payload exactly and in order, in `ceil(|s| / size)` non-empty slices of at most `size` bytes |
| Codec.EncodeShape | src/message.cpp:114-162 | an empty payload gives one packet; otherwise there are `ceil(|data| / capacity)` packets whose chunks fit the capacity and join back to the payload |
| Codec.EncodeHeaders | src/message.cpp:166-178 | every packet is at least 7 bytes and starts with the identifier, the id and the flag |
| Codec.PacketIndexPair | src/message.cpp:198-209 | a packet with a non-empty chunk that fits and a count above 1 is longer than the long header and has its index and count in bytes 6 and 7 |
| Codec.EncodeIndexPair | src/message.cpp:128-162 | in a long message of more than one packet, bytes 6 and 7 of packet `i` are `i` and the packet count |
| Codec.EncodeCount | src/message.cpp:128-162 | a message whose long bit matches its size and whose count fits a byte is one packet when short, and more than one but at most 255 packets, the computed count, when long |
| Codec.DecodeBuiltPacket | src/message.cpp:166-213 | a packet built from a non-empty chunk that fits, with the index/count pair present exactly for a long flag, parses back to the message's id, type, content and that chunk |
| Codec.DecodeEmptyPacket | src/message.cpp:120-126 | the lone packet of an empty message parses as an empty payload when short and is rejected when long |
| Codec.EncodedPacketDecodes | src/message.cpp:13-213 | packet `i` of a message whose long bit matches its size and whose count fits a byte parses to the id, type, content, index `i` and count (0 of 1 when short) and chunk `i` |
| Codec.EncodeDecodeRoundTrip | src/message.cpp:13-213 | for a message whose long bit matches its size and whose count fits a byte (at most 61710 bytes when long), every packet parses to the id, type, content, index (0 for short), count (1 for short) and its chunk; the chunks join to the payload; a short message is one packet |
| Codec.LongSinglePacketDoesNotRoundTrip | src/message.cpp:198-203 | with the long bit set and at most 242 bytes, `encode` omits the index/count pair that `decode` expects, so the payload never comes back intact; 0 or 1 bytes are rejected outright |
| Codec.NewMessageRoundTrip | src/message.cpp:114-164 | every packet of a constructed Request/Response whose count fits a byte parses to its id, type and content, and the parsed payloads join to its data |
| LegacyCodec.LegacyDecode | include/message.hpp:169-212 | the earlier decoding loop returns `LegacyDecoded(packet)` |
| LegacyCodec.LegacyDecodeCases | include/message.hpp:171-209 | the earlier parse fails below 5 bytes, on a wrong identifier and on a non-zero length that disagrees with the trailing bytes; a zero length gives an empty Meta payload whatever follows |
| LegacyCodec.LegacyDecodedPayloadIsTail | include/message.hpp:196-211 | a successful earlier parse reports only Meta or Drive, because it reads the low content bit alone; a non-empty payload is exactly the bytes after the header |
| LegacyCodec.LegacyBuildPacket | include/message.hpp:243-269 | the earlier packet construction returns `LegacyPacket(m, data)` |
| LegacyCodec.LegacyEncode | include/message.hpp:217-237 | the earlier slicing loop returns `LegacyEncoded(m)` |
| LegacyCodec.LegacyPacketsFromSuffixes | include/message.hpp:223-234 | the earlier `encode` emits `ceil(|data| / 256)` packets (none for empty data); packet `i` is built from the whole payload with its first `256 * i` bytes dropped |
| LegacyCodec.LegacyRoundTrip | include/message.hpp:169-269 | a payload of 1 to 255 bytes is one packet that parses back to the same bytes, with the content reduced to its low bit |
| LegacyCodec.LegacyFullPacketReadsEmpty | include/message.hpp:255-262 | a 256-byte payload gets the length byte 0 and parses back as an empty Meta message |
| LegacyCodec.LegacyLongPayloadLosesPrefix | include/message.hpp:223-260 | above 256 bytes, every packet but the last is a bare header with length 0 that parses as empty Meta, so only the tail is transmitted |
| Reassembly.Register | src/com_interface.cpp:40-50 | registration appends the handler to its type's list, creating the list if absent, and leaves every other type's list unchanged |
| Reassembly.RegisterAllAppends | src/com_interface.cpp:52-60 | registering for a list of types appends the handler to each type's list once per occurrence of that type in the list |
| Reassembly.RegisterAnyAppendsToEveryType | src/com_interface.cpp:62-72 | registering for any type appends the handler exactly once to each of the four lists |
| Reassembly.SortByNumber | src/com_interface.cpp:170-171 | the sort returns a rearrangement of the fragments (same multiset) ordered by packet number |
| Reassembly.SortedRearrangementIsIndexOrder | src/com_interface.cpp:169-176 | a sorted rearrangement of fragments numbered consecutively is the index-ordered sequence itself |
| Reassembly.JoinPayloads | src/com_interface.cpp:173-176 | the join loop returns the payloads concatenated in order |
| Reassembly.ReceiveKeepsPending | src/com_interface.cpp:155-187 | a step keeps every buffered entry non-empty, single-id, free of one-packet fragments and short of its count; entries of other ids are untouched |
| Reassembly.ZeroCountEntryNeverCompletes | src/com_interface.cpp:160-163 | an entry whose first fragment declares 0 packets never completes: later fragments are appended and nothing is delivered |
| Reassembly.AppendWaits | src/com_interface.cpp:155-163 | a multi-packet fragment that leaves its entry short of the entry's count is appended to the entry and nothing is delivered |
| Reassembly.AppendCompletes | src/com_interface.cpp:155-187 | a multi-packet fragment that brings its entry to the entry's count delivers the entry sorted and joined and erases the entry |
| Reassembly.ReceivePrefix | src/com_interface.cpp:155-163 | while fewer than n fragments of a message have arrived, its entry holds them in arrival order and nothing is delivered |
| Reassembly.ReassembleInAnyOrder | src/com_interface.cpp:155-187 | n fragments numbered 0..n-1, arriving in any order, deliver once the payloads joined in index order, and the buffer ends as it began |
| Reassembly.LastArrivalCompletes | src/com_interface.cpp:163-187 | the last of n fragments to arrive finds the other n-1 in the entry, delivers the payloads joined in index order and leaves the buffer as before the message |
| Reassembly.PairInOrder | src/com_interface.cpp:169-176 | two fragments already in number order sort to themselves and join to their payloads concatenated |
| Reassembly.DuplicateFragmentCompletesMessage | src/com_interface.cpp:160-163 | a repeated fragment of a two-packet message counts toward completion and delivers its payload twice over |
| Reassembly.WireFragments | src/message.cpp:114-164 | the fragments read from `encode(m)` are exactly what decoding each packet returns |
| Reassembly.LongMessageReassembles | src/com_interface.cpp:131-187 | the parsed packets of an encoded long message, fed in any order, deliver exactly the original payload once and leave the buffer unchanged |
| Reassembly.ShortMessageDeliveredAtOnce | src/com_interface.cpp:133-147 | the single parsed packet of a short message is delivered at once with the original payload, buffer untouched |
| Com.ComInterface.constructor | include/com_interface.hpp:156-158 | a new coordinator has an empty registry and buffer and is idle, as the member initialisers give them; its acknowledgement list is assumed to start empty too (see Left out) |
| Com.ComInterface.AddRxCallback | src/com_interface.cpp:40-50 | the registry becomes `Register(old, type, handler)` |
| Com.ComInterface.AddRxCallbackTypes | src/com_interface.cpp:52-60 | the per-type loop yields `RegisterAll`, so each type's list gains the handler once per occurrence |
| Com.ComInterface.AddRxCallbackToAny | src/com_interface.cpp:62-72 | every content type's list gains the handler exactly once |
| Com.ComInterface.Deliver | src/com_interface.cpp:178-184 | every handler registered for the type is invoked in registration order with the payload, none when the type has no list |
| Com.ComInterface.HandleRxMessage | src/com_interface.cpp:131-188 | the buffer and the dispatch log follow `Receive`: immediate delivery for count 1, else append, and on completion sort, join, deliver to the arriving fragment's type and erase only that id; waiting entries stay waiting |
| Com.ComInterface.Listen | src/com_interface.cpp:80-107 | nothing changes unless idle with a frame that parses; then the parsed fragment is handled as above |
| Com.ComInterface.SendMessage | src/com_interface.cpp:109-129 | when idle, the packets of `encode(msg)` are logged in order and `(content type, msg)` is appended to the acknowledgement list; otherwise nothing changes; the state afterwards is the state before |
| LegacyCom.LegacyReceiveKeepsPending | include/com_interface.hpp:169-219 | the shared buffer stays free of one-packet fragments, its expected count is its first fragment's count, and it stays short of that count |
| LegacyCom.LegacyFirstWaits | include/com_interface.hpp:184-190 | a multi-packet fragment arriving at the empty shared buffer sets the expected count from its own count and waits |
| LegacyCom.LegacyAppendWaits | include/com_interface.hpp:186-193 | a multi-packet fragment that leaves the non-empty shared buffer short of the expected count is appended and nothing is delivered |
| LegacyCom.LegacyReceivePrefix | include/com_interface.hpp:186-194 | into the empty shared buffer, the first fragment fixes the expected count and the first n-1 fragments wait in arrival order |
| LegacyCom.LegacyLastFragmentCompletes | include/com_interface.hpp:194-217 | the n-th fragment completes the buffer: sorted, joined in index order, delivered, buffer cleared |
| LegacyCom.LegacyReassembleInAnyOrder | include/com_interface.hpp:169-219 | a lone message's fragments in any order are delivered once, joined in index order, and the shared buffer ends empty |
| LegacyCom.LegacyMixesMessages | include/com_interface.hpp:186-194 | the shared buffer ignores ids: the first fragment of a two-packet message plus any multi-packet fragment of another message complete it and deliver the two payloads joined |
| LegacyCom.LegacyPairCompletes | include/com_interface.hpp:192-217 | with one fragment waiting and two expected, any multi-packet fragment numbered no lower completes the buffer and delivers the two payloads joined |
| LegacyCom.LegacyComInterface.constructor | include/com_interface.hpp:156-160 | empty buffer and registry, no expected packets, idle |
| LegacyCom.LegacyComInterface.AddRxCallback | include/com_interface.hpp:70-80 | the registry becomes `Register(old, type, handler)` |
| LegacyCom.LegacyComInterface.AddRxCallbackTypes | include/com_interface.hpp:82-90 | the per-type loop yields `RegisterAll` |
| LegacyCom.LegacyComInterface.AddRxCallbackToAny | include/com_interface.hpp:92-102 | every content type's list gains the handler exactly once |
| LegacyCom.LegacyComInterface.Deliver | include/com_interface.hpp:174-180 | every handler for the type is invoked in registration order with the payload |
| LegacyCom.LegacyComInterface.HandleRxMessage | include/com_interface.hpp:169-219 | buffer, expected count and dispatch log follow `LegacyReceive`; the shared buffer stays waiting |
| LegacyCom.LegacyComInterface.Listen | include/com_interface.hpp:110-134 | nothing changes unless idle with a frame that parses; then the fragment is handled as above |
| LegacyCom.LegacyComInterface.SendMessage | include/com_interface.hpp:136-153 | when idle, the packets of `encode(msg)` are logged in order and nothing is recorded for acknowledgement; the state afterwards is the state before |
| Builder.ToByte | include/builder.hpp:21-23 | an `int` pushed into a byte vector keeps its value in 0..255 and is congruent to it modulo 256 |
| Builder.MetaPayload | include/builder.hpp:15-23 | the Meta payload is the name's length byte (`|name| mod 256`), the name, then major, minor and patch reduced to bytes: four bytes longer than the name |
| Builder.CreateMetaMessageResponse | include/builder.hpp:13-25 | the push loop builds a Meta response whose payload is the length byte, the name and the three version bytes; for names under 256 bytes the Meta parse returns the name and the versions reduced to bytes |
| Builder.ParseMetaContent | include/builder.hpp:113-136 | the copy loop returns `ParsedMeta(data)` (with the bound check listed under Findings) |
| Builder.MetaGuardAdmitsOverrun | include/builder.hpp:115-133 | any payload of at least 4 bytes whose declared name overruns passes the source's only check, although the highest index it reads, `data[0] + 3`, is not below the payload's length; the corrected parse rejects it |
| Builder.MetaOverrunExample | include/builder.hpp:115-133 | `[10, 0, 0, 0]` passes the source's check and is rejected by the corrected parse |
| Builder.ParsedMetaAcceptsInBounds | include/builder.hpp:113-136 | the corrected parse accepts exactly the payloads it can read in bounds, returning `data[0]` name bytes and three byte-sized versions |
| Builder.MetaRoundTrip | include/builder.hpp:113-136 | parsing a built Meta payload with a name under 256 bytes returns the name and the versions reduced to bytes |
| Builder.MetaLongNameTruncated | include/builder.hpp:16 | a name of 256 bytes or more gets a truncated length byte and parses back as a different, shorter name |
| Builder.CreateMetaMessageRequest | include/builder.hpp:27-30 | an empty, short Meta request |
| Builder.CreateDriveMessageResponse | include/builder.hpp:32-40 | the copy loop builds a Drive response carrying the content bytes with no prefix, which the Drive parse returns unchanged |
| Builder.ParseDriveContent | include/builder.hpp:138-147 | the copy loop always accepts and returns the payload unchanged |
| Builder.CreateDriveMessageRequest | include/builder.hpp:42-45 | an empty, short Drive request |
| Builder.ParsedSwitchDataRate | include/builder.hpp:149-160 | the SwitchDataRate parse accepts exactly the payloads of at least two bytes and returns the first as bandwidth and the second as frequency |
| Builder.CreateSwitchDataRateMessageRequest | include/builder.hpp:47-53 | a two-byte SwitchDataRate request whose parse returns bandwidth and frequency reduced to bytes |
| Builder.CreateSwitchDataRateMessageResponse | include/builder.hpp:55-60 | a one-byte response (1 or 0) that the SwitchDataRate parser rejects as too short |
| Builder.ParsedDataTransfer | include/builder.hpp:162-165 | the DataTransfer parse accepts every payload, the empty one included, and returns it unchanged |
| Builder.CreateDataTransferMessage | include/builder.hpp:62-65 | a DataTransfer response carrying the data unchanged, long exactly when it exceeds a short packet (assumed, see Left out); the DataTransfer parse returns the data |
| Builder.CreateDataTransferRequest | include/builder.hpp:67-70 | an empty, short DataTransfer request |
| Builder.MetaResponseOverTheWire | include/builder.hpp:13-25 | a Meta response with a name of at most 240 bytes is one packet that parses to its id, Response and Meta, and whose payload parses back to the name and versions |

## Findings

| source | as written | input that shows it | evidently intended | confidence | as-written member | corrected member |
|---|---|---|---|---|---|---|
| include/builder.hpp:115-133 | `parseMetaContent` checks only `data.size() < 4`, then reads `data[1..len]` and `data[len+1..len+3]` with `len = data[0]` | `[10, 0, 0, 0]` passes the check, and the reads run to index 13 of a 4-byte vector | reject when `data[0] + 4 > data.size()` | high, not executed | Builder.MetaGuardAdmitsOverrun | Builder.ParsedMetaAcceptsInBounds |

## Left out

- The radio hardware is not modelled: `initialize`, `switchDataRate`, `rf95.send`, `waitPacketSent`, `available`, `waitAvailableTimeout` and `recv`. A received frame is the `rx` parameter of `Listen`, and transmitted packets go to the ghost `sent` log.
- Timeouts are not modelled: a frame either arrives (`Some`) or does not (`None`).
- The handler closures are opaque `HandlerId`s, and their invocations are logged in `dispatched` rather than executed.
- `addRXCallback` returns the coordinator by value. Only the mutation of the coordinator is modelled, not the copies that chained calls would mutate.
- Logging is not modelled.
- These parts of the hardware configuration are not modelled: the pins, the transmit power, the float `_frequency`, the `ready` flag and the never-used `_receivedPackets`.
- The current `Message` class declaration is not part of this model. That covers its constants, its constructors, `isLongMessage` and `MessageParsingResult`.
  - The header sizes 7 and 9 follow from the offsets the codec reads.
  - The payload caps 244 and 242 are chosen so that a frame stays within 251 bytes. The proofs need only `0 < 242 <= 244 <= 255`.
  - A failed parse carries no fields. A short parse reports packet 0 of 1.
- The id counter is not part of this model. Every builder takes the message id as a parameter.
- Codec.Encode: requires `EncodeDefined`: a long payload under 61952 bytes (256 long packets). From there on the float quotient's whole part does not fit the `uint8_t` cast, and the conversion is undefined behaviour. Below that bound the float quotient has whole part `|data| / 242` and a fraction exactly when 242 does not divide `|data|`, so the model computes the count in integers. The window of 61711 to 61951 bytes, where the count wraps to 0, is modelled (`Codec.CountWrapsToZero`).
- Com.ComInterface.SendMessage: requires `EncodeDefined` for the same reason. The same holds for `LegacyCom.LegacyComInterface.SendMessage`.
- The round-trip lemmas (`Codec.EncodeCount`, `Codec.EncodedPacketDecodes`, `Codec.EncodeDecodeRoundTrip`, `Codec.NewMessageRoundTrip`, `Reassembly.WireFragments`, `Reassembly.LongMessageReassembles`) require `CountFits`, at most 255 long packets. In the wrap window no packet parses back to its chunk (`Codec.CountWrapsToZero`), so there is no round trip to state.
- An empty payload is encoded by `_buildPacket(slice)` with the declaration's default arguments (src/message.cpp:123). The declaration is not part of this model; the defaults are taken to be packet 0 of a count of 1, which omits the index/count pair.
- The current `Message` constructors the builders call are not part of this model: the id-taking one (include/builder.hpp:24, 39, 59) and the id-less one (include/builder.hpp:29, 44, 52, 64, 69). The earlier constructor (include/message.hpp:241) takes no id and never marks the long bit. `Codec.NewMessage` assumes that both current constructors mark the flag long when the payload exceeds 244 bytes. For the id-less one the assumption matters only in `Builder.CreateDataTransferMessage`, whose data can exceed 244 bytes; the other id-less builders send 0 or 2 bytes. Were it not to mark, a transfer of more than 244 bytes would be sliced into 244-byte short packets of count 1 (src/message.cpp:128-161), each read back as a complete message of its own.
- The current `ComInterface` class declaration, which declares `_acksRequired`, is not part of this model. `Com.ComInterface.constructor` assumes the list starts empty, like the containers the earlier declaration initialises.
- LegacyCom.LegacyComInterface.HandleRxMessage: sorts a copy of the shared buffer rather than the buffer in place. The buffer is cleared right after the handlers run, so only a handler could observe the difference, and handlers are opaque here.
- Reassembly.SortByNumber: `std::sort` is not stable. The model is a stable insertion sort, so it fixes one order among fragments with equal numbers. The source leaves that order unspecified. Fragments with distinct numbers come out the same. `Reassembly.PairInOrder`, `LegacyCom.LegacyPairCompletes` and `LegacyCom.LegacyMixesMessages` also admit two fragments with equal numbers; for those they state only the stable order (`a.payload + b.payload`), one of the two orders `std::sort` may produce.
- The acknowledgement list is only ever appended to. No timer, retry or clearing on a response appears in the source, so none is modelled.
- `MessageFlag::operator==` (both overloads) is Dafny's equality on the flag datatype, which compares the raw byte.
- The earlier revision's coordinator consumes the current `Fragment`, `Decode` and `Encode`. It refers to packet numbers and counts that the earlier codec of `message.hpp` does not produce.
- The static builders inside the earlier `Message` class (`include/message.hpp:104-157`) are not modelled. `builder.hpp` supersedes them.
- Builder.ParseMetaContent: models the corrected bound check. The source as written reads out of bounds on the inputs it admits, which is undefined behaviour (see Findings).
- The unit-test harness is not a model target. Its flag assertions are covered by `Flags.FlagOf` and `Flags.DefaultFlagReadsAsShortMetaRequest`.

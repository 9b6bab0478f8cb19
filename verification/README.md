# Steam workshop downloader: a verified model

The downloader talks to Steam over its own wire stack and keeps a local copy of
workshop items up to date. This project models both halves in Dafny and proves
what they are for.

**The wire stack**, bottom up: base-128 varints and protobuf field lists
(`Wire`), message headers and messages (`Protocol`), the AES envelope with its
HMAC-derived IV (`Crypto`), VT01 packets (`Frame`), WebSocket frames
(`WebSocket`), nested Multi messages (`Multi`) and when unpacking them ends
(`Unpacking`), the encrypted channel with its waiters (`Cm`), and depot manifests
(`Manifest`). Each layer is a printer and a
parser; the parsers are index-driven loops, written as such and proved against a
specification function, and the round trips are proved about those functions.

**The engines** on top of it: the LRU cache with expiry (`TtlCache`), the media
cache with its byte budget (`MediaCache`), the chunk cache shared by concurrent
callers and the assembly of files (`Cdn`), the server rotation (`Servers`), the
expansion of collections (`Workshop`), one item's files (`Download`) and the pool
of workers that shares them (`Pool`), the incremental sync (`Subscription`), and
the download job queue (`Downloads`). `Lru`, `Graph`, `Selection`, `ByteSeq` and
`Results` hold what they have in common. Concurrent parts are state machines whose events are the
locked sections and atomic operations of the source, and the theorems are about
every sequence of events.

How the source is rendered:

- A run-time panic of the source is an outcome of its own (`Crash`, `Fault`).
  `int(l)` of a 64-bit length wraps, so a length test on a sum that passes 2^63
  lets the slice expression behind it panic; the readers return `Fault` there.
- `x | y` on operands without common bits is `x + y`, and `c << s` on a `uint64`
  is `Wire.Shl`, which drops the bits shifted out.
- AES is a pair of inverse block functions per key, HMAC-SHA1 a function to 20
  bytes, SHA-1 and decompression functions; they are parameters, as are the
  clock, the random bytes, what the network and the disk return, the order in
  which a Go map is iterated, and what `sort.Slice` returns for equal keys. A
  connection is a byte sequence with a cursor; `io.EOF` and
  `io.ErrUnexpectedEOF` are told apart as the source's readers do.
- The recursion from `dispatch` to `handleMulti` and back has no bound in the
  source. `fuel` is the depth the stack has room for; running out of it is the
  outcome `Exhausted`. Once a depth suffices, a greater one gives the same result,
  and some depth suffices exactly when no message met on the way holds itself.
- `consumeVarintLocal` repeats `pb.ConsumeVarint` line by line; both are
  `Wire.ConsumeVarint`.
- The comment on `ReadMsg` says that it returns one complete message, binary or
  text. The code discards text frames and does not look at FIN, and the model
  follows the code.

Nine guarantees one might expect do not hold of the code; each has the exact
condition under which it does and an input that breaks it:

- An uncompressed Multi is taken for a gzip stream when the length of its first
  inner message ends in 0x8b1f (`Multi.MultiPayloadRead`, `Multi.SniffedByLength`,
  `Multi.SniffedMultiLost`).
- Unpacking a message ends only when no message met on the way holds itself,
  directly or indirectly, which a gzip stream that decompresses to a Multi carrying
  that stream does (`Unpacking.UnpackingEndsIffNotLooping`,
  `Unpacking.QuineNeverEnds`, `Unpacking.QuineInput`).
- A field number survives encoding only below 2^61 (`Wire.FieldRoundTrip`,
  `Wire.NumberLost`).
- A sync leaves exactly the manifest's files only when every file succeeds, or was
  there already if the context was done before it, and no file to be pruned has a
  name that starts with ".."; this holds for any number of workers, any schedule and
  a context done at any moment. The new manifest is recorded unless some file was
  processed and none succeeded, so what failed or was cancelled is not tried again
  (`Subscription.SyncExact`, `Subscription.PoolSyncExact`,
  `Subscription.FailedFileStaysLost`,
  `Subscription.CancelledFileStaysLost`, `Subscription.NothingDoneIsRecorded`,
  `Subscription.DottedFileStays`).
- `ReadMsg` returns whole messages only when there is no text and no continuation
  frame carries data (`WebSocket.WholeMessagesIff`, `WebSocket.SecondFragmentLost`).
- `io.EOF` from `ReadMsg` or `ReadPacket` does not mean that the stream ended
  between two messages: it is also returned for certain cuts inside one
  (`WebSocket.CutStream`, `Frame.CutPacket`).
- The expansion of collections ends only when no collection reachable from the ids
  is among its own members (`Workshop.WalkEndsIffNoCycle`,
  `Workshop.SelfMemberNeverEnds`).
- A queued download is started only if its id reaches the worker: one whose push
  timed out stays queued for ever, and while it is listed its item cannot be queued
  again (`Downloads.QueuedMeansWaiting`, `Downloads.GivenUpIsStuck`,
  `Downloads.StuckBlocks`).
- Two active jobs for one item can exist once an active job has fallen out of the
  list of 500 (`Downloads.DuplicateIffUnlisted`, `Downloads.TrimmedJobIsDuplicated`).

## Model

| member | source | states |
|---|---|---|
| Wire.VarintRoundTrip | internal/steam/pb/wire.go:132-152 | both varint readers recover every 64-bit value from its encoding, whatever follows it |
| Wire.VarintLength | internal/steam/pb/wire.go:146-152 | the encoding has k bytes exactly when 2^(7(k-1)) <= v < 2^(7k), one byte also for zero |
| Wire.VarintShortest | internal/steam/pb/wire.go:132-152 | no string a reader maps to v is shorter than the encoding, and a string the strict reader accepts that does not end in a zero digit is the encoding |
| Wire.ReadersDiffer | internal/steam/protocol/protobuf.go:261-276 | the strict and the lax reader disagree exactly on ten-byte varints whose last byte is 2..127, and then the strict one refuses |
| Wire.ConsumeVarint | internal/steam/pb/wire.go:132-144 | the loop with its wrapping shifts computes the base-128 number modulo 2^64 and its size, or (0, 0) |
| Wire.AppendVarint | internal/steam/pb/wire.go:146-152 | appends the encoding of v |
| Wire.FieldRoundTrip | internal/steam/pb/wire.go:24-60 | one encoded field is read back with its number modulo 2^61; it is the same field if and only if the number is below 2^61 |
| Wire.NumberLost | internal/steam/pb/wire.go:24-60 | field number 2^61 comes back as 0 |
| Wire.KeyByte | internal/steam/pb/wire.go:24-60 | for field numbers up to 15 the first byte is the number and the wire type, 0, 1, 2 or 5 |
| Wire.FieldsRoundTrip | internal/steam/pb/wire.go:83-129 | reading the encoding of any field list followed by anything gives that list and then what follows |
| Wire.DecodeOfEncode | internal/steam/pb/wire.go:17-129 | Decode of the buffer returns exactly the fields of the encoder calls, in order, under either reader |
| Wire.DecodeAppend | internal/steam/pb/wire.go:83-129 | Decode(a ++ b) is Decode(a) ++ Decode(b) whenever a decodes |
| Wire.DecodeAnywhere | internal/steam/pb/wire.go:83-129 | the offset at which fields sit in a buffer changes neither the fields nor whether they decode |
| Wire.StrictRefinesLax | internal/steam/protocol/protobuf.go:59-121 | a field list read strictly is a prefix of the list read laxly, and the same in outcome too unless the strict reader refuses |
| Wire.Decode | internal/steam/pb/wire.go:83-129 | the loop returns the fields and the ending of the field-by-field definition on every input, the panic included |
| Wire.DecodeValue | internal/steam/pb/wire.go:92-126 | the four wire types, each refused when its value is cut short, and the wrapping length test of the bytes type |
| Wire.Encoder.VarintField | internal/steam/pb/wire.go:25-28 | the buffer stays the encoding of all calls so far, with this one added |
| Wire.Encoder.BoolField | internal/steam/pb/wire.go:31-37 | a bool is the varint field 1 or 0 |
| Wire.Encoder.Fixed64Field | internal/steam/pb/wire.go:40-45 | the buffer stays the encoding of all calls so far, with this one added |
| Wire.Encoder.Fixed32Field | internal/steam/pb/wire.go:48-53 | the buffer stays the encoding of all calls so far, with this one added |
| Wire.Encoder.BytesField | internal/steam/pb/wire.go:56-60 | the buffer stays the encoding of all calls so far, with this one added |
| Protocol.SerializeHeader | internal/steam/protocol/protobuf.go:30-56 | writes exactly the fields that are present, in wire order |
| Protocol.ParseProtoBufHeader | internal/steam/protocol/protobuf.go:59-121 | the fused parser returns, on every input, the last-one-wins header of the generic field list and its ending |
| Protocol.HeaderOfSnoc | internal/steam/protocol/protobuf.go:71-119 | which member one more field sets, by its number and wire type: the last one counts |
| ByteSeq.Int32OfVarint | internal/steam/protocol/protobuf.go:79-92 | the int32 members are the low 32 bits as a signed number, so a negative one sent as a 64-bit varint comes back |
| Protocol.ConsumeVarint | internal/steam/protocol/protobuf.go:261-276 | the strict varint reader: it also refuses a tenth byte above 1 |
| Protocol.HeaderRoundTrip | internal/steam/protocol/protobuf.go:30-121 | every header round-trips up to "none" job ids becoming 0, and exactly if and only if no job id is "none" |
| Protocol.UnknownFieldsIgnored | internal/steam/protocol/protobuf.go:71-119 | a field with another number or wire type, anywhere in the list, does not change the header |
| Protocol.FusedParserRefinesDecode | internal/steam/protocol/protobuf.go:59-121 | whenever the fused parser succeeds, the generic decoder succeeds on the same fields |
| Protocol.SerializeMsgProto | internal/steam/protocol/protobuf.go:132-140 | the layout: id with its high bit, header length, header, body |
| Protocol.ParseMsgProto | internal/steam/protocol/protobuf.go:143-165 | refuses short data, a clear high bit and a header length past the end, else splits off header and body |
| Protocol.MsgProtoRoundTrip | internal/steam/protocol/protobuf.go:132-165 | every message parses back, with its id below 2^31 and its "none" job ids as 0 |
| Protocol.MsgExact | internal/steam/protocol/msg.go:19-58 | a struct-headed message is parsed from its own encoding and from nothing else |
| Crypto.Pkcs7Pad | internal/steam/crypto/crypto.go:236-244 | pads to the next multiple of 16, with 1 to 16 bytes that hold their number |
| Crypto.Pkcs7Unpad | internal/steam/crypto/crypto.go:246-260 | strips a well-formed padding and refuses any other |
| Crypto.PaddingBijection | internal/steam/crypto/crypto.go:236-260 | unpadding accepts p with result m if and only if p is m padded |
| Crypto.PaddedShape | internal/steam/crypto/crypto.go:236-244 | one to sixteen bytes are added, each the number of them |
| Crypto.CbcInverse | internal/steam/crypto/crypto.go:84-100 | decrypting the CBC chain of any blocks gives the blocks |
| Crypto.CbcOnto | internal/steam/crypto/crypto.go:178-193 | and encrypting what was decrypted gives the ciphertext |
| Crypto.CbcBlocks | internal/steam/crypto/crypto.go:84-100 | block by block: each is combined with the ciphertext block before it, the first with the IV, and encrypted |
| Crypto.EnvelopeExact | internal/steam/crypto/crypto.go:84-193 | the plain envelope accepts c with result m if and only if c is m encrypted under the IV its first block hides |
| Crypto.AuthenticatedEnvelopeExact | internal/steam/crypto/crypto.go:196-221 | the authenticated envelope accepts c with result m if and only if c is m encrypted with the recovered prefix |
| Crypto.HMACRoundTrip | internal/steam/crypto/crypto.go:196-221 | every message is recovered from its authenticated envelope, for every prefix |
| Crypto.EnvelopeLayout | internal/steam/crypto/crypto.go:84-221 | the encrypted IV and then the CBC blocks; the IV of the authenticated envelope is 13 bytes of the MAC over prefix and message, and the prefix |
| Crypto.KeyLengths | internal/steam/crypto/crypto.go:84-193 | keys of 128, 192 and 256 bits are accepted and no others |
| Frame.ReadPacket | internal/steam/protocol/frame.go:13-30 | magic, 16 MiB limit, the two ways the stream can end, and the stream left behind each outcome |
| Frame.WritePacket | internal/steam/protocol/frame.go:33-42 | appends length, magic and payload |
| Frame.PacketRoundTrip | internal/steam/protocol/frame.go:13-42 | a packet is read back and the stream left at the next one if and only if the payload is at most 16 MiB |
| Frame.PacketExact | internal/steam/protocol/frame.go:13-30 | ReadPacket uses up exactly the encoding of what it returns |
| Frame.CutPacket | internal/steam/protocol/frame.go:13-30 | a packet cut anywhere is not read, and the cut looks like a clean end if and only if it is in front of the packet or right behind its header |
| Frame.HeaderDecides | internal/steam/protocol/frame.go:13-30 | another magic, or a length over 16 MiB, is refused and the stream stays behind the header; otherwise the payload is taken or missing |
| Multi.DispatchTerminates | internal/steam/cm/client.go:711-838 | a bound on the depth: a message in which nothing grows when it is decompressed is unpacked within its length in levels, each inner message being shorter than its container |
| Multi.FuelIrrelevant | internal/steam/cm/client.go:711-838 | more stack than was needed changes nothing |
| Unpacking.UnpackingEndsIffNotLooping | internal/steam/cm/client.go:711-838 | for every decompressor and every message: unpacking ends, at some depth, if and only if no message met on the way holds itself, directly or indirectly |
| Unpacking.QuineNeverEnds | internal/steam/cm/client.go:812-837 | the Multi that carries a gzip stream which decompresses to that Multi is unpacked for ever |
| Unpacking.QuineInput | internal/steam/cm/client.go:812-837 | an input: bytes with the gzip magic, for a decompressor that takes them for such a stream and refuses all others |
| Multi.MultiPayloadRead | internal/steam/cm/client.go:771-824 | an uncompressed payload is recovered if and only if it does not start with the gzip magic, or decompression leaves it as it is |
| Multi.SniffedByLength | internal/steam/cm/client.go:812-824 | it starts with the magic exactly when the low 16 bits of its first message length are 0x8b1f |
| Multi.SniffedMultiLost | internal/steam/cm/client.go:812-824 | a message of 35615 bytes is delivered alone and lost in an uncompressed Multi |
| Multi.AnnouncedIsDecompressed | internal/steam/cm/client.go:812-828 | a Multi is decompressed if and only if it announces a size or starts with the gzip magic; what cannot be decompressed delivers nothing |
| Multi.CutFieldIgnored | internal/steam/cm/client.go:768-811 | a fixed-width field cut off at the end of the envelope does not matter |
| Multi.BadInnerDropped | internal/steam/cm/client.go:711-764 | a message that cannot be parsed is dropped, and the others are delivered as if it were not there |
| Multi.BadMessages | internal/steam/cm/client.go:711-740 | messages that are too short for their kind, or whose header length runs past the end, cannot be parsed |
| Multi.OnlyMultiUnpacked | internal/steam/cm/client.go:735-764 | a protobuf message with id 1 is unpacked, any other delivered |
| Multi.StructIsNoMulti | internal/steam/cm/client.go:711-764 | a struct-headed message is delivered, whatever its id |
| Multi.Flattening | internal/steam/cm/client.go:711-838 | dispatching the encoding of any tree of nested Multi messages, plain and compressed, delivers exactly its leaves, left to right |
| Multi.CutInner | internal/steam/cm/client.go:829-837 | a payload cut anywhere holds a prefix of the messages of the whole |
| Multi.CutDeliversPrefix | internal/steam/cm/client.go:829-837 | so cutting it anywhere delivers a prefix of its messages |
| Cm.Client.Dispatch | internal/steam/cm/client.go:711-764 | parses and routes one message, a Multi by unpacking it, as the delivery function says, waiters included |
| Cm.Client.Deliver | internal/steam/cm/client.go:741-763 | a protobuf packet with a registered target job goes to that job, any other to the waiter of its id; a full waiter drops it |
| Cm.Client.MultiEnvelope | internal/steam/cm/client.go:768-811 | the loop keeps the last payload and the last size, and steps over a fixed-width field cut off at the end |
| Cm.Client.HandleMulti | internal/steam/cm/client.go:768-838 | a Multi body delivers what its payload, decompressed if it looks compressed, delivers |
| Cm.Client.DispatchInner | internal/steam/cm/client.go:829-837 | the loop over length-prefixed messages delivers them one after the other until one is cut short |
| Cm.Client.HearOne | internal/steam/cm/client.go:677-708 | one turn of the loop over either transport: a message is read, the pings before it answered, decrypted and dispatched, or the loop ends |
| Cm.Client.ReadLoop | internal/steam/cm/client.go:669-709 | the loop delivers everything until a message cannot be read or decrypted; then the connection is closed, with a close frame over a WebSocket, and every waiter is closed with what it holds |
| Cm.Client.Disconnect | internal/steam/cm/client.go:477-503 | connection and keys are forgotten, every waiter is closed with what it holds, and over a WebSocket a close frame goes out |
| Cm.ReadMsg | internal/steam/cm/client.go:62-66 | one message of the transport: a VT01 packet or a WebSocket message |
| Cm.WriteMsg | internal/steam/cm/client.go:62-67 | one message goes out as one VT01 packet or one binary frame |
| Cm.WrappedRead | internal/steam/cm/client.go:62-67 | what WriteMsg writes is read back: by ReadPacket over TCP, up to 16 MiB, and over a WebSocket by an RFC 6455 decoder as one masked binary frame with FIN |
| Cm.Close | internal/steam/cm/wss.go:230-233 | over a WebSocket a close frame goes out, over TCP nothing |
| Cm.GoodbyeRead | internal/steam/cm/wss.go:230-233 | the close frame is one: FIN, opcode 8, empty, masked |
| Cm.Client.SendMsgProto | internal/steam/cm/client.go:506-516 | the message with the session's ids filled in is appended, sealed and wrapped, if there is a connection |
| Cm.StampFills | internal/steam/cm/client.go:506-514 | ids the message has stay, missing ones become the session's, and nothing else changes |
| Cm.Client.SendRaw | internal/steam/cm/client.go:620-643 | fails without a connection; plain if asked so, else plain, encrypted or authenticated by the state of the channel; nothing is written on failure |
| Cm.WaitersGetFirst | internal/steam/cm/client.go:741-763 | over any run an empty waiter of a job ends up with the first protobuf packet whose target is that job, an empty waiter of an id with the first packet of that id whose target is none, 0 or not registered, and a full one keeps its own |
| Cm.OpenSealed | internal/steam/cm/client.go:620-709 | what sendRaw seals, the read loop opens, in every state of the channel |
| Cm.OpenedExact | internal/steam/cm/client.go:620-709 | and it opens nothing else: what is opened with result m is m sealed with some random bytes |
| Cm.EndToEnd | internal/steam/cm/client.go:620-709 | any list of messages sent, with any random bytes and any following stream, is delivered exactly and in order |
| Cm.SentIsDelivered | internal/steam/cm/client.go:506-709 | what any run of SendMsgProto calls wrote over TCP, followed by anything, is delivered as the stamped messages, in order |
| Cm.SentInFrames | internal/steam/cm/client.go:506-643 | over a WebSocket it is one binary frame per call, each with its own mask, whose payload opens to the stamped message |
| Cm.StopsAtBad | internal/steam/cm/client.go:669-709 | a message that cannot be opened ends the loop: what came before is delivered, and nothing after |
| Cm.ReceivedFrames | internal/steam/cm/client.go:669-709 | over a WebSocket the read loop delivers what decrypting and dispatching the messages of repeated ReadMsg delivers |
| Cm.EndToEndWss | internal/steam/cm/client.go:620-709 | if the binary frames before the first close carry the sealed messages, whatever other frames come between and after them and whatever bytes follow, exactly those messages are delivered, in order, and then what the bytes give unless a close came |
| Cm.PingsAnswered | internal/steam/cm/client.go:669-709 | meanwhile exactly the pings before the first close are answered, on the wire: one pong frame per ping, with its payload |
| Cm.SentStreamSnoc | internal/steam/cm/client.go:506-516 | sending one more message appends its sealed packet to the stream of the others |
| WebSocket.WriteFrame | internal/steam/cm/wss.go:137-185 | writes the masked frame in the minimal length form |
| WebSocket.MaskPayload | internal/steam/cm/wss.go:177-180 | the loop masks byte i with mask byte i modulo 4 |
| WebSocket.ReadFrame | internal/steam/cm/wss.go:187-214 | header and three length forms; a masked frame is refused, and a cut header is io.EOF or io.ErrUnexpectedEOF |
| WebSocket.HeaderForms | internal/steam/cm/wss.go:187-214 | FIN and reserved bits are ignored, each of the three length forms is taken with any value, a masked frame is refused |
| WebSocket.NegativeLength | internal/steam/cm/wss.go:86-130 | a length of 2^63 or more panics for a binary frame or ping, ends at a close, and skips nothing otherwise |
| WebSocket.Conn.WriteMsg | internal/steam/cm/wss.go:133-135 | sends one binary frame |
| WebSocket.Conn.Close | internal/steam/cm/wss.go:230-233 | sends one empty close frame |
| WebSocket.Conn.ReadMsg | internal/steam/cm/wss.go:86-130 | the next binary payload, or the error the source returns, after writing one pong per ping consumed |
| WebSocket.PongsConform | internal/steam/cm/wss.go:112-120 | the pongs are read back as one frame per ping, in order, each with FIN, opcode 10, a mask of its own and the payload of its ping |
| WebSocket.MaskedTwice | internal/steam/cm/wss.go:177-180 | masking twice with the same mask gives the payload back |
| WebSocket.MaskedBits | internal/steam/cm/wss.go:177-180 | bit by bit, byte i is combined with mask byte i modulo 4 |
| WebSocket.WriteFrameConforms | internal/steam/cm/wss.go:137-185 | a decoder of RFC 6455 section 5.2 that insists on minimal lengths recovers opcode, mask and payload from every frame written |
| WebSocket.WrittenFrames | internal/steam/cm/wss.go:137-185 | frames written one after the other are read back one by one, whatever follows |
| WebSocket.FrameBytesConforms | internal/steam/cm/wss.go:187-214 | the unmasked frames ReadMsg is shown to read are frames of that decoder |
| WebSocket.ReadMsgConforms | internal/steam/cm/wss.go:86-130 | on every stream of complete frames repeated ReadMsg returns exactly the binary payloads before the first close and ends with io.EOF, close or no close, and the frames it answers with are one pong per ping before it, with its payload |
| WebSocket.FramesThenTail | internal/steam/cm/wss.go:86-130 | complete frames before any bytes: their messages and pongs first, then what the bytes give unless a close came |
| WebSocket.CutStream | internal/steam/cm/wss.go:86-130 | a stream cut inside a frame is reported as cut if and only if no close came before and the cut is inside the first two bytes, the extended length, or the payload of a binary frame or ping; else it looks like a clean end |
| WebSocket.CutIsInAFrame | internal/steam/cm/wss.go:86-130 | every cut of a stream of complete frames is a cut inside one of them |
| WebSocket.WholeMessagesIff | internal/steam/cm/wss.go:84-130 | on every well-fragmented stream (RFC 6455 section 5.4) the payloads returned are the messages if and only if there is no text and no continuation carries data |
| WebSocket.SecondFragmentLost | internal/steam/cm/wss.go:84-130 | of a message in two fragments only the first is returned |
| Manifest.ParseChunk | internal/steam/manifest/parse.go:209-241 | the last field of each number decides, whatever its wire type; a chunk without hash is refused |
| Manifest.ParseFileMapping | internal/steam/manifest/parse.go:174-207 | likewise for a file, with the chunks that parse, in order |
| Manifest.ParsePayload | internal/steam/manifest/parse.go:155-172 | the mappings that parse, in order |
| Manifest.ParseMetadata | internal/steam/manifest/parse.go:133-153 | the last field of each number decides |
| Manifest.ReadSection | internal/steam/manifest/parse.go:85-100 | a section is taken from the reader if its magic and its length agree with it |
| Manifest.Parse | internal/steam/manifest/parse.go:71-131 | a zip archive is replaced by its first entry; then three sections in order and the end mark, then metadata and payload |
| Manifest.SectionExact | internal/steam/manifest/parse.go:85-100 | a section is read exactly where one with that magic and a body of less than 4 GiB is printed |
| Manifest.ParsedExact | internal/steam/manifest/parse.go:71-131 | a manifest is returned if and only if the bytes, or what the archive holds, are the three sections and the end mark, and it is what they hold |
| Manifest.ChunkOfSnoc | internal/steam/manifest/parse.go:215-236 | which member of a chunk one more field sets, and to what, by its number and wire type |
| Manifest.FileOfSnoc | internal/steam/manifest/parse.go:180-205 | the same for a file |
| Manifest.DepotOfSnoc | internal/steam/manifest/parse.go:139-151 | and for the metadata |
| Manifest.UnhashedRefused | internal/steam/manifest/parse.go:237-240 | a chunk without a hash is refused |
| Manifest.ManifestRoundTrip | internal/steam/manifest/parse.go:71-241 | printing any manifest whose chunks have hashes through the three protobuf levels and the sections, zipping it or not, and parsing it, returns the same manifest |
| Manifest.BadMappingDropped | internal/steam/manifest/parse.go:155-172 | an undecodable mapping anywhere in a payload is dropped and leaves all others as they are |
| Manifest.BadChunkDropped | internal/steam/manifest/parse.go:174-207 | an undecodable chunk, or one without hash, anywhere in a mapping leaves the parsed file as it is without it |
| Manifest.OtherFieldsIgnored | internal/steam/manifest/parse.go:155-207 | a field of another wire type is no entry, and changes nothing |
| Manifest.CrashIsFinal | internal/steam/manifest/parse.go:155-172 | a panic in a mapping is not dropped |
| TtlCache.Cache.GetEntry | internal/web/cache.go:44-61 | hit, miss or expiry; map and list stay in bijection |
| TtlCache.GetEffect | internal/web/cache.go:44-61 | an expired entry leaves map and list, a live one becomes the newest, and nothing else changes |
| TtlCache.Cache.PutEntry | internal/web/cache.go:63-86 | stores at the back and drops the oldest over maxsize; the new entry stays |
| TtlCache.WorkingSet | internal/web/cache.go:44-86 | over every run, a hit is what an unbounded map with expiry returns, and a get must hit if the key is unexpired and fewer than maxsize other keys were touched since it was |
| MediaCache.Cache.GetMedia | internal/web/media.go:107-122 | hit, miss or expiry; byte count and list stay exact |
| MediaCache.GetEffect | internal/web/media.go:107-122 | an expired entry leaves map, list and byte count, a live one becomes the newest, and nothing else changes |
| MediaCache.Cache.RemoveLocked | internal/web/media.go:150-155 | removes one entry from map, list and byte count |
| MediaCache.Cache.PutMedia | internal/web/media.go:124-148 | replaces or adds, then evicts; both limits hold |
| MediaCache.Cache.EvictLocked | internal/web/media.go:157-165 | evicts from the old end until both limits hold |
| MediaCache.EvictsShortestPrefix | internal/web/media.go:157-165 | eviction drops precisely the shortest oldest-first prefix that restores both limits, and nothing else |
| MediaCache.PutEffect | internal/web/media.go:124-148 | after a put both limits hold and the entry is there if and only if its body fits the byte limit; other entries are unchanged |
| MediaCache.StepKeepsInv | internal/web/media.go:107-165 | every operation keeps the byte sum, both limits, the order by last touch and the agreement with an unbounded map |
| MediaCache.After | internal/web/media.go:107-165 | so all of these hold after any sequence of gets and puts from the empty cache |
| MediaCache.WorkingSet | internal/web/media.go:107-165 | over every run, a hit is what an unbounded map with expiry returns, and a get must hit if the entry is unexpired and at every moment since its last touch fitted both limits together with the entries touched since |
| Cdn.Client.Insert | internal/steam/cdn/client.go:302-318 | the eviction loop ends for any removal order and stores the chunk if it then fits |
| Cdn.Client.GetChunk | internal/steam/cdn/client.go:270-319 | returns what the slow path gives for the key |
| Cdn.StoredKeeps | internal/steam/cdn/client.go:302-318 | whatever the victims, the byte count stays exact and at most 64 MiB and the cache transparent; a new chunk is cached if and only if it fits the budget alone |
| Cdn.EvictsOnlyIfNeeded | internal/steam/cdn/client.go:302-318 | nothing is evicted if the chunk fits, and else no more than makes room for it |
| Cdn.ChunkCacheTransparent | internal/steam/cdn/client.go:270-319 | over every interleaving of lookups, fetches and stores of concurrent callers, every cached and every returned value is the slow-path result of its key and the byte count is exact |
| Cdn.ReadFile | internal/steam/cdn/client.go:322-346 | the loop appends the cut chunks in sorted order and fails with the first fetch that does |
| Cdn.OneChunkMore | internal/steam/cdn/client.go:332-337 | a chunk adds its data, cut to its size if it has one |
| Cdn.AssemblyExact | internal/steam/cdn/client.go:322-346 | if the chunks tile [0, size) and decompress in full, the file has exactly size bytes with each chunk's data at its offset |
| Cdn.AssembledIsContent | internal/steam/cdn/client.go:322-346 | if the chunks tile the content and those that can be fetched hold their part of it, the result is the content when all can be fetched and none otherwise |
| Cdn.AssemblyOrderIrrelevant | internal/steam/manifest/parse.go:285-287 | the result depends neither on the order of the chunks in the manifest nor on the sort |
| Servers.ServerList.Add | internal/steam/cm/servers.go:45-59 | appends the servers whose address is new |
| Servers.ServerList.MarkBad | internal/steam/cm/servers.go:62-66 | records the time for the address |
| Servers.ServerList.Next | internal/steam/cm/servers.go:69-88 | the first server in cyclic order from the cursor that was not marked bad within five minutes, or the one at the cursor |
| Servers.AddedFacts | internal/steam/cm/servers.go:45-59 | addresses stay distinct, earlier servers stay in front, every given address is present |
| Servers.AddedSelected | internal/steam/cm/servers.go:45-59 | what is appended is the given servers whose address is neither known nor given before, in their order |
| Servers.AllBadGivesCurrent | internal/steam/cm/servers.go:84-87 | with every server bad the one at the cursor is returned |
| Servers.GoodWins | internal/steam/cm/servers.go:74-83 | if any server is good a good one is returned |
| Servers.BadForFiveMinutes | internal/steam/cm/servers.go:62-88 | a server marked bad is passed over for 300 seconds and no longer, and no other is affected |
| Servers.CursorMoves | internal/steam/cm/servers.go:69-88 | the cursor moves just past the server returned, or once round if all are bad |
| Servers.RoundRobin | internal/steam/cm/servers.go:69-88 | if at each of n consecutive calls no server counts as bad, they return the n servers in cyclic order, each once |
| Servers.ConnectAndLogin | internal/steam/cm/client.go:201-238 | attempts follow the rotation, each failure marked bad, until one succeeds or the attempts are used up; the list ends as that leaves it |
| Servers.Bootstrap | internal/steam/cm/client.go:205-210 | an empty list is filled from the Web API, WebSocket servers first, or with the DNS name |
| Servers.ReadyMeans | internal/steam/cm/client.go:205-210 | a list with servers stays; an empty one gets each address of the Web API once, WebSocket servers first and each kind in its order, or cm0.steampowered.com:27017 |
| Servers.DialsDistinct | internal/steam/cm/client.go:212-233 | k failing attempts within five minutes dial k distinct addresses if at least k were good |
| Servers.SortWSSFirst | internal/steam/cm/servers.go:159-170 | WebSocket servers first, each kind in its order |
| Servers.KindSelected | internal/steam/cm/servers.go:159-170 | each kind keeps the order it was given in |
| Servers.SortKeepsServers | internal/steam/cm/servers.go:159-170 | the reordering loses and adds nothing |
| Workshop.GetDetails | internal/steam/workshop/details.go:51-72 | the answers of the batches of 100 that succeed, in order |
| Workshop.BatchesOfHundred | internal/steam/workshop/details.go:51-72 | the ids are asked for a hundred at a time, and a batch that fails gives nothing and stops nothing |
| Workshop.BatchingIrrelevant | internal/steam/workshop/details.go:51-72 | with honest lookups the batches together answer as one request would |
| Workshop.Unique | internal/steam/workshop/details.go:121-130 | first occurrences of the input ids, in order |
| Workshop.DedupSelected | internal/steam/workshop/details.go:121-130 | an id stays if it does not occur before, and the order stays |
| Workshop.Walk | internal/steam/workshop/details.go:135-170 | the recursive closure ends and extends the result by the leaves of its ids that were not met before, depth first |
| Workshop.ResolveIDs | internal/steam/workshop/details.go:120-176 | if no collection reachable from the ids is among its own members, it ends with the depth-first leaves, first occurrences only |
| Workshop.LeavesMeans | internal/steam/workshop/details.go:143-168 | an id stands for nothing if its result is neither 0 nor 1, for its members in its place if its file type is 2, and for itself otherwise |
| Workshop.LeavesExact | internal/steam/workshop/details.go:120-176 | the leaves are exactly the available items that are no collections and are reached from the ids through available collections |
| Workshop.WalkEndsIffNoCycle | internal/steam/workshop/details.go:135-170 | over 64-bit ids, the recursion from given ids ends if and only if no collection reachable from them is among its own members, directly or indirectly |
| Workshop.SelfMemberNeverEnds | internal/steam/workshop/details.go:135-170 | a collection that is its own member is looked up for ever |
| Workshop.DedupInputIrrelevant | internal/steam/workshop/details.go:121-130 | de-duplicating the input first makes no difference to the result |
| Download.ItemDir.Matches | internal/download/item.go:283-317 | a file is kept only with a 20-byte hash, the recorded size and that hash |
| Download.ItemDir.DownloadOneFile | internal/download/item.go:218-281 | skipped, written by the attempt that arrives, or removed; the retry loop computes what `FetchedIff` characterises |
| Download.FetchedIff | internal/download/item.go:242-275 | data is fetched if and only if there is an attempt within the retries that reads it, all earlier ones could not be read, none up to it was cancelled, and it can be written |
| Download.OneFileMeans | internal/download/item.go:218-317 | a file with a 20-byte hash, the recorded size and that hash is skipped, else the attempt that arrives is written, and if none does the file is removed |
| Download.ItemDir.JobList | internal/download/item.go:102-114 | the regular files with a name, in order |
| Download.JobsSelected | internal/download/item.go:102-114 | an entry becomes a job if it is no directory and its name is not empty or ".", and the order stays |
| Download.ItemDir.DownloadItem | internal/download/item.go:101-209 | the files the context is not done before, in order, with their tally; with one worker these are a prefix of the files |
| Download.JobsIndependent | internal/download/item.go:218-281 | with distinct names every file ends as it would alone, and no other path changes |
| Download.StatusIndependent | internal/download/item.go:218-281 | and has the status it would have alone |
| Download.TallyExact | internal/download/item.go:140-168 | the counters are the numbers of files that were downloaded, skipped and failed |
| Pool.StepKeepsCounters | internal/download/item.go:134-209 | each atomic step keeps the counters the sum of what the workers have added so far |
| Pool.EndFilesChangesNothing | internal/web/downloads.go:162-176 | once every worker is idle, whatever was lost or never taken, the pool's counters are what the job record shows |
| Pool.AllProcessed | internal/download/item.go:171-198 | a run without cancellation that is over has reported every file |
| Pool.AlwaysConsistent | internal/web/downloads.go:112-176 | at every step of every schedule, with cancellation or not, FilesDone = FilesOK + FilesFail + FilesSkip <= FilesTotal, at most one result is counted per file, no path outside the item's files changes, and EndFiles changes no count |
| Pool.RunIsChosen | internal/download/item.go:134-209 | with any number of workers, any schedule and the context done at any moment: once all are idle, directory, counters and job record are those of processing the reported files one after the other |
| Pool.EveryChoiceRuns | internal/download/item.go:171-199 | and every choice of reported files is the outcome of a schedule that takes the files in order and in which the context stays done |
| Pool.ScheduleIrrelevant | internal/download/item.go:134-209 | when a run without cancellation is over, directory, counters and job record are those of one worker, for any number of workers and any schedule, and EndFiles changes no count |
| Subscription.Library.Add | internal/subscription/store.go:124-136 | a known entry keeps its download state |
| Subscription.Library.Remove | internal/subscription/store.go:139-144 | forgets the entry and touches no file |
| Subscription.Library.MarkSynced | internal/subscription/store.go:147-160 | records manifest and files of a known entry, else fails |
| Subscription.Library.PruneStaleFiles | internal/subscription/sync.go:160-191 | deletes the recorded files the manifest does not list, inside the item directory |
| Subscription.Library.SyncEntry | internal/subscription/sync.go:101-138 | one turn of the loop: skipped, failed, or downloaded as far as the context allows, pruned and recorded |
| Subscription.Library.Sync | internal/subscription/sync.go:79-140 | the loop over the copies of the chosen entries taken before it |
| Subscription.TargetsMatch | internal/subscription/sync.go:89-98 | the copies are the subscribed ones of the ids, each with its stored entry |
| Subscription.TargetsSelected | internal/subscription/sync.go:89-98 | they are the chosen ids that are subscribed, in their order |
| Subscription.SyncCases | internal/subscription/sync.go:101-138 | the ways a sync can go: no manifest, up to date, failed or recorded, and what changes in each |
| Subscription.SyncsIndependent | internal/subscription/sync.go:101-139 | every target ends with the entry, directory and result of its own sync alone, and no other item changes |
| Subscription.PruneKeeps | internal/subscription/sync.go:160-191 | pruning deletes exactly the recorded paths the manifest does not list and that are inside the directory |
| Subscription.StaleMeans | internal/subscription/sync.go:160-191 | stale is a path no entry has and that starts with neither ".." nor "/" |
| Subscription.JobResult | internal/download/item.go:218-317 | after one file its path holds the release's content or nothing; it is skipped exactly when the content is there, hashed and of the recorded size |
| Subscription.ChunksServe | internal/download/item.go:218-281 | if every attempt reads a file by assembling its chunks, whatever can be read has the release's content, as the theorems on syncs ask |
| Subscription.SyncExact | internal/subscription/sync.go:101-138 | after a sync that downloads, whichever files the context was done before, the directory is the manifest's files if and only if every file is there already or an attempt for it arrives, or was there already if it was not processed, and the guard of the pruning holds nothing back; the manifest is recorded unless some file was processed and none succeeded |
| Subscription.PoolRefreshes | internal/download/item.go:134-209 | the download of a sync is what the pool leaves, for every number of workers, every schedule and a context done at any moment |
| Subscription.PoolSyncExact | internal/subscription/sync.go:101-138 | so the same condition over the runs of the pool: every file was reported and succeeds, or was not reported and was there already, and the guard holds nothing back |
| Subscription.SyncLeaves | internal/subscription/sync.go:101-138 | the manifest is fetched twice: the directory when the second differs, path by path and whichever files were processed, and the record, which is of the first |
| Subscription.FullyFailedIff | internal/download/item.go:33-35 | a download counts as failed exactly when some file was processed and none was there already or could be fetched |
| Subscription.RepeatIsSkipped | internal/subscription/sync.go:114-118 | with the recorded manifest id a sync is skipped and changes nothing, if and only if the item was ever synced |
| Subscription.RepeatAfterRun | internal/subscription/sync.go:79-140 | after any run of syncs whose files can all be fetched, one more sync of the last manifest is skipped and changes nothing |
| Subscription.IncrementalIsFresh | internal/subscription/sync.go:79-140 | over every run of syncs whose files can all be fetched, by any number of workers, the directory holds exactly the files of the last manifest |
| Subscription.SameAsFreshDownload | internal/subscription/sync.go:79-140 | which is what downloading that manifest into an empty directory gives |
| Subscription.LastSyncDecides | internal/subscription/sync.go:101-139 | over every run of syncs in which files, whole downloads and contexts may have failed, the directory after a sync that downloads is its manifest's files if and only if in this one every file ends right |
| Subscription.DottedFileStays | internal/subscription/sync.go:178-181 | a dropped file whose name starts with ".." is not deleted |
| Subscription.FailedFileStaysLost | internal/subscription/sync.go:123-134 | a file that failed while another succeeded is not tried again by the next sync of the same manifest |
| Subscription.CancelledFileStaysLost | internal/subscription/sync.go:123-134 | so is a file the context was done before, although none failed |
| Subscription.NothingDoneIsRecorded | internal/subscription/sync.go:123-134 | a download that did nothing is recorded as a sync |
| Downloads.DownloadManager.FindActiveLocked | internal/web/downloads.go:299-311 | the newest listed active job of the item, if there is one |
| Downloads.DownloadManager.EnqueueOne | internal/web/downloads.go:237-292 | finds the active job, or creates one, trims the history and sends or leaves the id to a goroutine |
| Downloads.DownloadManager.EnqueueAll | internal/web/downloads.go:235-297 | the locked loop over the resolved ids, and the jobs it returns |
| Downloads.DownloadManager.TakeNext | internal/web/downloads.go:365-366 | the worker receives the oldest id |
| Downloads.DownloadManager.BeginRun | internal/web/downloads.go:367-389 | the job starts, or an unknown id is skipped |
| Downloads.DownloadManager.FinishRun | internal/web/downloads.go:408-439 | the job failed on an error of the session or a download that failed entirely, and else is done |
| Downloads.EnqueueCovers | internal/web/downloads.go:235-297 | however many ids are asked for, each ends up as an active job of its own item |
| Downloads.StepKeepsInv | internal/web/downloads.go:214-439 | each step of Enqueue, goroutine and worker keeps list, hand-over and running job consistent |
| Downloads.QueueSafety | internal/web/downloads.go:214-439 | over all interleavings: a job starts at most once, at most one runs, the list is the last 500 ids, all known, and no two listed active jobs are for the same item |
| Downloads.StatusForward | internal/web/downloads.go:377-439 | over a whole run statuses only go queued, running, done or failed, and a job never becomes another item's |
| Downloads.OutcomeExact | internal/web/downloads.go:408-439 | over every run a known job is failed if and only if its last run gave an error, or failed files and no others, and done if and only if it ended otherwise |
| Downloads.StartedInOrder | internal/web/downloads.go:269-389 | first come, first served: unless an id had to wait for room, jobs start in the order they were created in |
| Downloads.SentAtOnce | internal/web/downloads.go:269-292 | an id is sent at once if fewer than 256 are waiting, and left to a goroutine otherwise |
| Downloads.QueueBounded | internal/web/downloads.go:269-292 | at most 256 ids wait in the channel |
| Downloads.QueuedMeansWaiting | internal/web/downloads.go:269-295 | a queued job is on its way to the worker unless its push timed out |
| Downloads.GivenUpIsStuck | internal/web/downloads.go:273-291 | a job whose push timed out stays queued for ever and never starts |
| Downloads.StuckBlocks | internal/web/downloads.go:237-292 | and while it is listed, asking for its item again gives the same job |
| Downloads.DuplicateIffUnlisted | internal/web/downloads.go:237-268 | Enqueue makes a second active job for an item if and only if an active one is no longer listed |
| Downloads.WorkerKeepsUnique | internal/web/downloads.go:365-439 | no other step can |
| Downloads.TrimmedJobIsDuplicated | internal/web/downloads.go:257-268 | 501 different items and then the first again make two active jobs for it |

## Left out

- Sockets, TLS, proxies, HTTP, the Web API bootstraps and the stealth dialer: input and output; a stream is a byte sequence.
- AES, SHA-1, HMAC, gzip, zip, zstd, LZMA and JSON libraries: parameters, with the inverse laws that are needed stated where they are used; `DecryptFilenames` and the codecs of `internal/chunkcodec` are not modelled.
- `secureChannel`, `anonymousLogon`, the heartbeat, timeouts and deadlines: the channel is modelled before and after the handshake, not during it.
- `SendJobAndWait`, `WaitJob` and `SendUM`: the waiter is registered after the request is sent, so no claim is made that a reply cannot be missed; `WaitersGetFirst` starts from the waiters that are registered.
- `SymmetricEncryptECB`, `SymmetricDecryptECB` and `GenerateSessionKey`: whole-message block mode and key generation, used during the handshake only.
- Manifest.ManifestRoundTrip: the printer is the inverse of the parser and not code of the repository, which only reads manifests.
- Multi.Flattening: plain payloads do not start with the gzip magic, as `MultiPayloadRead` shows is needed; compressed ones are announced by a size or start with it.
- Workshop.ResolveIDs: lookups are answered in request order and succeed; no cycle is reachable, which `WalkEndsIffNoCycle` shows is needed.
- Workshop.GetDetails: titles, languages, previews and the parsing of an item's fields.
- WebSocket.Conn.ReadMsg: an allocation of a huge declared length is not modelled beyond the panic of a negative one; write errors and deadlines.
- WebSocket.ReadMsgConforms: about streams of complete unmasked frames in the minimal length form, with payloads below 2^63 bytes.
- Cm.Client.ReadLoop: deadlines, logging and `recvErr`, which nothing reads; waiters that register or leave, and other senders, while the loop runs.
- Cm.Client.Disconnect: the heartbeat it stops, the `connected` and `loggedOn` flags, and closing the socket itself.
- Cm.Client.SendRaw: write deadlines and errors.
- Cm.SentInFrames: pongs and heartbeats written between the calls, which are frames of their own.
- Cm.EndToEndWss: about the server's frames; what the client sends over a WebSocket is `WebSocket.WriteFrameConforms`.
- Frame.ReadPacket: read deadlines and partial reads; ReadFull returns all bytes or an error.
- Servers.ServerList.Next: the cursor is unbounded, where the source's `int` could wrap after 2^63 calls.
- Servers.ConnectAndLogin: how the Web API is asked, the login itself, the disconnect after a failure and cancellation; the code rotates after every failure, although its comment speaks of soft failures only, and the model follows the code.
- Download.ItemDir.DownloadItem: several workers are the state machine of `Pool`, and the method is one of its schedules; the manifest fetch, titles and `CleanName` are left out, names being clean relative paths already.
- Download.ItemDir.DownloadOneFile: the directories a path needs are always there, and directories are not part of the modelled item directory, so a stale empty one is not seen; the hash of downloaded data is not checked, as in the source.
- Subscription.SyncExact: needs distinct names, hashes without collisions among the contents involved, and no path that is a file in one manifest and a directory in the next.
- Subscription.Library.SyncEntry: which files a cancelled download of several workers leaves undone is a parameter (`late`), which `Pool.EveryChoiceRuns` shows can be any of them.
- Subscription.Library.Sync: titles, times, the list of removed paths, and saving and loading `subscriptions.json`; the order in which List returns entries is a parameter.
- TtlCache.Cache.GetEntry: the composition of such caches in `BrowseCache`.
- TtlCache.WorkingSet: the clock does not run backwards between calls; the source reads it before it takes the lock, so concurrent calls can be ordered with readings out of order, and then an entry can be dropped by the later reading and missed by the earlier. The same holds for MediaCache.WorkingSet.
- MediaCache.Cache.GetMedia: fetching, host checks and the proxy paths of `internal/web/media.go`.
- Cdn.Client.GetChunk: two fetches of the same key give the same bytes, so a chunk's content is a function of its key.
- Downloads.DownloadManager.EnqueueAll: titles, messages, times, logging and the expansion of collections before the lock, which is `Workshop.ResolveIDs`.
- `DownloadManager.Close`, `ListJobs`, `Counts`, `ToDict`, `SuggestJobs`, `ComputeBackoff`, `nextJobID`: easy members; pushing to a closed channel is not modelled.
- `internal/cli`, `internal/ui`, `internal/dll`, templates and HTTP handlers: user interface and foreign calls.

# SNE network engine: a verified model

This project models the parts of the SNE network engine that carry its hardest guarantees, and proves them.

- **Bit-packed streams** (`Bits`, `Buffers`, `BitStreams`, `BitFields`): fields of any width, least significant bit first, over byte queues. The two queue implementations behave as one plain queue, and what is written at any bit offset is what is read.
- **Values and calls** (`Utf8`, `RpcValues`, `RpcLaws`, `RpcStreams`, `RpcExchange`): UTF-8 strings, nested containers and RPC calls on those streams. `RpcValues` gives encoding and decoding as functions, `RpcLaws` the round trips, `RpcStreams` and `RpcExchange` the loops over the streams, proved equal to the functions.
- **Packets** (`Cipher`, `Packets`, `PacketLaws`, `Marshaller`): framing with a cached header, the secure coder with its padding, checksum and advancing keys, and reassembly from arbitrary chunks.
- **TCP session** (`WriteSession`, `ReadSession`): the write pump with its queue and gather batches, and the read pump with bandwidth limit and throttle timer, over every run of one connection. The read pump drives the real marshaller.
- **Database proxy** (`WorkerPool`, `WorkerPoolLaws`, `DatabasePool`): workers, priority queue, connection pool and pinging thread as interleaved atomic steps.
- **Allocators** (`Allocators`): the memory pool with its sorted active vector, and the best-fit cache.

Mutable objects are classes whose methods are proved against functions of the old state; the laws are proved about those functions for all inputs and runs.

Where the code and its documentation or tests differ, the model follows the code:

- `OBitStream::reset` keeps the count of held bits (src/core/stream/detail/OBitStream.cpp:96-102), so a stream reset in mid-byte refuses later writes.
- The writer aligns for an empty string and the reader does not (src/core/stream/detail/OBitStream.cpp:111, src/core/stream/detail/IBitStream.cpp:85): `RpcLaws.StringRoundTrip` gives the exact condition and `RpcLaws.EmptyStringInMidByte` an input; at the end of a call the alignment of both ends makes up for it.
- A failed packet leaves its header cached (src/sgp/session/SgpMarshaller.cpp:66-93): `Marshaller.SgpMarshaller.Unmarshal`.
- The body size is cast to 16 bits unchecked (include/sne/sgp/protocol/PacketCoder.h:104-106): `PacketLaws.DeliveredIffSendable` gives the exact condition for both coders and `PacketLaws.PaddingOverflows` an input.
- The five-octet minimum of the UTF-8 decoder is 0x110000 (src/core/utility/Unicode.cpp:156): `Utf8.EncodeDecode` gives the exact condition and `Utf8.OverLongIsTaken` an input.
- A memory pool holds pool size plus spare resources (include/sne/base/memory/MemoryPool.h:185-195), where test/base/memory/MemoryPoolTest.cpp:37 expects the pool size.
- A gather batch in flight at a reset is forgotten without being released (src/base/session/impl/TcpSessionImpl.cpp:305): `WriteSession.DroppedOnlyByReset` says exactly when, and `WriteSession.GatherDroppedAtReset` gives a run.

Verify with `dafny verify dfyconfig.toml` (Dafny 4.11).

## Model

| member | source | states |
|---|---|---|
| `Bits.FromToBits` | src/core/stream/detail/OBitStream.cpp:11-18 | the number denoted by the `n` low bits of a value is the value with its higher bits reset |
| `Bits.ToFromBits` | src/core/stream/detail/IBitStream.cpp:11-43 | every bit sequence is the low bits of the number it denotes, which is below two to its length |
| `Bits.ToBitsOr` | src/core/stream/detail/OBitStream.cpp:21-56 | the bits of `a` or `b` are the bitwise disjunction of their bits, so disjoint fields merge without loss |
| `Bits.BitIs` | src/core/stream/detail/OBitStream.cpp:11-18 | bit `i` of the low bits of a value is that of the value divided by two to the `i` |
| `Bits.ShiftRightIsDiv` | src/core/stream/detail/OBitStream.cpp:45-48 | a shift right is a division by a power of two |
| `Bits.ShiftLeftIs` | src/core/stream/detail/IBitStream.cpp:29-33 | a shift left within a word is a multiplication by a power of two, modulo the word |
| `Bits.OrShifted` | src/core/stream/detail/IBitStream.cpp:11-43 | or-ing in a byte shifted left by `k` keeps the `k` low bits and places the byte's bits after them, within the word |
| `Bits.SignExtension` | include/sne/core/stream/detail/IBitStream.h:108-120 | setting all bits above the field of a word whose top field bit is set and casting gives `v - 2^n` |
| `Bits.SignedFits` | include/sne/core/stream/detail/IBitStream.h:108-120 | cutting a signed number to `n` bits and reading it back as signed gives the number if and only if it fits `n` bits |
| `Buffers.VectorStreamBuffer.Apply` | include/sne/core/stream/detail/VectorStreamBuffer.h:35-121 | every operation gives the plain queue's answer and contents, or reports being out of memory and loses nothing |
| `Buffers.VectorStreamBuffer.Reserve` | include/sne/core/stream/detail/VectorStreamBuffer.h:114-121 | succeeds exactly when doubling the capacity once is enough, and then there is room; the contents are not touched |
| `Buffers.MemoryBlock.Reserve` | include/sne/base/memory/MemoryBlock.h:52-57 | the free space is at least the size asked for, the unread bytes are unchanged and the capacity grows only by what was missing |
| `Buffers.MemoryBlock.Crunch` | include/sne/base/memory/MemoryBlock.h:67-81 | the unread bytes and the capacity are unchanged, and they move to the front exactly when three tenths of the capacity have been read |
| `Buffers.MemoryBlock.Put` | include/sne/base/memory/MemoryBlock.h:83-87 | the block is appended to the unread bytes and nothing written before changes |
| `Buffers.MemoryBlock.Get` | include/sne/base/memory/MemoryBlock.h:89-93 | the first `n` unread bytes are given out and the rest stay |
| `Buffers.MemoryBlockStreamBuffer.Apply` | include/sne/base/protocol/MemoryBlockStreamBuffer.h:37-104 | every operation gives the plain queue's answer and contents |
| `Buffers.RunBoth` | include/sne/base/protocol/MemoryBlockStreamBuffer.h:37-104 | for every operation sequence the memory block answers as a plain byte queue, and so does the vector on every run in which it is never out of memory; their contents agree |
| `Buffers.FirstInFirstOut` | include/sne/core/stream/detail/VectorStreamBuffer.h:35-69 | over every run of the plain queue without resets and or-s, what was there and was put in is what was taken out and is left, in order |
| `Buffers.QueueAnswers` | include/sne/core/stream/detail/VectorStreamBuffer.h:56-104 | a copy out is refused exactly when there are too few bytes; peeking and counting change nothing; an or sets bits of the last byte alone |
| `BitStreams.OBitStream.WriteFirstByte` | src/core/stream/detail/OBitStream.cpp:31-40 | the held byte is filled, or a new one started, with the lowest bits of the value |
| `BitStreams.OBitStream.WriteWholeBytes` | src/core/stream/detail/OBitStream.cpp:42-52 | just enough whole bytes are pushed, holding the next bits in order |
| `BitStreams.OBitStream.WriteBits` | src/core/stream/detail/OBitStream.cpp:21-56 | succeeds exactly for a valid width on a stream whose held byte is still there; appends the low bits of the value at any bit offset, keeps unused high bits zero and adds the width to the total; a refusal changes nothing |
| `BitStreams.OBitStream.Align` | src/core/stream/detail/OBitStream.cpp:86-93 | pads with zero bits to the byte boundary and counts them |
| `BitStreams.OBitStream.WriteRaw` | src/core/stream/detail/OBitStream.cpp:142-148 | aligns and appends the raw bytes |
| `BitStreams.OBitStream.Reset` | src/core/stream/detail/OBitStream.cpp:96-102 | the total is cleared but not the count of held bits: after clearing the buffer later writes are refused exactly if the stream was in mid-byte |
| `BitStreams.IBitStream.ReadBits` | src/core/stream/detail/IBitStream.cpp:11-43 | throws exactly when the width is invalid or fewer bits are unread, then changing nothing; otherwise gives the number denoted by the first unread bits and consumes exactly them, never touching an empty buffer |
| `BitStreams.IBitStream.ReadSigned` | include/sne/core/stream/detail/IBitStream.h:108-120 | the bits read are taken as a two's complement number of the field's width, or of the type's if that is narrower |
| `BitStreams.IBitStream.Align` | src/core/stream/detail/IBitStream.cpp:124-130 | drops exactly the rest of a partly read byte |
| `BitStreams.IBitStream.ReadRaw` | src/core/stream/detail/IBitStream.cpp:58-63 | throws exactly when too few bytes follow the boundary; otherwise the bytes given and the bits left make up what was unread |
| `BitStreams.ReadValue` | src/core/stream/detail/IBitStream.cpp:27-43 | after the loop the masked accumulator is the number denoted by the first `bitCount` unread bits |
| `BitStreams.WrittenBits` | src/core/stream/detail/OBitStream.cpp:31-52 | the first byte and the whole bytes together hold the field followed by zero bits only |
| `BitFields.WriteFields` | src/core/stream/detail/OBitStream.cpp:21-102 | in every run of writes and aligns from an empty buffer the bits in the buffer are the concatenated low-order-first bits of all fields and padding, unused high bits are zero, the total is the sum of widths and the size its ceiling in bytes |
| `BitFields.ExchangeFields` | src/core/stream/detail/IBitStream.cpp:11-43 | every list of fields of widths 1 to 32, with aligns anywhere, reads back: each value modulo two to its width |
| `Utf8.ToUtf8` | src/core/utility/Unicode.cpp:120-149 | the loop's result is the concatenation of the 1 to 6 octet forms of all code points |
| `Utf8.FromUtf8` | src/core/utility/Unicode.cpp:152-200 | the loop decodes characters up to the first malformed or incomplete one |
| `Utf8.EncodedAsInTable` | src/core/utility/Unicode.cpp:120-149 | the octets of every character are those of the table in section 2 of RFC 2279, for each of the six lengths |
| `Utf8.DecodePrefix` | src/core/utility/Unicode.cpp:152-200 | decoding the first `n` octets of an encoded string yields its longest prefix whose encoding fits in `n` octets, for every string below 2^31 and every `n` |
| `Utf8.FitCountIsLongest` | src/core/utility/Unicode.cpp:120-149 | a prefix length fits in `n` octets if and only if it is at most the count used by DecodePrefix |
| `Utf8.DecodeEncode` | src/core/utility/Unicode.cpp:120-200 | decoding after encoding is the identity |
| `Utf8.EncodeDecodedChar` | src/core/utility/Unicode.cpp:152-200 | encoding a decoded character gives back the octets it came from if and only if they do not begin with 0xF8 and an octet below 0x88, the over-long five-octet forms |
| `Utf8.OverLongIsTaken` | src/core/utility/Unicode.cpp:156-156 | the decoder takes the five-octet form of 0x110000, for which the encoder writes four octets |
| `Utf8.EncodeDecode` | src/core/utility/Unicode.cpp:152-200 | for every octet string, re-encoding what was decoded gives back the octets taken if and only if no over-long form begins anywhere in them; otherwise the result is shorter |
| `Utf8.DecodedSmall` | src/core/utility/Unicode.cpp:152-200 | no lead and continuing octets decode to 2^31 or more |
| `RpcLaws.StringRoundTrip` | src/core/stream/detail/IBitStream.cpp:78-94 | a string field reads back in every case, and consumes exactly its own bits if and only if it is not an empty string whose length field ends in mid-byte |
| `RpcLaws.EmptyStringInMidByte` | src/core/stream/detail/OBitStream.cpp:105-112 | a concrete empty string at an unaligned position whose padding the reader leaves unread |
| `RpcLaws.WideRoundTrip` | src/core/stream/detail/IBitStream.cpp:96-121 | a wide string in UTF-8 mode comes back as its longest prefix of at most `maxLength` octets |
| `RpcLaws.NumberRoundTrip` | include/sne/core/stream/detail/IBitStream.h:101-120 | numbers come back modulo two to their width, signed ones unchanged if and only if they fit |
| `RpcLaws.RoundTrip` | include/sne/srpc/RpcContainers.h:40-74 | every value nested from numbers, strings, vectors and maps decodes to its canonical form at any offset and whatever follows, and consumes exactly its own bits but for the padding of an empty string at its very end |
| `RpcLaws.SizeField` | include/sne/srpc/RpcContainers.h:40-55 | a container begins with its size in sixteen bits, at most 65535, and an empty one is sixteen zeros |
| `RpcLaws.TakenEndsPadded` | src/core/stream/detail/IBitStream.cpp:85-93 | what such a value leaves unread is just the padding to the byte boundary |
| `RpcLaws.ItemsRoundTrip` | include/sne/srpc/RpcContainers.h:40-74 | the elements of a vector come back in order |
| `RpcLaws.EntriesRoundTrip` | include/sne/srpc/RpcContainers.h:171-205 | the entries of a map come back, the first of equal keys winning as `insert` does |
| `RpcLaws.LosslessIffConforms` | include/sne/srpc/RpcContainers.h:40-74 | the canonical form is the value itself if and only if numbers fit their widths, strings their lengths and map keys differ |
| `RpcLaws.InsertAllKeeps` | include/sne/srpc/RpcContainers.h:190-205 | inserting keeps keys distinct, and either drops an entry or is plain concatenation |
| `RpcLaws.CallRoundTrip` | src/srpc/RpcCommand.cpp:8-13 | one call with its identifier, arguments and padding decodes to its canonical form and the reader ends where the writer did, also after an empty string in mid-byte at the end of the last argument |
| `RpcLaws.EmptyStringAsLastArgument` | src/srpc/RpcReceiver.cpp:55-68 | a concrete call whose last argument the reader leaves seven bits short, and which CallRoundTrip covers |
| `RpcLaws.CallsRoundTrip` | src/srpc/RpcReceiver.cpp:55-68 | any number of calls back to back decode in order, and nothing after them is touched |
| `RpcStreams.Serialize` | include/sne/srpc/RpcContainers.h:40-55 | the stream operations append exactly the encoding of the value, or refuse exactly when a container is too big or the stream was reset in mid-byte |
| `RpcStreams.Deserialize` | include/sne/srpc/RpcContainers.h:57-74 | on any bits, well formed or not, the stream operations give what the decoding function gives and consume the same bits |
| `RpcStreams.WriteString` | src/core/stream/detail/OBitStream.cpp:105-112 | writes the length field, the padding and the bytes, as the encoding says |
| `RpcStreams.ReadString` | src/core/stream/detail/IBitStream.cpp:78-94 | reads the length field, and padding and bytes only for a non-zero length |
| `RpcStreams.SerializeEachEntry` | include/sne/srpc/RpcContainers.h:171-187 | the loop appends key and value of every entry in iteration order |
| `RpcStreams.DeserializeEachEntry` | include/sne/srpc/RpcContainers.h:190-205 | the loop reads and inserts entries as the decoding function does |
| `RpcExchange.MarshalCall` | src/srpc/RpcCommand.cpp:8-13 | appends identifier, arguments and padding |
| `RpcExchange.HandleCall` | src/srpc/RpcNetwork.cpp:37-48 | reads a call for any registered identifier, and throws for an unknown one or too few bits, as the decoding function says |
| `RpcExchange.HandleArgs` | src/srpc/RpcReceiver.cpp:55-68 | reads the arguments of the registered types and the padding after them |
| `RpcExchange.ExchangeCalls` | src/srpc/RpcReceiver.cpp:55-68 | any calls marshalled back to back into one stream are received in order with nothing left over |
| `RpcExchange.ExchangeValues` | include/sne/srpc/RpcContainers.h:40-74 | values written from any starting bit offset and read with the same types come back in canonical form |
| `Cipher.DecryptUndoesEncrypt` | src/security/cipher/BlockCipherImpl.h:50-64 | for every whole number of blocks, decryption block by block undoes encryption under the same key, and encryption decryption |
| `Cipher.BlockThroughEngine` | src/security/cipher/BlockCipherImpl.h:50-64 | block `i` of the result is the engine's permutation of block `i`, or its inverse, under the engine key |
| `Cipher.ExpandKeyWord` | src/security/cipher/BlockCipherImpl.h:39-43 | which words of the engine key are clear and which are one, in terms of the key |
| `Cipher.BlockCipherAlgorithm.UpdateKey` | src/security/cipher/BlockCipherImpl.h:34-48 | the engine's key is always the expansion of the key last asked for, cached or not |
| `Cipher.BlockCipherAlgorithm.Process` | src/security/cipher/BlockCipherImpl.h:50-64 | the in-place loop rewrites exactly the range given, block by block, and nothing else |
| `Cipher.CipherKeyGenerator.SetKeys` | src/sgp/protocol/security/CipherKeyGenerator.cpp:67-73 | both generators restart from the seeds given |
| `Cipher.BlockCipher.Transform` | src/security/cipher/BlockCipherImpl.h:87-113 | refuses exactly the lengths that are not a positive number of blocks; otherwise transforms the range under the key given |
| `Cipher.CipherKeyGenerator.GetEncryptKey` | src/sgp/protocol/security/CipherKeyGenerator.cpp:75-77 | one generator step for each key taken, on the encrypting side alone |
| `Cipher.CipherKeyGenerator.GetDecryptKey` | src/sgp/protocol/security/CipherKeyGenerator.cpp:79-81 | one generator step for each key taken, on the decrypting side alone |
| `Cipher.CipherKeyGenerator.Reset` | src/sgp/protocol/security/CipherKeyGenerator.cpp:83-92 | both sides return to the default seed |
| `Packets.Get16Put16` | include/sne/sgp/protocol/cs/CsProtocol.h:42-57 | a 16-bit field reads back modulo 65536 |
| `PacketLaws.PacketLayout` | src/sgp/protocol/security/SecurePacketCoder.cpp:146-192 | a secure packet is the size of the padded body, the type, bits 5 to 20 of the key, the bits of the checksum of the padded body or-ed with them, all low octet first, and the padded body through the cipher |
| `PacketLaws.PlainLayout` | src/sgp/protocol/PacketCoder.cpp:33-51 | a plain packet is the size, low octet first, the type and the body |
| `PacketLaws.PacketBlocks` | src/sgp/protocol/security/SecurePacketCoder.cpp:163-180 | block `i` of a secure packet's body is the engine's permutation of block `i` of the padded body, under the expansion of the packet's key |
| `PacketLaws.KeyOfPacket` | src/sgp/protocol/security/CipherKeyGenerator.cpp:75-81 | the `n`-th packet after seeding is sent under the output of the generator after `n` steps, or under the seed of a static one |
| `PacketLaws.AcceptedIffEncoded` | src/sgp/protocol/security/SecurePacketCoder.cpp:195-240 | a packet decodes to a body if and only if the body is whole blocks and, but for size and type, the packet is the one the encoder writes for it |
| `PacketLaws.AlteredHeaderRefused` | src/sgp/protocol/security/SecurePacketCoder.cpp:204-235 | of two packets that differ in fingerprint or checksum alone at most one is accepted |
| `PacketLaws.BadPacketStops` | src/sgp/session/SgpMarshaller.cpp:66-68 | a packet that is not accepted is dropped, hands over nothing and ends reading |
| `PacketLaws.RefusalStops` | src/sgp/session/SgpMarshaller.cpp:77-91 | a message the callback refuses is the last one handed over, whatever follows |
| `PacketLaws.ArrivedAt` | src/sgp/protocol/security/SecurePacketCoder.cpp:266-283 | what arrives has the type and body sent, but for fewer than a block of zeros a secure coder adds |
| `PacketLaws.PaddedIsWhole` | src/sgp/protocol/security/SecurePacketCoder.cpp:266-283 | padding adds the fewest zeros that make whole cipher blocks, so the cipher accepts the body |
| `PacketLaws.UnpacketPacket` | src/sgp/protocol/security/SecurePacketCoder.cpp:146-240 | a packet decoded at the generator state it was encoded at gives the padded body: fingerprint, length and checksum all pass |
| `PacketLaws.StepAppend` | src/sgp/session/SgpMarshaller.cpp:57-94 | a complete packet is read the same whatever follows it |
| `PacketLaws.ConsumeAppend` | src/sgp/session/SgpMarshaller.cpp:53-96 | reading what has arrived and then the rest is reading it all at once, and a failure is final |
| `PacketLaws.ChunkingIrrelevant` | src/sgp/session/SgpMarshaller.cpp:53-96 | for every byte stream, well formed or not, what is delivered up to the first failure and what stays unread depend only on the concatenation of the chunks |
| `PacketLaws.StreamDelivered` | src/sgp/session/SgpMarshaller.cpp:30-96 | the packets of any list of messages are delivered exactly, in order, and both generators have advanced equally |
| `PacketLaws.DeliveredUnderAnyChunking` | src/sgp/session/SgpMarshaller.cpp:53-147 | every list of messages under every split into chunks is delivered in order if and only if every padded body is at most 65535 bytes; then the buffer is empty at the end and the generators in step |
| `PacketLaws.PrefixDelivered` | src/sgp/session/SgpMarshaller.cpp:53-147 | of a stream cut off anywhere, a prefix of the messages is delivered and no failure seen |
| `PacketLaws.DeliveredIffSendable` | include/sne/sgp/protocol/PacketCoder.h:104-106 | for either coder and every list, the messages are delivered exactly and in order if and only if every padded body is at most 65535 bytes, the cast of the size being unchecked |
| `PacketLaws.TooLongIsLost` | src/sgp/protocol/security/SecurePacketCoder.cpp:156-157 | of a longer body the receiver gets nothing or a shorter one in its place |
| `PacketLaws.PaddingOverflows` | src/sgp/protocol/security/SecurePacketCoder.cpp:156-157 | a secure body of 65535 bytes, which fits before padding and is lost after it |
| `PacketLaws.DeliveredGrows` | src/sgp/session/SgpMarshaller.cpp:53-96 | what was delivered is never taken back |
| `Marshaller.PacketCoder.PadBody` | src/sgp/protocol/security/SecurePacketCoder.cpp:266-283 | the loop appends just the zeros that complete the last cipher block and keeps header and body |
| `Marshaller.PacketCoder.SealBody` | src/sgp/protocol/security/SecurePacketCoder.cpp:156-180 | takes one key, and leaves the padded body enciphered under it in place, with the size, fingerprint and checksum of the plain padded body |
| `Marshaller.PacketCoder.Encode` | src/sgp/protocol/PacketCoder.cpp:33-51 | succeeds exactly for a block with room for the header and a valid type; the block is then the packet of the message at the next generator state |
| `Marshaller.PacketCoder.EncodeSecure` | src/sgp/protocol/security/SecurePacketCoder.cpp:146-192 | the in-place secure encoder produces the specified packet and takes one key |
| `Marshaller.PacketCoder.Decode` | src/sgp/protocol/security/SecurePacketCoder.cpp:195-240 | the in-place decoder takes one key and succeeds exactly for the packets AcceptedIffEncoded describes, leaving the plain body |
| `Marshaller.SgpMarshaller.Marshal` | src/sgp/session/SgpMarshaller.cpp:30-50 | the packet of the body at the next generator state, or a failure exactly for an invalid type |
| `Marshaller.SgpMarshaller.ParseHeader` | src/sgp/session/SgpMarshaller.cpp:107-121 | the cached header, old or new, is the header at the front of the unread bytes |
| `Marshaller.SgpMarshaller.ParseMessage` | src/sgp/session/SgpMarshaller.cpp:124-147 | exactly one packet is taken from the front and the message block holds its body, or decoding fails |
| `Marshaller.SgpMarshaller.HandlePacket` | src/sgp/session/SgpMarshaller.cpp:66-93 | one turn of the loop hands over one message or fails, as the step function says, and always shrinks the unread bytes; a failure leaves the header of the dropped packet cached |
| `Marshaller.SgpMarshaller.Unmarshal` | src/sgp/session/SgpMarshaller.cpp:53-96 | hands over exactly what the unread bytes contain up to the first failure and counts the messages; after a success a cached header is the one at the front of the unread bytes, after a failure it is still the one of the packet that failed |
| `Marshaller.SgpMarshaller.Receive` | src/sgp/session/SgpMarshaller.cpp:53-96 | chunk by chunk delivery equals consuming the concatenation |
| `Marshaller.SgpMarshaller.Reset` | src/sgp/session/SgpMarshaller.cpp:21-27 | from any state back to the state of a new connection |
| `Marshaller.Transfer` | src/sgp/session/SgpMarshaller.cpp:30-147 | messages marshalled by one end and cut anywhere arrive at the other exactly and in order if and only if every padded body is at most 65535 bytes, and then nothing is unread and the key generators are in step |
| `Marshaller.Seed` | src/sgp/protocol/security/SecurePacketCoder.cpp:127-136 | the same seeds, crosswise, bring two idle ends in step |
| `Marshaller.Converse` | src/sgp/session/SgpMarshaller.cpp:30-147 | two ends in step stay so in both directions over any conversation: each gets all the other says, in order |
| `WriteSession.RunKeeps` | src/base/session/impl/TcpSessionImpl.cpp:109-152 | after every run of sends, completions, disconnects and timeouts: completed, in flight and queued blocks are the accepted ones in order until a write fails, one write is in flight if and only if the flag is set, a non-empty queue implies it, batches have 1 to 10 blocks, the queue keeps its limit, and blocks are conserved |
| `WriteSession.NextKeeps` | src/base/session/impl/TcpSessionImpl.cpp:472-524 | every handler keeps that invariant |
| `WriteSession.SentKeeps` | src/base/session/impl/TcpSessionImpl.cpp:109-152 | sending keeps it whether the message is refused, queued or written |
| `WriteSession.WriteEndedKeeps` | src/base/session/impl/TcpSessionImpl.cpp:472-524 | a completion, successful or not, before or after a reset, keeps it |
| `WriteSession.ClosedKeeps` | src/base/session/impl/TcpSessionImpl.cpp:297-324 | a reset keeps it |
| `WriteSession.GatheredMoves` | src/base/session/impl/TcpSessionImpl.cpp:240-272 | starting the next write moves the head of the queue, at most ten blocks, into flight and nothing else |
| `WriteSession.RunConserves` | src/base/session/impl/TcpSessionImpl.cpp:109-152 | over a whole run each block is, as often as it was handed over, in exactly one of queue, write in flight, released or dropped |
| `WriteSession.DroppedOnlyByReset` | src/base/session/impl/TcpSessionImpl.cpp:297-314 | a step drops a block unreleased if and only if it is a reset with a gather write in flight |
| `WriteSession.GatherDroppedAtReset` | src/base/session/impl/TcpSessionImpl.cpp:297-314 | a run that does so: of three blocks sent, two are dropped |
| `WriteSession.RunDelivers` | src/base/session/impl/TcpSessionImpl.cpp:109-152 | without failures and limit every interleaving accepts all blocks in order, and all are sent once no write is in flight |
| `WriteSession.AcceptedExactly` | src/base/session/impl/TcpSessionImpl.cpp:109-152 | a message is accepted, at the end of the order, exactly when the connection is open, no disconnect is reserved, the marshaller took it, and no write is pended or the queue is below its limit; otherwise its block is released |
| `WriteSession.BurstAccepted` | src/base/session/impl/TcpSessionImpl.cpp:379-391 | for every limit, of a burst of messages one block for the write in flight and as many as the limit are accepted, the first ones, and the others released |
| `WriteSession.ReservedHolds` | src/base/session/impl/TcpSessionImpl.cpp:99-107 | once a disconnect is reserved, and until the timer speaks, nothing is accepted and no posted disconnect closes the connection |
| `WriteSession.DisconnectCloses` | src/base/session/impl/TcpSessionImpl.cpp:62-96 | a disconnect not held back closes the connection and leaves nothing queued, pended or reserved |
| `WriteSession.DrainSends` | src/base/session/impl/TcpSessionImpl.cpp:240-294 | all accepted blocks are sent after `n` completions if and only if `n` is at least one for the write in flight and one for each ten queued blocks |
| `WriteSession.TcpSession.SendMessage` | src/base/session/impl/TcpSessionImpl.cpp:109-152 | the handler does what the specification of sending says, block ownership included |
| `WriteSession.TcpSession.PopBatch` | src/base/session/impl/TcpSessionImpl.cpp:249-259 | the loop moves the first ten blocks, or all, in order |
| `WriteSession.TcpSession.GatherWrite` | src/base/session/impl/TcpSessionImpl.cpp:240-272 | the handler's next write is the specified one |
| `WriteSession.TcpSession.HandleWrite` | src/base/session/impl/TcpSessionImpl.cpp:472-494 | releases its block in every case and goes on only after a success |
| `WriteSession.TcpSession.ReleaseBatch` | src/base/session/impl/TcpSessionImpl.cpp:502-508 | the loop releases every block of the batch and, after a success, reports each as sent in order |
| `WriteSession.TcpSession.HandleGatherWrite` | src/base/session/impl/TcpSessionImpl.cpp:497-524 | the whole batch ends as specified and the next write starts only after a success |
| `WriteSession.TcpSession.FlushOutputQueue` | src/base/session/impl/TcpSessionImpl.cpp:317-324 | every queued block is released |
| `WriteSession.TcpSession.Reset` | src/base/session/impl/TcpSessionImpl.cpp:297-314 | the queue is released, a batch in flight forgotten |
| `WriteSession.TcpSession.HandleDisconnect` | src/base/session/impl/TcpSessionImpl.cpp:62-96 | gives way to a reserved disconnect and resets only an open connection |
| `WriteSession.TcpSession.TimedOut` | src/base/session/impl/TcpSessionImpl.cpp:428-438 | asks for a disconnect exactly when it was reserved and nothing is pended or queued, and then every accepted block has been sent |
| `WriteSession.Serve` | src/base/session/impl/TcpSessionImpl.cpp:472-524 | the session object follows the specified run for every list of events |
| `ReadSession.BandwidthLimit.Add` | src/base/session/BandwidthLimit.cpp:31-56 | the whole new state: bytes counted, starting over after a second below the limit, the time counting started and the time the limit was first reached; the mark agrees with the count if and only if that was not at clock zero |
| `ReadSession.BandwidthLimit.Check` | src/base/session/BandwidthLimit.cpp:6-28 | refuses exactly while bad for less than the throttling time, and otherwise ends not bad |
| `ReadSession.BandwidthLimit.LeftBytes` | src/base/session/BandwidthLimit.h:29-34 | the unsigned subtraction never wraps while the mark agrees with the count, and wraps exactly when unmarked above the limit |
| `ReadSession.TcpReader.AddInboundBandwidth` | src/base/session/impl/TcpSessionImpl.cpp:403-412 | the bytes received are counted, and the karma is gone exactly when the count reaches the limit and the throttling time has not passed since |
| `ReadSession.TcpReader.ReadMessage` | src/base/session/impl/TcpSessionImpl.cpp:225-237 | the block grows to a third of its capacity of free space if it has less; a posted read has room for at least one byte if and only if there was space or the capacity is at least three |
| `ReadSession.TcpReader.MessageBlockReceived` | src/base/session/impl/TcpSessionImpl.cpp:198-222 | after bytes arrive exactly one of a posted read and an armed throttle timer holds, the timer exactly when the bytes counted reach the limit within the throttling time; and the marshaller has handed over just what all bytes received contain, or the stream is at fault |
| `ReadSession.TcpReader.HandleRead` | src/base/session/impl/TcpSessionImpl.cpp:453-469 | reading stops exactly for a socket error or a stream that cannot be consumed; otherwise the peer is throttled exactly when its bytes reach the limit |
| `ReadSession.TcpReader.HandleDisconnect` | src/base/session/impl/TcpSessionImpl.cpp:297-314 | closing resets the counts, the limiter and the marshaller |
| `ReadSession.TcpReader.HandleTimeout` | src/base/session/impl/TcpSessionImpl.cpp:439-445 | an expired throttle timer is followed by a posted read with the byte count back at zero |
| `ReadSession.TcpReader.GoOn` | src/base/session/impl/TcpSessionImpl.cpp:215-221 | the next read below the limit, the throttle timer at it |
| `ReadSession.TcpReader.Step` | src/base/session/impl/TcpSessionImpl.cpp:198-237 | every event keeps the read side's invariant and takes exactly the bytes of a posted read |
| `ReadSession.Serve` | src/base/session/impl/TcpSessionImpl.cpp:198-237 | every run keeps it, whatever the chunks, clock readings and throttling |
| `ReadSession.HandedOver` | src/base/session/impl/TcpSessionImpl.cpp:198-222 | at any moment of any run, if what was read is a prefix of the peer's packets then what was handed over is a prefix of its messages; once all is read all is handed over, if and only if every padded body is at most 65535 bytes |
| `WorkerPoolLaws.RunKeeps` | src/database/proxy/server/scheduler/ProxyScheduler.cpp:43-124 | in every interleaving, for any number of workers and connections: a worker sleeps in fetch only with an empty queue and no stop; if any thread sleeps in acquire, idle connections never exceed woken threads; requested is processed plus queued; each request is taken at most once and never while a higher one is queued; the idle count is right; no connection is lent twice or pinged while lent; after stop each worker takes at most one request |
| `WorkerPoolLaws.NextKeeps` | src/database/proxy/server/scheduler/ProxyScheduler.cpp:58-124 | every atomic step keeps that invariant |
| `WorkerPoolLaws.LoggedScheduled` | src/database/proxy/server/scheduler/ProxyScheduler.cpp:58-82 | scheduling adds one request that was never seen before |
| `WorkerPoolLaws.RunAsAsked` | src/database/proxy/server/scheduler/ProxyScheduler.cpp:58-82 | over every run the requests scheduled are numbered in order and have the priorities asked for, and the counters are the numbers of requests scheduled and taken |
| `WorkerPoolLaws.StopIffAsked` | src/database/proxy/server/scheduler/ProxyScheduler.cpp:43-55 | the pool is stopped exactly after a stop was asked for |
| `WorkerPoolLaws.AtMostOneLate` | src/database/proxy/server/scheduler/ProxyScheduler.cpp:93-124 | read off the run itself, no worker takes more than one request after the stop |
| `WorkerPoolLaws.LateFetchesCount` | src/database/proxy/server/scheduler/ProxyScheduler.cpp:93-108 | the late fetches counted in the state are those of the run |
| `WorkerPoolLaws.LoggedTaken` | src/database/proxy/server/scheduler/ProxyScheduler.cpp:93-108 | taking the top keeps the log free of repetition and in priority order |
| `WorkerPoolLaws.FindsIdle` | src/database/DatabasePool.cpp:86-101 | a positive idle count always finds an idle item |
| `WorkerPoolLaws.LendingAcquired` | src/database/DatabasePool.cpp:82-102 | acquire lends an idle connection to one worker only |
| `WorkerPoolLaws.LendingReleased` | src/database/DatabasePool.cpp:105-121 | release makes the connection idle again and the count follows |
| `WorkerPoolLaws.ReleaseAwake` | src/database/DatabasePool.cpp:105-121 | release wakes a sleeper for the connection it returns |
| `WorkerPoolLaws.PingKeeps` | src/database/DatabasePool.cpp:70-79 | pinging keeps the invariant, by which an item being pinged is idle |
| `WorkerPoolLaws.PingVisitsIdle` | src/database/DatabasePool.cpp:70-79 | the pinging thread visits exactly the idle items, each once, in order |
| `WorkerPoolLaws.LockedWhilePinging` | src/database/DatabasePool.cpp:70-79 | while it does, no step of any thread lends or returns a connection |
| `WorkerPoolLaws.NoDeadlock` | src/database/DatabasePool.cpp:82-121 | with at least one connection every reachable state lets some thread step, or all workers sleep with nothing to do or have exited |
| `WorkerPoolLaws.NothingWithoutConnections` | src/database/DatabasePool.cpp:86-88 | without connections no request is ever called |
| `WorkerPoolLaws.StuckWithoutConnections` | src/database/DatabasePool.cpp:86-88 | without connections any number of workers reaches a deadlock: no thread can step and work is left |
| `WorkerPoolLaws.NoDeadlockIff` | src/database/DatabasePool.cpp:82-121 | no reachable state is deadlocked if and only if there is a connection |
| `WorkerPoolLaws.RunToRest` | src/database/proxy/server/scheduler/ProxyScheduler.cpp:93-124 | from any state the threads can be run to a rest |
| `WorkerPoolLaws.WorkDrains` | src/database/proxy/server/scheduler/ProxyScheduler.cpp:93-124 | left alone, the threads come to rest within a bound however they are scheduled: then every request ever scheduled has been called and has returned, or all workers have exited after a stop, and all connections are idle |
| `WorkerPoolLaws.StepDecreases` | src/database/proxy/server/scheduler/ProxyScheduler.cpp:93-124 | every step of a thread lowers the bound |
| `DatabasePool.Pool.Acquire` | src/database/DatabasePool.cpp:89-101 | the scan takes the first idle item and the count follows |
| `DatabasePool.Pool.Release` | src/database/DatabasePool.cpp:109-121 | the scan marks exactly the item released as idle |
| `DatabasePool.Pool.EnumerateIdle` | src/database/DatabasePool.cpp:70-79 | exactly the idle items are visited, once each, in order |
| `Allocators.LowerBound` | include/sne/base/memory/MemoryPool.h:226-229 | splits a sorted sequence into the elements below the key and those not below it |
| `Allocators.MemoryPool.constructor` | include/sne/base/memory/MemoryPool.h:81-98 | an initialised pool has pool size plus spare resources, all waiting, the spare being a tenth of the pool size and at least one |
| `Allocators.MemoryPool.PrepareResources` | include/sne/base/memory/MemoryPool.h:185-206 | the queue is filled up to pool size plus spare with addresses not in use, and nothing already there changes |
| `Allocators.MemoryPool.InsertActive` | include/sne/base/memory/MemoryPool.h:214-224 | the active vector stays strictly sorted and gains exactly the resource |
| `Allocators.MemoryPool.Acquire` | include/sne/base/memory/MemoryPool.h:101-120 | gives out a resource that was not out, the longest waiting one; a growable pool never refuses and another refuses if and only if pool-size resources are out |
| `Allocators.MemoryPool.Release` | include/sne/base/memory/MemoryPool.h:123-136 | a resource that is out goes to the back of the queue, any other pointer changes nothing |
| `Allocators.RunPool` | include/sne/base/memory/MemoryPool.h:94-136 | in every run the active vector is strictly sorted and disjoint from the queue, together they are all resources, and there are at most peak active plus pool size plus spare |
| `Allocators.VariousMemoryAllocator.Malloc` | include/sne/base/memory/VariousMemoryAllocator.h:76-99 | the smallest cached block that fits, or a new one of exactly the size if none does; it was not lent and is no longer cached |
| `Allocators.VariousMemoryAllocator.Free` | include/sne/base/memory/VariousMemoryAllocator.h:115-123 | the block is cached again under the size it was made with; a null pointer changes nothing |
| `Allocators.VariousMemoryAllocator.Find` | include/sne/base/memory/VariousMemoryAllocator.h:152-155 | the position before which all cached blocks are too small |
| `Allocators.VariousMemoryAllocator.constructor` | include/sne/base/memory/VariousMemoryAllocator.h:133-139 | the preallocated cache is valid |
| `Allocators.RunHeap` | include/sne/base/memory/VariousMemoryAllocator.h:76-155 | in every run the cache stays sorted by size, no block is both cached and lent, no chunk changes size, and pointers out are distinct |

## Left out

- Widths 32 to 63 of 64-bit fields: the mask is computed in `int`, so these have no defined meaning; 64-bit fields are stated for 1 to 31 and 64.
- Wide strings outside UTF-8 mode, `bool`, floating point and enumeration fields, set and array containers: they add only easy members.
- Strings read with another length limit or size-field width than they were written with.
- Integer limits of counters and sizes (total bit count, statistics, request identifiers wrapping at 2^32): they are unbounded here, and a request is identified by its place in the order of scheduling.
- Big-endian hosts.
- Vector growth in `OBitStream`: the stream's buffer is the plain queue, so it is never out of memory; the exact capacity of a grown vector is that asked for.
- The cipher's block permutation, the CRC and the random generator step are arbitrary functions (the permutation invertible); seed exchange between client and server is not modelled.
- Iteration order of maps is the order of the entries given.
- Dispatch through virtual functions: coders, buffers and generators are told apart by a data type or a class of their own.
- WorkerPool, WorkerPoolLaws: concurrency is a state machine on values whose steps are the critical sections; update in place is shown for the connection pool in `DatabasePool` alone, and the priority queue's heap is not modelled.
- ReadSession.TcpReader.HandleRead: models no read completion that arrives after the disconnect handler has run, because it belongs to the next use of the session.
- WriteSession.TcpSession.TimedOut: makes no claim that a graceful disconnect ever completes, because the timer clears its flag after the callback and so undoes a timer re-armed inside it.
- ReadSession.Serve: the application's answer to a message is a function of the messages so far; messages swallowed while a disconnect is reserved count as handed over.
- Session reuse, connecting and accepting, sockets, logging, configuration, `MessagingExtension`, RPC macros and identifier hashing, database access.
- `destroy` and `forEachActiveResources` of the pool, `calloc` of the allocator, thread safety of both beyond their lock.

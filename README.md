# RadioPacket framing stack in Dafny

This project models the byte-level framing stack of the RadioPacket library. The library carries messages over a radio link whose
transport moves at most 255 bytes per frame. There are four layers, leaf first:

- **Util** (`util.dfy`, module `Util`) holds the host/network byte-order helpers (`htons`, `ntohs`, `htonl`,
  `ntohl`, `htonll`, `ntohll`) for a little-endian host. It also has `zero`, and `crc8`/`crc16` as a fold of an
  abstract per-byte step. Byte strings are `seq<u8>`. `ToBytesBE`/`FromBytesBE` state the network byte order
  (most significant byte first). `ToBytesLE`/`FromBytesLE` state how a little-endian host lays a value out in memory.
- **ExpandingArray** (`buffers.dfy`, module `Buffers`) is the growable byte buffer. It is a class owning an
  `array?<u8>` (null before the first allocation) and a logical length kept apart from the capacity. The
  `IndexType` template parameter becomes the constant `indexLimit`. `Contents()` is the live prefix.
- **NetworkBuffer** (`network_buffer.dfy`) provides big-endian reads and writes of 8/16/32/64-bit values at
  offsets of an ExpandingArray. NetworkBuffer derives from ExpandingArray and adds no state, so its members are
  methods taking the buffer.
- **Message** (`message.dfy`, module `MessageCodec`) is a 4-byte header, holding the body length and the action
  (both big-endian u16), followed by up to 65531 body bytes. Its storage is indexed by `uint16_t`.
- **RadioPacket** (`packet.dfy`, module `PacketCodec`) is a 9-byte header followed by up to 246 body bytes. The
  header holds the packet length, version, transmitter id, receiver id, fragment number, body length and CRC-8.
  Its storage is indexed by `uint8_t`. The module also covers `generateChecksum`, `getMessage`, `parse`,
  fragmentation and reassembly.

`parse` takes a `T**` out-parameter and returns a status in the source. Here it is a static method that returns a
status and either a new object or `null`. Each status is given by a pure classifier (`Classify`), and pure
encoders (`MessageCodec.Serialize`, `PacketCodec.Frame`) give the round trips a partner.

Where the source is evidently wrong, the model follows the intended behaviour. The written behaviour is kept
beside it with a lemma that exhibits the difference (see "## Findings").

## Model

| member | source | states |
|---|---|---|
| Util.Bswap16 | src/Util.h:53-59 | the byte swap of a u16 puts the low byte high and the high byte low |
| Util.Bswap32 | src/Util.h:79-85 | the big-endian bytes of the result are those of the argument reversed |
| Util.Bswap64 | src/Util.h:105-111 | the eight big-endian bytes of the result are those of the argument reversed |
| Util.Htons | src/Util.h:53-59 | on a little-endian host the result's memory bytes are the argument in network order |
| Util.Ntohs | src/Util.h:66-72 | the result is the value whose network-order bytes are the argument's memory bytes |
| Util.Htonl | src/Util.h:79-85 | as Htons, for four bytes |
| Util.Ntohl | src/Util.h:92-98 | as Ntohs, for four bytes |
| Util.Htonll | src/Util.h:105-111 | as Htons, for eight bytes |
| Util.Ntohll | src/Util.h:118-124 | as Ntohs, for eight bytes |
| Util.NtohsHtons | Util.h:44-58 | ntohs and htons invert each other, in both orders, for every u16 |
| Util.NtohlHtonl | Util.h:60-74 | ntohl and htonl invert each other for every u32 |
| Util.NtohllHtonll | Util.h:76-90 | ntohll and htonll invert each other for every u64 |
| Util.ByteSwapInvolutive | src/Util.h:53-124 | swapping the bytes twice gives back every value of the width |
| Util.HostBytesOfSwapped | src/Util.h:53-124 | a swapped value is stored in little-endian memory as the original's big-endian bytes |
| Util.SwappedHostValue | src/Util.h:53-124 | swapping the value read from little-endian memory gives the big-endian reading of the same bytes |
| Util.Crc8 | src/Util.h:133-143 | a null data pointer returns the algorithm's initial value; no bytes return the given crc |
| Util.Crc16 | src/Util.h:145-155 | the same for the 16-bit CRC |
| Util.Crc8Incremental | RadioPacket.cpp:183-195 | feeding two pieces in turn, each seeded with the last result, checksums their concatenation |
| Util.Zero | src/Util.h:126-131 | the first len elements become 0 and the rest are unchanged |
| Buffers.GrowthAsWrittenIsWrong | ExpandingArray.h:264 | the growth formula as written asks for length 2 where 6 is needed, and for 65535 where 9 is needed |
| Buffers.ExpandingArray.constructor | ExpandingArray.h:65-67 | a new array has the given length, fresh storage and a valid state |
| Buffers.ExpandingArray.FromBytes | ExpandingArray.h:72-75 | the live bytes are exactly the given bytes |
| Buffers.ExpandingArray.Copy | ExpandingArray.h:80-83 | a deep copy: same live bytes in fresh storage |
| Buffers.ExpandingArray.At | ExpandingArray.h:96-98 | reading index i gives the i-th live byte |
| Buffers.ExpandingArray.SetAt | ExpandingArray.h:92-94 | writing index i changes that live byte only |
| Buffers.ExpandingArray.Capacity | ExpandingArray.h:48-51 | `_arrayLength`: in a valid state the storage holds every live byte and its size fits IndexType |
| Buffers.ExpandingArray.IndexInRange | ExpandingArray.h:54-58 | `_indexInRange`: in a valid state true exactly for the live offsets |
| Buffers.ExpandingArray.Length | ExpandingArray.h:194-196 | the length is the number of live bytes and fits IndexType |
| Buffers.ExpandingArray.Allocate | ExpandingArray.h:104-136 | the length never changes; a no-op when storage exists and n is at most the length; otherwise fresh storage of capacity n, keeping the live bytes when copy |
| Buffers.ExpandingArray.Clear | ExpandingArray.h:143-151 | the length becomes 0 and the storage is kept; with zero (default false) every allocated byte becomes 0, otherwise the stored bytes are kept |
| Buffers.ExpandingArray.ClearZeroThenResize | ExpandingArray.h:143-151 | clear(true) followed by resize(n, false) within the storage leaves n zero bytes live |
| Buffers.ExpandingArray.Reclaim | ExpandingArray.h:170-189 | the live bytes are kept; the capacity becomes the length, or nothing changes when it already is |
| Buffers.ExpandingArray.CopyFrom | ExpandingArray.h:244-246 | copyFromAt at offset 0 |
| Buffers.ExpandingArray.CopyFromAt | ExpandingArray.h:251-269 | with a non-empty source at a live offset, src overwrites [i, i+len) and the length grows to i+len if needed; otherwise nothing changes |
| Buffers.ExpandingArray.CopyTo | ExpandingArray.h:276-278 | copyToAt from 0, where len 0 means the whole live prefix |
| Buffers.ExpandingArray.CopyToAt | ExpandingArray.h:283-299 | when [i, i+len) is live, exactly those bytes land at the front of dst and the rest of dst is kept; otherwise dst is unchanged |
| Buffers.ExpandingArray.Resize | ExpandingArray.h:305-328 | the length becomes n; storage and all stored bytes are kept when it already holds n; a shrink keeps the prefix; with copy, growth keeps the old live bytes |
| NetworkBuffer.SetUInt8 | NetworkBuffer.h:35-37 | a copyFromAt of the raw bytes |
| NetworkBuffer.SetUInt16 | NetworkBuffer.h:39-42 | the two bytes at offset become the value, high byte first; a non-live offset changes nothing |
| NetworkBuffer.SetUInt32 | NetworkBuffer.h:44-47 | the four bytes at offset become the value, most significant first |
| NetworkBuffer.SetUInt64 | NetworkBuffer.h:49-52 | the eight bytes at offset become the value, most significant first |
| NetworkBuffer.GetUInt8 | NetworkBuffer.h:54-56 | a copyToAt of the raw bytes; the buffer is not modified |
| NetworkBuffer.GetUInt16 | NetworkBuffer.h:58-62 | the big-endian value of the two live bytes at offset; the buffer is not modified |
| NetworkBuffer.GetUInt32 | NetworkBuffer.h:64-68 | the big-endian value of four live bytes |
| NetworkBuffer.GetUInt64 | NetworkBuffer.h:70-74 | the big-endian value of eight live bytes |
| NetworkBuffer.GetAfterSet | NetworkBuffer.h:39-74 | reading the n bytes just written at a live offset gives back the value written |
| NetworkBuffer.SetKeepsOtherBytes | NetworkBuffer.h:39-42 | a write inside the live bytes keeps the length and every byte outside the written range |
| MessageCodec.StatusCodesDistinct | Message.h:58-61 | the four parse codes are distinct |
| MessageCodec.SerializeFields | Message.h:30-45 | body length at bytes 0-1 and action at 2-3, big-endian; the body starts at 4 |
| MessageCodec.SerializeExample | Message.h:30-36 | action 0x1234 with body AA BB CC is 00 03 12 34 AA BB CC |
| MessageCodec.FromBaseBodyOffset | src/Message.cpp:83-85 | 4 + offset for every body offset; the uint16_t wrap above that |
| MessageCodec.BodyLengthExceededUnreachable | src/Message.cpp:150-160 | with a uint16_t length the BODY_LENGTH_EXCEEDED status never results |
| MessageCodec.ParseSerialized | src/Message.cpp:140-166 | a serialized message followed by any bytes classifies OK and its declared prefix is that message |
| MessageCodec.UnderSupplyCheckAsWrittenIsInverted | src/Message.cpp:151 | the written test accepts a header declaring 3 body bytes with none present, and rejects a message with one surplus byte |
| MessageCodec.Classify | src/Message.cpp:140-160 | the status of parse in terms of the buffer: INSUFFICIENT_HEADER_BYTES exactly below 4 bytes, INSUFFICIENT_BUFFER_BYTES exactly when the declared body is longer than the bytes after the header, OK exactly when the header is present and the declared body is supplied and within 65531 bytes (the corrected supply test, see Findings) |
| MessageCodec.Message.HeaderData | src/Message.cpp:132-134 | the first four bytes of the message |
| MessageCodec.Message.Data | Message.h:53 | a message holds at least the header and at most 65535 bytes |
| MessageCodec.Message.BodyData | src/Message.cpp:128-138 | header data followed by body data is the whole message |
| MessageCodec.Message.GetMessageLength | src/Message.cpp:87-89 | the number of bytes, 4 plus the body length |
| MessageCodec.Message.constructor | src/Message.cpp:54-56 | a new message is exactly the default header 00 00 00 00 |
| MessageCodec.Message.WithBody | src/Message.cpp:58-61 | the default header with the body data: action 0, body length and body from the argument |
| MessageCodec.Message.Init | src/Message.cpp:36-40 | the bytes become the default header |
| MessageCodec.Message.Reset | src/Message.cpp:91-93 | the bytes become the default header |
| MessageCodec.Message.GetRawBodyLength | src/Message.cpp:67-69 | the big-endian u16 at offset 0 |
| MessageCodec.Message.GetRawAction | src/Message.cpp:71-73 | the big-endian u16 at offset 2 |
| MessageCodec.Message.SetRawBodyLength | src/Message.cpp:75-77 | bytes 0-1 become len and everything else is kept; the getter then returns len |
| MessageCodec.Message.SetRawAction | src/Message.cpp:79-81 | bytes 2-3 become the action and everything else is kept; the getter then returns it |
| MessageCodec.Message.ResizeBody | src/Message.cpp:105-126 | for n up to 65531 the length is 4+n, the length field n, the action kept, and with copy the surviving body kept; above that nothing changes |
| MessageCodec.Message.SetBodyData | src/Message.cpp:95-103 | the body becomes the data, the length field its length, and the action is kept |
| MessageCodec.Message.Parse | src/Message.cpp:140-166 | the status is the classifier's (header, then supply, then limit); on OK a fresh message holding the header and declared body of the buffer; otherwise no message |
| MessageCodec.ResizeBodyKeepsBody | Message.h:81 | resizeBody called without its copy argument keeps the body: the body has the new length and its first min(new, old) bytes are the old ones |
| MessageCodec.BuildAndParse | src/Message.cpp:79-166 | a message built from an action and a body serializes to them, and parsing its bytes returns the same action and body |
| PacketCodec.StatusCodesDistinct | RadioPacket.h:78-81 | the four parse codes are distinct |
| PacketCodec.DecodeEncodeHeader | RadioPacket.h:31-47 | decoding an encoded header gives back every field |
| PacketCodec.EncodeDecodeHeader | RadioPacket.h:31-47 | encoding the decoded fields of nine bytes gives back the bytes |
| PacketCodec.DefaultHeaderFields | RadioPacket.h:60-69 | the default header 09 01 00 00 FF FF 01 00 00 is length 9, version 1, transmitter 0, receiver 0xFFFF, fragment 1, body 0, CRC 0 |
| PacketCodec.FrameFields | RadioPacket.h:31-47 | a frame's fields read back as its header with both lengths set from the body, and its declared body is the body |
| PacketCodec.Classify | RadioPacket.cpp:205-226 | the status of parse in terms of the buffer: INCOMPLETE_HEADER exactly below 9 bytes, INSUFFICIENT_BYTES exactly when byte 7 exceeds the bytes after the header, MAX_LENGTH_EXCEEDED exactly when it is supplied but above 246, OK otherwise |
| PacketCodec.ParseFrame | RadioPacket.cpp:205-235 | a frame followed by any bytes classifies OK and parse rebuilds exactly that frame |
| PacketCodec.ParseIgnoresLengthField | RadioPacket.cpp:205-235 | the status and the parsed packet do not depend on the packet-length byte |
| PacketCodec.MaxLengthExceededReachable | RadioPacket.cpp:222-226 | a body-length field of 250 with 250 bytes present is rejected as MAX_LENGTH_EXCEEDED |
| PacketCodec.ChecksumIgnoresCrcField | RadioPacket.h:138-143 | writing any value into the CRC byte leaves the checksummed bytes unchanged |
| PacketCodec.FrameChecksumIgnoresCrc | RadioPacket.cpp:181-199 | two frames that differ only in the CRC field have the same checksum |
| PacketCodec.CalculateFragmentNumber | RadioPacket.cpp:237-240 | the ceiling of len/246 for every length whose count fits a uint8_t |
| PacketCodec.FlattenChunks | RadioPacket.cpp:242-262 | the first n fragment bodies put together are the first n*246 bytes of the data |
| PacketCodec.ChunksCoverData | RadioPacket.cpp:242-262 | the fragment bodies calculateFragmentNumber counts put together are exactly the data |
| PacketCodec.ChunkLengths | RadioPacket.cpp:252-254 | every fragment but the last carries 246 bytes, and the last carries the remaining 1 to 246 |
| PacketCodec.Fragment2AsWrittenOverreads | RadioPacket.cpp:252-254 | for 10 bytes of data the written length reads 246 source bytes; the intended chunk is the data itself |
| PacketCodec.DefragmentCountAsWrittenIsOffByOne | RadioPacket.cpp:305-306 | after copying 3 bytes the written return value is 4, and after copying none it is 1 |
| PacketCodec.MessageInFrame | RadioPacket.cpp:166-179 | a packet whose body is a serialized message parses back to that message |
| PacketCodec.RadioPacket.Data | RadioPacket.h:73 | a packet holds at least the header and at most 255 bytes |
| PacketCodec.RadioPacket.HeaderData | RadioPacket.cpp:122-124 | the first nine bytes of the packet |
| PacketCodec.RadioPacket.BodyData | RadioPacket.cpp:118-128 | header data followed by body data is the whole packet |
| PacketCodec.RadioPacket.DeclaredBody | RadioPacket.cpp:192-195 | the body as the body-length field delimits it, at most 246 bytes |
| PacketCodec.RadioPacket.constructor | RadioPacket.cpp:49-51 | a new packet is exactly the default header |
| PacketCodec.RadioPacket.WithBody | RadioPacket.cpp:53-56 | the default header fields framed around the body |
| PacketCodec.RadioPacket.Init | RadioPacket.cpp:31-35 | the bytes become the default header |
| PacketCodec.RadioPacket.Reset | RadioPacket.cpp:201-203 | the bytes become the default header with no body |
| PacketCodec.RadioPacket.GetRawPacketLength | RadioPacket.cpp:90-92 | the packet-length field |
| PacketCodec.RadioPacket.GetRawVersion | RadioPacket.cpp:94-96 | the version field |
| PacketCodec.RadioPacket.GetRawTransmitterId | RadioPacket.cpp:98-100 | the big-endian transmitter id at bytes 2-3 |
| PacketCodec.RadioPacket.GetRawReceiverId | RadioPacket.cpp:102-104 | the big-endian receiver id at bytes 4-5 |
| PacketCodec.RadioPacket.GetRawFragmentNumber | RadioPacket.cpp:106-108 | the fragment-number field |
| PacketCodec.RadioPacket.GetRawBodyLength | RadioPacket.cpp:110-112 | the body-length field |
| PacketCodec.RadioPacket.GetRawCrc8 | RadioPacket.cpp:114-116 | the CRC field |
| PacketCodec.RadioPacket.SetRawPacketLength | RadioPacket.cpp:62-64 | byte 0 becomes the value and nothing else changes |
| PacketCodec.RadioPacket.SetRawVersion | RadioPacket.cpp:66-68 | byte 1 becomes the value and nothing else changes |
| PacketCodec.RadioPacket.SetRawTransmitterId | RadioPacket.cpp:70-72 | bytes 2-3 become the id, high byte first; the decoded header differs only in the transmitter id |
| PacketCodec.RadioPacket.SetRawReceiverId | RadioPacket.cpp:74-76 | bytes 4-5 become the id, high byte first; the decoded header differs only in the receiver id |
| PacketCodec.RadioPacket.SetRawFragmentNumber | RadioPacket.cpp:78-80 | byte 6 becomes the value and nothing else changes |
| PacketCodec.RadioPacket.SetRawBodyLength | RadioPacket.cpp:82-84 | byte 7 becomes the value and nothing else changes |
| PacketCodec.RadioPacket.SetRawCrc8 | RadioPacket.cpp:86-88 | byte 8 becomes the value and nothing else changes |
| PacketCodec.RadioPacket.ResizeBody | RadioPacket.cpp:144-164 | for n up to 246 the length is 9+n, byte 0 is 9+n, byte 7 is n, the other header bytes are kept, and with copy the surviving body is kept; above that nothing changes |
| PacketCodec.RadioPacket.SetBodyData | RadioPacket.cpp:138-142 | the body becomes the data and only the two length fields of the header change |
| PacketCodec.RadioPacket.GenerateChecksum | RadioPacket.cpp:181-199 | the CRC fold, from the initial value, of header bytes 0-7 followed by the declared body |
| PacketCodec.RadioPacket.GetMessage | RadioPacket.cpp:166-179 | a fresh message exactly when the declared body parses as one, holding its declared prefix; otherwise null |
| PacketCodec.RadioPacket.Parse | RadioPacket.cpp:205-235 | the status is INCOMPLETE_HEADER, INSUFFICIENT_BYTES, MAX_LENGTH_EXCEEDED or OK in that order; on OK a fresh packet with header bytes 1-8 and the body from the buffer, and byte 0 rewritten to 9 plus the body length |
| PacketCodec.RadioPacket.Fragment2 | RadioPacket.cpp:242-262 | ceil(len/246) fresh packets, packet f numbered f and framing the f-th chunk of the data; the rest of the array is kept |
| PacketCodec.RadioPacket.CopyDeclaredBodyTo | RadioPacket.cpp:296-299 | the declared body lands at the offset and no other byte of the destination changes |
| PacketCodec.RadioPacket.Defragment | RadioPacket.cpp:290-308 | the declared bodies, in array order, fill the front of data; the bytes after them are kept; the count returned is their total length, which fits a uint16_t |
| PacketCodec.FragmentAndReassemble | RadioPacket.cpp:242-308 | fragmenting any data of up to 255*246 bytes and defragmenting the packets gives back the data |
| PacketCodec.ResizeBodyKeepsBody | RadioPacket.h:130 | resizeBody called without its copy argument keeps the body: the body has the new length and its first min(new, old) bytes are the old ones |
| PacketCodec.AddressFrame | RadioPacket.cpp:70-76 | writing the transmitter id, then the receiver id, over a frame gives the frame of the header with both ids replaced |
| PacketCodec.Addressed | RadioPacket.cpp:53-76 | a packet built around a body with both ids set is the default header with those ids, framed around the body |
| PacketCodec.CarryMessage | RadioPacket.cpp:166-235 | a message framed in a packet, sent with trailing bytes, parses back to the same transmitter, receiver, action and body |

## Left out

- Pointers: `ptr`, `end` and `idx`, and the `getData`/`getHeaderData`/`getBodyData` pointers, are modelled as slices of the live bytes (`Data`, `HeaderData`, `BodyData`). Pointer identity and pointer arithmetic are not modelled. A null source or destination pointer is not representable, so the early returns for `data == nullptr` in `copyFromAt` and `copyToAt` have no counterpart.
- Heap ownership: `new`/`delete`, `dispose` (it leaves a dangling `_data` and a stale capacity) and the destructors are not modelled. A failing `parse` deletes its object and leaves the caller's pointer dangling; the model returns `null` instead.
- The `zero` flags of `allocate`, `reclaim` and `dispose` are not modelled. Each zeroes the old storage just before deleting it, so nothing can read the zeros afterwards. The `zero` flag of `clear` is modelled, because the storage is kept.
- Default arguments are modelled as Dafny default parameter values (`copy := true` on `resize`, `allocate` and `resizeBody`, `zero := false` on `clear`, `i := 0` and `len := 0` on the copy operations, `offset := 0` on `fromBaseBodyOffset`, `len := 0` on the constructor). The `zero` argument of `allocate` is left out, as above.
- Storage allocated without copying: no contract promises anything about those bytes.
- The bodies of `crc8`, `crc16`, `crc8_slow` and `crc8_fast`, and `crc8_table`, are not part of this model. The CRC is a fold of a per-byte step passed in as `CrcAlgorithm`, so no polynomial is assumed.
- The big-endian-host branches of the byte-order helpers are not modelled (in `htonll` that branch returns an undeclared `l`).
- The copy constructors of `Message` and `RadioPacket` make a shallow copy of the storage pointer, which is freed twice. They are not modelled. The deep copy constructor of ExpandingArray is.
- `copyHeader` and `copyBody` do not compile (wrong arity, missing semicolon) and are not modelled.
- `fragment` (including the chunk length at RadioPacket.cpp:277) is not modelled. Its `uint16_t` counter wraps for lengths that are not multiples of 246. Only `fragment2` is modelled, with the corrected chunk length.
- The `len < 0` tests on unsigned types are always false and are not modelled.
- Radio transport, Manchester encoding and action dispatch are not part of this code.
- PacketCodec.CalculateFragmentNumber: the floating-point `ceil(len / 246.0)` is integer ceiling division. C++ leaves the conversion of a result above 255 to `uint8_t` undefined; the model takes it modulo 256. The ceiling is promised only for lengths up to 255*246.
- Buffers.ExpandingArray.CopyFromAt: requires the end of the copy to fit in IndexType. The source would grow through the faulty formula and truncate in that case.
- MessageCodec.Message.SetBodyData: requires the body to fit the format (65531 bytes). The source bails out of `resizeBody` but still copies through the faulty growth path.
- PacketCodec.RadioPacket.SetBodyData: requires at most 246 body bytes, for the same reason as the Message version.
- PacketCodec.RadioPacket.GenerateChecksum: requires the body-length field not to claim more bytes than the packet holds. The source reads past the live bytes in that case.
- PacketCodec.RadioPacket.GetMessage: requires the body-length field to fit, as for GenerateChecksum.
- PacketCodec.RadioPacket.Defragment: requires every packet to be non-null and valid, with a body-length field that fits, storage other than `data`, and the declared body named by the ghost parameter `bodies`. It also requires `data` to have room for all the bodies.
- NetworkBuffer.GetUInt16: promises nothing when the two bytes are not live. The source returns an uninitialised variable then. The same holds for GetUInt32 and GetUInt64.

## Findings

| source | as written | input that shows it | evidently intended | confidence | as-written member | corrected member |
|---|---|---|---|---|---|---|
| ExpandingArray.h:264 | grows to `length + (length - (i + len))`, wrapping in size_t and truncating to IndexType | 16-bit index, length 4, copy 4 bytes at offset 2: asks for length 2 | grow to `i + len` | not executed | Buffers.GrowthAsWrittenIsWrong | Buffers.ExpandingArray.CopyFromAt |
| src/Message.cpp:151 | rejects when `declared < len - 4` | buffer `00 03 00 00` passes; a message with one surplus byte is rejected | reject when `declared > len - 4` | not executed | MessageCodec.UnderSupplyCheckAsWrittenIsInverted | MessageCodec.Message.Parse |
| RadioPacket.cpp:254 | every fragment copies 246 bytes | 10 bytes of data: 246 bytes read from a 10-byte source | `min(246, len - f*246)` bytes | not executed | PacketCodec.Fragment2AsWrittenOverreads | PacketCodec.RadioPacket.Fragment2 |
| RadioPacket.cpp:306 | returns `byteOffset + 1` | one packet with a 3-byte body: returns 4 | `byteOffset` | not executed | PacketCodec.DefragmentCountAsWrittenIsOffByOne | PacketCodec.RadioPacket.Defragment |

# zeddy wire codec and ring buffers, in Dafny

This project models three sequential pieces of zeddy's video transport:

- **The byte codec** of `util/parser.hh`. `Parser` decodes untrusted input big-endian. It keeps a sticky error flag and never reads past its input. `Serializer` encodes big-endian into a fixed output span and throws when a write does not fit.
- **The wire types** of `network/formats.hh`:
  - `NetInteger`;
  - `NetArray<T, N>`, a one-byte length followed by that many elements;
  - the length-prefixed byte buffers (`StackBuffer`, with `NetString` as the 255-byte instance);
  - the records composed from them: `VideoChunk`, `Packet` with its sender and receiver sections and side channel, `Record`, and `KeyMessage`.
- **The ring buffers** of `util/typed_ring_buffer.hh`:
  - `TypedRingBuffer`, a FIFO with cumulative pushed/popped counters;
  - `EndlessBuffer`, a window `[popped, popped + C)` of absolute positions with random access inside it and eviction that resets slots to `T{}`;
  - `SafeEndlessBuffer`, which tolerates positions outside the window.

Everything is a pure function over immutable values.

- A parser is its unread input plus the error flag.
- A serializer is the bytes written, the free span and the original size.
- A thrown exception becomes a `Failure` of the `Results.Result` type.
- An `abort()` becomes a predicate:
  - `check_bounds`'s abort becomes `RingBuffers.CheckBounds`, which `Region`, `At` and `SetAt` require of their callers;
  - the parser destructor's abort on a set flag is only defined, as `Codec.MayBeDestroyed`, and `clear_error` is proved to establish it. No member models the end of a parser's life, so no caller is bound by it.

Each operation has a partner the proofs connect it to:

- Each wire type has a reference encoding (`EncodeChunk`, `EncodeArray`, `EncodePacket`, ...).
- Lemmas show that `serialize` writes exactly that encoding, that `parse` reads it back, and that `parse` sets the error on every truncation of it (`RejectsTruncated`).
- The ring buffers are related to their element-by-position reading (`Cell`).

Files and modules:

| file | module | contents |
|---|---|---|
| results.dfy | `Results` | `Result`, `Check` and the faults the source throws |
| big_endian.dfy | `BigEndian` | byte types, big-endian value and bytes, both round trips |
| codec.dfy | `Codec` | `Parser` and `Serializer` |
| wire_types.dfy | `WireTypes` | `NetInteger`, `NetArray`, length-prefixed buffers, `NetString` |
| formats.dfy | `Formats` | `VideoChunk`, `Packet`, `Record`, `KeyMessage` |
| ring_storage.dfy | `RingStorage` | C slots indexed by absolute position modulo C |
| ring_buffers.dfy | `RingBuffers` | `TypedRingBuffer`, `EndlessBuffer`, `SafeEndlessBuffer` |

Assumptions about code outside this model:

- The bodies of `VideoChunk` and `Packet`'s `serialized_length`/`serialize`/`parse`, of `KeyMessage::serialize`/`parse` and of `SenderSection::to_record` live in a .cc that is not part of this model. They are modelled as:
  - field-by-field composition in declaration order (for `KeyMessage`: the `id` integer, then the key pair through `Serializer::object` and `Parser::object`);
  - `to_record` as `push_back` of each chunk's `frame_index`.
- `StackBuffer` is not part of this model. A buffer is modelled as:
  - on the wire, its length as a `LenT` integer followed by the bytes;
  - on parse, a length above the capacity sets the error flag; otherwise the buffer is resized (prefix kept, zero fill) and filled by `Parser::string`.
- A `bool` field goes through the integer path as one byte: written as 0/1, read back as "non-zero".
- `KeyPair` (crypto.hh) is not part of this model. It is an opaque blob of fixed size, written raw and parsed into a key pair of the same size.

## Model

The functions that model the `serialize` and `parse` bodies (`SerializeArray`, `SerializeBuffer`, `SerializeChunk`, `SerializeSender`, `SerializeReceiver`, `SerializePacket`, `SerializeKeyMessage`, `NetU32`, ...) have no row of their own unless their own contract says something: what they write is stated by the `...Writes` lemmas, what they read back by the `...RoundTrip` and `...Lawful` lemmas. For example `NetArray::serialize` is `WireTypes.SerializeArray`, characterised by `WireTypes.SerializeArrayWrites`.

| member | source | states |
|---|---|---|
| BigEndian.ShiftIn | util/parser.hh:47-51 | shifting a byte run into an accumulator (`out <<= 8; out += byte`) gives the accumulator times 256^n plus the run's big-endian value |
| BigEndian.ValueBound | util/parser.hh:47-51 | n bytes decode to a value below 256^n, so the loop never overflows the n-byte destination |
| BigEndian.ValueOfBytes | util/parser.hh:110-113 | the n bytes the serializer emits for any v < 256^n (byte i = (v >> 8(n-i-1)) & 0xff) decode back to v |
| BigEndian.BytesOfValue | util/parser.hh:110-113 | every n-byte string is what the serializer emits for its own decoded value (decode then encode is the identity) |
| Codec.ClearError | util/parser.hh:29 | `clear_error` resets the flag and leaves the input alone |
| Codec.CheckSize | util/parser.hh:16-21 | the flag is set exactly when it was set or the request exceeds the remaining input; the input is unchanged |
| Codec.ReadInteger | util/parser.hh:39-54 | with at least n bytes left: the big-endian value of the first n bytes, exactly those n dropped; too few: error set, input and destination unchanged; after an error: no-op; it only ever drops a prefix of the input |
| Codec.ReadIntegerFits | util/parser.hh:47-51 | the value left in an n-byte destination always fits n bytes: either its old value or the value of n input bytes |
| Codec.ReadString | util/parser.hh:68-76 | copies exactly `out.size()` bytes from the front and advances by that much; too few or error already set: error set, nothing changed |
| Codec.ReadObject | util/parser.hh:78-84 | delegates to the nested parse unless the error is set, in which case parser and destination are untouched |
| Codec.ReadsAreNoOpsAfterError | util/parser.hh:43-45 | once the flag is set, integer and string reads consume nothing and keep their destination; after `clear_error` the parser may be destroyed |
| Codec.ReadIntegerOfBytes | util/parser.hh:39-54 | reading the serializer's bytes for v yields v and consumes exactly n bytes, whatever follows |
| Codec.ReadStringOfBytes | util/parser.hh:68-76 | reading a string into a span of its length yields the string and leaves the rest |
| Codec.NewSerializer | util/parser.hh:100 | a new serializer has written nothing and records the span size |
| Codec.BytesWritten | util/parser.hh:102 | original size minus the free span is the number of bytes written so far |
| Codec.WriteInteger | util/parser.hh:104-114 | succeeds exactly when n bytes are free and then appends the n big-endian bytes of the value; otherwise throws "no room" |
| Codec.WriteString | util/parser.hh:116-121 | succeeds exactly when the string fits; otherwise throws "no room" and leaves no partial write |
| Codec.WriteObject | util/parser.hh:123-128 | a throwing `serialized_length` propagates; a length larger than the free span throws "no room" before anything is written; otherwise the object's own serialize runs |
| Codec.WritesAccount | util/parser.hh:100-121 | each successful write keeps the invariant original = written + free, grows `bytes_written` by exactly its size and keeps the earlier bytes |
| Codec.WriteStringConcat | util/parser.hh:116-121 | two writes in a row have the same outcome and bytes as one write of their concatenation |
| Codec.WriteIntegerIsWriteString | util/parser.hh:104-114 | writing an integer is writing its big-endian byte string |
| WireTypes.ReadU32 | network/formats.hh:32-34 | `NetInteger<uint32_t>::parse`: with four bytes left, the big-endian value of the first four, exactly those dropped; too few: error set, destination kept; after an error: no-op |
| WireTypes.NetU32Lawful | network/formats.hh:32-34 | `NetInteger<uint32_t>`: `serialized_length` is 4 = the size of what serialize writes, and parse of that returns the value, consuming exactly it |
| WireTypes.NetU32RejectsTruncated | network/formats.hh:32-34 | fewer than the four bytes of a `NetInteger<uint32_t>` parse with the error set, whatever the destination held |
| WireTypes.NetU32Consumes | network/formats.hh:34 | parsing a `NetInteger` only drops a prefix of the input and never clears the error |
| WireTypes.View | network/formats.hh:88-92 | the view has `length` elements, element i being `elements[i]` |
| WireTypes.ArrayLength | network/formats.hh:54-58 | `serialized_length` throws "invalid NetArray" exactly when `length > capacity` |
| WireTypes.SumLengthsIsSize | network/formats.hh:60-63 | the summed element lengths equal the size of the elements' concatenated encodings |
| WireTypes.ArrayLengthIsSize | network/formats.hh:54-66 | for an in-bounds array, `serialized_length` is 1 + the sum of the first `length` elements' lengths, i.e. the size of its wire form |
| WireTypes.WriteElementsWrites | network/formats.hh:71-73 | the element loop writes the elements' encodings in index order, or fails with "no room" |
| WireTypes.SerializeArrayWrites | network/formats.hh:68-74 | serialize emits the length byte then exactly the first `length` elements in order; storage at index ≥ `length` never reaches the wire |
| WireTypes.WriteArrayObject | network/formats.hh:54-58 | through `Serializer::object`, an array whose length exceeds its capacity throws "invalid NetArray" |
| WireTypes.WriteArrayObjectWrites | network/formats.hh:54-74 | through `Serializer::object`, an in-bounds array writes its wire form or throws "no room" with nothing written |
| WireTypes.ReadElements | network/formats.hh:83-85 | the parse loop only touches indices in [i, n), keeps the storage size, and does nothing after an error |
| WireTypes.ParseArray | network/formats.hh:76-86 | capacity kept; a decoded length above capacity sets the error and touches no element; indices at or past the new length keep their contents; after an error it is a no-op |
| WireTypes.ReadElementsFollows | network/formats.hh:83-85 | with element parses that only drop input, the element loop only drops a prefix of the input |
| WireTypes.ParseArrayFollows | network/formats.hh:76-86 | on any input, array parse only drops a prefix of the input and never clears the error |
| WireTypes.ReadElementsOfEncoding | network/formats.hh:83-85 | the element loop over concatenated element encodings restores those elements and consumes exactly their bytes |
| WireTypes.ReadElementsTruncated | network/formats.hh:83-85 | the element loop over a strict prefix of the elements' encodings ends with the error set, when each element type rejects its own truncations |
| WireTypes.ArrayRejectsTruncated | network/formats.hh:76-86 | every strict prefix of an in-bounds array's wire form parses with the error set |
| WireTypes.ArrayRoundTrip | network/formats.hh:68-86 | for length ≤ capacity and round-tripping elements, parse of serialize restores `length` and `elements[0..length)` and consumes exactly the wire form |
| WireTypes.PushBack | network/formats.hh:94-102 | throws "no room" exactly when `length >= capacity`; otherwise the view grows by the new element at the old `length`, and earlier and later slots are unchanged |
| WireTypes.ParseBuffer | network/formats.hh:17-18 | buffer parse only drops input and is a no-op after an error; input shorter than the length field, a decoded length L above the capacity, or fewer than L bytes after the length field sets the error; otherwise it yields exactly those L bytes and leaves the rest |
| WireTypes.BufferRejectsTruncated | network/formats.hh:17-18 | every strict prefix of a buffer's wire form parses with the error set |
| WireTypes.SerializeBufferWrites | network/formats.hh:17-18 | buffer serialize writes the length prefix then the bytes, or fails with "no room" |
| WireTypes.BufferRoundTrip | network/formats.hh:17-18 | a buffer within capacity parses back from its wire form, whatever the destination held, consuming exactly it |
| WireTypes.ParseNetString | network/formats.hh:105-114 | a `NetString` parse reads the length byte L and then L bytes, leaving the rest; input shorter than 1 + L sets the error; after an error it is a no-op; it only drops a prefix of the input |
| WireTypes.NetStringRoundTrip | network/formats.hh:105-114 | a `NetString` of at most 255 bytes, with its one-byte length, parses back to itself |
| Formats.ParseChunk | network/formats.hh:10-22 | a chunk parse only drops a prefix of the input and is a no-op after an error |
| Formats.ChunkWrites | network/formats.hh:10-21 | a chunk's `serialized_length` (4+1+4+2+payload) is the size of its wire form, and serialize writes exactly that form or throws |
| Formats.ChunkRoundTrip | network/formats.hh:10-22 | any chunk with a payload of at most 512 bytes parses back from its wire form into any destination, consuming exactly it |
| Formats.ChunkRejectsTruncated | network/formats.hh:10-22 | every strict prefix of a chunk's wire form parses with the error set, whichever field the cut falls in |
| Formats.ChunkRejects | network/formats.hh:20-22 | the chunk triad rejects truncations, so a chunk can sit inside an array that does too |
| Formats.ChunkLawful | network/formats.hh:20-22 | the chunk's triad is coherent: length = wire size, serialize = write of the wire form, parse reads it back |
| Formats.SmallChunkScenario | network/formats.hh:12-18 | a chunk with a two-byte payload is 13 bytes on the wire and parses back to itself |
| Formats.PacketLength | network/formats.hh:141 | the packet's `serialized_length` throws exactly when one of its arrays is oversized |
| Formats.SenderWrites | network/formats.hh:125-131 | the sender section writes its sequence number then its frames array, exactly its wire form, or fails |
| Formats.ReceiverWrites | network/formats.hh:133-137 | the receiver section writes its watermark then its received-sequence array, exactly its wire form, or fails |
| Formats.PacketWrites | network/formats.hh:125-139 | for in-bounds arrays, the packet's length is its wire size and serialize writes sender section, receiver section and side channel in order, or fails |
| Formats.PacketRoundTrip | network/formats.hh:125-143 | parsing a serializable packet's wire form into any packet with the fixed capacities (2 frames, 32 sequence numbers) restores all its data and consumes exactly the wire form |
| Formats.ParsePacket | network/formats.hh:143-146 | parse after an error is a no-op and keeps the packet's array capacities |
| Formats.PacketRejectsTruncated | network/formats.hh:125-146 | every strict prefix of a serializable packet's wire form parses with the error set: a truncated datagram is rejected, never half-read as whole |
| Formats.ParsePacketFollows | network/formats.hh:143-146 | on any bytes whatever, packet parse only drops a prefix of the input and never clears the error: it never reads past its input |
| Formats.OversizedFrameCountRejected | network/formats.hh:128 | a frame count above `frames_per_packet` = 2 sets the error and leaves the frame storage untouched |
| Formats.EmptyFrameList | network/formats.hh:119-123 | a new `Record`'s frame list is empty with capacity `frames_per_packet` = 2 |
| Formats.PushFrameIndices | network/formats.hh:94-102 | successive `push_back`s succeed exactly when they fit and append the chunks' frame indices in order |
| Formats.ToRecord | network/formats.hh:119-130 | `to_record` keeps the sequence number and lists the frame index of each of the section's chunks, in order |
| Formats.ParseKeyMessage | network/formats.hh:149-160 | key message parse only drops a prefix of the input and is a no-op after an error |
| Formats.KeyMessageWrites | network/formats.hh:157 | `serialized_length` is 1 + the key pair's length, the size of the id byte plus key bytes that serialize writes |
| Formats.KeyMessageRejectsTruncated | network/formats.hh:149-160 | every strict prefix of a key message's wire form parses with the error set |
| Formats.KeyMessageRoundTrip | network/formats.hh:149-160 | a key message parses back from its wire form into a slot with a same-size key pair |
| Formats.KeyRequestScenario | network/formats.hh:151-152 | a key request goes out as the byte 254 before the key bytes, the server's answer as 255, and each reads back with its id |
| RingStorage.StorageAt | util/typed_ring_buffer.hh:34-41 | the wrapped view of C slots from the slot of position p lists positions p, p+1, ..., p+C-1 |
| RingStorage.WriteRun | util/typed_ring_buffer.hh:34-37 | writing k values through the mutable view from position p puts value j at position p+j and leaves the other positions of that lap unchanged |
| RingBuffers.WritableRegion | util/typed_ring_buffer.hh:65-68 | the writable region has capacity − stored slots, starting at position `num_pushed` |
| RingBuffers.ReadableRegion | util/typed_ring_buffer.hh:84-87 | the readable region has `num_stored` elements, at positions `num_popped`, `num_popped`+1, ... |
| RingBuffers.Push | util/typed_ring_buffer.hh:75-82 | throws exactly when n exceeds the free space; otherwise only `num_pushed` grows, by n, and 0 ≤ stored ≤ capacity is kept |
| RingBuffers.Pop | util/typed_ring_buffer.hh:89-96 | throws exactly when n exceeds `num_stored`; otherwise only `num_popped` grows, by n, and the invariant is kept |
| RingBuffers.FillWritable | util/typed_ring_buffer.hh:65-68 | filling the writable region puts the values at its front and leaves the readable region unchanged |
| RingBuffers.PushAppends | util/typed_ring_buffer.hh:65-96 | FIFO: values written into the writable region and then pushed are appended, in order, to the readable region |
| RingBuffers.PopDrops | util/typed_ring_buffer.hh:84-96 | popping n drops exactly the n oldest readable elements |
| RingBuffers.RangeEnd | util/typed_ring_buffer.hh:144-145 | `range_end` = `range_begin` + capacity, where `range_begin` = `num_popped` |
| RingBuffers.WindowView | util/typed_ring_buffer.hh:120-123 | the readable region of the endless buffer is the whole window, position `range_begin` first |
| RingBuffers.Region | util/typed_ring_buffer.hh:153-157 | inside the bounds `check_bounds` demands, `region(pos, count)` lists the elements at positions pos .. pos+count-1 |
| RingBuffers.At | util/typed_ring_buffer.hh:159-160 | `at(pos)` is the element kept in slot pos mod capacity |
| RingBuffers.SetAt | util/typed_ring_buffer.hh:147-151 | writing through the mutable region keeps the window where it is and keeps the capacity |
| RingBuffers.SetThenGet | util/typed_ring_buffer.hh:147-160 | after `at(pos) = v`, `at(pos)` is v and every other in-window position is unchanged |
| RingBuffers.PopEndless | util/typed_ring_buffer.hh:128-133 | `pop(n)` advances `range_begin` by n and keeps the capacity |
| RingBuffers.PopEndlessEvicts | util/typed_ring_buffer.hh:128-133 | after `pop(n)`, positions that stay in the window keep their elements, and the n positions the window newly covers, whose slots were reset, read `T{}` |
| RingBuffers.PopBefore | util/typed_ring_buffer.hh:135-142 | `pop_before(i)` leaves `range_begin` alone when i ≤ it and otherwise moves it to i; the window never moves back |
| RingBuffers.PopBeforeEvicts | util/typed_ring_buffer.hh:128-142 | positions that stay in the window keep their elements; positions the window newly covers read `T{}` |
| RingBuffers.SafeGet | util/typed_ring_buffer.hh:172-179 | outside [range_begin, range_end) `safe_get` returns `T{}`; inside it returns what `at` returns |
| RingBuffers.SafeSet | util/typed_ring_buffer.hh:181-188 | outside the window `safe_set` changes nothing; inside it is `at(pos) = v` |
| RingBuffers.EvictedReadsBlank | util/typed_ring_buffer.hh:172-188 | after `pop_before(i)`, `safe_get` at a position still in the window reads what it read before and reads `T{}` everywhere else (below the new `range_begin` or newly covered); `safe_set` below the new `range_begin` changes nothing |
| RingBuffers.WindowScenario | util/typed_ring_buffer.hh:135-145 | four slots written at 0..3, then `pop_before(2)`: the window is [2, 6), position 0 reads the default, 2 and 3 keep their values, 4 and 5 read the default |

## Left out

- `Parser::floating` (util/parser.hh:56-66): a host-endian `memcpy` of floating-point values, outside the integer codec.
- Camera, H.264 encoder, scaler and application code: device I/O, foreign libraries and event-loop wiring.
- `KeyPair` internals and base64: crypto.hh is not part of this model. The key pair is an opaque blob whose size is fixed by its type.
- The `reinterpret_cast` byte-to-`T` span conversion, its "size must be a multiple of `sizeof(T)`" check, and the double-mapped memory of `RingStorage`. Storage is modelled as a sequence of C elements indexed modulo C.
- `EndlessBuffer::operator[]` (util/typed_ring_buffer.hh:162-163): unchecked access. It calls `.substr` on a span, as do `writable_region`, `readable_region` and `region` (lines 67, 72, 86, 156); a span has `subspan` and no `substr`, so these would not compile if instantiated. `safe_set` writes through the const `region` (line 187). The model follows the evident intent of each: the same slice through `subspan`, and a write through the mutable region.
- The width of `size_t`: the pushed/popped counters and positions are unbounded naturals, with no wrap-around.
- The return types of `serialized_length` (`uint16_t` for a chunk, `uint32_t` for arrays and packets) are unbounded here. With these capacities a packet is at most 1440 bytes (4 + 1 + 2 × 523 + 4 + 1 + 32 × 4 + 1 + 255), so the source never wraps.
- `NetString`'s constructor from a string view, and the throw of `resize` beyond the capacity: `StackBuffer` is not part of this model.
- `Packet` is modelled for `FrameType` = `VideoChunk` only; the template parameter is not kept.
- The key request ids are declared as `char` initialised from 254 and 255. Where `char` is signed they hold −2 and −1. The model keeps them as the byte values 254 and 255, which is what goes on the wire (`Formats.KeyRequestScenario`).
- The serializer's state after a throw. When a nested write throws part-way through a composite `serialize` (an array, a buffer, a section, a packet), the source has already emitted the earlier fields and grown `bytes_written`; only `Serializer::object`'s up-front length check (util/parser.hh:126) makes a write all-or-nothing. A `Failure` here carries no serializer, so the partly written prefix is not modelled.
- WireTypes.SerializeArray: called directly on an array with `length > capacity`, the source reads past its storage. The model returns the "invalid NetArray" failure that `serialized_length` raises first when the array goes through `Serializer::object`.
- RingBuffers.PopBefore: requires i ≤ `range_end`. Beyond that, `pop` takes a `subspan(0, n)` larger than the span, which is undefined behaviour.
- RingBuffers.PopEndless: requires n ≤ capacity, for the same `subspan` reason.
- WireTypes.ArrayRoundTrip: states equality of `length` and of the viewed elements only. Slots past `length` keep whatever the destination held, as in the source.
- Formats.PacketRoundTrip: states equality of the packet's data, with arrays compared by their views, for the same reason.
- Formats.KeyMessageRoundTrip: requires the destination's key pair to have the same size as the encoded one, since a `KeyPair` has a fixed size.
- Formats.ParsePacket: its own contract states only the error and shape cases. What it reads is stated by Formats.PacketRoundTrip, Formats.PacketRejectsTruncated and Formats.ParsePacketFollows.

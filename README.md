# drpc frame codec

This project models the binary frame codec of the `drpc` transport and proves its properties.

A frame on the wire is a 4-byte big-endian `size` followed by `size` bytes:
a 1-byte header of flags, and for data frames a signed 1-byte route code,
an 8-byte big-endian sequence number and an operation-specific payload.

The model covers two parts.

- **The Unbind packer** (`UnbindPacker`) builds and parses the two
  fixed-length frames of the Unbind operation:
  - the request `size | header | route | seq | uid`, 22 bytes;
  - the response `size | header | route | seq | code`, 16 bytes.

  `PackReq` and `PackRes` take a `Buffer` from a pool and write the fields
  one `binary.Write` at a time. When a write fails, a deferred `Recycle`
  puts the buffer back before the error is returned. `PackReq2` builds the
  same request through a pooled `Writer` and its typed big-endian write
  methods. `UnpackReq` and `UnpackRes` reject every input that is not
  exactly one frame long. Otherwise they read the fields at fixed offsets:
  `UnpackReq` reads forward from offset 6, and `UnpackRes` reads back from
  the end.
- **The frame reader** (`Reader.ReadMessage`) takes one frame off a byte
  stream per call:
  - it reads the size prefix into a pooled 4-byte scratch buffer, and
    rejects a zero size;
  - it allocates a frame buffer of `4 + size` bytes, copies the prefix in
    and puts the scratch buffer back;
  - it reads the payload and tells heartbeat frames from data frames by
    the header flag;
  - for data frames it reads the route byte and the sequence number.

Modules:

- `Bytes` (bytes.dfy) holds fixed-width big-endian integers.
  - `EncodeUint` and `EncodeInt` follow `binary.Write`, which writes the
    most significant byte first and uses two's complement for signed
    values.
  - `PutUint` and `PutInt` follow `binary.BigEndian.PutUintN`, which
    computes each byte as a shift and then truncates. A signed value is
    converted by taking it modulo 2^(8·width).
  - `DecodeUint` and `DecodeInt` follow `binary.Read` and
    `binary.BigEndian.UintN`.
  - Go's integer types are subset types of `int`.
- `Wire` (wire.dfy) holds the field widths and offsets, the error values,
  and the header flag test `header & flag == flag`.
- `Pooling` (pool.dfy) models `sync.Pool`, used sequentially. It is a free
  list, with ghost counters of gets and puts.
- `Unbind` (unbind.dfy) holds:
  - the frame layouts `ReqFrame`, `TypedReqFrame` and `ResFrame`;
  - the decoders;
  - the pooled `Buffer` and `Writer`;
  - the `UnbindPacker` class and its three pack methods.
- `FrameReader` (reader.dfy) holds:
  - `ReadFrame`, the specification of one read on the unread bytes of a
    stream;
  - the `Stream` and `Reader` classes;
  - `ReadFrameAsWritten`, which is the read exactly as the code is
    written, including the inputs on which it indexes out of range.

The header flags `dataBit` and `heartbeatBit` and the route codes `unbindReq`
and `unbindRes` are declared in package files outside this model. So every
statement here is proved for any values of them, gathered in `Wire.Codes`.

The reader theorems about packed frames assume that `dataBit` does not
include every bit of `heartbeatBit`. A packed data frame would otherwise
read back as a heartbeat.

The field widths come from the Go types written into each field:

| Go type | bytes |
|---|---|
| int32 | 4 |
| uint8, int8 | 1 |
| uint64, int64 | 8 |
| int16 | 2 |

These widths agree with the fixed offsets the reader uses: route at 5 and
seq at 6..14.

## Model

| member | source | states |
|---|---|---|
| Bytes.DecodeEncodeUint | transport/drpc/internal/packet/unbind.go:58-60 | a uint64 (or any value that fits the width) written big-endian by `binary.Write` reads back as the same value |
| Bytes.EncodeDecodeUint | transport/drpc/internal/packet/unbind.go:102-104 | every byte string is the big-endian encoding of the value read from it, so a field read is lossless |
| Bytes.DecodeEncodeInt | transport/drpc/internal/packet/unbind.go:62-64 | a signed value written in two's complement reads back as itself, for every value its Go type can hold |
| Bytes.EncodeDecodeInt | transport/drpc/internal/packet/unbind.go:106-108 | every non-empty byte string is the two's-complement encoding of the signed value read from it |
| Bytes.PutUintIsEncodeUint | transport/drpc/internal/packet/unbind.go:82 | the typed writer's shift-and-truncate bytes equal `binary.Write`'s bytes, for every value and width |
| Bytes.WrapIsComplement | transport/drpc/internal/packet/unbind.go:79 | converting a signed value to unsigned modulo 2^(8·width) gives its two's-complement value |
| Bytes.PutIntIsEncodeInt | transport/drpc/internal/packet/unbind.go:83 | the typed writer and `binary.Write` produce the same bytes for every signed value that fits the width |
| Bytes.Uint32BE | transport/drpc/internal/packet/reader.go:27 | the size read from 4 bytes is the uint32 whose big-endian encoding is exactly those bytes |
| Bytes.Uint64BE | transport/drpc/internal/packet/reader.go:51 | the sequence read from 8 bytes is the uint64 whose big-endian encoding is exactly those bytes |
| Bytes.Int8Of | transport/drpc/internal/packet/reader.go:49 | `int8(b)` is the int8 whose two's-complement byte is b |
| Bytes.Int64BE | transport/drpc/internal/packet/unbind.go:106 | the uid read from 8 bytes is an int64 whose two's-complement big-endian encoding is exactly those bytes |
| Bytes.Int16BE | transport/drpc/internal/packet/unbind.go:162 | the code read from 2 bytes is an int16 whose two's-complement big-endian encoding is exactly those bytes |
| Unbind.ReqFrame | transport/drpc/internal/packet/unbind.go:44-64 | the bytes `PackReq` writes are exactly 22 long for every seq, uid and choice of codes; where each field sits is `ReqFrameLayout` |
| Unbind.TypedReqFrame | transport/drpc/internal/packet/unbind.go:77-83 | the bytes `PackReq2` writes are exactly 22 long; that they equal `ReqFrame` is `TypedReqFrameIsReqFrame` |
| Unbind.ResFrame | transport/drpc/internal/packet/unbind.go:123-143 | the bytes `PackRes` writes are exactly 16 long; where each field sits is `ResFrameLayout` |
| Unbind.ReqFrameLayout | transport/drpc/internal/packet/unbind.go:44-64 | a request frame is 22 bytes; its prefix decodes to 18; byte 4 is `dataBit`; byte 5 reads as `unbindReq`; bytes 6..14 decode to seq; bytes 14..22 decode to uid |
| Unbind.ResFrameLayout | transport/drpc/internal/packet/unbind.go:123-143 | a response frame is 16 bytes; its prefix decodes to 12; byte 4 is `dataBit`; byte 5 reads as `unbindRes`; bytes 6..14 decode to seq; the last two bytes decode to code |
| Unbind.TypedReqFrameIsReqFrame | transport/drpc/internal/packet/unbind.go:77-83 | the typed writer's request bytes equal the stream writer's request bytes for every seq, uid and choice of codes |
| Unbind.UnpackReq | transport/drpc/internal/packet/unbind.go:90-111 | succeeds exactly when the input is 22 bytes long; every other length, including empty, fails with ErrInvalidMessage |
| Unbind.UnpackRes | transport/drpc/internal/packet/unbind.go:150-167 | succeeds exactly when the input is 16 bytes long; every other length fails with ErrInvalidMessage |
| Unbind.UnpackReqRoundTrip | transport/drpc/internal/packet/unbind.go:98-108 | unpacking a packed request gives back the same seq and uid |
| Unbind.UnpackResRoundTrip | transport/drpc/internal/packet/unbind.go:158-164 | unpacking a packed response gives back the same code |
| Unbind.UnpackReqExact | transport/drpc/internal/packet/unbind.go:98-108 | whatever a request unpacks to, its bytes from offset 6 on are exactly the packed seq and uid |
| Unbind.UnpackResExact | transport/drpc/internal/packet/unbind.go:158-164 | whatever a response unpacks to, the code fits in 16 bits and the last two bytes are exactly its big-endian two's-complement encoding |
| Unbind.UnpackReqIgnoresPrefix | transport/drpc/internal/packet/unbind.go:98 | two inputs of one length that agree from offset 6 on unpack alike: size, header and route are never read |
| Unbind.UnpackResIgnoresAllButCode | transport/drpc/internal/packet/unbind.go:158 | two inputs of one length with the same last two bytes unpack alike: seq and everything before it are never read |
| Unbind.Buffer.Write | transport/drpc/internal/packet/unbind.go:46-48 | a write appends its bytes, and fails with the bytes unchanged when the sink rejects it or it would overrun the capacity |
| Unbind.Buffer.Recycle | transport/drpc/internal/packet/unbind.go:38-42 | the buffer is emptied and appended to the free list of its own pool, once |
| Unbind.Writer.Recycle | transport/drpc/internal/packet/unbind.go:71-75 | the writer is rewound to empty and appended to the free list of its own pool, once, so the next `PackReq2` may reuse it |
| Unbind.Writer.WriteInt32s | transport/drpc/internal/packet/unbind.go:79 | appends the 4-byte big-endian encoding of an int32 |
| Unbind.Writer.WriteUint8s | transport/drpc/internal/packet/unbind.go:80 | appends the byte |
| Unbind.Writer.WriteInt8s | transport/drpc/internal/packet/unbind.go:81 | appends the two's-complement byte of an int8 |
| Unbind.Writer.WriteUint64s | transport/drpc/internal/packet/unbind.go:82 | appends the 8-byte big-endian encoding of a uint64 |
| Unbind.Writer.WriteInt64s | transport/drpc/internal/packet/unbind.go:83 | appends the 8-byte two's-complement encoding of an int64 |
| Unbind.UnbindPacker.constructor | transport/drpc/internal/packet/unbind.go:22-32 | three fresh, distinct, empty pools: request buffers of 22 bytes, response buffers of 16 bytes, request writers of 22 bytes |
| Unbind.UnbindPacker.Acquire | transport/drpc/internal/packet/unbind.go:37 | a buffer of the pool's capacity, empty and no longer free: either the last free one or a new one |
| Unbind.UnbindPacker.WriteReq | transport/drpc/internal/packet/unbind.go:44-66 | the five writes succeed exactly when the sink rejects none of them, and then the buffer holds exactly the request frame |
| Unbind.UnbindPacker.WriteRes | transport/drpc/internal/packet/unbind.go:123-145 | the same for the response frame |
| Unbind.UnbindPacker.PackReq | transport/drpc/internal/packet/unbind.go:36-67 | on success the caller owns a buffer holding exactly the request frame; on a failed write the buffer is back in the pool and the error is returned; one get, and one put exactly on failure; the buffer is popped off the free list or fresh, so the free list loses it on success and is unchanged on failure, or, for a fresh buffer, is unchanged on success and gains it on failure |
| Unbind.UnbindPacker.WriteReq2 | transport/drpc/internal/packet/unbind.go:77-85 | the five typed writes leave exactly the request frame of `PackReq` in the writer |
| Unbind.UnbindPacker.PackReq2 | transport/drpc/internal/packet/unbind.go:69-86 | the caller gets a writer that is not free, has room for exactly one request and holds exactly the bytes `PackReq` produces; one get, no put; the writer is popped off the free list, or is fresh and the free list is unchanged |
| Unbind.UnbindPacker.PackRes | transport/drpc/internal/packet/unbind.go:115-146 | as `PackReq`, with the response frame and the response pool's free list |
| Pooling.Pool.Get | transport/drpc/internal/packet/reader.go:20 | hands out the last free object, removed from the free list, or reports a miss on an empty pool; counts one get |
| Pooling.Pool.Put | transport/drpc/internal/packet/reader.go:23 | appends an object that is not free to the free list; counts one put |
| FrameReader.ReadFullError | transport/drpc/internal/packet/reader.go:22 | `io.ReadFull` fails exactly when fewer bytes are available than asked for: EOF if none were read, ErrUnexpectedEOF if some were |
| FrameReader.ReadFrame | transport/drpc/internal/packet/reader.go:19-55 | one corrected read on the unread input: it never consumes more than the input holds, and a successful read returns exactly the bytes it consumed |
| FrameReader.Classify | transport/drpc/internal/packet/reader.go:44-52 | a complete frame is a heartbeat iff its header carries the heartbeat flag, and is accepted iff it is a heartbeat or holds route and seq; the frame is returned whole and all of it consumed |
| FrameReader.ReadFrameShortPrefix | transport/drpc/internal/packet/reader.go:20-25 | a stream with fewer than 4 bytes gives EOF (empty) or ErrUnexpectedEOF, consumes all of them and returns no frame |
| FrameReader.ReadFrameZeroSize | transport/drpc/internal/packet/reader.go:27-33 | a zero size gives ErrInvalidMessage after consuming only the 4 prefix bytes |
| FrameReader.ReadFrameShortPayload | transport/drpc/internal/packet/reader.go:35-42 | a payload cut short gives the stream's error, consumes the rest of the stream, and leaves a `4 + size` frame buffer that begins with what arrived |
| FrameReader.ReadFrameAccepts | transport/drpc/internal/packet/reader.go:35-52 | a read succeeds if and only if the prefix, a non-zero size and the whole payload are present and a data frame holds route and seq; then the frame is the first `4 + size` bytes, all consumed, with isHeartbeat iff the header carries the heartbeat flag, route and seq 0 for heartbeats, and otherwise route = int8 of byte 5 and seq = big-endian bytes 6..14 |
| FrameReader.ReadPackedRequest | transport/drpc/internal/packet/reader.go:27-52 | a stream that begins with a packed request reads back as a data frame with route `unbindReq`, the same seq and exactly the packed bytes |
| FrameReader.ReadPackedResponse | transport/drpc/internal/packet/reader.go:27-52 | the same for a packed response, with route `unbindRes` |
| FrameReader.ReadFrameAsWritten | transport/drpc/internal/packet/reader.go:19-55 | the read exactly as written, with the frame length computed modulo 2^32 and the route and seq indexed whatever the frame length; where it returns it consumes no more than the input holds, and it can go out of range only after a complete size prefix |
| FrameReader.ShortDataFramePanics | transport/drpc/internal/packet/reader.go:48-51 | the 5-byte data frame `00 00 00 01 dataBit` makes the code as written index past its frame buffer |
| FrameReader.WrappedSizePanics | transport/drpc/internal/packet/reader.go:35-36 | the size `FF FF FF FC` makes the code as written allocate an empty frame buffer and slice past its end |
| FrameReader.AsWrittenPanicsExactly | transport/drpc/internal/packet/reader.go:19-55 | the code as written agrees with `ReadFrame` wherever it returns, and goes out of range exactly on a wrapping size or a complete data frame shorter than 14 bytes |
| FrameReader.Stream.ReadFull | transport/drpc/internal/packet/reader.go:40-42 | copies the wanted bytes the stream still has into the array from the given offset, consumes exactly them, leaves the rest of the array alone, and reports the `io.ReadFull` error |
| FrameReader.Reader.constructor | transport/drpc/internal/packet/reader.go:14-16 | a reader with an empty, fresh pool of 4-byte scratch buffers |
| FrameReader.Reader.ReadPrefix | transport/drpc/internal/packet/reader.go:20-25 | takes a 4-byte scratch buffer out of the pool and reads the prefix into it, or reports the short read; the buffer is popped off the free list or fresh, and the free list is otherwise unchanged |
| FrameReader.Reader.ReadBody | transport/drpc/internal/packet/reader.go:35-52 | after a non-zero size: the scratch buffer is appended to the free list once, and outputs, frame buffer and bytes consumed are those `ReadFrame` gives; the frame buffer is not on the free list |
| FrameReader.Reader.ReadPayload | transport/drpc/internal/packet/reader.go:40-42 | the payload read fills the frame buffer after its prefix with the whole frame, or with the rest of the input and zeros, reporting the `io.ReadFull` error |
| FrameReader.Reader.NewFrame | transport/drpc/internal/packet/reader.go:35-36 | a fresh `4 + size` frame buffer holding the prefix followed by zeros |
| FrameReader.Reader.ClassifyFrame | transport/drpc/internal/packet/reader.go:44-52 | header flag, route and seq read in place from a complete frame, as `Classify` specifies |
| FrameReader.Reader.ReadMessage | transport/drpc/internal/packet/reader.go:19-55 | every output and the number of bytes consumed are those `ReadFrame` gives for the unread input; a returned frame is fresh and holds exactly `ReadFrame`'s bytes; the scratch buffer is taken once and put back once on every path, so the free list is unchanged or gains one fresh array, never the returned frame |

## Left out

- Concurrency of `sync.Pool` and its eviction by the garbage collector are not modelled. The pool is a sequential free list, and a miss stands for the pool's `New`.
- The internals of `Buffer`, `Writer`, `NewBuffer` and `NewWriter` live in package files outside this model.
  - A `Buffer` is modelled as an append-only byte sink of fixed capacity.
  - A write fails on an overrun or when the sink rejects it. The `Fault` parameter of the pack methods says which write the sink rejects.
  - A `Writer` is modelled as an array filled from the front. Its typed writes require room for their field, because they return no error.
  - `Writer.Recycle` is modelled as rewinding the writer and appending it to its pool, as `Buffer.Recycle` does for a buffer.
- Unbind.UnbindPacker.PackReq2: its deferred `Recycle` is not modelled. No typed write reports an error, so `err` stays nil and the deferred call never runs.
- Unbind.UnpackReq: the error paths of `bytes.Reader.Seek` and `binary.Read` are not modelled. The length check makes them unreachable.
- Unbind.UnpackRes: the same.
- Unbind.Writer.WriteInt32s, Unbind.Writer.WriteUint64s and Unbind.Writer.WriteInt64s do not take the `binary.ByteOrder` argument. Every call passes `binary.BigEndian`, so they are modelled big-endian only.
- Blocking reads, deadlines and errors of the underlying `io.Reader` other than running out are not modelled. The stream is a finite byte sequence, and running short gives EOF or ErrUnexpectedEOF as `io.ReadFull` reports them.
- FrameReader.Reader.ReadMessage: it follows the corrected `ReadFrame` on the two kinds of input listed under Findings. The code as written panics on them, and that behaviour is `ReadFrameAsWritten`.
- The values of `dataBit`, `heartbeatBit`, `unbindReq` and `unbindRes` are not fixed. They are declared outside this model, and every result holds for all values.
- registry/consul/registrar.go is not part of this model. It consists of Consul API calls, goroutines and tickers.
- lock/redis/script.go is not part of this model. It holds only Lua text for Redis.

## Findings

| source | as written | input that shows it | evidently intended | confidence | as-written member | corrected member |
|---|---|---|---|---|---|---|
| transport/drpc/internal/packet/reader.go:48-51 | a data frame is indexed at byte 5 and bytes 6..14 without checking that the frame is at least 14 bytes long | the stream `00 00 00 01 d`, where d is `dataBit` without the heartbeat flag | reject a data frame shorter than 14 bytes with ErrInvalidMessage | high; not executed | FrameReader.ShortDataFramePanics | FrameReader.ReadFrameAccepts |
| transport/drpc/internal/packet/reader.go:35-36 | `defaultSizeBytes+size` is computed in uint32 and wraps, so `make` gets a length below 4 and `data[:4]` is out of range | the prefix `FF FF FF FC` | a frame length of `4 + size` without wrap-around | high, because only an untyped `defaultSizeBytes` compiles both here and as the int64 offset of unbind.go:98; not executed | FrameReader.WrappedSizePanics | FrameReader.ReadFrameShortPayload |

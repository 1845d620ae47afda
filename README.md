# tcp-zero message framing, in Dafny

This project models the binary message codec of the tcp-zero server package
(`server/message.go`) and proves what it does. The rest of the repository is
not modelled: the accept loop, sessions, the hub and the send loop.

A frame on the wire is a 4-byte sequence number, a 4-byte length word and the
payload bytes. Both header words are big-endian. The model has three parts:

- `big_endian.dfy` (module `BigEndian`): bytes, `uint32`, and the
  `binary.BigEndian` put and get functions, with both round trips proved.
- `message.dfy` (module `Messages`):
  - the `message` struct as class `Message`. Its `Decode` overwrites the
    fields in place. It also has `NewMsg` (a named constructor), `Msg`,
    `Len` and `Encode`.
  - the `decode` and `encode` helpers, and the method `DecodeMsgs` with its
    loop.
  - the value `Frame` and the functions that specify the class:
    `EncodeFrame`, `DecodeFrame`, `Advance` and `DecodeAll`. `Collect` is
    the same walk with the frames found so far carried along, as the loop
    of `DecodeMsgs` carries its messages.
- `message_properties.dfy` (module `MessageProperties`): the round trip, the
  exact read, truncated payloads, the splitting of concatenated frames, and
  the code's edge cases.

Go panics are modelled as preconditions, not as behaviour:
- `Decodable(b)` is what `Decode` needs. The buffer has at least 8 bytes,
  because `b[msgIdx:]` (server/message.go:109) is checked against the
  slice's length and panics on anything shorter. The length word is below
  2^31, because `int32(m.length)` would be negative and `make` panics on a
  negative size.
- `Splittable(b)` is what `DecodeMsgs` needs: every remainder its loop
  decodes from is `Decodable`.

The model follows the code where it differs from what a length-prefixed codec
is usually expected to do:
- A payload shorter than its length word is not an error. `Decode` returns
  nil. The payload is empty, and the length field keeps the header value.
- `DecodeMsgs` moves forward by 8 plus the bytes actually decoded, so after a
  truncated frame it reads the payload bytes as the next header
  (`TruncatedPayloadReparsed`).
- An empty buffer does not give zero messages: it panics
  (`EmptyBufferNotSplittable`).
- Frames whose length is 2^31 or more can be encoded but not decoded
  (`LongLengthUndecodable`).

## Model

| member | source | states |
|---|---|---|
| `BigEndian.Uint32PutUint32` | server/message.go:101-107 | reading a word back from the four bytes PutUint32 wrote gives the original word |
| `BigEndian.PutUint32Uint32` | server/message.go:74-77 | writing a word that was read from four bytes gives back those four bytes |
| `BigEndian.PutUint32Injective` | server/message.go:74-77 | different words never encode to the same four header bytes |
| `Messages.ToUint32` | server/message.go:53 | the uint32(len) conversion keeps every length below 2^32 unchanged |
| `Messages.ToInt32` | server/message.go:109 | int32(length) is congruent to the length modulo 2^32, lies in the int32 range, and is non-negative exactly when the length is below 2^31 |
| `Messages.ReadN` | server/message.go:143-152 | decode(b, n) succeeds exactly when at least n bytes are there, and then returns the first n. Otherwise it returns the empty slice with EOF (buffer empty) or UnexpectedEOF |
| `Messages.EncodeFrame` | server/message.go:67-89 | the wire image is 8 + len(payload) bytes: the big-endian sequence at 0, the stored length word at 4, the payload verbatim from 8 |
| `Messages.DecodeFrame` | server/message.go:93-112 | the header fields are the big-endian words at offsets 0 and 4. The payload is exactly `length` bytes from offset 8, with later bytes ignored, or empty when fewer bytes follow |
| `Messages.Advance` | server/message.go:126 | each DecodeMsgs step drops at least 8 bytes and never more than remain. The step is 8 plus the length word when the whole payload follows the header, and 8 alone otherwise |
| `Messages.DecodeAllConsumes` | server/message.go:116-131 | the decoded frames' headers and payloads add up to the whole buffer |
| `Messages.DecodeAllCount` | server/message.go:116-131 | DecodeMsgs returns at least one message and at most one per 8 bytes |
| `Messages.Message.NewMsg` | server/message.go:50-56 | sequence stored unchanged, payload equal to the given bytes, length field equal to their count (modulo 2^32) |
| `Messages.Message.Msg` | server/message.go:58-60 | returns the payload field |
| `Messages.Message.Len` | server/message.go:62-64 | equals the length of Msg(), which is not necessarily the length field |
| `Messages.Message.Encode` | server/message.go:67-89 | returns a nil error and the wire image of the message's current fields, 8 + Len() bytes long, including the stored length word |
| `Messages.Message.Decode` | server/message.go:93-112 | returns nil on every buffer it does not panic on, and leaves the fields equal to DecodeFrame of the buffer |
| `Messages.CollectDecodeAll` | server/message.go:116-131 | walking the buffer while carrying the frames found so far ends with those frames followed by the frames DecodeAll finds in what is left |
| `Messages.DecodeMsgs` | server/message.go:116-131 | returns a nil error and as many messages as DecodeAll finds frames, the i-th holding the i-th frame; every message is newly allocated (one NewMsg per pass, line 118) and no two are the same object |
| `MessageProperties.DecodeEncodeFrame` | server/message.go:93-112 | decoding the wire image of a well-formed frame, followed by any bytes, gives back the frame and advances exactly past it |
| `MessageProperties.EncodeDecode` | server/message.go:50-112 | NewMsg, Encode, then Decode into another message restores the sequence, a length field equal to the payload size, and the payload, with nil errors |
| `MessageProperties.EncodeDecodeFrame` | server/message.go:93-112 | when the whole payload is present, re-encoding the decoded frame gives exactly the bytes Decode consumed |
| `MessageProperties.TruncatedFrame` | server/message.go:101-111 | a frame cut anywhere inside its payload decodes without error. The header values are kept, the payload is empty, and the cursor moves by 8 |
| `MessageProperties.LongLengthUndecodable` | server/message.go:109 | a frame whose length word is 2^31 or more cannot be decoded, whatever follows it |
| `MessageProperties.SplitEncoded` | server/message.go:116-131 | DecodeMsgs on one or more well-formed frames sent back to back returns exactly those frames, in order, without a panic |
| `MessageProperties.EncodeFront` | server/message.go:93-126 | a frame decoded with its whole payload is, re-encoded, exactly the front of the buffer, and DecodeMsgs goes on with the bytes right after it |
| `MessageProperties.EncodeDecodeAll` | server/message.go:116-131 | when every frame DecodeMsgs finds has its whole payload, re-encoding them reproduces the buffer |
| `MessageProperties.TruncatedPayloadReparsed` | server/message.go:126 | a frame announcing 100 bytes followed by the 8 bytes of an empty frame splits into two messages: the first is empty and the second is read from the missing payload |
| `MessageProperties.EmptyBufferNotSplittable` | server/message.go:117-119 | an empty buffer is not one DecodeMsgs can walk: its first Decode panics |

## Left out

- server/server.go is not part of this model. The accept loop, goroutines, the close channel, sync.Once, the hub mutex and the send loop are networking and concurrency plumbing. Put, Remove and Destroy are mutex-guarded wrappers around the hub; the hub implementation (newHub, sessions and their queues) is not part of this model.
- examples/simple/main.go is not part of this model. It is a demo handler that reads from a socket and prints.
- Go panics are preconditions, not behaviour: `Decodable` for `Decode` and `Splittable` for `DecodeMsgs`.
- Aliasing is not modelled. `Msg()` in Go returns the message's own slice, which a caller could change. Here payloads are immutable values.
- Allocation failure of `make([]byte, n)` for a large `n` is not modelled.
- The error branches are not modelled because they cannot be reached: the header reads and their error returns in `Decode`, the error checks of the `encode` helper and of `buf.Write` in `Encode`, and the `fmt.Println` branch of `DecodeMsgs`. `Decode` always returns nil, and writes into an in-memory buffer do not fail.
- `EncodePayload` models the `encode` helper as a verbatim copy without its error path, because `binary.Write` of a byte slice into a `bytes.Buffer` cannot fail.
- The Go string argument of `NewMsg` is modelled as its byte sequence, which is what `[]byte(msg)` yields.

# Laser setup interface — a Dafny model

This project models the protocol logic of a host-side client for one lab
device, the "laser setup", reached over a serial link. The client speaks a
magic-byte-framed, length-delimited protobuf protocol. It uses it to read and
write the device's control state (valve/vacuum, selected channel, camera
actuator) and to tunnel I2C transactions through the device.

The model covers four places:

- **Frame codec** (`protobuf_md_codec.dfy`, with the varint and
  length-delimited layer in `prost.dfy`). Decoding drops bytes up to and
  including the first magic byte, then parses one length-delimited response.
  A parse error equal to prost's "unexpected EOF" means "need more data". The
  error prost reports for a truncated buffer is a parameter (`eof`) of the
  model, so what a truncated frame yields is stated for both cases: "need
  more data" when prost reports "unexpected EOF", a decode error carrying
  prost's error otherwise. Encoding appends the
  magic byte, the length-delimited request, and then the request body once
  more, exactly as the code does.
- **Error type** (`pb_error.dfy`). It covers the error variants, the three
  `From` conversions and the I2C `kind`.
- **Request envelope** (`protobuf.dfy`). `new_request` takes its random id
  as a parameter.
- **Session** (`lib.dfy`, with the pure part of the I2C bridge in
  `i2c_bridge.dfy`). This covers bus selection, the control facade (`write`,
  `read`, `decode_current_state`), bus enumeration, and the I2C
  `transaction`. The transaction sends one sequence request and pairs the
  results with the caller's operations. It fills the caller's read buffers
  (Dafny arrays) in place.

I/O is replaced by inputs. A `Link` value gives two things: the error sending
failed with, if any, and what waiting for the next frame produced (a frame,
a closed stream, or a timeout). As in the source, a send can fail only with
an encoder or I/O error, and reading a frame only with a decoder or I/O
error; `Protocol` and `I2C` errors come from the device's answer alone. The serialisation of a message body is a
function passed in. The generated constants `Info::Magick`,
`Info::LaserSetupId` and `Info::ProtocolVersion` are declared without a
value, so every proof holds whatever their values are.

Two of the source's panics are modelled, as a `Panicked` outcome rather
than a precondition: a control response without a control payload, and
`copy_from_slice` on a read result whose data length differs from the
buffer's. The `from_i32(...).unwrap()` panics on an unknown enumeration code
(src/lib.rs:83, 85, 113, 125, 150, 188, 239) and the `unwrap` of opening the
port (src/lib.rs:61) are left out.

Where the code differs from its intended design, the model follows the code
and states the difference as a lemma:

- The echoed address check in `transaction` compares the echoed address with
  itself, so it never rejects (`EchoedAddressIgnored`).
- `decode` consumes the magic byte before it answers "need more data" (when
  prost reports the truncation as "unexpected EOF"). When
  the rest of a truncated frame arrives, the next call therefore looks for a
  new magic byte, and it drops the frame when the frame holds no other
  (`TruncatedFrameIsNotResumed`).
- A channel at or above `CHANNELS_COUNT` is sent as it is
  (`ChannelIsNotRangeChecked`).
- A missing control payload and a read buffer of the wrong length end in a
  panic, not in an error.

## Model

| member | source | states |
|---|---|---|
| `Ints.AsU32` | src/lib.rs:216 | `len as u32` keeps the low 32 bits; a length below 2^32 is unchanged |
| `Prost.EncodeVarint` | src/protobuf/protobuf_md_codec.rs:52 | the length prefix is a base-128 varint: at least one byte, high bit set on every byte but the last |
| `Prost.DecodeVarint` | src/protobuf/protobuf_md_codec.rs:24 | reading a varint consumes between 1 and all bytes, and is incomplete exactly when every byte has its high bit set |
| `Prost.VarintRoundTrip` | src/protobuf/protobuf_md_codec.rs:24 | decoding the varint of `n`, whatever follows, gives `n` and consumes exactly its bytes |
| `Prost.VarintPrefixIncomplete` | src/protobuf/protobuf_md_codec.rs:24 | a strict prefix of a varint is incomplete |
| `Prost.EncodeLengthDelimited` | src/protobuf/protobuf_md_codec.rs:52 | a length-delimited message is the varint of the body's length followed by the body |
| `Prost.DecodeLengthDelimited` | src/protobuf/protobuf_md_codec.rs:24 | a failed parse leaves the buffer as it was; a successful one consumes a non-empty prefix and leaves the rest; a truncated buffer is reported with prost's truncation error `eof` |
| `Prost.LengthDelimitedRoundTrip` | src/protobuf/protobuf_md_codec.rs:24-25 | a complete length-delimited message parses to the body decoder's verdict on that body, and success leaves exactly what followed |
| `Prost.LengthDelimitedTruncated` | src/protobuf/protobuf_md_codec.rs:24-28 | every strict prefix of a length-delimited message is prost's truncation error and is left whole |
| `PbError.Kind` | src/protobuf/pb_error.rs:34-41 | an I2C failure reports its own kind; every other error reports `Other` |
| `PbError.FromIoError` | src/protobuf/pb_error.rs:16-20 | an I/O error becomes `IoError` wrapping the same value, of kind `Other` |
| `PbError.FromEncodeError` | src/protobuf/pb_error.rs:22-26 | an encode error becomes `EncodeError` wrapping the same value, of kind `Other` |
| `PbError.FromDecodeError` | src/protobuf/pb_error.rs:28-32 | a decode error becomes `DecoderError` wrapping the same value, of kind `Other` |
| `PbError.KindInvertsI2c` | src/protobuf/pb_error.rs:35-40 | `kind` undoes the `I2C` constructor, and an error whose kind is not `Other` is that I2C failure |
| `Protobuf.NewRequest` | src/protobuf/mod.rs:9-19 | a fresh request has the given id, the laser setup's device id, the protocol version, and no control or I2C payload |
| `Protobuf.NewRequestsDifferOnlyInId` | src/protobuf/mod.rs:12-18 | two fresh requests differ at most in their id, and are equal exactly when the ids are |
| `ProtobufMDCodec.BytesMut.IsEmpty` | src/protobuf/protobuf_md_codec.rs:16 | the buffer is empty exactly when it holds no bytes |
| `ProtobufMDCodec.BytesMut.GetU8` | src/protobuf/protobuf_md_codec.rs:19 | `get_u8` returns the first byte and removes it from the buffer |
| `ProtobufMDCodec.BytesMut.PutU8` | src/protobuf/protobuf_md_codec.rs:50 | `put_u8` appends one byte and keeps what was there |
| `ProtobufMDCodec.BytesMut.PutSlice` | src/protobuf/protobuf_md_codec.rs:52-53 | appending bytes keeps what was there and adds them at the end |
| `ProtobufMDCodec.FirstMagic` | src/protobuf/protobuf_md_codec.rs:15-22 | the resync scan finds the first magic byte: no earlier byte is magic, and none is found exactly when the buffer holds none |
| `ProtobufMDCodec.ParseAfterMagic` | src/protobuf/protobuf_md_codec.rs:24-32 | after the magic byte, a parsed message is `Ok(Some(msg))` and is consumed; "unexpected EOF" is `Ok(None)`; any other parse error is `Err(DecoderError(e))` |
| `ProtobufMDCodec.Decoded` | src/protobuf/protobuf_md_codec.rs:14-33 | a buffer without a magic byte gives `Ok(None)` and is emptied; a decoded message implies the buffer held a magic byte |
| `ProtobufMDCodec.DecodeLengthDelimited` | src/protobuf/protobuf_md_codec.rs:24 | parsing from the buffer advances it exactly as the length-delimited parse says |
| `ProtobufMDCodec.Decode` | src/protobuf/protobuf_md_codec.rs:14-33 | the byte-by-byte resync loop and the parse give `Decoded`'s result and leave `Decoded`'s bytes in the buffer |
| `ProtobufMDCodec.EncodedFrame` | src/protobuf/protobuf_md_codec.rs:49-55 | a frame is the magic byte, the length-delimited body and the body again; its length is 1 + varint size + 2 × body length |
| `ProtobufMDCodec.Encode` | src/protobuf/protobuf_md_codec.rs:49-56 | encode only appends to the buffer, and what it appends is the encoded frame; the result is `Ok` |
| `ProtobufMDCodec.DecodeSkipsGarbage` | src/protobuf/protobuf_md_codec.rs:15-22 | every byte before the first magic byte, and the magic byte itself, is dropped before parsing starts |
| `ProtobufMDCodec.DecodeEmpty` | src/protobuf/protobuf_md_codec.rs:16-17 | an empty buffer is `Ok(None)` and stays empty |
| `ProtobufMDCodec.DecodeCompleteFrame` | src/protobuf/protobuf_md_codec.rs:15-32 | a complete frame after garbage decodes to the body decoder's verdict and consumes exactly the prefix and the body |
| `ProtobufMDCodec.DecodeTruncatedFrame` | src/protobuf/protobuf_md_codec.rs:15-28 | a frame cut short after its magic byte is `Ok(None)` when prost reports the truncation as "unexpected EOF" and `Err(DecoderError(eof))` otherwise; either way the magic byte is gone from the buffer |
| `ProtobufMDCodec.TruncatedFrameIsNotResumed` | src/protobuf/protobuf_md_codec.rs:15-28 | the truncated frame's first decode is "need more data" or prost's error as above; once the rest arrives, the next decode does not find it when it holds no other magic byte: `Ok(None)` and an empty buffer |
| `ProtobufMDCodec.EncodedFrameDecodes` | src/protobuf/protobuf_md_codec.rs:49-53 | decoding an encoded frame gives the body's message and leaves the second copy of the body in the buffer |
| `I2cBridge.Status2Err` | src/lib.rs:187-196 | `I2cInvalidBus` gives `Bus`, `I2cTooLongData` gives `Overrun`, `I2cNak` gives `NoAcknowledge(Unknown)`, each in both directions; every other code is success |
| `I2cBridge.BuildSequence` | src/lib.rs:202-232 | the sequence carries the bus and address, one operation per caller operation in order; a write carries its bytes, a read its buffer length, both the address |
| `I2cBridge.AnyNak` | src/lib.rs:246-255 | the scan is true exactly when some write or read result carries `I2cNak` |
| `I2cBridge.I2cStatusError` | src/lib.rs:241-263 | with status `I2c` the error is a NAK exactly when some result carries `I2cNak`, a bus error otherwise |
| `I2cBridge.PairStep` | src/lib.rs:285-308 | a pair goes on exactly when it is a read with a success code and data of the buffer's length, or a write with a success code; a failing code ends with its `status2_err`; a shape mismatch ends with `Protocol(I2c)`; a panic exactly on a success-coded read whose data length differs from the buffer's |
| `I2cBridge.StopIndex` | src/lib.rs:284-309 | the loop stops at the first pair that does not go on; every pair before it goes on |
| `I2cBridge.SequenceEffect` | src/lib.rs:268-312 | under status `Ok`, the sequence payload processes at most every operation |
| `I2cBridge.TransactionEffect` | src/lib.rs:236-313 | at most every operation is processed, and a processed operation implies one result per operation |
| `I2cBridge.I2cStatusReportsNakOrBus` | src/lib.rs:241-264 | with status `I2c` the outcome is `NoAcknowledge(Unknown)` exactly when a result carries `I2cNak`, otherwise `Bus`; no buffer is touched |
| `I2cBridge.OtherStatusIsProtocolError` | src/lib.rs:265 | any other non-`Ok` status is `Protocol(status)` with no buffer touched |
| `I2cBridge.StructuralMismatchIsProtocolError` | src/lib.rs:268-282 | with status `Ok`, a missing sequence payload, a wrong result count or another bus is `Protocol(I2c)` with no buffer touched |
| `I2cBridge.EchoedAddressIgnored` | src/lib.rs:273-279 | the echoed address never changes the outcome, because the check compares it with itself |
| `I2cBridge.ProcessingStopsAtFirstFailure` | src/lib.rs:284-313 | results are processed left to right; all pairs before the stop are fine, and the outcome is the first failing pair's, or success |
| `I2cBridge.TransactionSucceedsIff` | src/lib.rs:239-313 | a transaction succeeds exactly when the status is `Ok`, the payload is a sequence from the selected bus with one result per operation, and every pair is fine; then every operation was processed |
| `I2cBridge.WriteThenReadNak` | src/lib.rs:202-309 | `[Write([0x08]), Read(4)]` to 0x0B sends two operations; a NAK on either gives `NoAcknowledge(Unknown)` and leaves the read buffer untouched |
| `Lib.ReadResponse` | src/lib.rs:69-76 | a frame is passed on; a closed stream is `UnexpectedEndOfStream` and a timeout is `Timeout`, and only those |
| `Lib.DecodeCurrentState` | src/lib.rs:78-90 | a control payload decodes field by field, the channel verbatim; a missing payload is the panic |
| `Lib.Exchange` | src/lib.rs:110-112 | `send(..)?` then `read_responce()?`: a failed send is the exchange's error and nothing is read; otherwise the response read; an exchange error is never `Protocol` or `I2C` |
| `Lib.ControlOutcome` | src/lib.rs:110-116 | a control exchange returns an exchange error as it is, and otherwise judges the response by `ControlResult` (the status match of `write` and `read`) |
| `Lib.ControlResult` | src/lib.rs:113-116 | status `Ok` with a control payload returns the decoded state; `Ok` without one panics; any other status is `Protocol(status)` |
| `Lib.ControlRequestFor` | src/lib.rs:98-106 | valve and actuator states are set exactly when the capability gives them, by integer value; the channel is copied unchanged |
| `Lib.BusesFromEnumerate` | src/lib.rs:160-166 | the bus list keeps length and order, with `id = bus` and `speed = max_speed` |
| `Lib.EnumerateOutcome` | src/lib.rs:148-168 | a non-`Ok` status is `Protocol(status)`; the result is a list exactly for an enumerate payload under `Ok`, with the same length and order; any other shape is `Protocol(I2c)` |
| `Lib.ControlOutcomeReturnsState` | src/lib.rs:110-116 | a control exchange returns a state exactly when the send succeeded, a frame came back with status `Ok` and a control payload; the state decodes that payload |
| `Lib.ControlOutcomeProtocolError` | src/lib.rs:110-128 | a control exchange fails with `Protocol(s)` exactly when the send succeeded and a frame came back whose global status is `s`, other than `Ok` |
| `Lib.WriteOfNothingIsRead` | src/lib.rs:98-121 | `write` with every intent absent sends the same control request as `read` |
| `Lib.ChannelIsNotRangeChecked` | src/lib.rs:106 | a channel at or above `CHANNELS_COUNT` reaches the request unchanged |
| `Lib.EnumerateNoBuses` | src/lib.rs:160-166 | an empty bus list under status `Ok` is an empty `Ok` list |
| `Lib.ApplyResult` | src/lib.rs:285-308 | one pair's verdict is `PairStep`'s; a read buffer receives the result data exactly when the pair goes on, and is otherwise untouched |
| `Lib.ProcessResults` | src/lib.rs:284-309 | the loop's outcome is the first failing pair's, or success; read buffers before the stop hold their results' data, later ones are untouched |
| `Lib.LaserSetup.constructor` | src/lib.rs:58-67 | a new session has bus 0 selected and keeps its timeout |
| `Lib.LaserSetup.SelectI2cBus` | src/lib.rs:131-133 | selects the bus and changes nothing else |
| `Lib.LaserSetup.Write` | src/lib.rs:92-117 | sends a fresh request whose control payload holds the capability's intents, and returns the control exchange's outcome |
| `Lib.LaserSetup.Read` | src/lib.rs:119-129 | sends a fresh request with an all-absent control payload, and returns the control exchange's outcome |
| `Lib.LaserSetup.EnumerateI2cBuses` | src/lib.rs:135-169 | sends a fresh request with an enumerate I2C payload; a send or read error is returned, otherwise the enumeration outcome |
| `Lib.LaserSetup.Transaction` | src/lib.rs:177-314 | sends one fresh request carrying the sequence for the selected bus; returns the transaction's outcome; read buffers of processed operations hold their data, all others keep their old contents |

## Left out

- Opening the serial port at 1 500 000 baud and its `unwrap` (src/lib.rs:58-61), and the `Framed` stream and sink plumbing, are I/O. The constructor takes only the timeout, and each exchange is a `Link` input.
- `tokio::time::timeout` (src/lib.rs:70) is timing. `read_responce` is modelled as the mapping from the wait's outcome (frame, closed stream, timed out) to a result. The session's `timeout` is stored but never used.
- `framed` (src/protobuf/protobuf_md_codec.rs:35-43) only builds the stream, so it is not modelled.
- Message serialisation belongs to prost and to the generated `messages` module. Body encoding and decoding are function parameters. The varint length prefix and buffer consumption are concrete.
- Prost.DecodeLengthDelimited: prost's own behaviour on a failed parse is not part of this model. The error it reports for a truncated prefix or body is the parameter `eof` (one error for both); whether it is the "unexpected EOF" the codec tests for is not established here. The model consumes nothing on failure and does not enforce the 10-byte limit of a 64-bit varint.
- ProtobufMDCodec.Encode: the `EncodeError` path is not modelled, because appending to a growable `BytesMut` never runs out of room.
- Lib.DecodeCurrentState: the enumerations' variants live in generated code that is not part of this model. Valve, actuator, status and I2C result codes are closed Dafny types, so the panic of `from_i32(...).unwrap()` on an unknown code (src/lib.rs:83, 85) is not modelled.
- I2cBridge.Status2Err: the panic of `I2cResultCode::from_i32(..).unwrap()` on an unknown result code (src/lib.rs:188) is not modelled, for the same reason.
- Lib.ControlResult: the panic of `Status::from_i32(..).unwrap()` on an unknown global status (src/lib.rs:113, 125) is not modelled, for the same reason.
- Lib.EnumerateOutcome: the panic of `Status::from_i32(..).unwrap()` on an unknown global status (src/lib.rs:150) is not modelled, for the same reason.
- Lib.LaserSetup.Transaction: the panics of `from_i32(..).unwrap()` on an unknown global status (src/lib.rs:239) or result code (src/lib.rs:188) are not modelled, for the same reason.
- `rand::thread_rng` in src/protobuf/mod.rs:10-13 is a foreign call. The id is a parameter.
- build.rs generates code and is not runtime logic.
- The repository's example programs are command-line tools: argument parsing, printing, endless loops, floating-point decoding, and the `panic!`-guarded checks in `main`.
- Concurrency and cancellation are not modelled. Each call is one sequential exchange.

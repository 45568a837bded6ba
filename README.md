# PN532 over SPI: host-side framing, verified in Dafny

This project models the host side of the PN532 NFC controller's SPI transport, as
implemented by the `PN532SPI` class in `PN532SPI/PN532SPI.cpp`:

- `writeFrame` turns a command into a normal information frame and writes it after the
  DATA_WRITE request byte;
- `isReady` polls the status byte;
- `readAckFrame` reads and compares the six-byte ACK frame;
- `writeCommand` records the command code, sends the frame, waits a bounded number of
  polls for the PN532 and checks its ACK;
- `readResponse` waits (optionally with a timeout), then reads one response frame. It
  checks the header, the length checksum, the direction byte and the echoed command code
  `command + 1`, enforces the caller's buffer size (draining an oversized frame), copies
  the payload and checks the data checksum.

The frame format is that of the NXP PN532 User Manual (UM0701-02), section 6.2.

Three modules:

- `Bytes` (`bytes.dfy`): `uint8_t`/`uint16_t`, addition modulo 256, the two's complement
  used for LCS and DCS, and the 8-bit checksum accumulator.
- `Frame` (`frame.dfy`): the frame layout (`Envelope`, `ResponseTo`, `ACK`) and the
  response parser as a function of the device's output (`CheckHeader`, `ParseResponse`),
  with the lemmas about them.
- `Pn532Spi` (`pn532spi.dfy`): the class `PN532SPI`, with the `command` field, the SS line
  (`selected`), the trace of everything the host drives onto the bus (`ops`), the device's
  output (`miso`, a stream of bytes) and the count of bytes clocked in (`rxPos`). Its
  methods follow the C++ code statement by statement, with the same loops, counters and
  `uint8_t`/`uint16_t` wrap-around, and each is proved against the specification
  functions of `Frame` and of `Pn532Spi` itself (`Ready`, `NotReady`, `FirstReady`,
  `AckPollLimit`, `TimesOut`, `AckAt`, `AckStatus`, `StatusPolls`, `Transaction`).

All `uint8_t` arithmetic is modelled with its wrap-around, as written:

- `len + 1` in `writeFrame` gives LEN 0 for a 255-byte command.
- `length -= 2` in `readResponse` turns LEN 0 and 1 into 254 and 255 payload bytes, so
  such a frame is drained as oversized unless the buffer is that large.
- The ACK wait counter starts at PN532_ACK_WAIT_TIME and is decremented before it is
  compared with 0, so a wait time of 0 allows 256 polls.
- `readResponse`'s `uint16_t` counter can never exceed 65535, so a timeout of 65535 never
  fires, just like 0.

## Model

| member | source | states |
|---|---|---|
| Bytes.Neg | PN532SPI/PN532SPI.cpp:155 | `~x + 1` on a byte is the unique byte that brings `x` to zero modulo 256 |
| Bytes.CancelsOnlyOne | PN532SPI/PN532SPI.cpp:117-118 | a checksum byte zeroes at most one accumulator value |
| Bytes.Sum8 | PN532SPI/PN532SPI.cpp:158-164 | defines the `uint8_t` accumulator of the checksum loops (here and at lines 108-114), adding the bytes in order with wrap-around; it carries no contract of its own, and `Sum8IsLowByte` states what it computes |
| Bytes.Sum8IsLowByte | PN532SPI/PN532SPI.cpp:158-164 | the `uint8_t` running sum is the true sum of seed and bytes modulo 256 |
| Bytes.Sum8Prepend | PN532SPI/PN532SPI.cpp:108 | starting the sum at `0xD5 + cmd` is summing the TFI and the response code with the payload |
| Bytes.Sum8DetectsChange | PN532SPI/PN532SPI.cpp:108-122 | changing any single byte changes the 8-bit sum |
| Frame.LengthByte | PN532SPI/PN532SPI.cpp:153 | defines LEN as `len + 1` computed in `uint8_t`, so a 255-byte body wraps to 0; it carries no contract of its own, and `PayloadLengthRoundTrip` and `EnvelopeLayout` state its properties |
| Frame.PayloadLengthRoundTrip | PN532SPI/PN532SPI.cpp:96 | `length - 2` on a byte inverts the LEN of every payload length 0..255, and the LEN read is the LEN of the payload length it gives |
| Frame.DataChecksum | PN532SPI/PN532SPI.cpp:169 | DCS cancels the 8-bit sum of TFI and data |
| Frame.Envelope | PN532SPI/PN532SPI.cpp:149-171 | a frame is 8 bytes longer than its TFI-less body |
| Frame.EnvelopeLayout | PN532SPI/PN532SPI.cpp:149-171 | every frame has preamble and start codes, LEN = body length + 1 modulo 256, LEN + LCS = 0, the TFI, the body, TFI + body + DCS = 0 and the postamble, each at its place |
| Frame.EnvelopeChecksumArithmetic | PN532SPI/PN532SPI.cpp:157-170 | TFI + the plain sum of the data + DCS is a multiple of 256 |
| Frame.CheckHeader | PN532SPI/PN532SPI.cpp:70-96 | a rejected header consumed 1, 2, 3, 5, 6 or 7 bytes; an accepted one announces `n` with `n + 2 = LEN` modulo 256 |
| Frame.HeaderAccepted | PN532SPI/PN532SPI.cpp:72-91 | the header is accepted if and only if preamble, start codes, LEN + LCS, TFI 0xD5 and the echoed code `command + 1` all match; it then announces `LEN - 2` |
| Frame.ParseResponse | PN532SPI/PN532SPI.cpp:65-126 | the parser never times out, never stores more than the capacity, reports success with the copied length and a consumed count of length + 9, and stores nothing on NO_SPACE |
| Frame.PayloadOutcome | PN532SPI/PN532SPI.cpp:108-125 | the payload is copied whatever follows; success holds exactly when the sum and the DCS cancel; a bad DCS stops after it, a good one also reads the postamble |
| Frame.ResponseSeed | PN532SPI/PN532SPI.cpp:108 | defines the start value `PN532_PN532TOHOST + cmd` of the data checksum, with `cmd = command + 1`, both added in `uint8_t`; it carries no contract of its own, and `Sum8Prepend` states that it is the TFI and response code summed ahead of the payload |
| Frame.AcceptedOutcome | PN532SPI/PN532SPI.cpp:96-125 | past an accepted header whose payload fits, the outcome is decided by the payload and its checksum alone |
| Frame.ResponseRoundTrip | PN532SPI/PN532SPI.cpp:65-126 | the response to `command` with a payload that fits is accepted, that payload is copied and exactly the whole frame is consumed |
| Frame.AcceptedFacts | PN532SPI/PN532SPI.cpp:70-122 | a successful parse saw an accepted header announcing the copied length, copied the bytes after it, and its DCS cancels their sum |
| Frame.ParseAcceptsOnlyResponses | PN532SPI/PN532SPI.cpp:70-125 | success is reported only when the bytes read are the response to `command` carrying the copied payload, up to the unchecked postamble |
| Frame.OversizedResponseDrained | PN532SPI/PN532SPI.cpp:96-105 | a valid response larger than the buffer gives NO_SPACE, stores nothing and consumes exactly the whole frame |
| Frame.ShortLengthWraps | PN532SPI/PN532SPI.cpp:96-105 | a valid header with LEN 0 or 1 announces 254 or 255 bytes and is drained as NO_SPACE when the buffer is smaller |
| Frame.CorruptedResponseRejected | PN532SPI/PN532SPI.cpp:72-122 | changing any byte of an acceptable response except the postamble gives INVALID_FRAME, and reading stops right after the first failing check |
| Frame.CorruptedHeaderRejected | PN532SPI/PN532SPI.cpp:72-91 | a changed header byte is rejected by its own check, or by the length checksum for LEN and LCS |
| Frame.BodyCorruptionKeepsHeader | PN532SPI/PN532SPI.cpp:72-96 | a change past the header leaves the header accepted with the original length |
| Frame.BodyCorruptionBreaksChecksum | PN532SPI/PN532SPI.cpp:108-122 | a changed payload or DCS byte makes the data checksum fail |
| Frame.PayloadChangeBreaksChecksum | PN532SPI/PN532SPI.cpp:108-122 | a data checksum that cancels a payload's sum does not cancel the sum of that payload with any one byte changed |
| Frame.ResponseHeaderAccepted | PN532SPI/PN532SPI.cpp:72-96 | the seven header bytes of the response to `command` with `n` payload bytes pass every check and announce `n` |
| Frame.AcceptedParsed | PN532SPI/PN532SPI.cpp:96-125 | an accepted header announcing a payload that fits, that payload and a cancelling data checksum give success with the payload copied and the frame consumed |
| Frame.CorruptedBodyRejected | PN532SPI/PN532SPI.cpp:108-122 | a changed payload or DCS byte gives INVALID_FRAME after consuming the payload and the DCS |
| Pn532Spi.Ready | PN532SPI/PN532SPI.cpp:138 | defines the ready test `read() & 1` as bit 0 of the status byte, that is, the byte is odd; it carries no contract of its own, and `NotReadyMeans`, `FirstReady` and the wait loops state what it decides |
| Pn532Spi.NotReadyMeans | PN532SPI/PN532SPI.cpp:39 | `NotReady` holds exactly when every one of those status bytes has bit 0 clear |
| Pn532Spi.FirstReady | PN532SPI/PN532SPI.cpp:38-46 | at most `limit` failed polls, all not ready, followed by a ready one unless the limit is reached |
| Pn532Spi.FirstReadyUnique | PN532SPI/PN532SPI.cpp:38-46 | the number of failed polls of a bounded wait is determined by the status bytes: it is `FirstReady` |
| Pn532Spi.AckPollLimit | PN532SPI/PN532SPI.cpp:38-44 | the `uint8_t` countdown allows between 1 and 256 failed polls |
| Pn532Spi.TimesOut | PN532SPI/PN532SPI.cpp:56-62 | defines when the `timeout > 0 && time > timeout` test of `readResponse` can fire: for a timeout strictly between 0 and 65535; 0 waits for ever, and so does 65535, which the `uint16_t` counter wraps before exceeding; it carries no contract of its own, and `TimesOutMeans` and `AwaitResponse` state its meaning |
| Pn532Spi.TimesOutMeans | PN532SPI/PN532SPI.cpp:56-62 | the counter can exceed the timeout exactly when the timeout is non-zero and `timeout + 1` does not wrap to 0 in 16 bits |
| Pn532Spi.AckAt | PN532SPI/PN532SPI.cpp:194 | defines `memcmp(ackBuf, PN532_ACK, 6) == 0` as equality of the six bytes read with the ACK frame; it carries no contract of its own, and `AckAtMeans` and `CorruptedAckRejected` state its meaning |
| Pn532Spi.AckStatus | PN532SPI/PN532SPI.cpp:47-51 | defines the outcome once the PN532 was ready: a bad ACK gives the invalid-ACK status, a good one success; it carries no contract of its own, and `AwaitAck` and `WriteCommand` state it through `AckAt` |
| Pn532Spi.AckAtMeans | PN532SPI/PN532SPI.cpp:180-194 | the ACK check passes exactly when the six bytes are `00 00 FF 00 FF 00` |
| Pn532Spi.CorruptedAckRejected | PN532SPI/PN532SPI.cpp:180-194 | any single-byte deviation from the ACK frame fails the check |
| Pn532Spi.PN532SPI.constructor | PN532SPI/PN532SPI.cpp:9-14 | a new driver has `command = 0`, nothing sent and nothing read; SS is taken to be at its idle level (high), which the constructor itself does not drive |
| Pn532Spi.PN532SPI.IsReady | PN532SPI/PN532SPI.cpp:133-141 | one STATUS_READ transaction that consumes one status byte and returns its bit 0 |
| Pn532Spi.PN532SPI.WriteFrame | PN532SPI/PN532SPI.cpp:143-176 | the bus sees exactly one transaction carrying DATA_WRITE and the frame for TFI 0xD4 and the first `len` bytes; nothing is read and SS ends high |
| Pn532Spi.PN532SPI.ReadAckFrame | PN532SPI/PN532SPI.cpp:178-195 | one DATA_READ transaction that consumes exactly six bytes and reports a mismatch exactly when they are not the ACK frame |
| Pn532Spi.PN532SPI.AwaitReady | PN532SPI/PN532SPI.cpp:38-46 | polls until ready; gives up after exactly `AckPollLimit` failed polls, otherwise stops at the first ready status; the trace is exactly those polls |
| Pn532Spi.Code | PN532SPI/PN532SPI.cpp:44-51 | the number returned is 0 exactly on success, -2 exactly on the ACK timeout and PN532_INVALID_ACK exactly on a bad ACK, whenever that constant is neither 0 nor -2 |
| Pn532Spi.PN532SPI.AwaitAck | PN532SPI/PN532SPI.cpp:38-51 | the number of failed polls is `FirstReady`; the ACK timeout comes after exactly `AckPollLimit` failed polls with nothing read; otherwise the first ready status is followed by one six-byte ACK read whose result is the ACK comparison; the trace is exactly those polls and that read |
| Pn532Spi.PN532SPI.WriteCommand | PN532SPI/PN532SPI.cpp:33-52 | sets `command` to `buf[0]`, sends the frame, waits exactly `FirstReady` failed polls (the status bytes alone decide how many), and returns the ACK timeout after `AckPollLimit` failed polls without reading an ACK, otherwise success exactly when the ACK frame follows the ready status; the whole bus trace is given |
| Pn532Spi.PN532SPI.AwaitResponse | PN532SPI/PN532SPI.cpp:56-63 | polls until ready; times out exactly after `timeout + 1` failed polls when the timeout can fire, never when it is 0 or 65535 |
| Pn532Spi.PN532SPI.ReadHeader | PN532SPI/PN532SPI.cpp:70-96 | reads the header byte by byte and decides as `CheckHeader`, stopping after the first failing check |
| Pn532Spi.PN532SPI.ReadPayload | PN532SPI/PN532SPI.cpp:108-122 | copies the next `n` bytes into `buf[..n]`, leaves the rest of `buf` alone, and reports whether the DCS cancels the running sum |
| Pn532Spi.PN532SPI.Skip | PN532SPI/PN532SPI.cpp:97-103 | discards exactly `count` bytes |
| Pn532Spi.PN532SPI.ReceivePayload | PN532SPI/PN532SPI.cpp:108-125 | after an accepted header whose payload fits, the reply, the bytes consumed and the buffer are those of `ParseResponse` |
| Pn532Spi.PN532SPI.ReceiveFrame | PN532SPI/PN532SPI.cpp:65-130 | one DATA_READ transaction whose reply, consumption and buffer contents are those of `ParseResponse`; the buffer beyond the copied bytes is untouched and SS ends high |
| Pn532Spi.PN532SPI.ReadResponse | PN532SPI/PN532SPI.cpp:54-131 | on timeout only status polls happened and the buffer is unchanged; otherwise the ready status is followed by one frame read whose reply, consumption and buffer contents are those of `ParseResponse` |

## Left out

- `begin`, `wakeup`, `pinMode` and the SPI configuration: hardware set-up with no logic.
- `delay` and elapsed time: waits are counted in failed status polls, which is what the loops count.
- `DMSG` and `DMSG_HEX`: the diagnostic output itself.
- Pn532Spi.PN532SPI.Skip: the drain loop's only `read()` is the argument of `DMSG_HEX` (`PN532SPI/PN532SPI.cpp:99`), and it is modelled as exactly one `read()` per payload byte. Whether that holds depends on `debug.h`, which is not part of this model: a macro that drops its argument would read nothing, and one that evaluates it twice would read twice. `Frame.OversizedResponseDrained` and `Frame.ShortLengthWraps` rely on this count.
- The SPI transfers themselves:
  - `write(b)` appends `Send(b)` to the trace `ops`;
  - `read()` takes the next byte of the device's output `miso`;
  - `digitalWrite` on SS appends `SelectLow`/`SelectHigh` and sets `selected`.
  The device's output is a fixed stream that does not depend on what the host writes.
- `PN532SPI.h` and `debug.h` are not part of this model:
  - the numeric error codes become the datatypes `Reply` and `CommandStatus`;
  - `Code` maps `CommandStatus` to the returned number: 0, the literal -2, and PN532_INVALID_ACK as a parameter;
  - PN532_ACK_WAIT_TIME is a constructor parameter, because its value is not shown.
- Pn532Spi.PN532SPI.ReadAckFrame: `memcmp`'s sign is not modelled, only whether it is non-zero, which is all `writeCommand` uses. The model assumes that a non-zero `memcmp` result stays non-zero when `readAckFrame` narrows it to `int8_t`; this holds for implementations that return a byte difference (-255..255), but the C standard does not guarantee it.
- Pn532Spi.PN532SPI.AwaitResponse: when the timeout is 0 or 65535 the loop waits for ever. The method requires that a later status byte is ready, which the C++ does not demand, so that the wait terminates.
- Pn532Spi.PN532SPI.ReadResponse: carries the same termination requirement as AwaitResponse.
- The helper methods split `readResponse` and `writeCommand` along their own sections, without changing their order of reads and writes:
  - `AwaitReady`, `AwaitResponse` and `PollNext` for the wait loops;
  - `AwaitAck` for the ACK wait and the ACK check of `writeCommand`;
  - `ReadHeader` for the header checks;
  - `Skip` for the drain loop and its two extra reads;
  - `ReadPayload` and `ReceivePayload` for the copy, the checksum and the postamble;
  - `ReceiveFrame` for the frame read;
  - `WriteNext` for one `write` of `writeFrame`.
- The number of failed polls is a ghost out-parameter of the waiting methods, because the C++ does not return it.

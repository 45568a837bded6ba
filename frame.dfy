/** The PN532 normal information frame and ACK frame (NXP PN532 User Manual UM0701-02,
    section 6.2), and what the host-side parser makes of the bytes the PN532 clocks out. */
module Frame {
  import opened Bytes

  const PREAMBLE: byte := 0x00
  const STARTCODE1: byte := 0x00
  const STARTCODE2: byte := 0xFF
  const POSTAMBLE: byte := 0x00
  /** TFI of a frame from the host to the PN532. */
  const HOST_TO_PN532: byte := 0xD4
  /** TFI of a frame from the PN532 to the host. */
  const PN532_TO_HOST: byte := 0xD5
  /** The ACK frame the PN532 sends after accepting a command frame. */
  const ACK: seq<byte> := [0x00, 0x00, 0xFF, 0x00, 0xFF, 0x00]

  /** The LEN byte of a frame whose data field is the TFI plus `bodyLength` bytes,
      computed in `uint8_t`, so that a 255-byte body wraps to LEN 0. */
  function LengthByte(bodyLength: nat): byte
  {
    (bodyLength + 1) % 256
  }

  /** LEN counts the TFI, the response code and the payload, so the parser's
      `length - 2` (on a `uint8_t`) gives back the payload length of every frame, and the
      LEN of a frame with that payload is the LEN the parser read. */
  lemma PayloadLengthRoundTrip(n: byte, len: byte)
    ensures Add8(LengthByte(n + 1), 254) == n
    ensures LengthByte(Add8(len, 254) + 1) == len
  {
    if n >= 254 {
      assert LengthByte(n + 1) == n - 254;
    }
    if len < 2 {
      assert Add8(len, 254) == len + 254;
    }
  }

  /** DCS: the two's complement of the `uint8_t` sum of the TFI and the body. */
  function DataChecksum(tfi: byte, body: seq<byte>): (dcs: byte)
    ensures Add8(Sum8(tfi, body), dcs) == 0
  {
    Neg(Sum8(tfi, body))
  }

  /** The wire form of a normal information frame: preamble, start codes, LEN, LCS, TFI,
      the body, DCS and postamble. */
  function Envelope(tfi: byte, body: seq<byte>): (f: seq<byte>)
    ensures |f| == |body| + 8
  {
    var len := LengthByte(|body|);
    [PREAMBLE, STARTCODE1, STARTCODE2, len, Neg(len), tfi] + body + [DataChecksum(tfi, body), POSTAMBLE]
  }

  /** The frame a PN532 sends in answer to `command`: TFI 0xD5, the response code
      `command + 1` (as a byte), then the payload. */
  function ResponseTo(command: byte, payload: seq<byte>): seq<byte>
  {
    Envelope(PN532_TO_HOST, [Add8(command, 1)] + payload)
  }

  /** `n` consecutive bytes of the device's output, from position `at`. */
  function Window(input: nat -> byte, at: nat, n: nat): (w: seq<byte>)
    ensures |w| == n
    ensures forall i :: 0 <= i < n ==> w[i] == input(at + i)
  {
    seq(n, (i: int) requires 0 <= i < n => input(at + i))
  }

  /** The device's output holds `s` from position `at` on. */
  ghost predicate StreamHas(input: nat -> byte, at: nat, s: seq<byte>)
  {
    forall i :: 0 <= i < |s| ==> input(at + i) == s[i]
  }

  /** The window over a stretch of the stream that holds `s` is the matching slice of `s`. */
  lemma WindowOfStream(input: nat -> byte, at: nat, s: seq<byte>, k: nat, n: nat)
    requires StreamHas(input, at, s) && k + n <= |s|
    ensures Window(input, at + k, n) == s[k..k + n]
  {
    var w := Window(input, at + k, n);
    var t := s[k..k + n];
    forall i | 0 <= i < n
      ensures w[i] == t[i]
    {
      assert input(at + (k + i)) == s[k + i];
    }
  }

  /** What `readResponse` returns; `Length(n)` is a successful read of n payload bytes. */
  datatype Reply = Length(n: byte) | Timeout | InvalidFrame | NoSpace

  /** The outcome of parsing one response: the reply, how many bytes were clocked in after
      DATA_READ, and the bytes stored, in order, at the front of the caller's buffer. */
  datatype Reception = Reception(reply: Reply, used: nat, copied: seq<byte>)

  /** What the header checks of a response decide: the header was rejected after `used`
      bytes, or it was accepted and announces `n` payload bytes. */
  datatype HeaderCheck = Rejected(used: nat) | Accepted(n: byte)

  /** The header checks of `readResponse`, in order: PREAMBLE, the two start codes, the
      length checksum LEN + LCS, the direction byte and the echoed command code
      `command + 1`. The first that fails ends the read. `length -= 2` is `uint8_t`
      arithmetic, so LEN 0 and 1 announce 254 and 255 payload bytes. */
  function CheckHeader(command: byte, input: nat -> byte, at: nat): (h: HeaderCheck)
    ensures h.Rejected? ==> 1 <= h.used <= 7 && h.used != 4
    ensures h.Accepted? ==> Add8(h.n, 2) == input(at + 3)
  {
    if input(at) != PREAMBLE then Rejected(1)
    else if input(at + 1) != STARTCODE1 then Rejected(2)
    else if input(at + 2) != STARTCODE2 then Rejected(3)
    else if Add8(input(at + 3), input(at + 4)) != 0 then Rejected(5)
    else if input(at + 5) != PN532_TO_HOST then Rejected(6)
    else if input(at + 6) != Add8(command, 1) then Rejected(7)
    else Accepted(Add8(input(at + 3), 254))
  }

  /** The header checks pass exactly when the six header bytes are right. */
  lemma HeaderAccepted(command: byte, input: nat -> byte, at: nat)
    ensures CheckHeader(command, input, at).Accepted?
        <==> && input(at) == PREAMBLE && input(at + 1) == STARTCODE1 && input(at + 2) == STARTCODE2
             && Add8(input(at + 3), input(at + 4)) == 0
             && input(at + 5) == PN532_TO_HOST && input(at + 6) == Add8(command, 1)
    ensures CheckHeader(command, input, at).Accepted? ==> CheckHeader(command, input, at).n == Add8(input(at + 3), 254)
  {
  }

  /** The starting value of the data checksum of a response to `command`: TFI plus the
      echoed command code. */
  function ResponseSeed(command: byte): byte
  {
    Add8(PN532_TO_HOST, Add8(command, 1))
  }

  /** The response parser: reads the device's output from `at` on, with `command` the
      last command code sent and `capacity` the caller's buffer size. It stops at the
      first check that fails; only an oversized payload is drained to the end of its
      frame. */
  function ParseResponse(command: byte, capacity: byte, input: nat -> byte, at: nat): (r: Reception)
    ensures r.reply != Timeout
    ensures |r.copied| <= capacity
    ensures r.reply.Length? ==> r.reply.n == |r.copied| && r.used == r.reply.n + 9
    ensures r.reply == NoSpace ==> r.copied == []
  {
    match CheckHeader(command, input, at)
    case Rejected(k) => Reception(InvalidFrame, k, [])
    case Accepted(n) =>
      if n > capacity then Reception(NoSpace, n + 9, [])
      else PayloadOutcome(ResponseSeed(command), n, input, at + 7)
  }

  /** The end of a frame whose header was accepted and whose payload fits: the `n`
      payload bytes from `at` on are copied whatever follows, and the data checksum right
      after them decides between success and an invalid frame. */
  function PayloadOutcome(seed: byte, n: byte, input: nat -> byte, at: nat): (r: Reception)
    ensures r.copied == Window(input, at, n)
    ensures r.reply == Length(n) <==> Add8(Sum8(seed, r.copied), input(at + n)) == 0
    ensures r.reply != Length(n) ==> r.reply == InvalidFrame && r.used == n + 8
    ensures r.reply == Length(n) ==> r.used == n + 9
  {
    var payload := Window(input, at, n);
    if Add8(Sum8(seed, payload), input(at + n)) != 0
    then Reception(InvalidFrame, n + 8, payload)
    else Reception(Length(n), n + 9, payload)
  }

  /** Past an accepted header with a payload that fits, the outcome turns on the data
      checksum alone. */
  lemma AcceptedOutcome(command: byte, capacity: byte, input: nat -> byte, at: nat, n: byte)
    requires CheckHeader(command, input, at) == Accepted(n) && n <= capacity
    ensures ParseResponse(command, capacity, input, at) == PayloadOutcome(ResponseSeed(command), n, input, at + 7)
  {
  }

  /** Every frame carries its fields where the format puts them and satisfies both
      checksum invariants: LEN + LCS and TFI + body + DCS are zero modulo 256. */
  lemma EnvelopeLayout(tfi: byte, body: seq<byte>)
    ensures var f := Envelope(tfi, body);
      && f[..3] == [PREAMBLE, STARTCODE1, STARTCODE2]
      && f[3] == (|body| + 1) % 256
      && Add8(f[3], f[4]) == 0
      && f[5] == tfi
      && f[6..6 + |body|] == body
      && Add8(Sum8(tfi, body), f[6 + |body|]) == 0
      && f[7 + |body|] == POSTAMBLE
  {
    var f := Envelope(tfi, body);
    var head := [PREAMBLE, STARTCODE1, STARTCODE2, LengthByte(|body|), Neg(LengthByte(|body|)), tfi];
    assert f == head + body + [DataChecksum(tfi, body), POSTAMBLE];
    assert f[..6] == head;
    assert f[6..6 + |body|] == body;
  }

  /** The same checksum invariant in plain arithmetic: TFI + the sum of the body + DCS
      is a multiple of 256. */
  lemma EnvelopeChecksumArithmetic(tfi: byte, body: seq<byte>, total: nat)
    requires total == Sum(body)
    ensures (tfi + total + Envelope(tfi, body)[6 + |body|]) % 256 == 0
  {
    var d := Envelope(tfi, body)[6 + |body|];
    assert Add8(Sum8(tfi, body), d) == 0 by {
      EnvelopeLayout(tfi, body);
    }
    Sum8IsLowByte(tfi, body);
    LowByteCancels(tfi + total, d);
  }

  /** The response to `command` carrying `payload`, byte by byte. */
  lemma ResponseLayout(command: byte, payload: seq<byte>)
    ensures var f := ResponseTo(command, payload);
      var n := |payload|;
      && |f| == n + 9
      && f[0] == PREAMBLE && f[1] == STARTCODE1 && f[2] == STARTCODE2
      && f[3] == LengthByte(n + 1) && f[4] == Neg(f[3])
      && f[5] == PN532_TO_HOST && f[6] == Add8(command, 1)
      && (forall i :: 0 <= i < n ==> f[7 + i] == payload[i])
      && f[7..7 + n] == payload
      && f[7 + n] == Neg(Sum8(ResponseSeed(command), payload))
      && f[8 + n] == POSTAMBLE
      && f[..n + 8] == f[..7] + payload + [f[7 + n]]
  {
    var rc := Add8(command, 1);
    var len := LengthByte(1 + |payload|);
    var head := [PREAMBLE, STARTCODE1, STARTCODE2, len, Neg(len), PN532_TO_HOST, rc];
    ResponseParts(command, payload);
    PartsLayout(head, payload, [DataChecksum(PN532_TO_HOST, [rc] + payload), POSTAMBLE]);
    Sum8Prepend(PN532_TO_HOST, rc, payload);
  }

  /** The response as its seven header bytes, the payload and its two trailing bytes. */
  lemma ResponseParts(command: byte, payload: seq<byte>)
    ensures var rc := Add8(command, 1);
      var len := LengthByte(1 + |payload|);
      ResponseTo(command, payload)
        == [PREAMBLE, STARTCODE1, STARTCODE2, len, Neg(len), PN532_TO_HOST, rc] + payload
           + [DataChecksum(PN532_TO_HOST, [rc] + payload), POSTAMBLE]
  {
    var rc := Add8(command, 1);
    var len := LengthByte(1 + |payload|);
    var head := [PREAMBLE, STARTCODE1, STARTCODE2, len, Neg(len), PN532_TO_HOST];
    assert head + ([rc] + payload) == head + [rc] + payload;
  }

  /** Where the parts of a three-part sequence sit. */
  lemma PartsLayout(head: seq<byte>, mid: seq<byte>, tail: seq<byte>)
    requires |tail| == 2
    ensures var f := head + mid + tail;
      var h, n := |head|, |mid|;
      && |f| == h + n + 2
      && (forall i :: 0 <= i < h ==> f[i] == head[i])
      && f[..h] == head
      && (forall i :: 0 <= i < n ==> f[h + i] == mid[i])
      && f[h..h + n] == mid
      && f[h + n] == tail[0] && f[h + n + 1] == tail[1]
      && f[..h + n + 1] == head + mid + [tail[0]]
  {
    var f := head + mid + tail;
    var h, n := |head|, |mid|;
    assert f[..h + n + 1] == head + mid + [tail[0]];
  }

  /** The response to `command` carrying `payload` is its header, the payload, the data
      checksum and the postamble. */
  lemma ResponseSplit(command: byte, payload: seq<byte>)
    ensures var f := ResponseTo(command, payload);
      var n := |payload|;
      && |f| == n + 9
      && f[7 + n] == Neg(Sum8(ResponseSeed(command), payload))
      && f[..n + 8] == f[..7] + payload + [f[7 + n]]
  {
    ResponseLayout(command, payload);
  }

  /** Round trip: when the device sends the response to `command` with a payload that fits
      the buffer, the parser accepts it, copies exactly that payload and consumes exactly
      the frame. This holds for every payload length up to 255, with the LEN wrap among them. */
  lemma ResponseRoundTrip(command: byte, capacity: byte, payload: seq<byte>, input: nat -> byte, at: nat)
    requires |payload| <= capacity
    requires StreamHas(input, at, ResponseTo(command, payload))
    ensures ParseResponse(command, capacity, input, at)
         == Reception(Length(|payload|), |ResponseTo(command, payload)|, payload)
  {
    ResponseLayout(command, payload);
    FrameParsed(command, capacity, payload, ResponseTo(command, payload), input, at);
  }

  /** The round trip for any frame laid out as the response to `command` carrying
      `payload`. */
  lemma FrameParsed(command: byte, capacity: byte, payload: seq<byte>, f: seq<byte>, input: nat -> byte, at: nat)
    requires |payload| <= capacity && |f| == |payload| + 9
    requires f[0] == PREAMBLE && f[1] == STARTCODE1 && f[2] == STARTCODE2
    requires f[3] == LengthByte(|payload| + 1) && f[4] == Neg(f[3])
    requires f[5] == PN532_TO_HOST && f[6] == Add8(command, 1)
    requires f[7..7 + |payload|] == payload
    requires f[7 + |payload|] == Neg(Sum8(ResponseSeed(command), payload))
    requires StreamHas(input, at, f)
    ensures ParseResponse(command, capacity, input, at) == Reception(Length(|payload|), |f|, payload)
  {
    var n := |payload|;
    assert input(at) == f[0] && input(at + 1) == f[1] && input(at + 2) == f[2];
    assert input(at + 3) == f[3] && input(at + 4) == f[4];
    assert input(at + 5) == f[5] && input(at + 6) == f[6];
    ResponseHeaderAccepted(command, n, input, at);
    WindowOfStream(input, at, f, 7, n);
    assert input(at + 7 + n) == f[7 + n];
    AcceptedParsed(command, capacity, payload, input, at);
  }

  /** An accepted header announcing a payload that fits, that payload, and the data
      checksum that cancels it make a successful parse of the whole frame. */
  lemma AcceptedParsed(command: byte, capacity: byte, payload: seq<byte>, input: nat -> byte, at: nat)
    requires |payload| <= capacity
    requires CheckHeader(command, input, at) == Accepted(|payload|)
    requires Window(input, at + 7, |payload|) == payload
    requires input(at + 7 + |payload|) == Neg(Sum8(ResponseSeed(command), payload))
    ensures ParseResponse(command, capacity, input, at) == Reception(Length(|payload|), |payload| + 9, payload)
  {
    AcceptedOutcome(command, capacity, input, at, |payload|);
  }

  /** The header of the response to `command` with `n` payload bytes passes every check
      and announces `n`. */
  lemma ResponseHeaderAccepted(command: byte, n: byte, input: nat -> byte, at: nat)
    requires input(at) == PREAMBLE && input(at + 1) == STARTCODE1 && input(at + 2) == STARTCODE2
    requires input(at + 3) == LengthByte(n + 1) && input(at + 4) == Neg(input(at + 3))
    requires input(at + 5) == PN532_TO_HOST && input(at + 6) == Add8(command, 1)
    ensures CheckHeader(command, input, at) == Accepted(n)
  {
    PayloadLengthRoundTrip(n, input(at + 3));
  }

  /** What a successful parse has seen: an accepted header announcing the copied
      payload, the payload itself, and a data checksum that cancels its sum. */
  lemma AcceptedFacts(command: byte, capacity: byte, input: nat -> byte, at: nat)
    requires ParseResponse(command, capacity, input, at).reply.Length?
    ensures var r := ParseResponse(command, capacity, input, at);
      var n := |r.copied|;
      && CheckHeader(command, input, at) == Accepted(n)
      && r.copied == Window(input, at + 7, n)
      && Add8(Sum8(ResponseSeed(command), r.copied), input(at + 7 + n)) == 0
  {
    match CheckHeader(command, input, at)
    case Accepted(n) =>
      AcceptedOutcome(command, capacity, input, at, n);
      var r := PayloadOutcome(ResponseSeed(command), n, input, at + 7);
      assert r.reply == Length(n);
  }

  /** Soundness: the parser reports success only for bytes that form the response to
      `command` with the copied payload, up to the postamble, which it reads but does not
      check. With the round trip this makes acceptance an if-and-only-if; in particular
      only the echoed code `command + 1` is accepted. */
  lemma ParseAcceptsOnlyResponses(command: byte, capacity: byte, input: nat -> byte, at: nat)
    requires ParseResponse(command, capacity, input, at).reply.Length?
    ensures var r := ParseResponse(command, capacity, input, at);
      var f := ResponseTo(command, r.copied);
      && r.used == |f|
      && StreamHas(input, at, f[..|f| - 1])
  {
    var r := ParseResponse(command, capacity, input, at);
    AcceptedFacts(command, capacity, input, at);
    AcceptedHeaderBytes(command, r.copied, input, at);
    StreamHasWindow(input, at + 7, |r.copied|);
    ResponseUpToPostamble(command, r.copied, input, at);
  }

  /** A stream holding an accepted header, then the payload it announces, then a data
      checksum that cancels them, holds the whole response but its postamble. */
  lemma ResponseUpToPostamble(command: byte, payload: seq<byte>, input: nat -> byte, at: nat)
    requires StreamHas(input, at, ResponseTo(command, payload)[..7])
    requires StreamHas(input, at + 7, payload)
    requires Add8(Sum8(ResponseSeed(command), payload), input(at + 7 + |payload|)) == 0
    ensures var f := ResponseTo(command, payload);
      |f| == |payload| + 9 && StreamHas(input, at, f[..|f| - 1])
  {
    var n := |payload|;
    var f := ResponseTo(command, payload);
    ResponseSplit(command, payload);
    var head, dcs := f[..7], f[7 + n];
    assert input(at + 7 + n) == dcs;
    StreamHasThree(input, at, head, payload, dcs);
    assert f[..|f| - 1] == head + payload + [dcs];
  }

  /** Three stretches of the stream, one right after the other, the last a single byte. */
  lemma StreamHasThree(input: nat -> byte, at: nat, a: seq<byte>, b: seq<byte>, d: byte)
    requires StreamHas(input, at, a) && StreamHas(input, at + |a|, b)
    requires input(at + |a| + |b|) == d
    ensures StreamHas(input, at, a + b + [d])
  {
    StreamHasConcat(input, at, a, b);
    StreamHasConcat(input, at, a + b, [d]);
  }

  /** The stream holds every window over it. */
  lemma StreamHasWindow(input: nat -> byte, at: nat, n: nat)
    ensures StreamHas(input, at, Window(input, at, n))
  {
  }

  /** Two stretches of the stream, one right after the other. */
  lemma StreamHasConcat(input: nat -> byte, at: nat, a: seq<byte>, b: seq<byte>)
    requires StreamHas(input, at, a) && StreamHas(input, at + |a|, b)
    ensures StreamHas(input, at, a + b)
  {
    forall i | 0 <= i < |a + b| ensures input(at + i) == (a + b)[i] {
      if i >= |a| {
        assert input(at + |a| + (i - |a|)) == b[i - |a|];
      }
    }
  }

  /** An accepted header is the header of the response carrying a payload of the length
      it announces. */
  lemma AcceptedHeaderBytes(command: byte, payload: seq<byte>, input: nat -> byte, at: nat)
    requires |payload| < 256
    requires CheckHeader(command, input, at) == Accepted(|payload|)
    ensures StreamHas(input, at, ResponseTo(command, payload)[..7])
  {
    var f := ResponseTo(command, payload);
    HeaderAccepted(command, input, at);
    ResponseLayout(command, payload);
    PayloadLengthRoundTrip(|payload|, input(at + 3));
    assert f[3] == input(at + 3);
    assert f[4] == input(at + 4);
  }

  /** A response whose payload exceeds the buffer is drained to the end of its frame,
      so that the next read starts at the next frame, and nothing is copied. */
  lemma OversizedResponseDrained(command: byte, capacity: byte, payload: seq<byte>, input: nat -> byte, at: nat)
    requires capacity < |payload| < 256
    requires StreamHas(input, at, ResponseTo(command, payload))
    ensures ParseResponse(command, capacity, input, at)
         == Reception(NoSpace, |ResponseTo(command, payload)|, [])
  {
    var f := ResponseTo(command, payload);
    ResponseLayout(command, payload);
    assert input(at) == f[0] && input(at + 1) == f[1] && input(at + 2) == f[2];
    assert input(at + 3) == f[3] && input(at + 4) == f[4];
    assert input(at + 5) == f[5] && input(at + 6) == f[6];
    HeaderAccepted(command, input, at);
    PayloadLengthRoundTrip(|payload|, f[3]);
  }

  /** Changing any one byte of a response that would have been accepted, other than the
      unchecked postamble, makes the parser reject it as an invalid frame; it stops right
      after the first check that fails, and never reports success. */
  lemma CorruptedResponseRejected(command: byte, capacity: byte, payload: seq<byte>, j: nat, b: byte,
                                  input: nat -> byte, at: nat)
    requires |payload| <= capacity
    requires j < |ResponseTo(command, payload)| - 1 && b != ResponseTo(command, payload)[j]
    requires StreamHas(input, at, ResponseTo(command, payload)[j := b])
    ensures var r := ParseResponse(command, capacity, input, at);
      && r.reply == InvalidFrame
      && r.used == if j == 3 then 5 else if j < 7 then j + 1 else |payload| + 8
  {
    if j < 7 {
      CorruptedHeaderRejected(command, payload, j, b, input, at);
    } else {
      CorruptedBodyRejected(command, capacity, payload, j, b, input, at);
    }
  }

  /** A corrupted header byte is caught by the header checks: by the length checksum when
      it is LEN or LCS, otherwise by the check of that byte itself. */
  lemma CorruptedHeaderRejected(command: byte, payload: seq<byte>, j: nat, b: byte, input: nat -> byte, at: nat)
    requires j < 7 && b != ResponseTo(command, payload)[j]
    requires StreamHas(input, at, ResponseTo(command, payload)[j := b])
    ensures CheckHeader(command, input, at) == Rejected(if j == 3 then 5 else j + 1)
  {
    var f := ResponseTo(command, payload);
    var g := f[j := b];
    ResponseLayout(command, payload);
    assert input(at) == g[0] && input(at + 1) == g[1] && input(at + 2) == g[2];
    assert input(at + 3) == g[3] && input(at + 4) == g[4];
    assert input(at + 5) == g[5] && input(at + 6) == g[6];
    if j == 3 {
      CancelsOnlyOne(b, f[3], f[4]);
    }
  }

  /** A corrupted payload byte or data checksum passes the header checks and is caught by
      the data checksum, after the payload and the checksum have been read. */
  lemma CorruptedBodyRejected(command: byte, capacity: byte, payload: seq<byte>, j: nat, b: byte,
                              input: nat -> byte, at: nat)
    requires |payload| <= capacity
    requires 7 <= j < |ResponseTo(command, payload)| - 1 && b != ResponseTo(command, payload)[j]
    requires StreamHas(input, at, ResponseTo(command, payload)[j := b])
    ensures ParseResponse(command, capacity, input, at).reply == InvalidFrame
    ensures ParseResponse(command, capacity, input, at).used == |payload| + 8
  {
    BodyCorruptionKeepsHeader(command, payload, j, b, input, at);
    BodyCorruptionBreaksChecksum(command, payload, j, b, input, at);
    AcceptedOutcome(command, capacity, input, at, |payload|);
  }

  /** A corruption past the header leaves the header checks passing. */
  lemma BodyCorruptionKeepsHeader(command: byte, payload: seq<byte>, j: nat, b: byte, input: nat -> byte, at: nat)
    requires 7 <= j < |ResponseTo(command, payload)| - 1 && |payload| < 256
    requires StreamHas(input, at, ResponseTo(command, payload)[j := b])
    ensures CheckHeader(command, input, at) == Accepted(|payload|)
  {
    var f := ResponseTo(command, payload);
    var g := f[j := b];
    ResponseLayout(command, payload);
    assert input(at) == g[0] && input(at + 1) == g[1] && input(at + 2) == g[2];
    assert input(at + 3) == g[3] && input(at + 4) == g[4];
    assert input(at + 5) == g[5] && input(at + 6) == g[6];
    HeaderAccepted(command, input, at);
    PayloadLengthRoundTrip(|payload|, input(at + 3));
  }

  /** A corrupted payload byte or data checksum breaks the data checksum. */
  lemma BodyCorruptionBreaksChecksum(command: byte, payload: seq<byte>, j: nat, b: byte, input: nat -> byte, at: nat)
    requires 7 <= j < |ResponseTo(command, payload)| - 1
    requires b != ResponseTo(command, payload)[j]
    requires StreamHas(input, at, ResponseTo(command, payload)[j := b])
    ensures var n := |payload|;
      Add8(Sum8(ResponseSeed(command), Window(input, at + 7, n)), input(at + 7 + n)) != 0
  {
    ResponseLayout(command, payload);
    FrameCorruptionBreaksChecksum(ResponseSeed(command), payload, ResponseTo(command, payload), j, b, input, at);
  }

  /** The same for any frame that carries `payload` from position 7 on followed by a data
      checksum that cancels it. */
  lemma FrameCorruptionBreaksChecksum(seed: byte, payload: seq<byte>, f: seq<byte>, j: nat, b: byte, input: nat -> byte, at: nat)
    requires |f| == |payload| + 9 && f[7..7 + |payload|] == payload
    requires Add8(Sum8(seed, payload), f[7 + |payload|]) == 0
    requires 7 <= j < |f| - 1 && b != f[j]
    requires StreamHas(input, at, f[j := b])
    ensures Add8(Sum8(seed, Window(input, at + 7, |payload|)), input(at + 7 + |payload|)) != 0
  {
    var g := f[j := b];
    var n := |payload|;
    var w := Window(input, at + 7, n);
    var dcs := input(at + 7 + n);
    assert dcs == g[7 + n];
    WindowOfStream(input, at, g, 7, n);
    if j < 7 + n {
      assert w == payload[j - 7 := b] by {
        assert g[7..7 + n] == f[7..7 + n][j - 7 := b];
      }
      PayloadChangeBreaksChecksum(seed, payload, j - 7, b, dcs);
    } else {
      assert w == payload by {
        assert g[7..7 + n] == f[7..7 + n];
      }
    }
  }

  /** A data checksum that cancels the sum of a payload does not cancel the sum of the
      payload with one byte changed. */
  lemma PayloadChangeBreaksChecksum(seed: byte, payload: seq<byte>, k: nat, b: byte, dcs: byte)
    requires k < |payload| && b != payload[k]
    requires Add8(Sum8(seed, payload), dcs) == 0
    ensures Add8(Sum8(seed, payload[k := b]), dcs) != 0
  {
    Sum8DetectsChange(seed, payload, k, b);
    CancelsOnlyOne(Sum8(seed, payload[k := b]), Sum8(seed, payload), dcs);
  }

  /** `length -= 2` on a `uint8_t`: a header-valid response with LEN 0 or 1 announces 254
      or 255 payload bytes, and unless the buffer holds that many it is drained as
      oversized. */
  lemma ShortLengthWraps(command: byte, capacity: byte, input: nat -> byte, at: nat)
    requires input(at) == PREAMBLE && input(at + 1) == STARTCODE1 && input(at + 2) == STARTCODE2
    requires input(at + 3) < 2 && Add8(input(at + 3), input(at + 4)) == 0
    requires input(at + 5) == PN532_TO_HOST && input(at + 6) == Add8(command, 1)
    requires capacity < 254 + input(at + 3)
    ensures ParseResponse(command, capacity, input, at) == Reception(NoSpace, 263 + input(at + 3), [])
  {
  }
}

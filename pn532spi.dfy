/** The host side of the PN532's SPI transport: the command frame writer, the ACK check,
    the write-command cycle and the response reader of `PN532SPI.cpp`, over an abstract
    bus. The PN532's output is a fixed stream of bytes that the host clocks in one at a
    time; what the host drives (the SS line and the bytes it writes) is kept as a trace. */
module Pn532Spi {
  import opened Bytes
  import opened Frame

  /** Request bytes that open an SPI transaction with the PN532. */
  const STATUS_READ: byte := 2
  const DATA_WRITE: byte := 1
  const DATA_READ: byte := 3

  /** One thing the host drives onto the bus: SS low, SS high, or a byte written. */
  datatype BusOp = SelectLow | SelectHigh | Send(b: byte)

  /** The bytes of `s`, written one after another. */
  function Sends(s: seq<byte>): (ops: seq<BusOp>)
    ensures |ops| == |s|
  {
    seq(|s|, (i: int) requires 0 <= i < |s| => Send(s[i]))
  }

  /** Writing one more byte extends the trace by exactly that byte. */
  lemma SendsSnoc(s: seq<byte>, b: byte)
    ensures Sends(s + [b]) == Sends(s) + [Send(b)]
  {
    assert (s + [b])[..|s|] == s;
  }

  /** The bytes `writeFrame` sends for `data`, one `write` after another: DATA_WRITE,
      the frame header (LEN and its checksum LCS), TFI 0xD4, the data, DCS and the
      postamble. They are DATA_WRITE followed by the normal information frame for 0xD4
      and `data`. */
  lemma CommandFrameBytes(data: seq<byte>)
    ensures
      var length := LengthByte(|data|);
      [DATA_WRITE] + [PREAMBLE] + [STARTCODE1] + [STARTCODE2] + [length] + [Neg(length)]
        + [HOST_TO_PN532] + data + [DataChecksum(HOST_TO_PN532, data)] + [POSTAMBLE]
      == [DATA_WRITE] + Envelope(HOST_TO_PN532, data)
  {
    var length := LengthByte(|data|);
    var head := [PREAMBLE, STARTCODE1, STARTCODE2, length, Neg(length), HOST_TO_PN532];
    var tail := [DataChecksum(HOST_TO_PN532, data), POSTAMBLE];
    assert Envelope(HOST_TO_PN532, data) == head + data + tail;
    assert [DATA_WRITE] + (head + data + tail) == ([DATA_WRITE] + head) + data + tail;
    assert [DATA_WRITE] + [PREAMBLE] + [STARTCODE1] + [STARTCODE2] + [length] + [Neg(length)]
      + [HOST_TO_PN532] == [DATA_WRITE] + head;
  }

  /** Opening a transaction, writing `s` and closing it is one `Transaction(s)`. */
  lemma TransactionAfter(before: seq<BusOp>, s: seq<byte>)
    ensures before + [SelectLow] + Sends(s) + [SelectHigh] == before + Transaction(s)
  {
    assert [SelectLow] + Sends(s) + [SelectHigh] == Transaction(s);
  }

  /** One SPI transaction in which the host writes `s`: SS low, the bytes, SS high. */
  function Transaction(s: seq<byte>): seq<BusOp>
  {
    [SelectLow] + Sends(s) + [SelectHigh]
  }

  /** What one call of `isReady` drives onto the bus. */
  const POLL: seq<BusOp> := [SelectLow, Send(STATUS_READ), SelectHigh]

  /** What `k` calls of `isReady` drive onto the bus. */
  function StatusPolls(k: nat): seq<BusOp>
  {
    if k == 0 then [] else StatusPolls(k - 1) + POLL
  }

  /** One more status poll extends the trace of polls. */
  lemma PollStep(before: seq<BusOp>, k: nat)
    ensures before + StatusPolls(k) + POLL == before + StatusPolls(k + 1)
  {
  }

  /** Bit 0 of a status byte (`read() & 1`): the PN532 has a frame ready. */
  predicate Ready(status: byte)
  {
    status % 2 == 1
  }

  /** The `k` status bytes from position `from` on all say "not ready". */
  predicate NotReady(input: nat -> byte, from: nat, k: nat)
    decreases k
  {
    k == 0 || (NotReady(input, from, k - 1) && !Ready(input(from + k - 1)))
  }

  /** `NotReady` says exactly that every one of those bytes has bit 0 clear. */
  lemma {:induction false} NotReadyMeans(input: nat -> byte, from: nat, k: nat)
    ensures NotReady(input, from, k) <==> forall i :: from <= i < from + k ==> !Ready(input(i))
  {
    if k > 0 {
      NotReadyMeans(input, from, k - 1);
    }
  }

  /** How many status polls, at most `limit`, fail before the first ready one. */
  function FirstReady(input: nat -> byte, from: nat, limit: nat): (k: nat)
    ensures k <= limit
    ensures NotReady(input, from, k)
    ensures k < limit ==> Ready(input(from + k))
    decreases limit
  {
    if limit == 0 then 0
    else
      var k := FirstReady(input, from, limit - 1);
      if k < limit - 1 || Ready(input(from + limit - 1)) then k else limit
  }

  /** `FirstReady` is the only count with its two properties. */
  lemma FirstReadyUnique(input: nat -> byte, from: nat, limit: nat, k: nat)
    requires k <= limit && NotReady(input, from, k)
    requires k < limit ==> Ready(input(from + k))
    ensures FirstReady(input, from, limit) == k
  {
    var r := FirstReady(input, from, limit);
    NotReadyMeans(input, from, k);
    NotReadyMeans(input, from, r);
  }

  /** The failed polls `writeCommand` allows before it gives up: the `uint8_t` count starts
      at PN532_ACK_WAIT_TIME and is decremented before it is compared with 0, so a count of
      0 wraps round and allows 256. */
  function AckPollLimit(waitTime: byte): (limit: nat)
    ensures 1 <= limit <= 256
  {
    if waitTime == 0 then 256 else waitTime
  }

  /** Whether `readResponse` can time out. Its `uint16_t` counter is incremented before it
      is compared with `timeout`, so it gives up after `timeout + 1` failed polls; 0 means
      wait for ever, and so in effect does 65535, which the counter wraps before
      exceeding. */
  predicate TimesOut(timeout: u16)
  {
    0 < timeout < 65535
  }

  /** The `uint16_t` counter of `readResponse` can exceed `timeout` exactly when
      `timeout` is non-zero and `timeout + 1` does not wrap to 0. */
  lemma TimesOutMeans(timeout: u16)
    ensures TimesOut(timeout) <==> timeout != 0 && (timeout + 1) % 65536 > timeout
  {
  }

  /** The six bytes read from position `at` on compare equal to the ACK frame, as
      `memcmp` decides over the buffer they were read into. */
  predicate AckAt(input: nat -> byte, at: nat)
  {
    Window(input, at, |ACK|) == ACK
  }

  /** The outcome of `writeCommand` once the PN532 was ready and six bytes were read
      from `at` on. */
  function AckStatus(input: nat -> byte, at: nat): CommandStatus
  {
    if AckAt(input, at) then Sent else InvalidAck
  }

  /** `AckAt` holds exactly when the device's output holds the ACK frame. */
  lemma AckAtMeans(input: nat -> byte, at: nat)
    ensures AckAt(input, at) <==> StreamHas(input, at, ACK)
  {
    var w := Window(input, at, |ACK|);
    if StreamHas(input, at, ACK) {
      assert forall i :: 0 <= i < |ACK| ==> w[i] == ACK[i];
      assert w == ACK;
    }
  }

  /** Any single-byte deviation from the ACK frame fails the ACK check. */
  lemma CorruptedAckRejected(input: nat -> byte, at: nat, j: nat, b: byte)
    requires j < |ACK| && b != ACK[j]
    requires StreamHas(input, at, ACK[j := b])
    ensures !AckAt(input, at)
  {
    AckAtMeans(input, at);
    var s := ACK[j := b];
    assert input(at + j) == s[j];
  }

  /** What `writeCommand` returns: 0, the literal -2 after the ACK wait, or
      PN532_INVALID_ACK. */
  datatype CommandStatus = Sent | AckTimeout | InvalidAck

  /** The `int8_t` that `writeCommand` returns for a status, with `invalidAck` the value of
      PN532_INVALID_ACK, which is defined outside this model. The three outcomes get three
      different numbers as long as that value is neither 0 nor -2. */
  function Code(status: CommandStatus, invalidAck: int): (code: int)
    requires invalidAck != 0 && invalidAck != -2
    ensures code == 0 <==> status == Sent
    ensures code == -2 <==> status == AckTimeout
    ensures code == invalidAck <==> status == InvalidAck
  {
    match status
    case Sent => 0
    case AckTimeout => -2
    case InvalidAck => invalidAck
  }

  class PN532SPI {
    /** The bytes the PN532 clocks out, in order: status bytes and frame bytes alike. */
    const miso: nat -> byte
    /** PN532_ACK_WAIT_TIME. */
    const ackWaitTime: byte
    /** Code of the last command written; its response must carry `command + 1`. */
    var command: byte
    /** The SS line is driven low. */
    var selected: bool
    /** Everything the host has driven onto the bus, in order. */
    var ops: seq<BusOp>
    /** How many bytes the host has clocked in so far. */
    var rxPos: nat

    constructor (miso: nat -> byte, ackWaitTime: byte)
      ensures this.miso == miso && this.ackWaitTime == ackWaitTime
      ensures command == 0 && !selected && ops == [] && rxPos == 0
    {
      this.miso := miso;
      this.ackWaitTime := ackWaitTime;
      command := 0;
      selected := false;
      ops := [];
      rxPos := 0;
    }

    /** `digitalWrite(_ss, LOW)` when `low`, `digitalWrite(_ss, HIGH)` otherwise. */
    method DigitalWrite(low: bool)
      modifies this
      ensures selected == low
      ensures ops == old(ops) + [if low then SelectLow else SelectHigh]
      ensures command == old(command) && rxPos == old(rxPos)
    {
      selected := low;
      ops := ops + [if low then SelectLow else SelectHigh];
    }

    /** `write(b)`: clocks one byte out to the PN532. */
    method Write(b: byte)
      modifies this
      ensures ops == old(ops) + [Send(b)]
      ensures command == old(command) && selected == old(selected) && rxPos == old(rxPos)
    {
      ops := ops + [Send(b)];
    }

    /** `read()`: clocks in the next byte the PN532 sends. */
    method Read() returns (b: byte)
      modifies this
      ensures b == miso(old(rxPos)) && rxPos == old(rxPos) + 1
      ensures command == old(command) && selected == old(selected) && ops == old(ops)
    {
      b := miso(rxPos);
      rxPos := rxPos + 1;
    }

    /** One status poll: a STATUS_READ transaction that reads one status byte. */
    method IsReady() returns (ready: bool)
      modifies this
      ensures ready == Ready(miso(old(rxPos)))
      ensures rxPos == old(rxPos) + 1
      ensures ops == old(ops) + POLL
      ensures !selected && command == old(command)
    {
      DigitalWrite(true);
      Write(STATUS_READ);
      var status := Read();
      DigitalWrite(false);
      ready := status % 2 == 1;
    }

    /** The `k + 1`-th status poll of a wait that started at `start` with the trace
        `before`. */
    method PollNext(ghost before: seq<BusOp>, ghost start: nat, ghost k: nat) returns (ready: bool)
      requires rxPos == start + k && ops == before + StatusPolls(k)
      modifies this
      ensures ready == Ready(miso(start + k))
      ensures rxPos == start + k + 1 && ops == before + StatusPolls(k + 1)
      ensures !selected && command == old(command)
    {
      ready := IsReady();
      PollStep(before, k);
    }

    /** Sends the first `len` bytes of `buf` as one command frame, in a single
        transaction opened with DATA_WRITE. */
    method WriteFrame(buf: seq<byte>, len: byte)
      requires len <= |buf|
      modifies this
      ensures ops == old(ops) + Transaction([DATA_WRITE] + Envelope(HOST_TO_PN532, buf[..len]))
      ensures !selected && rxPos == old(rxPos) && command == old(command)
    {
      DigitalWrite(true);
      ghost var start := ops;
      WriteNext(DATA_WRITE, start, []);
      assert [] + [DATA_WRITE] == [DATA_WRITE];
      ghost var sent := [DATA_WRITE];
      WriteNext(PREAMBLE, start, sent); sent := sent + [PREAMBLE];
      WriteNext(STARTCODE1, start, sent); sent := sent + [STARTCODE1];
      WriteNext(STARTCODE2, start, sent); sent := sent + [STARTCODE2];
      var length := Add8(len, 1);
      assert length == LengthByte(len);
      WriteNext(length, start, sent); sent := sent + [length];
      WriteNext(Neg(length), start, sent); sent := sent + [Neg(length)];
      WriteNext(HOST_TO_PN532, start, sent); sent := sent + [HOST_TO_PN532];
      var sum := HOST_TO_PN532;
      ghost var head := sent;
      for i := 0 to len
        invariant ops == start + Sends(sent) && sent == head + buf[..i]
        invariant sum == Sum8(HOST_TO_PN532, buf[..i])
        invariant selected && rxPos == old(rxPos) && command == old(command)
      {
        WriteNext(buf[i], start, sent);
        assert buf[..i + 1] == buf[..i] + [buf[i]];
        sent := sent + [buf[i]];
        sum := Add8(sum, buf[i]);
      }
      var checksum := Neg(sum);
      WriteNext(checksum, start, sent); sent := sent + [checksum];
      WriteNext(POSTAMBLE, start, sent); sent := sent + [POSTAMBLE];
      DigitalWrite(false);
      assert checksum == DataChecksum(HOST_TO_PN532, buf[..len]);
      CommandFrameBytes(buf[..len]);
      TransactionAfter(old(ops), sent);
    }

    /** `write(b)` inside a transaction opened at `start`, in which `sent` has been
        written so far. */
    method WriteNext(b: byte, ghost start: seq<BusOp>, ghost sent: seq<byte>)
      requires ops == start + Sends(sent)
      modifies this
      ensures ops == start + Sends(sent + [b])
      ensures command == old(command) && selected == old(selected) && rxPos == old(rxPos)
    {
      Write(b);
      SendsSnoc(sent, b);
    }

    /** Reads six bytes in a DATA_READ transaction and reports whether they differ from
        the ACK frame (a non-zero `memcmp`). */
    method ReadAckFrame() returns (mismatch: bool)
      modifies this
      ensures mismatch <==> !AckAt(miso, old(rxPos))
      ensures rxPos == old(rxPos) + 6
      ensures ops == old(ops) + Transaction([DATA_READ])
      ensures !selected && command == old(command)
    {
      var ackBuf := new byte[|ACK|];
      DigitalWrite(true);
      Write(DATA_READ);
      for i := 0 to |ACK|
        invariant rxPos == old(rxPos) + i
        invariant ackBuf[..i] == Window(miso, old(rxPos), i)
        invariant ops == old(ops) + [SelectLow, Send(DATA_READ)]
        invariant selected && command == old(command)
      {
        var b := Read();
        ackBuf[i] := b;
        assert ackBuf[..i + 1] == Window(miso, old(rxPos), i + 1);
      }
      DigitalWrite(false);
      assert ackBuf[..] == ackBuf[..|ACK|];
      mismatch := ackBuf[..] != ACK;
      assert Sends([DATA_READ]) == [Send(DATA_READ)];
    }

    /** The wait loop of `writeCommand`: polls the status until the PN532 is ready,
        giving up after `AckPollLimit(ackWaitTime)` failed polls. */
    method AwaitReady() returns (timedOut: bool, ghost polls: nat)
      modifies this
      ensures polls <= AckPollLimit(ackWaitTime) && NotReady(miso, old(rxPos), polls)
      ensures command == old(command) && !selected
      ensures
        if timedOut then
          && polls == AckPollLimit(ackWaitTime)
          && rxPos == old(rxPos) + polls && ops == old(ops) + StatusPolls(polls)
        else
          && polls < AckPollLimit(ackWaitTime) && Ready(miso(old(rxPos) + polls))
          && rxPos == old(rxPos) + polls + 1 && ops == old(ops) + StatusPolls(polls + 1)
    {
      ghost var p0 := rxPos;
      ghost var before := ops;
      ghost var limit := AckPollLimit(ackWaitTime);
      var timeout := ackWaitTime;
      polls := 0;
      assert ops == before + StatusPolls(0);
      var ready := PollNext(before, p0, 0);
      while !ready
        invariant polls < limit
        invariant polls == 0 ==> timeout == ackWaitTime
        invariant polls > 0 ==> timeout == limit - polls
        invariant NotReady(miso, p0, polls)
        invariant ready == Ready(miso(p0 + polls))
        invariant rxPos == p0 + polls + 1 && ops == before + StatusPolls(polls + 1)
        invariant !selected && command == old(command)
        decreases limit - polls
      {
        timeout := if timeout == 0 then 255 else timeout - 1;
        polls := polls + 1;
        if timeout == 0 {
          return true, polls;
        }
        ready := PollNext(before, p0, polls);
      }
      timedOut := false;
    }

    /** Records the command code, sends the frame, waits for the PN532 to become ready
        and checks its ACK. */
    method WriteCommand(buf: seq<byte>, len: byte) returns (status: CommandStatus, ghost polls: nat)
      requires 0 < |buf| && len <= |buf|
      modifies this
      ensures command == buf[0] && !selected
      ensures polls == FirstReady(miso, old(rxPos), AckPollLimit(ackWaitTime))
      ensures polls <= AckPollLimit(ackWaitTime) && NotReady(miso, old(rxPos), polls)
      ensures
        var frame := Transaction([DATA_WRITE] + Envelope(HOST_TO_PN532, buf[..len]));
        if polls == AckPollLimit(ackWaitTime) then
          && status == AckTimeout
          && rxPos == old(rxPos) + polls
          && ops == old(ops) + frame + StatusPolls(polls)
        else
          && Ready(miso(old(rxPos) + polls))
          && status == AckStatus(miso, old(rxPos) + polls + 1)
          && rxPos == old(rxPos) + polls + 7
          && ops == old(ops) + frame + StatusPolls(polls + 1) + Transaction([DATA_READ])
    {
      command := buf[0];
      WriteFrame(buf, len);
      ghost var sent := ops;
      status, polls := AwaitAck(old(rxPos));
      if polls == AckPollLimit(ackWaitTime) {
        assert ops == sent + StatusPolls(polls);
      } else {
        assert ops == sent + StatusPolls(polls + 1) + Transaction([DATA_READ]);
      }
    }

    /** The second half of `writeCommand`: waits for the PN532 to become ready, then reads
        and checks its ACK. */
    method AwaitAck(ghost from: nat) returns (status: CommandStatus, ghost polls: nat)
      requires rxPos == from
      modifies this
      ensures command == old(command) && !selected
      ensures polls == FirstReady(miso, from, AckPollLimit(ackWaitTime))
      ensures polls <= AckPollLimit(ackWaitTime) && NotReady(miso, from, polls)
      ensures
        if polls == AckPollLimit(ackWaitTime) then
          && status == AckTimeout
          && rxPos == from + polls
          && ops == old(ops) + StatusPolls(polls)
        else
          && Ready(miso(from + polls))
          && status == AckStatus(miso, from + polls + 1)
          && rxPos == from + polls + 7
          && ops == old(ops) + StatusPolls(polls + 1) + Transaction([DATA_READ])
    {
      var timedOut;
      timedOut, polls := AwaitReady();
      if timedOut {
        FirstReadyUnique(miso, from, AckPollLimit(ackWaitTime), polls);
        return AckTimeout, polls;
      }
      var bad := ReadAckFrame();
      status := if bad then InvalidAck else Sent;
      FirstReadyUnique(miso, from, AckPollLimit(ackWaitTime), polls);
    }

    /** The wait loop of `readResponse`: polls the status until the PN532 is ready, giving
        up once a `uint16_t` count of failed polls exceeds a non-zero `timeout`. */
    method AwaitResponse(timeout: u16) returns (timedOut: bool, ghost polls: nat)
      requires !TimesOut(timeout) ==> exists k: nat :: k >= rxPos && Ready(miso(k))
      modifies this
      ensures NotReady(miso, old(rxPos), polls)
      ensures command == old(command) && !selected
      ensures
        if timedOut then
          && TimesOut(timeout) && polls == timeout + 1
          && rxPos == old(rxPos) + polls && ops == old(ops) + StatusPolls(polls)
        else
          && Ready(miso(old(rxPos) + polls)) && (TimesOut(timeout) ==> polls <= timeout)
          && rxPos == old(rxPos) + polls + 1 && ops == old(ops) + StatusPolls(polls + 1)
    {
      ghost var p0 := rxPos;
      ghost var before := ops;
      ghost var horizon: nat := p0;
      if !TimesOut(timeout) {
        horizon :| horizon >= p0 && Ready(miso(horizon));
      }
      var time: u16 := 0;
      polls := 0;
      assert ops == before + StatusPolls(0);
      var ready := PollNext(before, p0, 0);
      while !ready
        invariant NotReady(miso, p0, polls)
        invariant ready == Ready(miso(p0 + polls))
        invariant rxPos == p0 + polls + 1 && ops == before + StatusPolls(polls + 1)
        invariant !selected && command == old(command)
        invariant TimesOut(timeout) ==> time == polls <= timeout
        invariant !TimesOut(timeout) ==> p0 + polls <= horizon
        decreases if TimesOut(timeout) then timeout - polls else horizon - p0 - polls
      {
        time := if time == 65535 then 0 else time + 1;
        polls := polls + 1;
        if timeout > 0 && time > timeout {
          return true, polls;
        }
        ready := PollNext(before, p0, polls);
      }
      timedOut := false;
    }

    /** The header checks of the frame read, one byte at a time. */
    method ReadHeader() returns (h: HeaderCheck)
      modifies this
      ensures h == CheckHeader(command, miso, old(rxPos))
      ensures rxPos == old(rxPos) + (if h.Rejected? then h.used else 7)
      ensures command == old(command) && selected == old(selected) && ops == old(ops)
    {
      var b := Read();
      if b != PREAMBLE {
        return Rejected(1);
      }
      b := Read();
      if b != STARTCODE1 {
        return Rejected(2);
      }
      b := Read();
      if b != STARTCODE2 {
        return Rejected(3);
      }
      var length := Read();
      b := Read();
      if Add8(length, b) != 0 {
        return Rejected(5);
      }
      b := Read();
      if b != PN532_TO_HOST {
        return Rejected(6);
      }
      b := Read();
      if b != Add8(command, 1) {
        return Rejected(7);
      }
      h := Accepted(Add8(length, 254));
    }

    /** Copies `n` payload bytes into `buf` while summing them, then reads the data
        checksum and checks it. */
    method ReadPayload(buf: array<byte>, n: byte) returns (intact: bool)
      requires n <= buf.Length
      modifies this, buf
      ensures buf[..n] == Window(miso, old(rxPos), n) && buf[n..] == old(buf[n..])
      ensures intact <==> Add8(Sum8(ResponseSeed(command), Window(miso, old(rxPos), n)), miso(old(rxPos) + n)) == 0
      ensures rxPos == old(rxPos) + n + 1
      ensures command == old(command) && selected == old(selected) && ops == old(ops)
    {
      var sum := ResponseSeed(command);
      for i := 0 to n
        invariant rxPos == old(rxPos) + i
        invariant buf[..i] == Window(miso, old(rxPos), i)
        invariant buf[i..] == old(buf[i..])
        invariant sum == Sum8(ResponseSeed(command), buf[..i])
        invariant command == old(command) && selected == old(selected) && ops == old(ops)
      {
        var b := Read();
        buf[i] := b;
        assert buf[..i + 1] == buf[..i] + [buf[i]];
        sum := Add8(sum, b);
      }
      var checksum := Read();
      intact := Add8(sum, checksum) == 0;
    }

    /** Clocks in and discards `count` bytes. */
    method Skip(count: nat)
      modifies this
      ensures rxPos == old(rxPos) + count
      ensures command == old(command) && selected == old(selected) && ops == old(ops)
    {
      for i := 0 to count
        invariant rxPos == old(rxPos) + i
        invariant command == old(command) && selected == old(selected) && ops == old(ops)
      {
        var _ := Read();
      }
    }

    /** The rest of a frame whose header was accepted and whose payload fits: the payload
        copy, the data checksum and, when it holds, the postamble. */
    method ReceivePayload(buf: array<byte>, len: byte, length: byte, ghost at: nat) returns (reply: Reply)
      requires length <= len <= buf.Length
      requires CheckHeader(command, miso, at) == Accepted(length) && rxPos == at + 7
      modifies this, buf
      ensures
        var r := ParseResponse(command, len, miso, at);
        && reply == r.reply
        && rxPos == at + r.used
        && buf[..|r.copied|] == r.copied
        && buf[|r.copied|..] == old(buf[|r.copied|..])
      ensures command == old(command) && selected == old(selected) && ops == old(ops)
    {
      var intact := ReadPayload(buf, length);
      AcceptedOutcome(command, len, miso, at, length);
      if intact {
        var _ := Read();
        reply := Length(length);
      } else {
        reply := InvalidFrame;
      }
    }

    /** The frame half of `readResponse`, between SS low and SS high: DATA_READ, the
        header checks, then either the drain of an oversized payload or the payload copy
        and its checksum. */
    method ReceiveFrame(buf: array<byte>, len: byte) returns (reply: Reply, ghost r: Reception)
      requires len <= buf.Length
      modifies this, buf
      ensures r == ParseResponse(command, len, miso, old(rxPos))
      ensures command == old(command) && !selected
      ensures reply == r.reply && rxPos == old(rxPos) + r.used
      ensures ops == old(ops) + Transaction([DATA_READ])
      ensures buf[..|r.copied|] == r.copied && buf[|r.copied|..] == old(buf[|r.copied|..])
    {
      ghost var at := rxPos;
      r := ParseResponse(command, len, miso, at);
      DigitalWrite(true);
      Write(DATA_READ);
      var header := ReadHeader();
      match header {
        case Rejected(_) =>
          reply := InvalidFrame;
          assert r == Reception(InvalidFrame, header.used, []);
          assert buf[0..] == old(buf[0..]);
        case Accepted(length) =>
          if length > len {
            Skip(length + 2);
            reply := NoSpace;
            assert r == Reception(NoSpace, length + 9, []);
            assert buf[0..] == old(buf[0..]);
          } else {
            reply := ReceivePayload(buf, len, length, at);
          }
      }
      DigitalWrite(false);
      assert Sends([DATA_READ]) == [Send(DATA_READ)];
    }

    /** Waits for the PN532 to become ready, then reads one response frame into `buf`,
        whose capacity is `len`. */
    method ReadResponse(buf: array<byte>, len: byte, timeout: u16) returns (reply: Reply, ghost polls: nat, ghost r: Reception)
      requires len <= buf.Length
      requires !TimesOut(timeout) ==> exists k: nat :: k >= rxPos && Ready(miso(k))
      modifies this, buf
      ensures command == old(command) && !selected
      ensures NotReady(miso, old(rxPos), polls)
      ensures
        if reply == Timeout then
          && TimesOut(timeout) && polls == timeout + 1
          && rxPos == old(rxPos) + polls
          && ops == old(ops) + StatusPolls(polls)
          && buf[..] == old(buf[..])
        else
          && Ready(miso(old(rxPos) + polls)) && (TimesOut(timeout) ==> polls <= timeout)
          && r == ParseResponse(command, len, miso, old(rxPos) + polls + 1)
          && reply == r.reply
          && rxPos == old(rxPos) + polls + 1 + r.used
          && ops == old(ops) + StatusPolls(polls + 1) + Transaction([DATA_READ])
          && buf[..|r.copied|] == r.copied
          && buf[|r.copied|..] == old(buf[|r.copied|..])
    {
      var timedOut;
      timedOut, polls := AwaitResponse(timeout);
      if timedOut {
        return Timeout, polls, Reception(Timeout, 0, []);
      }
      reply, r := ReceiveFrame(buf, len);
    }
  }
}

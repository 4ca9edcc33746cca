/** A loopback bus: an oracle that opens one handle, acknowledges every write and answers each
    read with the bytes last written, plus sessions run against it.  The sessions show, end to
    end through the binding's operations, that what is written comes back unchanged and that a
    polling block read keeps going after Close with an error on every pass. */
module Loopback {
  import opened CInt
  import opened Outcomes
  import opened Kernel
  import opened Polling
  import opened Session

  /** The descriptor the loopback device hands out. */
  const Handle := 3

  /** Whether the handle is open after the calls in `h`: the latest open, or close of the
      handle, decides. */
  function IsOpen(h: seq<Call>): bool
    decreases |h|
  {
    if h == [] then false
    else
      match h[|h| - 1].request
      case OpenDevice(_) => true
      case CloseHandle(fd) => if fd == Handle then false else IsOpen(h[..|h| - 1])
      case _ => IsOpen(h[..|h| - 1])
  }

  /** The bytes of the latest plain write in `h`, if any. */
  function LastWritten(h: seq<Call>): Option<seq<byte>>
    decreases |h|
  {
    if h == [] then None
    else if h[|h| - 1].request.WriteRaw? then Some(h[|h| - 1].request.bytes)
    else LastWritten(h[..|h| - 1])
  }

  /** The value of the latest SMBus send-byte in `h`, if any. */
  function LastSent(h: seq<Call>): Option<int8>
    decreases |h|
  {
    if h == [] then None
    else if h[|h| - 1].request.SmbusWriteByte? then Some(h[|h| - 1].request.value)
    else LastSent(h[..|h| - 1])
  }

  /** The bytes of the latest SMBus block write to register `command` in `h`, if any. */
  function LastBlock(h: seq<Call>, command: int8): Option<seq<byte>>
    decreases |h|
  {
    if h == [] then None
    else
      var r := h[|h| - 1].request;
      if r.SmbusWriteBlock? && r.command == command then Some(r.bytes)
      else LastBlock(h[..|h| - 1], command)
  }

  /** Reading `count` of the bytes last written: the first `count` of them, or -1 when fewer
      were written. */
  function Echoed(written: Option<seq<byte>>, count: nat): (reply: Reply)
    ensures |reply.bytes| <= count
    ensures reply.status >= 0 ==> |reply.bytes| == reply.status
    ensures written.Some? && count <= |written.value| ==> reply == Reply(count, written.value[..count])
    ensures !(written.Some? && count <= |written.value|) ==> reply == Reply(-1, [])
  {
    match written
    case Some(bytes) => if count <= |bytes| then Reply(count, bytes[..count]) else Reply(-1, [])
    case None => Reply(-1, [])
  }

  /** The loopback device: every request on a handle that is not open fails with -1; addresses
      0..127 can be selected; writes succeed; reads give back what was last written. */
  function Echo(h: seq<Call>, r: Request): (reply: Reply)
    ensures Honest(r, reply)
    ensures r.OpenDevice? ==> reply.status == Handle
    ensures !r.OpenDevice? && (r.fd != Handle || !IsOpen(h)) ==> reply == Reply(-1, [])
  {
    if r.OpenDevice? then Reply(Handle, [])
    else if r.fd != Handle || !IsOpen(h) then Reply(-1, [])
    else
      match r
      case SelectSlave(_, a) => if a >= 0 then Reply(0, []) else Reply(-1, [])
      case WriteRaw(_, bytes) => Reply(|bytes|, [])
      case ReadRaw(_, count) => Echoed(LastWritten(h), count)
      case SmbusReadByte(_) => if LastSent(h).Some? then Reply(Uint8(LastSent(h).value), []) else Reply(-1, [])
      case SmbusReadBlock(_, command, count) => Echoed(LastBlock(h, command), count)
      case _ => Reply(0, [])
  }

  /** Block reads neither open nor close the handle. */
  lemma {:induction false} StaysClosed(h: seq<Call>, more: seq<Call>)
    requires !IsOpen(h)
    requires forall j :: 0 <= j < |more| ==> more[j].request.SmbusReadBlock?
    ensures !IsOpen(h + more)
    decreases |more|
  {
    if more != [] {
      var shorter := more[..|more| - 1];
      StaysClosed(h, shorter);
      assert (h + more)[..|h + more| - 1] == h + shorter;
    } else {
      assert h + more == h;
    }
  }

  /** The latest call decides what the loopback device remembers. */
  lemma AfterCall(h: seq<Call>, c: Call)
    ensures (h + [c])[..|h|] == h
    ensures IsOpen(h + [c]) == match c.request
      case OpenDevice(_) => true
      case CloseHandle(fd) => fd != Handle && IsOpen(h)
      case _ => IsOpen(h)
    ensures LastWritten(h + [c]) == if c.request.WriteRaw? then Some(c.request.bytes) else LastWritten(h)
    ensures LastSent(h + [c]) == if c.request.SmbusWriteByte? then Some(c.request.value) else LastSent(h)
  {
    assert (h + [c])[..|h|] == h;
  }

  /** A session on the loopback device, opened. */
  method OpenLoopback() returns (bus: BusSession)
    ensures fresh(bus) && bus.Valid() && bus.kernel == Echo
    ensures bus.fd == Handle && IsOpen(bus.log) && bus.selected == None
  {
    bus := new BusSession(Echo);
    var openErr := bus.Open("/dev/i2c-1");
    AfterCall([], bus.log[0]);
  }

  /** Open, write a buffer, read as many bytes back: the read succeeds with the same bytes. */
  method RawRoundTrip(bytes: seq<byte>) returns (err: Option<Error>, data: seq<byte>)
    requires |bytes| < 0x8000_0000
    ensures err == None && data == bytes
  {
    var bus := OpenLoopback();
    ghost var before := bus.log;
    var written := bus.Write(bytes);
    AfterCall(before, bus.log[|before|]);
    err, data := bus.Read(|bytes|);
    assert bytes[..|bytes|] == bytes;
  }

  /** A session on the loopback device, opened, with slave address 0x50 selected. */
  method OpenLoopbackAt50() returns (bus: BusSession)
    ensures fresh(bus) && bus.Valid() && bus.kernel == Echo
    ensures bus.fd == Handle && IsOpen(bus.log) && bus.addr == 0x50
  {
    bus := OpenLoopback();
    ghost var before := bus.log;
    var bound := bus.SetAddress(0x50);
    AfterCall(before, bus.log[|before|]);
  }

  /** Open, select 0x50, send one byte and receive one: any byte 0..255 comes back unchanged
      through the int8 narrowing of the send. */
  method ByteRoundTrip(b: byte) returns (data: Option<int>)
    ensures data == Some(b)
  {
    var bus := OpenLoopbackAt50();
    ghost var before := bus.log;
    var sent := bus.WriteByte(b);
    AfterCall(before, bus.log[|before|]);
    var err;
    err, data := bus.ReadByte();
    ByteSurvivesInt8(b);
  }

  /** Open, close, then a polling block read of 4 bytes with a delay: Close leaves `fd` positive,
      so the loop makes every pass it is allowed, and every pass fails on the closed handle and
      delivers the error. */
  method PollAfterClose(budget: nat) returns (deliveries: seq<Delivery>)
    ensures |deliveries| == budget
    ensures forall k :: 0 <= k < budget ==> deliveries[k].err == Some(BlockReadFailed)
  {
    var bus := OpenLoopback();
    ghost var afterOpen := bus.log;
    bus.Close();
    AfterCall(afterOpen, bus.log[|afterOpen|]);
    ghost var base := bus.log;
    var buffer;
    ghost var stale, calls, replies;
    deliveries, buffer, stale, calls, replies := bus.ReadBlock(0, 4, Some(10), true, budget);
    ClosedReplies(base, calls, bus.log);
    FailedPassesReport(4, stale, replies);
  }

  /** Every block read after the handle is closed fails with -1. */
  lemma ClosedReplies(base: seq<Call>, calls: seq<Call>, log: seq<Call>)
    requires !IsOpen(base) && Answered(Echo, log) && log == base + calls
    requires forall k :: 0 <= k < |calls| ==> calls[k].request.SmbusReadBlock?
    ensures forall k :: 0 <= k < |calls| ==> calls[k].reply == Reply(-1, [])
  {
    forall k | 0 <= k < |calls|
      ensures calls[k].reply == Reply(-1, [])
    {
      ClosedReply(base, calls, log, k);
    }
  }

  /** Block read `k` after the handle is closed fails with -1. */
  lemma ClosedReply(base: seq<Call>, calls: seq<Call>, log: seq<Call>, k: nat)
    requires !IsOpen(base) && Answered(Echo, log) && log == base + calls && k < |calls|
    requires forall j :: 0 <= j < |calls| ==> calls[j].request.SmbusReadBlock?
    ensures calls[k].reply == Reply(-1, [])
  {
    AnsweredAfter(Echo, base, calls, log, k);
    StaysClosed(base, calls[..k]);
  }
}

/** The binding's session state and its operations.  The binding keeps two process
    globals, the descriptor `fd` and the remembered slave address `addr`; here they are the fields
    of one BusSession object.  The kernel side is the oracle `kernel`, and `log` records every call
    made through it, with its reply. */
module Session {
  import opened CInt
  import opened Outcomes
  import opened Kernel
  import opened Scanning
  import opened Polling

  /** The loop of Read: copy the first `len` bytes of `buf` into a fresh JavaScript array. */
  method Collect(buf: array<byte>, len: nat) returns (data: seq<byte>)
    requires len <= buf.Length
    ensures data == buf[..len]
  {
    data := [];
    for i := 0 to len
      invariant data == buf[..i]
    {
      data := data + [buf[i]];
    }
  }

  /** A primitive storing `written` at the start of `buf`. */
  method Store(buf: array<byte>, written: seq<byte>)
    requires |written| <= buf.Length
    modifies buf
    ensures buf[..] == Overlay(old(buf[..]), written)
  {
    forall i | 0 <= i < |written| {
      buf[i] := written[i];
    }
  }

  /** `memcpy(dst, src, src.Length)`. */
  method Copy(dst: array<byte>, src: array<byte>)
    requires dst.Length == src.Length && dst != src
    modifies dst
    ensures dst[..] == src[..]
  {
    forall i | 0 <= i < src.Length {
      dst[i] := src[i];
    }
  }

  class BusSession {
    /** The kernel, the adapter and the devices on the bus. */
    const kernel: Oracle
    /** The open descriptor (`int fd`). */
    var fd: int
    /** The remembered slave address (`int8_t addr`). */
    var addr: int8
    /** The slave address actually bound on the handle, if any. */
    ghost var selected: Option<int8>
    /** Every kernel call made so far, with the reply it got. */
    var log: seq<Call>

    /** Each logged reply is the kernel's answer to its request, given the calls before it. */
    ghost predicate Valid()
      reads this
    {
      Answered(kernel, log)
    }

    /** The state when the module is loaded: both globals are zero and nothing is bound. */
    constructor (kernel: Oracle)
      ensures Valid() && this.kernel == kernel
      ensures fd == 0 && addr == 0 && selected == None && log == []
    {
      this.kernel := kernel;
      fd, addr, log := 0, 0, [];
      selected := None;
    }

    /** One call into the kernel. */
    method Issue(r: Request) returns (reply: Reply)
      requires Valid()
      modifies this`log, this`selected
      ensures Valid()
      ensures reply == kernel(old(log), r) && Honest(r, reply)
      ensures log == old(log) + [Call(r, reply)]
      ensures selected == Bind(old(selected), Call(r, reply))
    {
      reply := kernel(log, r);
      ghost var before := log;
      log := log + [Call(r, reply)];
      selected := Bind(selected, Call(r, reply));
      assert log[..|before|] == before;
    }

    /** setAddress: bind `a` on the handle; a -1 from the ioctl raises a TypeError. */
    method Select(a: int8) returns (thrown: Option<Error>)
      requires Valid()
      modifies this`log, this`selected
      ensures Valid()
      ensures log == old(log) + [Call(SelectSlave(fd, a), kernel(old(log), SelectSlave(fd, a)))]
      ensures thrown == (if log[|log| - 1].reply.status == -1 then Some(SetAddressFailed) else None)
      ensures selected == (if thrown.None? then Some(a) else old(selected))
    {
      var reply := Issue(SelectSlave(fd, a));
      thrown := if reply.status == -1 then Some(SetAddressFailed) else None;
    }

    /** SetAddress: remember `a` (narrowed to int8) in `addr` first, then bind it; `addr` keeps
        the new value even when the bind fails. */
    method SetAddress(a: int32) returns (thrown: Option<Error>)
      requires Valid()
      modifies this`addr, this`log, this`selected
      ensures Valid()
      ensures addr == Int8(a)
      ensures log == old(log) + [Call(SelectSlave(fd, Int8(a)), kernel(old(log), SelectSlave(fd, Int8(a))))]
      ensures thrown == (if log[|log| - 1].reply.status == -1 then Some(SetAddressFailed) else None)
      ensures selected == (if thrown.None? then Some(Int8(a)) else old(selected))
    {
      addr := Int8(a);
      thrown := Select(addr);
    }

    /** The probe Scan makes at address `i`: a receive-byte in 0x30-0x37 and 0x50-0x5F, a quick
        write everywhere else. */
    method ProbeAt(i: int) returns (reply: Reply)
      requires Valid()
      modifies this`log, this`selected
      ensures Valid() && selected == old(selected)
      ensures log == old(log) + [Call(Probe(fd, i), reply)]
      ensures reply == kernel(old(log), Probe(fd, i))
    {
      if (i >= 0x30 && i <= 0x37) || (i >= 0x50 && i <= 0x5F) {
        reply := Issue(SmbusReadByte(fd));
      } else {
        reply := Issue(SmbusWriteQuick(fd));
      }
    }

    /** One turn of Scan's loop: select address `i`, probe it, and turn the probe's result into
        the entry for `i`. */
    method ScanRound(i: int) returns (thrown: Option<Error>, entry: int, ghost round: seq<Call>)
      requires Valid() && 0 <= i < 128
      modifies this`log, this`selected
      ensures Valid() && log == old(log) + round && |round| == 2
      ensures Round(round[0], round[1], fd, i, entry)
      ensures selected == Rebind(old(selected), round)
      ensures thrown.Some? <==> SomeSelectFailed(round)
      ensures thrown.Some? ==> thrown == Some(SetAddressFailed)
    {
      ghost var start := log;
      thrown := Select(i);
      ghost var select, mid := log[|log| - 1], log;
      var reply := ProbeAt(i);
      var res := reply.status;
      if res >= 0 {
        res := i;
      }
      entry := res;
      round := [select, Call(Probe(fd, i), reply)];
      LogStep(start, [select], [round[1]], mid, log);
      assert [select] + [round[1]] == round;
      RoundEffects(old(selected), round);
    }

    /** Scan: select and probe each address 0..127 in turn, then select `addr` again.  The
        callback always gets a null error; a failed select raises instead. */
    method Scan() returns (thrown: Option<Error>, results: array<int>, ghost calls: seq<Call>)
      requires Valid()
      modifies this`log, this`selected
      ensures Valid() && fresh(results) && results.Length == 128
      ensures fd == old(fd) && addr == old(addr)
      ensures log == old(log) + calls && |calls| == 257
      ensures ScannedUpTo(calls, fd, results[..])
      ensures calls[256].request == SelectSlave(fd, addr)
      ensures selected == Rebind(old(selected), calls)
      ensures calls[256].reply.status != -1 ==> selected == Some(addr)
      ensures thrown.Some? <==> SomeSelectFailed(calls)
      ensures thrown.Some? ==> thrown == Some(SetAddressFailed)
    {
      results := new int[128];
      thrown := None;
      calls := [];
      var i := 0;
      while i < 128
        invariant 0 <= i <= 128 && Valid()
        invariant log == old(log) + calls && |calls| == 2 * i
        invariant ScannedUpTo(calls, fd, results[..i])
        invariant selected == Rebind(old(selected), calls)
        invariant thrown.Some? <==> SomeSelectFailed(calls)
        invariant thrown.Some? ==> thrown == Some(SetAddressFailed)
      {
        ghost var before := log;
        var t, res, round := ScanRound(i);
        LogStep(old(log), calls, round, before, log);
        if t.Some? {
          thrown := t;
        }
        results[i] := res;
        RebindConcat(old(selected), calls, round);
        SomeSelectFailedConcat(calls, round);
        ScannedUpToStep(calls, round, fd, results[..i], res);
        assert results[..i + 1] == results[..i] + [res];
        calls := calls + round;
        i := i + 1;
      }
      ghost var before := log;
      var t := Select(addr);
      if t.Some? {
        thrown := t;
      }
      ghost var last := log[|log| - 1];
      LogStep(old(log), calls, [last], before, log);
      RebindAppend(old(selected), calls, last);
      SomeSelectFailedAppend(calls, last);
      ScannedUpToExtends(calls, [last], fd, results[..]);
      calls := calls + [last];
    }

    /** Close: close the descriptor if it is positive; `fd` keeps its value. */
    method Close()
      requires Valid()
      modifies this`log, this`selected
      ensures Valid() && fd == old(fd)
      ensures old(fd) > 0 ==> log == old(log) + [Call(CloseHandle(fd), kernel(old(log), CloseHandle(fd)))] && selected == None
      ensures old(fd) <= 0 ==> log == old(log) && selected == old(selected)
    {
      if fd > 0 {
        var _ := Issue(CloseHandle(fd));
      }
    }

    /** Open: open the device node read-write and keep whatever descriptor comes back, -1 included;
        a descriptor opened before is neither closed nor remembered. */
    method Open(path: string) returns (err: Option<Error>)
      requires Valid()
      modifies this`fd, this`log, this`selected
      ensures Valid()
      ensures log == old(log) + [Call(OpenDevice(path), kernel(old(log), OpenDevice(path)))]
      ensures fd == log[|log| - 1].reply.status
      ensures err == (if fd == -1 then Some(OpenFailed) else None)
      ensures selected == None
    {
      var reply := Issue(OpenDevice(path));
      fd := reply.status;
      err := if fd == -1 then Some(OpenFailed) else None;
    }

    /** Read: read `len` bytes from the handle; anything but exactly `len` is an error with no
        data, and on success entry i of the data is byte i of the buffer. */
    method Read(len: int32) returns (err: Option<Error>, data: seq<byte>)
      requires Valid() && len >= 0
      modifies this`log, this`selected
      ensures Valid() && selected == old(selected)
      ensures log == old(log) + [Call(ReadRaw(fd, len), kernel(old(log), ReadRaw(fd, len)))]
      ensures err == (if log[|log| - 1].reply.status != len then Some(ReadFailed) else None)
      ensures err.Some? ==> data == []
      ensures err.None? ==> |data| == len && data == log[|log| - 1].reply.bytes
    {
      var buf := new byte[len];
      var reply := Issue(ReadRaw(fd, len));
      Store(buf, reply.bytes);
      if reply.status != len {
        err, data := Some(ReadFailed), [];
      } else {
        err := None;
        data := Collect(buf, len);
      }
    }

    /** ReadByte: an SMBus receive-byte; only a result of exactly -1 is an error, any other
        value is the data. */
    method ReadByte() returns (err: Option<Error>, data: Option<int>)
      requires Valid()
      modifies this`log, this`selected
      ensures Valid() && selected == old(selected)
      ensures log == old(log) + [Call(SmbusReadByte(fd), kernel(old(log), SmbusReadByte(fd)))]
      ensures err.Some? <==> log[|log| - 1].reply.status == -1
      ensures err.Some? ==> err == Some(ReadByteFailed) && data == None
      ensures err.None? ==> data == Some(log[|log| - 1].reply.status)
    {
      var reply := Issue(SmbusReadByte(fd));
      if reply.status == -1 {
        err, data := Some(ReadByteFailed), None;
      } else {
        err, data := None, Some(reply.status);
      }
    }

    /** One pass of ReadBlock's loop: block-read into `data`, set the error on a short read
        (never clear it), and copy `data` into `buffer`. */
    method BlockPass(request: Request, data: array<byte>, buffer: array<byte>, err: Option<Error>)
      returns (failed: Option<Error>, ghost c: Call)
      requires Valid() && request.SmbusReadBlock?
      requires data.Length == buffer.Length == request.count && data != buffer
      modifies this`log, this`selected, data, buffer
      ensures Valid() && selected == old(selected)
      ensures log == old(log) + [c] && c.request == request && |c.reply.bytes| <= request.count
      ensures failed == (if c.reply.status != request.count then Some(BlockReadFailed) else err)
      ensures data[..] == Overlay(old(data[..]), c.reply.bytes) && buffer[..] == data[..]
    {
      var reply := Issue(request);
      failed := err;
      if reply.status != request.count {
        failed := Some(BlockReadFailed);
      }
      Store(data, reply.bytes);
      Copy(buffer, data);
      c := Call(request, reply);
    }

    /** ReadBlock's loop, on the stack array `data` and the buffer handed to the callback:
        passes go on while `fd` is positive.  Without a numeric delay the loop breaks out after
        its first pass, so it makes at most one; with one it sleeps and goes round again, and
        the model stops it after `budget` passes. */
    method PollBlocks(request: Request, data: array<byte>, buffer: array<byte>, numeric: bool, budget: nat)
      returns (deliveries: seq<Delivery>, ghost calls: seq<Call>, ghost replies: seq<Reply>)
      requires Valid() && request.SmbusReadBlock?
      requires data.Length == buffer.Length == request.count && data != buffer
      modifies this`log, this`selected, data, buffer
      ensures Valid() && selected == old(selected)
      ensures log == old(log) + calls
      ensures |calls| == |replies| == (if fd <= 0 then 0 else if !numeric then 1 else budget)
      ensures forall k :: 0 <= k < |calls| ==> calls[k] == Call(request, replies[k])
      ensures FitIn(replies, request.count)
      ensures deliveries == Poll(request.count, old(data[..]), replies)
      ensures deliveries != [] ==> buffer[..] == deliveries[|deliveries| - 1].buffer
    {
      ghost var stale := data[..];
      ghost var held := stale;
      deliveries, calls, replies := [], [], [];
      var err: Option<Error> := None;
      var n := 0;
      var passes := if numeric then budget else 1;
      while fd > 0 && n < passes
        invariant Valid() && selected == old(selected)
        invariant log == old(log) + calls && |calls| == n
        invariant fd <= 0 ==> n == 0
        invariant n <= passes
        invariant Repeated(request, calls, replies)
        invariant Polled(request.count, stale, replies, deliveries, held, err)
        invariant data[..] == held && (n > 0 ==> buffer[..] == held)
      {
        ghost var c;
        ghost var before, err0 := log, err;
        err, c := BlockPass(request, data, buffer, err);
        LogStep(old(log), calls, [c], before, log);
        PolledStep(request.count, stale, replies, deliveries, held, err0, c.reply);
        RepeatedStep(request, calls, replies, c);
        held := Overlay(held, c.reply.bytes);
        deliveries := deliveries + [Delivery(err, buffer[..])];
        calls, replies := calls + [c], replies + [c.reply];
        n := n + 1;
      }
    }

    /** ReadBlock: with a fresh buffer of `len` bytes, block-read `len` bytes at register `cmd`
        while `fd` is positive, delivering `(err, buffer)` after each pass.  Without a numeric
        delay it stops after one pass; with one it polls on, and the model lets it run `budget`
        passes.  The error, once set by a short read, is never cleared.  When the buffer cannot
        be allocated nothing is read and nothing is delivered. */
    method ReadBlock(cmd: int32, len: int32, delay: Option<int32>, canAllocate: bool, budget: nat)
      returns (deliveries: seq<Delivery>, buffer: array?<byte>, ghost stale: seq<byte>,
               ghost calls: seq<Call>, ghost replies: seq<Reply>)
      requires Valid() && len >= 0
      modifies this`log, this`selected
      ensures Valid() && selected == old(selected)
      ensures |stale| == len && log == old(log) + calls
      ensures canAllocate <==> buffer != null
      ensures buffer != null ==> fresh(buffer) && buffer.Length == len
      ensures |calls| == |replies| == (if !canAllocate || fd <= 0 then 0 else if delay.None? then 1 else budget)
      ensures forall k :: 0 <= k < |calls| ==> calls[k] == Call(SmbusReadBlock(fd, Int8(cmd), len), replies[k])
      ensures FitIn(replies, len)
      ensures deliveries == Poll(len, stale, replies)
      ensures buffer != null && deliveries != [] ==> buffer[..] == deliveries[|deliveries| - 1].buffer
    {
      deliveries, calls, replies := [], [], [];
      buffer := null;
      var data := new byte[len];
      stale := data[..];
      if !canAllocate {
        return;
      }
      buffer := new byte[len];
      deliveries, calls, replies := PollBlocks(SmbusReadBlock(fd, Int8(cmd), len), data, buffer, delay.Some?, budget);
    }

    /** Write: write the whole buffer; writing fewer bytes than it holds is an error. */
    method Write(bytes: seq<byte>) returns (err: Option<Error>)
      requires Valid()
      modifies this`log, this`selected
      ensures Valid() && selected == old(selected)
      ensures log == old(log) + [Call(WriteRaw(fd, bytes), kernel(old(log), WriteRaw(fd, bytes)))]
      ensures err == (if log[|log| - 1].reply.status != |bytes| then Some(WriteFailed) else None)
    {
      var reply := Issue(WriteRaw(fd, bytes));
      err := if reply.status != |bytes| then Some(WriteFailed) else None;
    }

    /** WriteByte: an SMBus send-byte of `b` narrowed to int8; only -1 is an error. */
    method WriteByte(b: int32) returns (err: Option<Error>)
      requires Valid()
      modifies this`log, this`selected
      ensures Valid() && selected == old(selected)
      ensures log == old(log) + [Call(SmbusWriteByte(fd, Int8(b)), kernel(old(log), SmbusWriteByte(fd, Int8(b))))]
      ensures err == (if log[|log| - 1].reply.status == -1 then Some(WriteFailed) else None)
    {
      var reply := Issue(SmbusWriteByte(fd, Int8(b)));
      err := if reply.status == -1 then Some(WriteFailed) else None;
    }

    /** WriteBlock: an SMBus block write of the whole buffer at register `cmd` narrowed to int8;
        only -1 is an error. */
    method WriteBlock(cmd: int32, bytes: seq<byte>) returns (err: Option<Error>)
      requires Valid()
      modifies this`log, this`selected
      ensures Valid() && selected == old(selected)
      ensures log == old(log) + [Call(SmbusWriteBlock(fd, Int8(cmd), bytes), kernel(old(log), SmbusWriteBlock(fd, Int8(cmd), bytes)))]
      ensures err == (if log[|log| - 1].reply.status == -1 then Some(WriteFailed) else None)
    {
      var reply := Issue(SmbusWriteBlock(fd, Int8(cmd), bytes));
      err := if reply.status == -1 then Some(WriteFailed) else None;
    }

    /** WriteWord: an SMBus word write of `word` narrowed to int16 at register `cmd` narrowed to
        int8; only -1 is an error.  The binding defines this function but does not export it. */
    method WriteWord(cmd: int32, word: int32) returns (err: Option<Error>)
      requires Valid()
      modifies this`log, this`selected
      ensures Valid() && selected == old(selected)
      ensures log == old(log) + [Call(SmbusWriteWord(fd, Int8(cmd), Int16(word)), kernel(old(log), SmbusWriteWord(fd, Int8(cmd), Int16(word))))]
      ensures err == (if log[|log| - 1].reply.status == -1 then Some(WriteFailed) else None)
    {
      var reply := Issue(SmbusWriteWord(fd, Int8(cmd), Int16(word)));
      err := if reply.status == -1 then Some(WriteFailed) else None;
    }
  }
}

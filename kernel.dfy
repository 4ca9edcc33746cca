/** The calls the binding makes into the kernel and into the SMBus helpers, and an oracle that
    answers them.  Nothing below the binding is specified: whatever the adapter, the devices on
    the bus and the helper library do is folded into one function from the history of earlier
    calls and the new request to the reply. */
module Kernel {
  import opened CInt
  import opened Outcomes

  /** One primitive call, with the arguments exactly as the binding passes them. */
  datatype Request =
    | OpenDevice(path: string)                                     // open(path, O_RDWR)
    | CloseHandle(fd: int)                                         // close(fd)
    | SelectSlave(fd: int, address: int8)                          // ioctl(fd, I2C_SLAVE_FORCE, address)
    | ReadRaw(fd: int, count: nat)                                 // read(fd, buf, count)
    | WriteRaw(fd: int, bytes: seq<byte>)                          // write(fd, bytes, |bytes|)
    | SmbusReadByte(fd: int)                                       // i2c_smbus_read_byte(fd)
    | SmbusWriteQuick(fd: int)                                     // i2c_smbus_write_quick(fd, I2C_SMBUS_WRITE)
    | SmbusWriteByte(fd: int, value: int8)                         // i2c_smbus_write_byte(fd, value)
    | SmbusWriteWord(fd: int, command: int8, word: int16)          // i2c_smbus_write_word_data(fd, command, word)
    | SmbusWriteBlock(fd: int, command: int8, bytes: seq<byte>)    // i2c_smbus_write_i2c_block_data(fd, command, |bytes|, bytes)
    | SmbusReadBlock(fd: int, command: int8, count: nat)           // i2c_smbus_read_i2c_block_data(fd, command, count, buf)

  /** The primitive's return value, and the bytes it stored at the start of the caller's buffer. */
  datatype Reply = Reply(status: int, bytes: seq<byte>)

  datatype Call = Call(request: Request, reply: Reply)

  /** Requests that hand the kernel a buffer to fill. */
  predicate Fills(r: Request)
  {
    r.ReadRaw? || r.SmbusReadBlock?
  }

  /** A reply a real kernel could give: a read stores no more than the buffer holds and, when it
      reports a count, exactly that many bytes; any other request stores nothing. */
  predicate Honest(r: Request, reply: Reply)
  {
    if Fills(r) then
      |reply.bytes| <= r.count && (reply.status >= 0 ==> |reply.bytes| == reply.status)
    else
      reply.bytes == []
  }

  /** A bus that answers every call with failure. */
  function Dead(history: seq<Call>, r: Request): Reply
  {
    Reply(-1, [])
  }

  /** Everything beneath the binding: the reply to each request given all earlier calls. */
  type Oracle = k: (seq<Call>, Request) -> Reply | forall h, r :: Honest(r, k(h, r)) witness Dead

  /** Every call in `calls` got the answer `k` gives to its request after the calls before it. */
  ghost predicate Answered(k: Oracle, calls: seq<Call>)
    decreases |calls|
  {
    calls != [] ==>
      && Answered(k, calls[..|calls| - 1])
      && calls[|calls| - 1].reply == k(calls[..|calls| - 1], calls[|calls| - 1].request)
  }

  /** The slave address bound on the open handle after one more call: a select that does not
      report -1 binds its address; opening or closing leaves no address bound. */
  function Bind(selected: Option<int8>, c: Call): Option<int8>
  {
    match c.request
    case SelectSlave(_, a) => if c.reply.status != -1 then Some(a) else selected
    case OpenDevice(_) => None
    case CloseHandle(_) => None
    case _ => selected
  }

  /** The bound address after a run of calls. */
  function Rebind(selected: Option<int8>, calls: seq<Call>): Option<int8>
    decreases |calls|
  {
    if calls == [] then selected
    else Bind(Rebind(selected, calls[..|calls| - 1]), calls[|calls| - 1])
  }

  lemma RebindAppend(selected: Option<int8>, calls: seq<Call>, c: Call)
    ensures Rebind(selected, calls + [c]) == Bind(Rebind(selected, calls), c)
  {
    assert (calls + [c])[..|calls|] == calls;
  }

  /** `calls` is the same request made once per reply in `replies`, in order. */
  ghost predicate Repeated(request: Request, calls: seq<Call>, replies: seq<Reply>)
  {
    |calls| == |replies| && forall k :: 0 <= k < |calls| ==> calls[k] == Call(request, replies[k])
  }

  /** Making the request once more extends the run by its call and its reply. */
  lemma RepeatedStep(request: Request, calls: seq<Call>, replies: seq<Reply>, c: Call)
    requires Repeated(request, calls, replies) && c.request == request
    ensures Repeated(request, calls + [c], replies + [c.reply])
  {
  }

  /** Call `i` of an answered log got the oracle's answer given the calls before it. */
  lemma {:induction false} AnsweredAt(k: Oracle, calls: seq<Call>, i: nat)
    requires Answered(k, calls) && i < |calls|
    ensures calls[i].reply == k(calls[..i], calls[i].request)
    decreases |calls|
  {
    if i < |calls| - 1 {
      var shorter := calls[..|calls| - 1];
      AnsweredAt(k, shorter, i);
      assert shorter[..i] == calls[..i];
    }
  }

  /** Call `i` of the calls appended to `base` in an answered log got the oracle's answer given
      `base` and the appended calls before it. */
  lemma AnsweredAfter(k: Oracle, base: seq<Call>, calls: seq<Call>, log: seq<Call>, i: nat)
    requires Answered(k, log) && log == base + calls && i < |calls|
    ensures calls[i].reply == k(base + calls[..i], calls[i].request)
  {
    AnsweredAt(k, log, |base| + i);
    assert log[|base| + i] == calls[i];
    assert log[..|base| + i] == base + calls[..i];
  }

  /** A log that grew by `calls` and then by `more` grew by `calls + more`. */
  lemma LogStep(base: seq<Call>, calls: seq<Call>, more: seq<Call>, before: seq<Call>, after: seq<Call>)
    requires before == base + calls && after == before + more
    ensures after == base + (calls + more)
  {
  }

  lemma {:induction false} RebindConcat(selected: Option<int8>, calls: seq<Call>, more: seq<Call>)
    ensures Rebind(selected, calls + more) == Rebind(Rebind(selected, calls), more)
    decreases |more|
  {
    if more == [] {
      assert calls + more == calls;
    } else {
      var init := more[..|more| - 1];
      assert (calls + more)[..|calls + more| - 1] == calls + init;
      RebindConcat(selected, calls, init);
    }
  }
}

/** What a polling block read hands its callback, pass by pass.  One block buffer is kept for the
    whole loop: each pass lets the block read store its bytes at the start of it, keeps the bytes
    it did not reach from earlier passes, and delivers the error flag, which a short read sets and
    nothing clears. */
module Polling {
  import opened CInt
  import opened Outcomes
  import opened Kernel

  /** One callback invocation: `(err, buffer)`, with the buffer's contents at that moment. */
  datatype Delivery = Delivery(err: Option<Error>, buffer: seq<byte>)

  /** `held` after a primitive stored `written` at its start. */
  function Overlay(held: seq<byte>, written: seq<byte>): (r: seq<byte>)
    requires |written| <= |held|
    ensures |r| == |held|
    ensures forall i :: 0 <= i < |r| ==> r[i] == (if i < |written| then written[i] else held[i])
  {
    written + held[|written|..]
  }

  /** Every reply stores no more than `room` bytes. */
  predicate FitIn(replies: seq<Reply>, room: int)
  {
    forall k :: 0 <= k < |replies| ==> |replies[k].bytes| <= room
  }

  /** The deliveries of a polling read of `len` bytes whose passes got `replies`, when the block
      buffer held `stale` before the first pass. */
  function Poll(len: int, stale: seq<byte>, replies: seq<Reply>): (d: seq<Delivery>)
    requires FitIn(replies, |stale|)
    ensures |d| == |replies|
    ensures forall k :: 0 <= k < |d| ==> |d[k].buffer| == |stale|
    decreases |replies|
  {
    if replies == [] then []
    else
      var before := Poll(len, stale, replies[..|replies| - 1]);
      var last := replies[|replies| - 1];
      var failed := (before != [] && before[|before| - 1].err.Some?) || last.status != len;
      var held := if before == [] then stale else before[|before| - 1].buffer;
      before + [Delivery(if failed then Some(BlockReadFailed) else None, Overlay(held, last.bytes))]
  }

  /** One more pass appends one delivery: its error is set when an earlier one was or this
      pass read short, and its buffer is the previous one with this pass's bytes stored over it. */
  lemma PollStep(len: int, stale: seq<byte>, replies: seq<Reply>, r: Reply)
    requires FitIn(replies, |stale|) && |r.bytes| <= |stale|
    ensures FitIn(replies + [r], |stale|)
    ensures var before := Poll(len, stale, replies);
            var failed := (before != [] && before[|before| - 1].err.Some?) || r.status != len;
            var held := if before == [] then stale else before[|before| - 1].buffer;
            Poll(len, stale, replies + [r])
              == before + [Delivery(if failed then Some(BlockReadFailed) else None, Overlay(held, r.bytes))]
  {
    assert (replies + [r])[..|replies|] == replies;
  }

  /** The state of ReadBlock's loop after the passes that got `replies`: what has been
      delivered, the bytes the stack array holds, and the pending error. */
  ghost predicate Polled(len: int, stale: seq<byte>, replies: seq<Reply>,
                         deliveries: seq<Delivery>, held: seq<byte>, err: Option<Error>)
  {
    && FitIn(replies, |stale|)
    && deliveries == Poll(len, stale, replies)
    && held == (if deliveries == [] then stale else deliveries[|deliveries| - 1].buffer)
    && err == (if deliveries == [] then None else deliveries[|deliveries| - 1].err)
    && (err == None || err == Some(BlockReadFailed))
  }

  /** A pass that sets the error on a short read and stores its bytes over the held ones
      keeps the loop state in step with `Poll`. */
  lemma PolledStep(len: int, stale: seq<byte>, replies: seq<Reply>,
                   deliveries: seq<Delivery>, held: seq<byte>, err: Option<Error>, r: Reply)
    requires Polled(len, stale, replies, deliveries, held, err) && |r.bytes| <= |stale|
    ensures |r.bytes| <= |held|
    ensures var failed := if r.status != len then Some(BlockReadFailed) else err;
            var now := Overlay(held, r.bytes);
            Polled(len, stale, replies + [r], deliveries + [Delivery(failed, now)], now, failed)
  {
    PollStep(len, stale, replies, r);
  }

  /** The deliveries of the first passes do not depend on later passes. */
  lemma {:induction false} PollPrefix(len: int, stale: seq<byte>, replies: seq<Reply>, m: nat)
    requires FitIn(replies, |stale|) && m <= |replies|
    ensures Poll(len, stale, replies[..m]) == Poll(len, stale, replies)[..m]
    decreases |replies|
  {
    if m < |replies| {
      var shorter := replies[..|replies| - 1];
      assert shorter[..m] == replies[..m];
      PollPrefix(len, stale, shorter, m);
      var before := Poll(len, stale, shorter);
      assert Poll(len, stale, replies)[..|shorter|] == before;
      assert before[..m] == Poll(len, stale, replies)[..m];
    } else {
      assert replies[..m] == replies;
    }
  }

  /** Some pass among the first k + 1 read fewer than `len` bytes (or failed). */
  ghost predicate ShortBy(len: int, replies: seq<Reply>, k: nat)
  {
    exists j :: 0 <= j <= k && j < |replies| && replies[j].status != len
  }

  /** The last pass's delivery, in terms of the deliveries before it. */
  lemma PollLast(len: int, stale: seq<byte>, replies: seq<Reply>)
    requires FitIn(replies, |stale|) && |replies| > 0
    ensures var d := Poll(len, stale, replies);
            var before := Poll(len, stale, replies[..|replies| - 1]);
            && d[..|replies| - 1] == before
            && (d[|replies| - 1].err.Some? <==>
                  (|replies| > 1 && before[|replies| - 2].err.Some?) || replies[|replies| - 1].status != len)
  {
  }

  /** Pass k delivers an error exactly when some pass up to and including k read short. */
  lemma {:induction false} ErrorMeansShortRead(len: int, stale: seq<byte>, replies: seq<Reply>, k: nat)
    requires FitIn(replies, |stale|) && k < |replies|
    ensures Poll(len, stale, replies)[k].err.Some? <==> ShortBy(len, replies, k)
    decreases |replies|
  {
    var shorter := replies[..|replies| - 1];
    PollLast(len, stale, replies);
    if k < |replies| - 1 {
      ErrorMeansShortRead(len, stale, shorter, k);
      ShortByPrefix(len, replies, k);
    } else if k > 0 {
      ErrorMeansShortRead(len, stale, shorter, k - 1);
      ShortByPrefix(len, replies, k - 1);
      ShortByStep(len, replies, k);
    }
  }

  /** Whether a pass up to k read short is decided by the passes up to k. */
  lemma ShortByPrefix(len: int, replies: seq<Reply>, k: nat)
    requires k < |replies| - 1
    ensures ShortBy(len, replies, k) <==> ShortBy(len, replies[..|replies| - 1], k)
  {
    var shorter := replies[..|replies| - 1];
    if ShortBy(len, replies, k) {
      var j :| 0 <= j <= k && j < |replies| && replies[j].status != len;
      assert shorter[j] == replies[j];
    }
    if ShortBy(len, shorter, k) {
      var j :| 0 <= j <= k && j < |shorter| && shorter[j].status != len;
      assert shorter[j] == replies[j];
    }
  }

  /** A pass up to k read short when one up to k - 1 did or pass k did. */
  lemma ShortByStep(len: int, replies: seq<Reply>, k: nat)
    requires 0 < k < |replies|
    ensures ShortBy(len, replies, k) <==> ShortBy(len, replies, k - 1) || replies[k].status != len
  {
  }

  /** When no pass reads `len` bytes, every delivery carries the error. */
  lemma FailedPassesReport(len: int, stale: seq<byte>, replies: seq<Reply>)
    requires FitIn(replies, |stale|)
    requires forall k :: 0 <= k < |replies| ==> replies[k].status != len
    ensures forall k :: 0 <= k < |replies| ==> Poll(len, stale, replies)[k].err == Some(BlockReadFailed)
  {
    forall k | 0 <= k < |replies|
      ensures Poll(len, stale, replies)[k].err == Some(BlockReadFailed)
    {
      ErrorMeansShortRead(len, stale, replies, k);
      ErrorIsSticky(len, stale, replies, k, k);
    }
  }

  /** Once a pass delivers an error, every later pass does too. */
  lemma ErrorIsSticky(len: int, stale: seq<byte>, replies: seq<Reply>, j: nat, k: nat)
    requires FitIn(replies, |stale|) && j <= k < |replies|
    requires Poll(len, stale, replies)[j].err.Some?
    ensures Poll(len, stale, replies)[k].err == Some(BlockReadFailed)
  {
    ErrorMeansShortRead(len, stale, replies, j);
    ErrorMeansShortRead(len, stale, replies, k);
  }

  /** Byte i of the buffer delivered by pass k is the byte the latest pass j <= k stored there. */
  lemma {:induction false} BufferHoldsLatestWrite(len: int, stale: seq<byte>, replies: seq<Reply>, k: nat, j: nat, i: nat)
    requires FitIn(replies, |stale|) && j <= k < |replies|
    requires i < |replies[j].bytes|
    requires forall m :: j < m <= k ==> i >= |replies[m].bytes|
    ensures Poll(len, stale, replies)[k].buffer[i] == replies[j].bytes[i]
    decreases |replies|
  {
    var shorter := replies[..|replies| - 1];
    if k < |replies| - 1 {
      BufferHoldsLatestWrite(len, stale, shorter, k, j, i);
    } else if j < k {
      BufferHoldsLatestWrite(len, stale, shorter, k - 1, j, i);
    }
  }

  /** Byte i of the buffer delivered by pass k is still the stale byte when no pass up to k reached it. */
  lemma {:induction false} BufferKeepsUnwrittenBytes(len: int, stale: seq<byte>, replies: seq<Reply>, k: nat, i: nat)
    requires FitIn(replies, |stale|) && k < |replies| && i < |stale|
    requires forall m :: 0 <= m <= k ==> i >= |replies[m].bytes|
    ensures Poll(len, stale, replies)[k].buffer[i] == stale[i]
    decreases |replies|
  {
    var shorter := replies[..|replies| - 1];
    if k < |replies| - 1 {
      BufferKeepsUnwrittenBytes(len, stale, shorter, k, i);
    } else if k > 0 {
      BufferKeepsUnwrittenBytes(len, stale, shorter, k - 1, i);
    }
  }
}

/** The probe plan of a bus scan and the meaning of its 128 entries. */
module Scanning {
  import opened CInt
  import opened Outcomes
  import opened Kernel

  /** Addresses 0x30-0x37 and 0x50-0x5F are probed by reading a byte; all others by a quick write. */
  predicate ReadProbed(i: int)
  {
    (0x30 <= i <= 0x37) || (0x50 <= i <= 0x5F)
  }

  /** The probe a scan issues at address `i`. */
  function Probe(fd: int, i: int): Request
  {
    if ReadProbed(i) then SmbusReadByte(fd) else SmbusWriteQuick(fd)
  }

  /** Round `i` of a scan: `select` bound address `i`, `probe` is the probe the address range
      calls for, and the entry is `i` when the probe returned a non-negative value and otherwise
      the probe's own (negative) result. */
  ghost predicate Round(select: Call, probe: Call, fd: int, i: int, entry: int)
  {
    && 0 <= i < 128
    && select.request == SelectSlave(fd, i)
    && probe.request == Probe(fd, i)
    && (probe.reply.status >= 0 ==> entry == i)
    && (probe.reply.status < 0 ==> entry == probe.reply.status)
  }

  /** Within the calls a scan made, round `i` is calls 2i and 2i+1. */
  ghost predicate ScannedAt(calls: seq<Call>, fd: int, i: int, entry: int)
  {
    && 0 <= i < 128
    && 2 * i + 1 < |calls|
    && Round(calls[2 * i], calls[2 * i + 1], fd, i, entry)
  }

  /** The scan answers "is there a device at i" by the sign of entry i, and a non-negative
      entry names the address it was found at, so the entries that are not negative are exactly
      the addresses whose probe answered, each at its own index. */
  lemma EntriesNameAnsweringAddresses(calls: seq<Call>, fd: int, entries: seq<int>)
    requires |entries| == 128 && |calls| >= 256
    requires forall i :: 0 <= i < 128 ==> ScannedAt(calls, fd, i, entries[i])
    ensures forall i :: 0 <= i < 128 ==> (entries[i] >= 0 <==> calls[2 * i + 1].reply.status >= 0)
    ensures forall i :: 0 <= i < 128 && entries[i] >= 0 ==> entries[i] == i
    ensures forall v :: v in entries && v >= 0 ==> 0 <= v < 128 && entries[v] == v
  {
    forall v | v in entries && v >= 0 ensures 0 <= v < 128 && entries[v] == v {
      var i :| 0 <= i < 128 && entries[i] == v;
      assert ScannedAt(calls, fd, i, entries[i]);
    }
  }

  /** Some select among `calls` reported -1. */
  ghost predicate SomeSelectFailed(calls: seq<Call>)
  {
    exists k :: 0 <= k < |calls| && calls[k].request.SelectSlave? && calls[k].reply.status == -1
  }

  lemma SomeSelectFailedAppend(calls: seq<Call>, c: Call)
    ensures SomeSelectFailed(calls + [c]) <==> SomeSelectFailed(calls) || (c.request.SelectSlave? && c.reply.status == -1)
  {
    if SomeSelectFailed(calls) {
      var k :| 0 <= k < |calls| && calls[k].request.SelectSlave? && calls[k].reply.status == -1;
      assert (calls + [c])[k] == calls[k];
    }
    if c.request.SelectSlave? && c.reply.status == -1 {
      assert (calls + [c])[|calls|] == c;
    }
  }

  /** A select followed by a probe binds what the select binds, and has a failed select exactly
      when the select returned -1. */
  lemma RoundEffects(selected: Option<int8>, round: seq<Call>)
    requires |round| == 2 && round[0].request.SelectSlave?
    requires round[1].request.SmbusReadByte? || round[1].request.SmbusWriteQuick?
    ensures Rebind(selected, round) == Bind(selected, round[0])
    ensures SomeSelectFailed(round) <==> round[0].reply.status == -1
  {
    assert round[..1][..0] == [] && round[..1][0] == round[0];
    assert Rebind(selected, round[..1]) == Bind(selected, round[0]);
    if SomeSelectFailed(round) {
      var k :| 0 <= k < |round| && round[k].request.SelectSlave? && round[k].reply.status == -1;
      assert k == 0;
    }
    if round[0].reply.status == -1 {
      assert round[0].request.SelectSlave?;
    }
  }

  /** A round recorded in a run of calls stays recorded when more calls follow. */
  lemma ScannedAtExtends(calls: seq<Call>, more: seq<Call>, fd: int, i: int, entry: int)
    requires ScannedAt(calls, fd, i, entry)
    ensures ScannedAt(calls + more, fd, i, entry)
  {
    assert (calls + more)[2 * i] == calls[2 * i];
    assert (calls + more)[2 * i + 1] == calls[2 * i + 1];
  }

  lemma SomeSelectFailedConcat(calls: seq<Call>, more: seq<Call>)
    ensures SomeSelectFailed(calls + more) <==> SomeSelectFailed(calls) || SomeSelectFailed(more)
  {
    if SomeSelectFailed(calls) {
      var k :| 0 <= k < |calls| && calls[k].request.SelectSlave? && calls[k].reply.status == -1;
      assert (calls + more)[k] == calls[k];
    }
    if SomeSelectFailed(more) {
      var k :| 0 <= k < |more| && more[k].request.SelectSlave? && more[k].reply.status == -1;
      assert (calls + more)[|calls| + k] == more[k];
    }
    if SomeSelectFailed(calls + more) {
      var k :| 0 <= k < |calls + more| && (calls + more)[k].request.SelectSlave? && (calls + more)[k].reply.status == -1;
      if k < |calls| {
        assert calls[k] == (calls + more)[k];
      } else {
        assert more[k - |calls|] == (calls + more)[k];
      }
    }
  }

  /** Round i recorded on its own, after the 2i calls of the rounds before it, is round i of the whole. */
  lemma ScannedAtShift(calls: seq<Call>, round: seq<Call>, fd: int, i: int, entry: int)
    requires |calls| == 2 * i && |round| == 2 && Round(round[0], round[1], fd, i, entry)
    ensures ScannedAt(calls + round, fd, i, entry)
  {
  }

  /** The first |entries| rounds of a scan are recorded in `calls`. */
  ghost predicate ScannedUpTo(calls: seq<Call>, fd: int, entries: seq<int>)
  {
    forall j :: 0 <= j < |entries| ==> ScannedAt(calls, fd, j, entries[j])
  }

  lemma ScannedUpToStep(calls: seq<Call>, round: seq<Call>, fd: int, entries: seq<int>, entry: int)
    requires ScannedUpTo(calls, fd, entries) && |calls| == 2 * |entries|
    requires |round| == 2 && Round(round[0], round[1], fd, |entries|, entry)
    ensures ScannedUpTo(calls + round, fd, entries + [entry])
  {
    forall j | 0 <= j < |entries| ensures ScannedAt(calls + round, fd, j, (entries + [entry])[j]) {
      ScannedAtExtends(calls, round, fd, j, entries[j]);
    }
    ScannedAtShift(calls, round, fd, |entries|, entry);
  }

  lemma ScannedUpToExtends(calls: seq<Call>, more: seq<Call>, fd: int, entries: seq<int>)
    requires ScannedUpTo(calls, fd, entries)
    ensures ScannedUpTo(calls + more, fd, entries)
  {
    forall j | 0 <= j < |entries| ensures ScannedAt(calls + more, fd, j, entries[j]) {
      ScannedAtExtends(calls, more, fd, j, entries[j]);
    }
  }
}

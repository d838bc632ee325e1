/** What every operation on a recorded task adds to its trace and does to its buffer, from the run so far. */
module SyscallbufExact {
  import opened Common
  import opened Syscallbuf
  import opened SyscallbufTheorems

  /** The records that were put into the buffer and are not in the trace. */
  function Waiting(ops: seq<Op>): seq<Record> {
    var rs, s := Committed(ops), Run(ops);
    if s.Some? && |Flushed(s.value.trace)| <= |rs| then rs[|Flushed(s.value.trace)|..] else []
  }

  /** The last request concerning the delay for desched, or for seccomp, asked for it. */
  predicate DeschedDelayed(ops: seq<Op>) {
    ops != [] &&
      var op := ops[|ops| - 1];
      if op.DelayForDesched? then op.on else DeschedDelayed(ops[..|ops| - 1])
  }

  predicate SeccompDelayed(ops: seq<Op>) {
    ops != [] &&
      var op := ops[|ops| - 1];
      if op.DelayForSeccomp? then op.on else SeccompDelayed(ops[..|ops| - 1])
  }

  /** The last flush or reset frame is a flush. */
  predicate FlushIsOpen(trace: seq<Item>) {
    Markers(trace) != [] && Markers(trace)[|Markers(trace)| - 1] == Frame(SyscallbufFlush)
  }

  function FlushItems(ops: seq<Op>, op: Op): seq<Item> {
    if Flushes(op) && Waiting(ops) != [] then [Raw(BufferData(Waiting(ops))), Frame(SyscallbufFlush)] else []
  }

  /** What an operation writes by itself. */
  function OwnItems(op: Op): seq<Item> {
    if op.RecordRaw? && op.data.Some? then [Raw(OtherData(op.data.value))]
    else if op.RecordOne? then [Frame(op.ev)]
    else []
  }

  predicate Resets(ops: seq<Op>, op: Op) {
    && Run(ops).Some? && op.RecordOne? && EndsBuffering(op.ev)
    && FlushIsOpen(Run(ops).value.trace + FlushItems(ops, op))
    && !DeschedDelayed(ops) && !SeccompDelayed(ops)
  }

  // ---------------------------------------------------------------- proofs

  lemma {:induction false} Delays(ops: seq<Op>)
    requires Run(ops).Some?
    ensures Run(ops).value.delayForDesched == DeschedDelayed(ops)
    ensures Run(ops).value.delayForSeccomp == SeccompDelayed(ops)
  {
    if ops != [] {
      var n := |ops| - 1;
      Delays(ops[..n]);
      DelaysNext(Run(ops[..n]).value, ops[n]);
    }
  }

  lemma DelaysNext(s: State, op: Op)
    requires Enabled(s, op) && Apply(s, op).Some?
    ensures var s' := Apply(s, op).value;
      && s'.delayForDesched == (if op.DelayForDesched? then op.on else s.delayForDesched)
      && s'.delayForSeccomp == (if op.DelayForSeccomp? then op.on else s.delayForSeccomp)
  {
    hide NumBytes;
  }

  lemma WaitingIs(ops: seq<Op>)
    requires Run(ops).Some?
    ensures Waiting(ops) == Unflushed(Run(ops).value)
  {
    hide Run, Flushed, Unflushed, Committed;
    ExactlyOnce(ops);
  }

  lemma OpenIs(ops: seq<Op>)
    requires Run(ops).Some?
    ensures FlushIsOpen(Run(ops).value.trace) <==> Run(ops).value.flushed
  {
    hide Run, Markers, Paired;
    FlushesAlternate(ops);
  }

  /** A flush writes what waits, if anything does. */
  lemma FlushWrites(s: State, committed: seq<Record>)
    requires Inv(s, committed) && Flush(s).Some?
    ensures var a, items := Flush(s).value,
        if Unflushed(s) != [] then [Raw(BufferData(Unflushed(s))), Frame(SyscallbufFlush)] else [];
      && a.trace == s.trace + items && a.buffer == s.buffer
      && a.delayForDesched == s.delayForDesched && a.delayForSeccomp == s.delayForSeccomp
      && (a.flushed <==> s.flushed || items != [])
  {
    hide Flushed, Markers, Alternating, Paired, LastFlush, NumBytes;
    assert s.trace + [] == s.trace;
    FlushFails(s, committed);
    if s.buffer.Some? && !s.flushed {
      NumBytesConcat([], s.buffer.value);
    }
  }

  lemma OpenAfter(t: seq<Item>, rs: seq<Record>)
    ensures FlushIsOpen(t + [Raw(BufferData(rs)), Frame(SyscallbufFlush)])
  {
    var a, b := Raw(BufferData(rs)), Frame(SyscallbufFlush);
    assert t + [a] + [b] == t + [a, b];
    TraceAppend(t + [a], b);
  }

  lemma RecordWrites(ops: seq<Op>, op: Op)
    requires Run(ops).Some? && op.RecordOne? && RecordEvent(Run(ops).value, op.ev, op.flush).Some?
    ensures var s, s' := Run(ops).value, RecordEvent(Run(ops).value, op.ev, op.flush).value;
      && s'.trace == s.trace + FlushItems(ops, op) + [Frame(op.ev)]
          + (if Resets(ops, op) then [Frame(SyscallbufReset)] else [])
      && s'.buffer == if Resets(ops, op) && s.buffer.Some? then Some([]) else s.buffer
  {
    hide Run, Flush, Markers, Waiting, Unflushed, Inv, DeschedDelayed, SeccompDelayed;
    var s := Run(ops).value;
    RunKeeps(ops);
    WaitingIs(ops);
    OpenIs(ops);
    Delays(ops);
    var items := FlushItems(ops, op);
    if op.flush { FlushWrites(s, Committed(ops)); }
    assert s.trace + [] == s.trace;
    if items != [] { OpenAfter(s.trace, Waiting(ops)); }
    assert forall x: seq<Item> :: x + [] == x;
  }

  /**
   An operation adds to the trace what waits and is flushed, what it writes itself, and a reset frame
   exactly if it records an event that ends buffering, the last flush is still open and no delay is
   on; and exactly then it empties the buffer.
   */
  lemma OperationExact(ops: seq<Op>, op: Op)
    requires Run(ops).Some? && Run(ops + [op]).Some?
    ensures var s, s' := Run(ops).value, Run(ops + [op]).value;
      && s'.trace == s.trace + FlushItems(ops, op) + OwnItems(op)
          + (if Resets(ops, op) then [Frame(SyscallbufReset)] else [])
      && s'.buffer ==
        (if op.InstallBuffer? || Resets(ops, op) then Some([])
         else if op.Commit? && s.buffer.Some? then Some(s.buffer.value + [op.r])
         else s.buffer)
  {
    hide Run, Flush, Markers, Waiting, Unflushed, Inv, RecordEvent, FlushIsOpen, DeschedDelayed, SeccompDelayed;
    RunNext(ops, op);
    RunKeeps(ops);
    WaitingIs(ops);
    var s := Run(ops).value;
    assert forall x: seq<Item> :: x + [] == x;
    if Flushes(op) && !op.RecordOne? { FlushWrites(s, Committed(ops)); }
    if op.RecordOne? {
      RecordWrites(ops, op);
      if Resets(ops, op) { ResetHasBuffer(ops, op); }
    }
  }

  /** Where a flush is open there is a buffer. */
  lemma ResetHasBuffer(ops: seq<Op>, op: Op)
    requires Resets(ops, op)
    ensures Run(ops).value.buffer.Some?
  {
    hide Run, Markers, Flushed, LastFlush, Paired, Alternating;
    RunKeeps(ops);
    OpenIs(ops);
    WaitingIs(ops);
    if FlushItems(ops, op) == [] { assert Run(ops).value.trace + [] == Run(ops).value.trace; }
  }
}

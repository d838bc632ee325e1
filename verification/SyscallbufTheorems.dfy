/** Every buffered system call is in the trace once, in order, whatever the run. */
module SyscallbufTheorems {
  import opened Common
  import opened Syscallbuf

  lemma TraceAppend(t: seq<Item>, item: Item)
    ensures Flushed(t + [item]) == Flushed(t) + if IsBufferData(item) then item.data.records else []
    ensures LastFlush(t + [item]) == if IsBufferData(item) then item.data.records else LastFlush(t)
    ensures Markers(t + [item]) == Markers(t) + if Marker(item) then [item] else []
  {
    assert (t + [item])[..|t|] == t;
  }

  lemma AppendPlain(t: seq<Item>, item: Item)
    requires !IsBufferData(item) && !Marker(item)
    ensures var t' := t + [item];
      Flushed(t') == Flushed(t) && LastFlush(t') == LastFlush(t) && Markers(t') == Markers(t)
          && (Paired(t) ==> Paired(t'))
  {
    TraceAppend(t, item);
  }

  lemma AlternatingNext(ms: seq<Item>, open: bool)
    requires Alternating(ms, open)
    ensures Alternating(ms + [Frame(if open then SyscallbufReset else SyscallbufFlush)], !open)
  {
    assert (ms + [Frame(if open then SyscallbufReset else SyscallbufFlush)])[..|ms|] == ms;
  }

  lemma AppendReset(t: seq<Item>)
    requires Alternating(Markers(t), true)
    ensures var t' := t + [Frame(SyscallbufReset)];
      && Flushed(t') == Flushed(t) && (Paired(t) ==> Paired(t'))
      && Alternating(Markers(t'), false)
  {
    TraceAppend(t, Frame(SyscallbufReset));
    AlternatingNext(Markers(t), true);
  }

  lemma AppendFlush(t: seq<Item>, rs: seq<Record>)
    requires rs != [] && Paired(t) && Alternating(Markers(t), false)
    ensures var t' := t + [Raw(BufferData(rs)), Frame(SyscallbufFlush)];
      && Flushed(t') == Flushed(t) + rs && LastFlush(t') == rs && Paired(t')
      && Alternating(Markers(t'), true)
  {
    hide Alternating, Flushed, LastFlush, Markers;
    var a, b := Raw(BufferData(rs)), Frame(SyscallbufFlush);
    assert t + [a] + [b] == t + [a, b];
    TraceAppend(t, a);
    TraceAppend(t + [a], b);
    assert Markers(t) + [] == Markers(t);
    AlternatingNext(Markers(t), false);
  }

  /** Where rr's assertion holds, the buffer holds nothing new since the last flush. */
  lemma FlushComplete(s: State, committed: seq<Record>)
    requires Inv(s, committed) && Flush(s).Some?
    ensures var a := Flush(s).value;
      && Inv(a, committed) && Unflushed(a) == [] && Flushed(a.trace) == committed
      && (a.flushed ==> a.buffer == Some(LastFlush(a.trace)))
      && a.(trace := s.trace, flushed := s.flushed, flushedBytes := s.flushedBytes) == s
  {
    hide Flushed, LastFlush, Markers, Alternating, Paired, NumBytes;
    if s.buffer.Some? {
      var rs := s.buffer.value;
      NumBytesConcat([], rs);
      if s.flushed {
        var last := LastFlush(s.trace);
        var more := rs[|last|..];
        assert rs == last + more;
        NumBytesConcat(last, more);
        assert last + [] == last;
      } else if rs != [] {
        assert [] + rs == rs;
        AppendFlush(s.trace, rs);
      }
    }
  }

  lemma ResetKeeps(s: State, committed: seq<Record>)
    requires Inv(s, committed) && (s.flushed ==> s.buffer == Some(LastFlush(s.trace)))
    ensures Inv(Reset(s), committed)
  {
    if s.flushed && !s.delayForDesched && !s.delayForSeccomp {
      AppendReset(s.trace);
    }
  }

  lemma WriteKeeps(s: State, item: Item, committed: seq<Record>)
    requires Inv(s, committed) && !IsBufferData(item) && !Marker(item)
    ensures Inv(Write(s, item), committed) && LastFlush(Write(s, item).trace) == LastFlush(s.trace)
  {
    AppendPlain(s.trace, item);
  }

  lemma RecordKeeps(s: State, ev: Event, flush: bool, committed: seq<Record>)
    requires Inv(s, committed) && !Marker(Frame(ev)) && RecordEvent(s, ev, flush).Some?
    ensures Inv(RecordEvent(s, ev, flush).value, committed)
  {
    hide Inv, Flush, Reset;
    if flush { FlushComplete(s, committed); }
    var a := if flush then Flush(s).value else s;
    WriteKeeps(a, Frame(ev), committed);
    if !HasTicksSlop(ev) && ev != Exit {
      ResetKeeps(Write(a, Frame(ev)), committed);
    }
  }

  lemma CommitKeeps(s: State, r: Record, committed: seq<Record>)
    requires Inv(s, committed) && s.buffer.Some?
    ensures Inv(s.(buffer := Some(s.buffer.value + [r])), committed + [r])
  {
    var rs := s.buffer.value;
    if s.flushed {
      var n := |LastFlush(s.trace)|;
      assert (rs + [r])[n..] == rs[n..] + [r];
    }
  }

  lemma ApplyKeeps(s: State, op: Op, committed: seq<Record>)
    requires Inv(s, committed) && Enabled(s, op) && Apply(s, op).Some?
    ensures Inv(Apply(s, op).value, committed + if op.Commit? then [op.r] else [])
  {
    hide Paired, Alternating, Markers, Flushed, LastFlush, NumBytes, Flush, RecordEvent;
    assert committed + [] == committed;
    match op
    case Commit(r) => CommitKeeps(s, r, committed);
    case FlushNow => FlushComplete(s, committed);
    case RecordRaw(data) =>
      FlushComplete(s, committed);
      if data.Some? { WriteKeeps(Flush(s).value, Raw(OtherData(data.value)), committed); }
    case RecordOne(ev, flush) => RecordKeeps(s, ev, flush, committed);
    case _ =>
  }

  lemma {:induction false} RunKeeps(ops: seq<Op>)
    requires Run(ops).Some?
    ensures Inv(Run(ops).value, Committed(ops))
  {
    hide Inv, Apply;
    if ops == [] {
      InitialInv();
    } else {
      var n := |ops| - 1;
      RunKeeps(ops[..n]);
      ApplyKeeps(Run(ops[..n]).value, ops[n], Committed(ops[..n]));
    }
  }

  lemma InitialInv()
    ensures Inv(INITIAL, [])
  {
  }

  // ---------------------------------------------------------------- theorems

  /** What has been flushed, then what still waits, is what the tracee buffered: nothing lost, doubled or reordered. */
  lemma ExactlyOnce(ops: seq<Op>)
    requires Run(ops).Some?
    ensures var s := Run(ops).value; Flushed(s.trace) + Unflushed(s) == Committed(ops)
  {
    RunKeeps(ops);
  }

  lemma {:induction false} AlternatingMeans(ms: seq<Item>, open: bool)
    requires Alternating(ms, open)
    ensures ms != [] ==> ms[0] == Frame(SyscallbufFlush)
    ensures forall i :: 0 < i < |ms| ==> ms[i] != ms[i - 1]
    ensures open <==> ms != [] && ms[|ms| - 1] == Frame(SyscallbufFlush)
  {
    if ms != [] { AlternatingMeans(ms[..|ms| - 1], !open); }
  }

  /** Flushes and resets take turns, the first is a flush, and each flush frame comes with its own data. */
  lemma FlushesAlternate(ops: seq<Op>)
    requires Run(ops).Some?
    ensures var s := Run(ops).value;
      var ms := Markers(s.trace);
      && Paired(s.trace)
      && (ms != [] ==> ms[0] == Frame(SyscallbufFlush))
      && (forall i :: 0 < i < |ms| ==> ms[i] != ms[i - 1])
      && (s.flushed <==> ms != [] && ms[|ms| - 1] == Frame(SyscallbufFlush))
  {
    hide Flushed, LastFlush, Markers, Alternating;
    RunKeeps(ops);
    AlternatingMeans(Markers(Run(ops).value.trace), Run(ops).value.flushed);
  }

  lemma RunNext(ops: seq<Op>, op: Op)
    requires Run(ops).Some?
    ensures var s := Run(ops).value;
      Run(ops + [op]) == if Enabled(s, op) then Apply(s, op) else None
  {
    hide Apply, Enabled;
    assert (ops + [op])[..|ops|] == ops;
  }

  /** The trace after an event: what a flush adds, the event's frame, and perhaps a reset. */
  lemma RecordTrace(s: State, ev: Event, flush: bool)
    requires RecordEvent(s, ev, flush).Some?
    ensures flush ==> Flush(s).Some?
    ensures var a := if flush then Flush(s).value else s;
      var t := RecordEvent(s, ev, flush).value.trace;
      && t[..|a.trace|] == a.trace && |a.trace| < |t| && t[|a.trace|] == Frame(ev)
      && s.trace <= a.trace
      && (forall i :: |s.trace| <= i < |a.trace| ==> IsBufferData(a.trace[i]) || a.trace[i] == Frame(SyscallbufFlush))
  {
    hide NumBytes;
  }

  /**
   Everything buffered before an event is in the trace before its frame, exactly when the event is
   recorded with a flush or nothing was waiting.
   */
  lemma BeforeLaterEvents(ops: seq<Op>, ev: Event, flush: bool) returns (at: nat)
    requires Run(ops).Some? && Run(ops + [RecordOne(ev, flush)]).Some?
    ensures var s, t := Run(ops).value, Run(ops + [RecordOne(ev, flush)]).value.trace;
      && |s.trace| <= at < |t| && t[at] == Frame(ev) && s.trace <= t[..at]
      && (forall i :: |s.trace| <= i < at ==> IsBufferData(t[i]) || t[i] == Frame(SyscallbufFlush))
      && (Flushed(t[..at]) == Committed(ops) <==> flush || Unflushed(s) == [])
  {
    hide Paired, Alternating, LastFlush, Markers, Flushed, Run, RecordEvent, Flush, Unflushed;
    RunNext(ops, RecordOne(ev, flush));
    var s := Run(ops).value;
    RunKeeps(ops);
    RecordTrace(s, ev, flush);
    if flush { FlushComplete(s, Committed(ops)); }
    var a := if flush then Flush(s).value else s;
    at := |a.trace|;
    var t := RecordEvent(s, ev, flush).value.trace;
    assert forall i :: 0 <= i < at ==> t[i] == t[..at][i];
  }

  /** When recording an event empties the buffer, the buffer held exactly the last flush. */
  lemma ResetDropsFlushed(ops: seq<Op>, op: Op)
    requires Run(ops).Some? && Run(ops + [op]).Some? && !op.InstallBuffer? && !op.Commit?
    ensures var s, s' := Run(ops).value, Run(ops + [op]).value;
      s'.buffer != s.buffer ==>
        && op.RecordOne? && s.buffer == Some(LastFlush(s'.trace)) && s'.buffer == Some([])
        && s'.trace != [] && s'.trace[|s'.trace| - 1] == Frame(SyscallbufReset)
  {
    hide Run, Inv, RecordEvent;
    RunNext(ops, op);
    RunKeeps(ops);
    if op.RecordOne? { RecordResets(Run(ops).value, op.ev, op.flush, Committed(ops)); }
  }

  lemma RecordResets(s: State, ev: Event, flush: bool, committed: seq<Record>)
    requires Inv(s, committed) && RecordEvent(s, ev, flush).Some?
    ensures var s' := RecordEvent(s, ev, flush).value;
      s'.buffer != s.buffer ==>
        && s.buffer == Some(LastFlush(s'.trace)) && s'.buffer == Some([])
        && s'.trace != [] && s'.trace[|s'.trace| - 1] == Frame(SyscallbufReset)
  {
    hide Inv, Flush, LastFlush;
    if flush && Flush(s).Some? {
      FlushComplete(s, committed);
      var a := Flush(s).value;
      FramesKeepLast(a.trace, Frame(ev), Frame(SyscallbufReset));
    }
  }

  lemma FramesKeepLast(t: seq<Item>, a: Item, b: Item)
    requires a.Frame? && b.Frame?
    ensures LastFlush(t + [a] + [b]) == LastFlush(t + [a]) == LastFlush(t)
  {
    hide Flushed, Markers;
    TraceAppend(t, a);
    TraceAppend(t + [a], b);
  }

  lemma FlushFails(s: State, committed: seq<Record>)
    requires Inv(s, committed)
    ensures Flush(s).None? <==> s.flushed && Unflushed(s) != []
  {
    hide Paired, Alternating, Markers, Flushed, LastFlush, NumBytes;
    if s.flushed {
      var last := LastFlush(s.trace);
      assert s.buffer.value == last + Unflushed(s);
      NumBytesConcat(last, Unflushed(s));
    }
  }

  /** The operations that begin with a flush. */
  predicate Flushes(op: Op) {
    op.FlushNow? || op.RecordRaw? || (op.RecordOne? && op.flush)
  }

  /**
   An event after which the buffer may be reset: not one of the five with an unreliable tick count, and
   not an exit.
   */
  predicate EndsBuffering(ev: Event) {
    ev != SyscallbufAbortCommit && ev != SyscallbufFlush && ev != SyscallbufReset && ev != Desched && ev != GrowMap
    && ev != Exit
  }

  /** Such an event, recorded without a flush. */
  predicate Unflushable(op: Op) {
    op.RecordOne? && !op.flush && EndsBuffering(op.ev)
  }

  /**
   An operation fires an assertion of rr exactly when it flushes and a record was committed between
   the last flush and its reset, or when it records an event with a reliable tick count without a flush.
   */
  lemma AssertionExact(ops: seq<Op>, op: Op)
    requires Run(ops).Some? && Enabled(Run(ops).value, op)
    ensures var s := Run(ops).value;
      Run(ops + [op]).None? <==> (Flushes(op) && s.flushed && Unflushed(s) != []) || Unflushable(op)
  {
    hide Run, Inv, Flush, Unflushed, Reset;
    RunNext(ops, op);
    RunKeeps(ops);
    FlushFails(Run(ops).value, Committed(ops));
  }
}

/**
 How a recorded task's buffered system calls get into the trace: flushing before other data and
 events, and resetting the buffer afterwards.
 */
module Syscallbuf {
  import opened Common

  /** A buffered system call; its record has a header, so it is not empty. */
  type Record = r: seq<byte> | |r| > 0 witness [0]

  /** The number of bytes that the buffer's header announces. */
  function NumBytes(rs: seq<Record>): nat {
    if rs == [] then 0 else NumBytes(rs[..|rs| - 1]) + |rs[|rs| - 1]|
  }

  lemma {:induction false} NumBytesConcat(a: seq<Record>, b: seq<Record>)
    ensures NumBytes(a + b) == NumBytes(a) + NumBytes(b)
    ensures NumBytes(b) == 0 <==> b == []
  {
    if b == [] {
      assert a + b == a;
    } else {
      NumBytesConcat(a, b[..|b| - 1]);
      assert (a + b)[..|a + b| - 1] == a + b[..|b| - 1];
    }
  }

  datatype Event =
    | SyscallbufFlush | SyscallbufReset | SyscallbufAbortCommit | Desched | GrowMap | Exit | OtherEvent(id: nat)

  /** Events whose tick count is not reliable. */
  predicate HasTicksSlop(ev: Event) {
    match ev
    case SyscallbufAbortCommit => true
    case SyscallbufFlush => true
    case SyscallbufReset => true
    case Desched => true
    case GrowMap => true
    case _ => false
  }

  datatype RawData = BufferData(records: seq<Record>) | OtherData(bytes: seq<byte>)

  /** What the trace writer is given, in order. */
  datatype Item = Raw(data: RawData) | Frame(ev: Event)

  /** A task's recording state. There is always an event on the stack. */
  datatype State = State(
    buffer: Option<seq<Record>>,
    flushed: bool,
    flushedBytes: nat,
    delayForDesched: bool,
    delayForSeccomp: bool,
    pending: seq<Event>,
    trace: seq<Item>)

  const INITIAL := State(None, false, 0, false, false, [OtherEvent(0)], [])

  predicate Flushing(s: State) { s.pending != [] && s.pending[|s.pending| - 1] == SyscallbufFlush }

  function Write(s: State, item: Item): State { s.(trace := s.trace + [item]) }

  // ---------------------------------------------------------------- what recording does

  /** None when an assertion of rr fires. */
  function Flush(s: State): Option<State> {
    if Flushing(s) || s.buffer.None? then Some(s)
    else if s.flushed && s.flushedBytes != NumBytes(s.buffer.value) then None
    else if s.flushed || NumBytes(s.buffer.value) == 0 then Some(s)
    else Some(s.(trace := s.trace + [Raw(BufferData(s.buffer.value)), Frame(SyscallbufFlush)],
                 flushed := true, flushedBytes := NumBytes(s.buffer.value)))
  }

  function Emptied(s: State): State {
    if s.buffer.None? then s else s.(buffer := Some([]))
  }

  function Reset(s: State): State {
    if s.flushed && !s.delayForDesched && !s.delayForSeccomp
    then Write(Emptied(s).(flushed := false), Frame(SyscallbufReset))
    else s
  }

  function RecordEvent(s: State, ev: Event, flush: bool): Option<State> {
    var a := if flush then Flush(s) else Some(s);
    if a.None? then None else
    var b := Write(a.value, Frame(ev));
    if HasTicksSlop(ev) || ev == Exit then Some(b)
    else if !flush then None
    else Some(Reset(b))
  }

  /** Data at a null address is not written. */
  function RecordData(s: State, data: Option<RawData>): Option<State> {
    var a := Flush(s);
    if a.None? || data.None? then a else Some(Write(a.value, Raw(data.value)))
  }

  // ---------------------------------------------------------------- how it is done

  /** The recording functions, which call each other. A method returns false when an assertion fires. */
  class RecordTask {
    var buffer: Option<seq<Record>>
    var flushed: bool
    var flushedBytes: nat
    var delayForDesched: bool
    var delayForSeccomp: bool
    var pending: seq<Event>
    var trace: seq<Item>

    constructor ()
      ensures Now() == INITIAL
    {
      buffer, flushed, flushedBytes, delayForDesched, delayForSeccomp := None, false, 0, false, false;
      pending, trace := [OtherEvent(0)], [];
    }

    ghost function Now(): State
      reads this
    {
      State(buffer, flushed, flushedBytes, delayForDesched, delayForSeccomp, pending, trace)
    }

    /** Already flushing or not: a flush is never nested in a flush. */
    ghost function Rank(): nat
      reads this
    {
      if Flushing(Now()) then 0 else 1
    }

    method MaybeFlush() returns (ok: bool)
      requires pending != []
      modifies this
      ensures ok <==> Flush(old(Now())).Some?
      ensures ok ==> Now() == Flush(old(Now())).value
      decreases Rank(), 0
    {
      if pending[|pending| - 1] == SyscallbufFlush {
        return true;
      }
      if buffer.None? {
        return true;
      }
      var hdr := buffer.value;
      if flushed && flushedBytes != NumBytes(hdr) {
        return false;
      }
      if NumBytes(hdr) == 0 || flushed {
        return true;
      }
      pending := pending + [SyscallbufFlush];
      ok := RecordLocal(Some(BufferData(hdr)));
      ok := RecordNow(pending[|pending| - 1], true);
      pending := pending[..|pending| - 1];
      flushed, flushedBytes := true, NumBytes(hdr);
      assert trace == old(trace) + [Raw(BufferData(hdr)), Frame(SyscallbufFlush)];
    }

    method RecordLocal(data: Option<RawData>) returns (ok: bool)
      requires pending != []
      modifies this
      ensures ok <==> RecordData(old(Now()), data).Some?
      ensures ok ==> Now() == RecordData(old(Now()), data).value
      decreases Rank(), 1
    {
      ok := MaybeFlush();
      if !ok || data.None? {
        return;
      }
      trace := trace + [Raw(data.value)];
    }

    method MaybeReset() returns (ok: bool)
      requires pending != []
      modifies this
      ensures ok && Now() == Reset(old(Now()))
      decreases Rank(), 3
    {
      ok := true;
      if flushed && !delayForDesched && !delayForSeccomp {
        flushed := false;
        if buffer.Some? {
          buffer := Some([]);
        }
        ok := RecordNow(SyscallbufReset, true);
      }
    }

    method RecordNow(ev: Event, flush: bool) returns (ok: bool)
      requires pending != []
      modifies this
      ensures ok <==> RecordEvent(old(Now()), ev, flush).Some?
      ensures ok ==> Now() == RecordEvent(old(Now()), ev, flush).value
      decreases Rank(), if HasTicksSlop(ev) then 2 else 4
    {
      ok := true;
      if flush {
        ok := MaybeFlush();
        if !ok {
          return;
        }
      }
      trace := trace + [Frame(ev)];
      if !HasTicksSlop(ev) && ev != Exit {
        if !flush {
          return false;
        }
        ok := MaybeReset();
      }
    }
  }

  // ---------------------------------------------------------------- runs

  /** What the tracee and the rest of rr do to a task. */
  datatype Op =
    | InstallBuffer
    | Commit(r: Record)
    | FlushNow
    | RecordRaw(data: Option<seq<byte>>)
    | RecordOne(ev: Event, flush: bool)
    | Push(ev: Event)
    | Pop
    | DelayForDesched(on: bool)
    | DelayForSeccomp(on: bool)

  predicate Enabled(s: State, op: Op) {
    match op
    case InstallBuffer => s.buffer.None?
    case Commit(_) => s.buffer.Some?
    case RecordOne(ev, _) => ev != SyscallbufFlush && ev != SyscallbufReset
    case Push(ev) => ev != SyscallbufFlush
    case Pop => |s.pending| > 1
    case _ => true
  }

  /** None when an assertion of rr fires. */
  function Apply(s: State, op: Op): Option<State>
    requires Enabled(s, op)
  {
    match op
    case InstallBuffer => Some(s.(buffer := Some([])))
    case Commit(r) => Some(s.(buffer := Some(s.buffer.value + [r])))
    case FlushNow => Flush(s)
    case RecordRaw(data) => RecordData(s, if data.None? then None else Some(OtherData(data.value)))
    case RecordOne(ev, flush) => RecordEvent(s, ev, flush)
    case Push(ev) => Some(s.(pending := s.pending + [ev]))
    case Pop => Some(s.(pending := s.pending[..|s.pending| - 1]))
    case DelayForDesched(on) => Some(s.(delayForDesched := on))
    case DelayForSeccomp(on) => Some(s.(delayForSeccomp := on))
  }

  /** The state after `ops`, if every one is possible and no assertion fires. */
  function Run(ops: seq<Op>): Option<State> {
    if ops == [] then Some(INITIAL) else
    var s := Run(ops[..|ops| - 1]);
    var op := ops[|ops| - 1];
    if s.None? || !Enabled(s.value, op) then None else Apply(s.value, op)
  }

  /** The records that the tracee has put into its buffer. */
  function Committed(ops: seq<Op>): seq<Record> {
    if ops == [] then [] else
    var op := ops[|ops| - 1];
    Committed(ops[..|ops| - 1]) + if op.Commit? then [op.r] else []
  }

  // ---------------------------------------------------------------- what the trace holds

  /** All flushed records, flush by flush. */
  function Flushed(trace: seq<Item>): seq<Record> {
    if trace == [] then [] else
    var item := trace[|trace| - 1];
    Flushed(trace[..|trace| - 1]) + if item.Raw? && item.data.BufferData? then item.data.records else []
  }

  /** The records of the last flush. */
  function LastFlush(trace: seq<Item>): seq<Record> {
    if trace == [] then [] else
    var item := trace[|trace| - 1];
    if item.Raw? && item.data.BufferData? then item.data.records else LastFlush(trace[..|trace| - 1])
  }

  predicate Marker(item: Item) { item == Frame(SyscallbufFlush) || item == Frame(SyscallbufReset) }

  /** The flush and reset frames. */
  function Markers(trace: seq<Item>): seq<Item> {
    if trace == [] then [] else
    var item := trace[|trace| - 1];
    Markers(trace[..|trace| - 1]) + if Marker(item) then [item] else []
  }

  /** Flush and reset take turns, starting with a flush; `open` if the last one is a flush. */
  predicate Alternating(ms: seq<Item>, open: bool) {
    if ms == [] then !open else
    ms[|ms| - 1] == Frame(if open then SyscallbufFlush else SyscallbufReset) && Alternating(ms[..|ms| - 1], !open)
  }

  predicate IsBufferData(item: Item) { item.Raw? && item.data.BufferData? }

  /** The buffer's data and its flush frame stand side by side. */
  predicate Paired(trace: seq<Item>) {
    && (forall i :: 0 <= i < |trace| && IsBufferData(trace[i]) ==>
          trace[i].data.records != [] && i + 1 < |trace| && trace[i + 1] == Frame(SyscallbufFlush))
    && (forall i :: 0 <= i < |trace| && trace[i] == Frame(SyscallbufFlush) ==> i > 0 && IsBufferData(trace[i - 1]))
  }

  /** The records in the buffer that are not in the trace. */
  function Unflushed(s: State): seq<Record> {
    if s.buffer.None? then []
    else if s.flushed && |LastFlush(s.trace)| <= |s.buffer.value| then s.buffer.value[|LastFlush(s.trace)|..]
    else s.buffer.value
  }

  predicate Inv(s: State, committed: seq<Record>) {
    && s.pending != [] && SyscallbufFlush !in s.pending
    && Paired(s.trace)
    && Alternating(Markers(s.trace), s.flushed)
    && (s.flushed ==>
        s.buffer.Some? && LastFlush(s.trace) <= s.buffer.value && s.flushedBytes == NumBytes(LastFlush(s.trace)))
    && committed == Flushed(s.trace) + Unflushed(s)
  }
}

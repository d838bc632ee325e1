/**
 Every call of `write` and `close` returns, in every execution of the whole system in which nobody who
 can run is kept from running for ever.
 */
module WriterReturns {
  import opened Common
  import opened TraceFormat
  import opened CompressedWriter
  import opened WriterInvariant
  import opened WriterProducer
  import opened WriterTheorems
  import opened WriterProgress
  import opened WriterFairness
  import opened WriterCompletion

  // ---------------------------------------------------------------- executions

  predicate InWriteCall(p: Producer) { p.Copying? || (Reserving(p) && !p.caller.InClose?) }

  predicate InCloseCall(p: Producer) { p.SetClosing? || p.Joining? || (Reserving(p) && p.caller.InClose?) }

  predicate InCall(p: Producer) { InWriteCall(p) || InCloseCall(p) }

  ghost predicate Produces(k: Config, f: nat -> State, m: nat) { ProducerStep(k, f(m), f(m + 1)) }

  ghost predicate ProducesLater(k: Config, f: nat -> State, n: nat) {
    exists m: nat :: n <= m && Produces(k, f, m)
  }

  /** In a call, the producer takes a step at some time unless it has to wait. Its client may do what it likes. */
  ghost predicate FairToAll(k: Config, f: nat -> State) {
    Fair(k, f) && forall n: nat :: InCall(f(n).producer) && !Waiting(f(n)) ==> ProducesLater(k, f, n)
  }

  lemma {:induction false} ExecutionReachable(k: Config, f: nat -> State, n: nat)
    requires Reachable(k, f(0)) && IsExecution(k, f)
    ensures Reachable(k, f(n))
  {
    hide Reachable, Next;
    if n > 0 {
      ExecutionReachable(k, f, n - 1);
      assert MovesAt(k, f, n - 1);
      if f(n) != f(n - 1) { ReachNext(k, f(n - 1), f(n)); }
    }
  }

  // ---------------------------------------------------------------- how a reservation is asked for

  /** `write` asks with WAIT, and whoever waits has published all it has written. */
  predicate Asked(s: State) {
    && (Reserving(s.producer) && s.producer.caller.InWrite? ==> s.producer.wait)
    && (s.producer.Asleep? || s.producer.Recheck? ==> s.reservedPos == s.writePos)
  }

  /** What no step of a compressor thread changes. */
  predicate ProducerSame(s: State, s': State) {
    && s'.writePos == s.writePos && s'.uptoPos == s.uptoPos && s'.reservedPos == s.reservedPos
    && s'.error == s.error && s'.submitted == s.submitted
    && (s'.producer == s.producer || s'.producer == WakeProducer(s.producer))
  }

  lemma WorkerKeeps(k: Config, s: State, s': State, i: nat)
    requires WorkerStep(k, s, s', i)
    ensures ProducerSame(s, s')
  {
    hide Dispatchable, OtherFirst, Frame, Broadcast;
    if CompressFailed(s, s', i) { BroadcastKeeps(s, s.(workers := s.workers[i := Head], writeError := true)); }
    else if TurnDrop(s, s', i) { BroadcastKeeps(s, s.(workers := s.workers[i := Head])); }
    else if WriteDone(s, s', i) { BroadcastKeeps(s, s.(workers := s.workers[i := Head], done := s.done + 1)); }
    else { hide ProducerSame; StepKeeps(k, s, s', i); }
  }

  lemma BroadcastKeeps(s: State, s': State)
    requires s'.writePos == s.writePos && s'.uptoPos == s.uptoPos && s'.reservedPos == s.reservedPos
    requires s'.error == s.error && s'.submitted == s.submitted && s'.producer == s.producer
    ensures ProducerSame(s, Broadcast(s'))
  {
    hide WakeWorkers;
  }

  lemma StepKeeps(k: Config, s: State, s': State, i: nat)
    requires WorkerStep(k, s, s', i) && !CompressFailed(s, s', i) && !TurnDrop(s, s', i) && !WriteDone(s, s', i)
    ensures ProducerSame(s, s')
  {
    hide Dispatchable, OtherFirst, Frame, CompressFailed, TurnDrop, WriteDone;
  }

  /**
   One pass of the loop in update_reservation returns or falls asleep; it returns to a caller that
   waits with space or an error.
   */
  lemma ReserveOutcome(k: Config, s: State, s': State, wait: bool, caller: Caller)
    requires ReserveLoop(k, s, s', wait, caller)
    ensures s'.writePos == s.writePos && s'.reservedPos == s.reservedPos && s'.submitted == s.submitted
    ensures s'.workers == s.workers
    ensures s'.producer == Resume(caller) || s'.producer == Asleep(wait, caller)
    ensures !s'.producer.Asleep? && wait ==> s'.error || s'.reservedPos < s'.uptoPos
  {
    hide IsCompleted;
  }

  /** The same for a step of the producer that goes through that loop. */
  lemma ReserveSteps(k: Config, s: State, s': State)
    requires EnterReserve(k, s, s') || RetryReserve(k, s, s')
    ensures Reserving(s.producer)
    ensures s'.producer == Resume(s.producer.caller) || s'.producer == Asleep(s.producer.wait, s.producer.caller)
    ensures s'.writePos == s.writePos && s'.submitted == s.submitted
    ensures s'.reservedPos == if s.producer.Reserve? then s.writePos else s.reservedPos
    ensures s'.workers == if s.producer.Reserve? then WakeWorkers(s.workers) else s.workers
    ensures !s'.producer.Asleep? && s.producer.wait ==> s'.error || s'.reservedPos < s'.uptoPos
  {
    hide ReserveLoop, WakeWorkers;
    if s.producer.Reserve? {
      ReserveOutcome(k, Publish(s), s', s.producer.wait, s.producer.caller);
    } else {
      ReserveOutcome(k, s, s', s.producer.wait, s.producer.caller);
    }
  }

  lemma OthersKeep(k: Config, s: State, s': State)
    requires Moves(k, s, s') && !ProducerStep(k, s, s')
    ensures ProducerSame(s, s')
  {
    hide ProducerStep, WorkerStep;
    if i: nat :| WorkerStep(k, s, s', i) { WorkerKeeps(k, s, s', i); }
  }

  lemma ProducerAsked(k: Config, s: State, s': State)
    requires Asked(s) && ProducerStep(k, s, s')
    ensures Asked(s')
  {
    hide EnterReserve, RetryReserve, WakeWorkers, Overwrite;
    if EnterReserve(k, s, s') || RetryReserve(k, s, s') { ReserveSteps(k, s, s'); }
  }

  lemma {:induction false} RunAsked(k: Config, run: seq<State>)
    requires IsRun(k, run)
    ensures Asked(run[|run| - 1])
    decreases |run|
  {
    hide ProducerStep, WorkerStep, SpuriousWake;
    var n := |run| - 1;
    if n > 0 {
      assert IsRun(k, run[..n]);
      RunAsked(k, run[..n]);
      assert Next(k, run[n - 1], run[n - 1 + 1]);
      if ProducerStep(k, run[n - 1], run[n]) {
        ProducerAsked(k, run[n - 1], run[n]);
      } else {
        OthersKeep(k, run[n - 1], run[n]);
      }
    }
  }

  lemma ReachableAsked(k: Config, s: State)
    requires Reachable(k, s)
    ensures Asked(s)
  {
    hide Init, Next;
    var run :| IsRun(k, run) && run[|run| - 1] == s;
    RunAsked(k, run);
  }

  // ---------------------------------------------------------------- what is published between calls

  /** Between calls less than half of the ring, or nothing, is kept from the compressor threads. */
  predicate Published(k: Config, s: State) {
    s.producer.Idle? && !s.error ==> s.writePos - s.reservedPos < Max(1, k.capacity / 2)
  }

  lemma ProducerPublished(k: Config, s: State, s': State)
    requires Asked(s) && ProducerStep(k, s, s')
    ensures Published(k, s')
  {
    hide EnterReserve, RetryReserve, WakeWorkers, Overwrite;
    if EnterReserve(k, s, s') || RetryReserve(k, s, s') { ReserveSteps(k, s, s'); }
  }

  lemma {:induction false} RunPublished(k: Config, run: seq<State>)
    requires IsRun(k, run)
    ensures Published(k, run[|run| - 1])
    decreases |run|
  {
    hide ProducerStep, WorkerStep, SpuriousWake, Asked;
    var n := |run| - 1;
    if n > 0 {
      assert IsRun(k, run[..n]);
      RunPublished(k, run[..n]);
      RunAsked(k, run[..n]);
      assert Next(k, run[n - 1], run[n - 1 + 1]);
      if ProducerStep(k, run[n - 1], run[n]) {
        ProducerPublished(k, run[n - 1], run[n]);
      } else {
        OthersKeep(k, run[n - 1], run[n]);
      }
    }
  }

  /**
   In every reachable state between two calls, less than half of the ring is written and not yet offered
   to the compressor threads, unless there is an error.
   */
  lemma HalfIsOffered(k: Config, s: State)
    requires k.Valid() && Reachable(k, s) && s.producer.Idle? && !s.error
    ensures 0 <= s.writePos - s.endPos < Max(1, k.capacity / 2)
  {
    hide Init, Next, Inv;
    var run :| IsRun(k, run) && run[|run| - 1] == s;
    RunPublished(k, run);
    ReachableInv(k, s);
    Ends(k, s);
  }

  lemma Ends(k: Config, s: State)
    requires k.Valid() && Inv(k, s)
    ensures s.endPos == s.reservedPos <= s.writePos
  {
    hide Log, Ring, Behind, Work, Covered, Output, Prefix, Exits, Client, Sleep;
  }

  // ---------------------------------------------------------------- the measure

  /** What remains to be written in a call of `write`. */
  function Todo(p: Producer): nat {
    match p
    case Copying(rest) => |rest| + 1
    case Reserve(_, InWrite(rest)) => |rest| + 1
    case Recheck(_, InWrite(rest)) => |rest| + 1
    case Asleep(_, InWrite(rest)) => |rest| + 1
    case _ => 0
  }

  function Stage(s: State): nat {
    match s.producer
    case Copying(rest) => if s.error || rest == [] || s.writePos < s.uptoPos then 3 else 6
    case Reserve(_, _) => 5
    case Recheck(_, _) => 4
    case Asleep(_, _) => 4
    case SetClosing => 2
    case Joining => 1
    case _ => 0
  }

  predicate CallLess(s': State, s: State) {
    Todo(s'.producer) < Todo(s.producer) || (Todo(s'.producer) == Todo(s.producer) && Stage(s') < Stage(s))
  }

  predicate CallSame(s': State, s: State) {
    Todo(s'.producer) == Todo(s.producer) && Stage(s') == Stage(s)
  }

  /** The producer can go on by itself as soon as it is let. */
  predicate Acting(p: Producer) { InCall(p) && !p.Asleep? && !p.Recheck? }

  lemma ActingLess(k: Config, s: State, s': State)
    requires Asked(s) && Acting(s.producer) && ProducerStep(k, s, s')
    ensures CallLess(s', s)
  {
    hide EnterReserve, RetryReserve, WakeWorkers, Overwrite;
    if EnterReserve(k, s, s') || RetryReserve(k, s, s') { ReserveSteps(k, s, s'); }
  }

  lemma ActingSame(s: State, s': State)
    requires Acting(s.producer) && ProducerSame(s, s')
    ensures s'.producer == s.producer && CallSame(s', s)
  {
  }

  /** A waiting producer wakes up or falls asleep, or it gets out of its wait with what it asked for. */
  lemma WaitLess(k: Config, s: State, s': State)
    requires Asked(s) && (s.producer.Asleep? || s.producer.Recheck?) && Moves(k, s, s')
    ensures CallLess(s', s) || (CallSame(s', s) && (s'.producer.Asleep? || s'.producer.Recheck?))
  {
    hide ProducerStep, WorkerStep, SpuriousWake;
    if ProducerStep(k, s, s') {
      OnlyRetry(k, s, s');
      RetryLess(k, s, s');
    } else {
      OthersKeep(k, s, s');
    }
  }

  lemma RetryLess(k: Config, s: State, s': State)
    requires Asked(s) && RetryReserve(k, s, s')
    ensures CallLess(s', s) || (CallSame(s', s) && s'.producer.Asleep?)
  {
    hide ReserveLoop;
    ReserveSteps(k, s, s');
  }

  lemma JoiningGoesOn(k: Config, s: State, s': State)
    requires s.producer.Joining? && Moves(k, s, s')
    ensures s'.producer.Joining? || s'.producer.Closed?
  {
    hide ProducerStep, WorkerStep, SpuriousWake;
    if ProducerStep(k, s, s') { OnlyJoin(k, s, s'); } else { OthersKeep(k, s, s'); }
  }

  lemma OnlyJoin(k: Config, s: State, s': State)
    requires s.producer.Joining? && ProducerStep(k, s, s')
    ensures s'.producer.Closed?
  {
    hide ReserveLoop, Overwrite;
  }

  // ---------------------------------------------------------------- until something happens

  lemma {:induction false} UntilProducer(k: Config, f: nat -> State, n: nat, m: nat) returns (t: nat)
    requires Reachable(k, f(0)) && IsExecution(k, f)
    requires Acting(f(n).producer) && n <= m && Produces(k, f, m)
    ensures n < t && CallLess(f(t), f(n))
    decreases m - n
  {
    hide Reachable, Asked, Acting, ProducerStep, CallLess, CallSame, Moves, ProducerSame;
    ExecutionReachable(k, f, n);
    ReachableAsked(k, f(n));
    assert MovesAt(k, f, n);
    if ProducerStep(k, f(n), f(n + 1)) {
      t := n + 1;
      ActingLess(k, f(n), f(t));
    } else {
      OthersKeep(k, f(n), f(n + 1));
      ActingSame(f(n), f(n + 1));
      t := UntilProducer(k, f, n + 1, m);
      LessSame(f(t), f(n + 1), f(n));
    }
  }

  lemma LessSame(s'': State, s': State, s: State)
    requires CallLess(s'', s') && CallSame(s', s)
    ensures CallLess(s'', s)
  {
  }

  lemma {:induction false} UntilAwake(k: Config, f: nat -> State, n: nat, m: nat) returns (t: nat)
    requires Reachable(k, f(0)) && IsExecution(k, f)
    requires (f(n).producer.Asleep? || f(n).producer.Recheck?) && n <= m && !Waiting(f(m))
    ensures n < t && CallLess(f(t), f(n))
    decreases m - n
  {
    hide Reachable, Asked, CallLess, CallSame, Moves;
    ExecutionReachable(k, f, n);
    ReachableAsked(k, f(n));
    assert MovesAt(k, f, n);
    WaitLess(k, f(n), f(n + 1));
    t := n + 1;
    if !CallLess(f(t), f(n)) {
      t := UntilAwake(k, f, n + 1, m);
      LessSame(f(t), f(n + 1), f(n));
    }
  }

  lemma {:induction false} UntilJoined(k: Config, f: nat -> State, n: nat, m: nat) returns (t: nat)
    requires IsExecution(k, f) && f(n).producer.Joining? && n <= m && !Waiting(f(m))
    ensures n <= t && (f(t).producer.Closed? || (f(t).producer.Joining? && !Waiting(f(t))))
    decreases m - n
  {
    hide Moves, Waiting;
    t := n;
    if Waiting(f(n)) {
      assert MovesAt(k, f, n);
      JoiningGoesOn(k, f(n), f(n + 1));
      t := n + 1;
      if f(t).producer.Joining? { t := UntilJoined(k, f, n + 1, m); }
    }
  }

  // ---------------------------------------------------------------- the calls return

  lemma {:induction false} CallEnds(k: Config, f: nat -> State, n: nat) returns (m: nat)
    requires k.Valid() && Reachable(k, f(0)) && IsExecution(k, f) && FairToAll(k, f)
    ensures n <= m && !InCall(f(m).producer)
    decreases Todo(f(n).producer), Stage(f(n))
  {
    hide Reachable, Inv, IsExecution, Waiting, Fair, Produces;
    m := n;
    var p := f(n).producer;
    if p.Asleep? || p.Recheck? || p.Joining? {
      ExecutionInv(k, f, n);
      var waited := FairWaitEndsFrom(k, f, n);
      if p.Joining? {
        var joined := UntilJoined(k, f, n, waited);
        m := joined;
        if f(joined).producer.Joining? {
          m := Continue(k, f, joined);
          m := CallEnds(k, f, m);
        }
      } else {
        m := UntilAwake(k, f, n, waited);
        m := CallEnds(k, f, m);
      }
    } else if InCall(p) {
      NotWaiting(f(n));
      m := Continue(k, f, n);
      m := CallEnds(k, f, m);
    }
  }

  lemma NotWaiting(s: State)
    requires !s.producer.Asleep? && !s.producer.Recheck? && !s.producer.Joining?
    ensures !Waiting(s)
  {
  }

  lemma Continue(k: Config, f: nat -> State, n: nat) returns (t: nat)
    requires Reachable(k, f(0)) && IsExecution(k, f) && FairToAll(k, f)
    requires Acting(f(n).producer) && !Waiting(f(n))
    ensures n < t && CallLess(f(t), f(n))
  {
    hide Reachable, IsExecution, Waiting, Fair, Produces, CallLess;
    assert ProducesLater(k, f, n);
    var later: nat :| n <= later && Produces(k, f, later);
    t := UntilProducer(k, f, n, later);
  }

  lemma WriteGoesOn(k: Config, s: State, s': State)
    requires InWriteCall(s.producer) && Moves(k, s, s')
    ensures (InWriteCall(s'.producer) || s'.producer.Idle?) && s'.submitted == s.submitted
  {
    hide ProducerStep, WorkerStep, SpuriousWake;
    if ProducerStep(k, s, s') { WriteStays(k, s, s'); } else { OthersKeep(k, s, s'); }
  }

  lemma WriteStays(k: Config, s: State, s': State)
    requires InWriteCall(s.producer) && ProducerStep(k, s, s')
    ensures (InWriteCall(s'.producer) || s'.producer.Idle?) && s'.submitted == s.submitted
  {
    hide EnterReserve, RetryReserve, WakeWorkers, Overwrite;
    if EnterReserve(k, s, s') || RetryReserve(k, s, s') { ReserveSteps(k, s, s'); }
  }

  lemma CloseGoesOn(k: Config, s: State, s': State)
    requires InCloseCall(s.producer) && Moves(k, s, s')
    ensures (InCloseCall(s'.producer) || s'.producer.Closed?) && s'.submitted == s.submitted
  {
    hide ProducerStep, WorkerStep, SpuriousWake;
    if ProducerStep(k, s, s') { CloseStays(k, s, s'); } else { OthersKeep(k, s, s'); }
  }

  lemma CloseStays(k: Config, s: State, s': State)
    requires InCloseCall(s.producer) && ProducerStep(k, s, s')
    ensures (InCloseCall(s'.producer) || s'.producer.Closed?) && s'.submitted == s.submitted
  {
    hide EnterReserve, RetryReserve, WakeWorkers, Overwrite;
    if EnterReserve(k, s, s') || RetryReserve(k, s, s') { ReserveSteps(k, s, s'); }
  }

  lemma {:induction false} UntilReturn(k: Config, f: nat -> State, n: nat, m: nat) returns (t: nat)
    requires IsExecution(k, f) && InCall(f(n).producer) && n <= m && !InCall(f(m).producer)
    ensures n < t && f(t).submitted == f(n).submitted
    ensures if InWriteCall(f(n).producer) then f(t).producer.Idle? else f(t).producer.Closed?
    ensures forall j: nat :: n <= j < t ==>
      if InWriteCall(f(n).producer) then InWriteCall(f(j).producer) else InCloseCall(f(j).producer)
    decreases m - n
  {
    hide Moves;
    assert MovesAt(k, f, n);
    if InWriteCall(f(n).producer) { WriteGoesOn(k, f(n), f(n + 1)); } else { CloseGoesOn(k, f(n), f(n + 1)); }
    t := n + 1;
    if InCall(f(t).producer) { t := UntilReturn(k, f, n + 1, m); }
  }

  lemma CopiedAll(k: Config, s: State)
    requires k.Valid() && Inv(k, s) && s.producer.Idle? && !s.error
    ensures s.stream == s.submitted
  {
    hide Log, Ring, Behind, Work, Covered, Output, Prefix, Exits, Sleep;
  }

  /** A call of `write` returns; if there is no error, everything passed to it has been put into the ring. */
  lemma WriteReturns(k: Config, f: nat -> State, n: nat) returns (m: nat)
    requires k.Valid() && Reachable(k, f(0)) && IsExecution(k, f) && FairToAll(k, f)
    requires InWriteCall(f(n).producer)
    ensures n < m && f(m).producer.Idle? && forall j: nat :: n <= j < m ==> InWriteCall(f(j).producer)
    ensures f(m).submitted == f(n).submitted && (!f(m).error ==> f(m).stream == f(m).submitted)
  {
    hide Reachable, Inv, IsExecution, FairToAll;
    var later := CallEnds(k, f, n);
    m := UntilReturn(k, f, n, later);
    ExecutionInv(k, f, m);
    if !f(m).error { CopiedAll(k, f(m)); }
  }

  lemma ClosedStays(k: Config, s: State, s': State)
    requires k.Valid() && Inv(k, s) && s.producer.Closed? && Moves(k, s, s')
    ensures s' == s
  {
    hide Log, Ring, Behind, Work, Covered, Output, Prefix, Exits, Sleep, WorkerStep, ProducerStep;
    if ProducerStep(k, s, s') { ClosedProducer(k, s, s'); }
    if i: nat :| WorkerStep(k, s, s', i) { ExitedStays(k, s, s', i); }
  }

  lemma ClosedProducer(k: Config, s: State, s': State)
    requires s.producer.Closed?
    ensures !ProducerStep(k, s, s')
  {
    hide ReserveLoop, Overwrite;
  }

  lemma ExitedStays(k: Config, s: State, s': State, i: nat)
    requires AllExited(s)
    ensures !WorkerStep(k, s, s', i)
  {
    hide Dispatchable, OtherFirst, Frame, WakeWorkers;
  }

  lemma {:induction false} ClosedForGood(k: Config, f: nat -> State, m: nat, j: nat)
    requires k.Valid() && Reachable(k, f(0)) && IsExecution(k, f) && f(m).producer.Closed? && m <= j
    ensures f(j) == f(m)
    decreases j - m
  {
    hide Reachable, Inv, Moves;
    if m < j {
      ClosedForGood(k, f, m, j - 1);
      ExecutionInv(k, f, j - 1);
      assert MovesAt(k, f, j - 1);
      ClosedStays(k, f(j - 1), f(j));
    }
  }

  /**
   A call of `close` returns, and then nothing changes any more; if there is no error, the file holds
   everything ever passed to `write`.
   */
  lemma CloseReturns(k: Config, f: nat -> State, n: nat) returns (m: nat)
    requires k.Valid() && Reachable(k, f(0)) && IsExecution(k, f) && FairToAll(k, f)
    requires InCloseCall(f(n).producer)
    ensures n < m && f(m).producer.Closed? && forall j: nat :: n <= j < m ==> InCloseCall(f(j).producer)
    ensures f(m).submitted == f(n).submitted && forall j: nat :: m <= j ==> f(j) == f(m)
    ensures !f(m).error ==> f(m).file == FileOf(k.codec, Chop(f(n).submitted, k.blockSize))
  {
    hide Reachable, IsExecution, FairToAll, FileOf, Chop;
    var later := CallEnds(k, f, n);
    m := UntilReturn(k, f, n, later);
    ExecutionReachable(k, f, m);
    forall j: nat | m <= j ensures f(j) == f(m) { ClosedForGood(k, f, m, j); }
    if !f(m).error { ClosedFile(k, f(m)); }
  }

  // ---------------------------------------------------------------- there are such executions

  lemma OtherWorker(k: Config, s: State, s': State, j: nat, i: nat)
    requires WorkerStep(k, s, s', j) && i < |s.workers| && Runnable(s.workers[i]) && i != j
    ensures |s'.workers| == |s.workers| && s'.workers[i] == s.workers[i]
  {
    hide Dispatchable, OtherFirst, Frame, WakeWorkers;
    var w := OneWorker(k, s, s', j);
    if s'.workers != s.workers[j := w] { assert s'.workers[i] == WakeWorker(s.workers[j := w][i]); }
  }

  /** A step of a thread changes that thread, and may wake the others. */
  lemma OneWorker(k: Config, s: State, s': State, j: nat) returns (w: Worker)
    requires WorkerStep(k, s, s', j)
    ensures j < |s.workers| && (s'.workers == s.workers[j := w] || s'.workers == WakeWorkers(s.workers[j := w]))
  {
    hide Dispatchable, OtherFirst, Frame, WakeWorkers, WakeProducer, MayExit;
    w := if CompressFailed(s, s', j) || TurnDrop(s, s', j) || WriteDone(s, s', j) then Head else s'.workers[j];
  }

  lemma ProducerLeaves(k: Config, s: State, s': State, i: nat)
    requires ProducerStep(k, s, s') && i < |s.workers| && Runnable(s.workers[i])
    ensures |s'.workers| == |s.workers| && s'.workers[i] == s.workers[i]
  {
    hide EnterReserve, RetryReserve, Overwrite;
    if EnterReserve(k, s, s') || RetryReserve(k, s, s') { ReserveSteps(k, s, s'); }
  }

  /** Nobody else changes a thread that is ready to run. */
  lemma WorkerStays(k: Config, s: State, s': State, i: nat)
    requires Moves(k, s, s') && i < |s.workers| && Runnable(s.workers[i])
    requires s' == s || !WorkerStep(k, s, s', i)
    ensures |s'.workers| == |s.workers| && s'.workers[i] == s.workers[i]
  {
    hide ProducerStep, WorkerStep;
    if s' != s {
      if ProducerStep(k, s, s') { ProducerLeaves(k, s, s', i); }
      else if j: nat :| WorkerStep(k, s, s', j) { OtherWorker(k, s, s', j, i); }
    }
  }

  /** A thread that is gone at last has taken its steps. */
  lemma {:induction false} StepsBeforeEnd(k: Config, f: nat -> State, n: nat, m: nat, i: nat)
    requires IsExecution(k, f) && n <= m && i < |f(n).workers| && Runnable(f(n).workers[i])
    requires i < |f(m).workers| && f(m).workers[i].Exited?
    ensures StepsLater(k, f, n, i)
    decreases m - n
  {
    hide Moves, WorkerStep;
    if !Steps(k, f, n, i) {
      assert MovesAt(k, f, n);
      WorkerStays(k, f(n), f(n + 1), i);
      StepsBeforeEnd(k, f, n + 1, m, i);
      var t: nat :| n + 1 <= t && Steps(k, f, t, i);
    }
  }

  lemma {:induction false} ProducesBeforeEnd(k: Config, f: nat -> State, n: nat, m: nat)
    requires IsExecution(k, f) && n <= m && InCall(f(n).producer) && !InCall(f(m).producer)
    ensures ProducesLater(k, f, n)
    decreases m - n
  {
    hide Moves, ProducerStep;
    if !Produces(k, f, n) {
      assert MovesAt(k, f, n);
      OthersKeep(k, f(n), f(n + 1));
      ProducesBeforeEnd(k, f, n + 1, m);
      var t: nat :| n + 1 <= t && Produces(k, f, t);
    }
  }

  lemma {:induction false} RetriesBeforeEnd(k: Config, f: nat -> State, n: nat, m: nat)
    requires IsExecution(k, f) && n <= m && f(n).producer.Recheck? && !f(m).producer.Recheck?
    ensures RetriesLater(k, f, n)
    decreases m - n
  {
    hide Moves, ProducerStep, RetryReserve, Waiting;
    assert MovesAt(k, f, n);
    if ProducerStep(k, f(n), f(n + 1)) {
      assert Waiting(f(n)) by { RecheckWaits(f(n)); }
      OnlyRetry(k, f(n), f(n + 1));
      assert Retries(k, f, n);
    } else {
      OthersKeep(k, f(n), f(n + 1));
      RetriesBeforeEnd(k, f, n + 1, m);
      var t: nat :| n + 1 <= t && Retries(k, f, t);
    }
  }

  lemma RecheckWaits(s: State)
    requires s.producer.Recheck?
    ensures Waiting(s)
  {
  }

  /** An execution that ends with a closed writer is fair to everybody. */
  lemma EndedIsFair(k: Config, f: nat -> State, m: nat)
    requires k.Valid() && Reachable(k, f(0)) && IsExecution(k, f) && f(m).producer.Closed?
    ensures FairToAll(k, f)
  {
    hide Reachable, Inv, IsExecution, Waiting, StepsLater, RetriesLater, ProducesLater, Runnable;
    forall n: nat, i: nat | i < |f(n).workers| && Runnable(f(n).workers[i]) ensures StepsLater(k, f, n, i) {
      EndedSteps(k, f, m, n, i);
    }
    forall n: nat | f(n).producer.Recheck? ensures RetriesLater(k, f, n) {
      ClosedAt(k, f, m, n);
      RetriesBeforeEnd(k, f, n, if n <= m then m else n);
    }
    forall n: nat | InCall(f(n).producer) && !Waiting(f(n)) ensures ProducesLater(k, f, n) {
      ClosedAt(k, f, m, n);
      ProducesBeforeEnd(k, f, n, if n <= m then m else n);
    }
  }

  lemma ClosedAt(k: Config, f: nat -> State, m: nat, n: nat)
    requires k.Valid() && Reachable(k, f(0)) && IsExecution(k, f) && f(m).producer.Closed?
    ensures m <= n ==> f(n) == f(m)
  {
    hide Reachable, IsExecution;
    if m <= n { ClosedForGood(k, f, m, n); }
  }

  lemma EndedSteps(k: Config, f: nat -> State, m: nat, n: nat, i: nat)
    requires k.Valid() && Reachable(k, f(0)) && IsExecution(k, f) && f(m).producer.Closed?
    requires i < |f(n).workers| && Runnable(f(n).workers[i])
    ensures StepsLater(k, f, n, i)
  {
    hide Reachable, Inv, IsExecution, StepsLater;
    ExecutionInv(k, f, m);
    ExecutionInv(k, f, n);
    AllGone(k, f(m));
    SameThreads(k, f(m), f(n));
    ClosedAt(k, f, m, n);
    StepsBeforeEnd(k, f, n, if n <= m then m else n, i);
  }

  lemma AllGone(k: Config, s: State)
    requires k.Valid() && Inv(k, s) && s.producer.Closed?
    ensures AllExited(s)
  {
    hide Log, Ring, Behind, Work, Covered, Output, Prefix, Exits, Sleep;
  }

  lemma SameThreads(k: Config, s: State, s': State)
    requires k.Valid() && Inv(k, s) && Inv(k, s')
    ensures |s.workers| == |s'.workers|
  {
    hide Log, Ring, Behind, Work, Covered, Output, Prefix, Exits, Sleep, Client;
  }

  /** From every reachable state there is an execution that is fair to everybody. */
  lemma FairExists(k: Config, s: State) returns (f: nat -> State)
    requires k.Valid() && Reachable(k, s)
    ensures f(0) == s && IsExecution(k, f) && FairToAll(k, f)
  {
    hide Reachable, Next, FairToAll;
    var s' := CanFinish(k, s);
    var path :| IsPath(k, path, s, s');
    f := (n: nat) => if n < |path| then path[n] else s';
    forall n: nat ensures MovesAt(k, f, n) {
      if n < |path| - 1 { assert Next(k, path[n], path[n + 1]); }
    }
    EndedIsFair(k, f, |path|);
  }
}

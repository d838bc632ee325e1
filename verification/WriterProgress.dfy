/**
 A waiting producer gets on: in every schedule of the threads, unless spurious wake-ups go on for
 ever, `write` finds space again and `close` finds every compressor thread gone.
 */
module WriterProgress {
  import opened Common
  import opened TraceFormat
  import opened RingArithmetic
  import opened CompressedWriter
  import opened WriterInvariant
  import opened WriterProducer
  import opened WriterTheorems

  ghost predicate AllExited(s: State) {
    forall i :: 0 <= i < |s.workers| ==> s.workers[i].Exited?
  }

  /** Inside the wait loop of update_reservation, or in pthread_join with threads still alive. */
  ghost predicate Waiting(s: State) {
    s.producer.Asleep? || s.producer.Recheck? || (s.producer.Joining? && !AllExited(s))
  }

  /** A step that changes something and is not a spurious wake-up. */
  ghost predicate RealStep(k: Config, s: State, s': State) {
    s' != s && (RetryReserve(k, s, s') || exists i :: WorkerStep(k, s, s', i))
  }

  /** A step of a thread that brings no new error; the producer is at most woken. */
  predicate Quiet(s: State, s': State) {
    && s'.submitted == s.submitted && s'.writePos == s.writePos && s'.reservedPos == s.reservedPos
        && s'.uptoPos == s.uptoPos
    && s'.writeError == s.writeError && s'.error == s.error
    && (s'.producer == s.producer || s'.producer == WakeProducer(s.producer))
  }

  // ---------------------------------------------------------------- something can always happen

  lemma HeadSteps(k: Config, s: State, i: nat) returns (s': State)
    requires k.Valid() && s.endPos <= |s.stream| && i < |s.workers| && s.workers[i].Head?
    ensures WorkerStep(k, s, s', i) && s' != s && Quiet(s, s')
  {
    if Dispatchable(k, s) {
      var next := Min(s.endPos, s.nextPos + k.blockSize);
      s' := s.(workers := s.workers[i := Compressing(s.nextPos, |s.blocks|, next - s.nextPos, [])],
               nextPos := next,
               blocks := s.blocks + [Block(s.nextPos, s.stream[s.nextPos..next])]);
      assert Dispatch(k, s, s', i);
    } else if MayExit(s) {
      s' := s.(workers := s.workers[i := Exited]);
      assert HeadExit(k, s, s', i) && s'.workers[i].Exited?;
    } else {
      s' := s.(workers := s.workers[i := HeadAsleep]);
      assert HeadWait(k, s, s', i) && s'.workers[i].HeadAsleep?;
    }
  }

  lemma CompressSteps(k: Config, s: State, i: nat) returns (s': State)
    requires k.Valid() && |s.buffer| == k.capacity && i < |s.workers| && s.workers[i].Compressing?
    requires |s.workers[i].got| <= s.workers[i].len
    ensures WorkerStep(k, s, s', i) && s' != s && Quiet(s, s')
  {
    var w := s.workers[i];
    if |w.got| < w.len {
      var offset := Place(w.pos + |w.got|, k.capacity);
      s' := s.(workers := s.workers[i := w.(got := w.got + s.buffer[offset..offset + 1])]);
      assert CompressSome(k, s, s', i, 1) && |s'.workers[i].got| == |w.got| + 1;
    } else {
      s' := s.(workers := s.workers[i := Turn(w.pos, w.ticket, Frame(k.codec, w.got))]);
      assert Compressed(k, s, s', i) && s'.workers[i].Turn?;
    }
  }

  lemma TurnSteps(k: Config, s: State, i: nat) returns (s': State)
    requires i < |s.workers| && s.workers[i].Turn?
    ensures WorkerStep(k, s, s', i) && s' != s && Quiet(s, s')
  {
    var w := s.workers[i];
    if s.writeError {
      s' := Broadcast(s.(workers := s.workers[i := Head]));
      assert TurnDrop(s, s', i) && s'.workers[i].Head?;
    } else if OtherFirst(s.workers, w.pos) {
      s' := s.(workers := s.workers[i := TurnAsleep(w.pos, w.ticket, w.frame)]);
      assert TurnWait(s, s', i) && s'.workers[i].TurnAsleep?;
    } else {
      s' := s.(workers := s.workers[i := Writing(w.pos, w.ticket, w.frame, 0)]);
      assert TurnGo(s, s', i) && s'.workers[i].Writing?;
    }
  }

  lemma WriteSteps(k: Config, s: State, i: nat) returns (s': State)
    requires i < |s.workers| && s.workers[i].Writing? && s.workers[i].sent <= |s.workers[i].frame|
    ensures WorkerStep(k, s, s', i) && s' != s && Quiet(s, s')
  {
    var w := s.workers[i];
    if w.sent < |w.frame| {
      s' := s.(workers := s.workers[i := w.(sent := w.sent + 1)],
               file := s.file + w.frame[w.sent..w.sent + 1]);
      assert WriteSome(s, s', i, 1) && s'.workers[i].sent == w.sent + 1;
    } else {
      s' := Broadcast(s.(workers := s.workers[i := Head], done := s.done + 1));
      assert WriteDone(s, s', i) && s'.workers[i].Head?;
    }
  }

  lemma RunnableSteps(k: Config, s: State, i: nat) returns (s': State)
    requires k.Valid() && Inv(k, s) && i < |s.workers| && Runnable(s.workers[i])
    ensures WorkerStep(k, s, s', i) && s' != s && Quiet(s, s')
  {
    assert Holds(k, s.blocks, s.done, s.workers[i]);
    match s.workers[i]
    case Head => s' := HeadSteps(k, s, i);
    case Compressing(_, _, _, _) => s' := CompressSteps(k, s, i);
    case Turn(_, _, _) => s' := TurnSteps(k, s, i);
    case Writing(_, _, _, _) => s' := WriteSteps(k, s, i);
  }

  lemma RetrySteps(k: Config, s: State) returns (s': State)
    requires k.Valid() && Inv(k, s) && s.producer.Recheck?
    ensures RetryReserve(k, s, s') && s'.producer != s.producer && s'.submitted == s.submitted
    ensures s'.writeError == s.writeError && s'.error == (s.error || s.writeError)
    ensures s'.writePos == s.writePos && s'.reservedPos == s.reservedPos
    ensures s'.producer == Resume(s.producer.caller) || s'.producer == Asleep(s.producer.wait, s.producer.caller)
    ensures s'.producer.Asleep? ==> s.producer.wait
    ensures !s'.producer.Asleep? && !s'.error && s.producer.wait ==> s'.reservedPos < s'.uptoPos
  {
    hide Ring, Behind, Covered, Output, Client, Prefix, Sleep;
    var caller := s.producer.caller;
    if s.error {
      s' := s.(producer := Resume(caller));
    } else if s.writeError {
      s' := s.(error := true, producer := Resume(caller));
    } else {
      forall j | 0 <= j < |s.workers| && s.workers[j].Active() ensures s.workers[j].pos <= s.nextPos {
        assert Holds(k, s.blocks, s.done, s.workers[j]);
        assert Piece(k, s.stream, s.nextPos, s.blocks[s.workers[j].ticket]);
      }
      var c := CompletedExists(s.workers, s.nextPos);
      s' := Reserved(k, s, c, s.producer.wait, caller);
    }
  }

  /** No deadlock: in every reachable state in which the producer waits, somebody can take a step. */
  lemma WaitingCanStep(k: Config, s: State) returns (s': State)
    requires k.Valid() && Reachable(k, s) && Waiting(s)
    ensures RealStep(k, s, s')
  {
    hide Reachable, Inv, RealStep;
    ReachableInv(k, s);
    s' := SomebodySteps(k, s);
  }

  lemma SomebodySteps(k: Config, s: State) returns (s': State)
    requires k.Valid() && Inv(k, s) && Waiting(s)
    ensures RealStep(k, s, s')
  {
    if s.producer.Recheck? {
      s' := RetrySteps(k, s);
    } else {
      var i := SomebodyAwake(k, s);
      s' := RunnableSteps(k, s, i);
    }
  }

  // ---------------------------------------------------------------- and only finitely often

  /** Steps left for a thread: bytes to read, bytes to write, and the changes of phase in between. */
  function Effort(k: Config, blocks: seq<Block>, w: Worker): nat {
    match w
    case Head => 1
    case HeadAsleep => 1
    case Compressing(_, t, len, got) =>
      (if |got| <= len then len - |got| else 0) + (if t < |blocks| then |Frame(k.codec, blocks[t].data)| else 0) + 4
    case Turn(_, _, frame) => |frame| + 3
    case TurnAsleep(_, _, frame) => |frame| + 3
    case Writing(_, _, frame, sent) => (if sent <= |frame| then |frame| - sent else 0) + 2
    case Exited => 0
  }

  function TotalEffort(k: Config, blocks: seq<Block>, ws: seq<Worker>): nat {
    if ws == [] then 0 else
      TotalEffort(k, blocks, ws[..|ws| - 1]) + Effort(k, blocks, ws[|ws| - 1])
  }

  function Awake(ws: seq<Worker>): nat {
    if ws == [] then 0 else Awake(ws[..|ws| - 1]) + (if ws[|ws| - 1].Asleep() then 0 else 1)
  }

  function ProducerAwake(p: Producer): nat { if p.Recheck? then 1 else 0 }

  lemma {:induction false} EffortUpdate(k: Config, blocks: seq<Block>, ws: seq<Worker>, i: nat, w: Worker)
    requires i < |ws|
    ensures TotalEffort(k, blocks, ws[i := w]) + Effort(k, blocks, ws[i]) ==
        TotalEffort(k, blocks, ws) + Effort(k, blocks, w)
  {
    var n := |ws| - 1;
    if i == n {
      assert ws[i := w][..n] == ws[..n];
    } else {
      EffortUpdate(k, blocks, ws[..n], i, w);
      assert ws[i := w][..n] == ws[..n][i := w];
    }
  }

  lemma {:induction false} EffortWake(k: Config, blocks: seq<Block>, ws: seq<Worker>)
    ensures TotalEffort(k, blocks, WakeWorkers(ws)) == TotalEffort(k, blocks, ws)
  {
    if ws != [] {
      var n := |ws| - 1;
      EffortWake(k, blocks, ws[..n]);
      assert WakeWorkers(ws)[..n] == WakeWorkers(ws[..n]);
    }
  }

  lemma {:induction false} AwakeUpdate(ws: seq<Worker>, i: nat, w: Worker)
    requires i < |ws| && !ws[i].Asleep() && w.Asleep()
    ensures Awake(ws[i := w]) == Awake(ws) - 1
  {
    var n := |ws| - 1;
    if i == n {
      assert ws[i := w][..n] == ws[..n];
    } else {
      AwakeUpdate(ws[..n], i, w);
      assert ws[i := w][..n] == ws[..n][i := w];
    }
  }

  /** What remains to be dispatched, then the effort in the threads' hands, then who is awake. */
  ghost predicate Smaller(k: Config, s': State, s: State)
    requires s.nextPos <= s.endPos && s'.nextPos <= s'.endPos
  {
    var left, left' := s.endPos - s.nextPos, s'.endPos - s'.nextPos;
    var effort, effort' := TotalEffort(k, s.blocks, s.workers), TotalEffort(k, s'.blocks, s'.workers);
    var awake, awake' := Awake(s.workers) + ProducerAwake(s.producer), Awake(s'.workers) + ProducerAwake(s'.producer);
    left' < left || (left' == left && (effort' < effort || (effort' == effort && awake' < awake)))
  }

  function Left(s: State): nat { if s.nextPos <= s.endPos then s.endPos - s.nextPos else 0 }

  /** Nearer to the end, whoever is awake. */
  ghost predicate RankLess(k: Config, s': State, s: State) {
    var e, e' := TotalEffort(k, s.blocks, s.workers), TotalEffort(k, s'.blocks, s'.workers);
    Left(s') < Left(s) || (Left(s') == Left(s) && e' < e)
  }

  /** A thread that gets nearer to its goal. */
  lemma LessEffort(k: Config, s: State, i: nat, w: Worker)
    requires i < |s.workers| && Effort(k, s.blocks, w) < Effort(k, s.blocks, s.workers[i])
    ensures TotalEffort(k, s.blocks, s.workers[i := w]) < TotalEffort(k, s.blocks, s.workers)
    ensures TotalEffort(k, s.blocks, WakeWorkers(s.workers[i := w])) < TotalEffort(k, s.blocks, s.workers)
  {
    EffortUpdate(k, s.blocks, s.workers, i, w);
    EffortWake(k, s.blocks, s.workers[i := w]);
  }

  /** A thread that goes to sleep. */
  lemma LessAwake(k: Config, s: State, i: nat, w: Worker)
    requires i < |s.workers| && Effort(k, s.blocks, w) == Effort(k, s.blocks, s.workers[i])
    requires !s.workers[i].Asleep() && w.Asleep()
    ensures TotalEffort(k, s.blocks, s.workers[i := w]) == TotalEffort(k, s.blocks, s.workers)
    ensures Awake(s.workers[i := w]) < Awake(s.workers)
  {
    EffortUpdate(k, s.blocks, s.workers, i, w);
    AwakeUpdate(s.workers, i, w);
  }

  lemma HeadSmaller(k: Config, s: State, s': State, i: nat)
    requires k.Valid() && s.nextPos <= s.endPos
    requires Dispatch(k, s, s', i) || HeadExit(k, s, s', i) || HeadWait(k, s, s', i)
    ensures s'.nextPos <= s'.endPos && Smaller(k, s', s)
    ensures RankLess(k, s', s) || HeadWait(k, s, s', i)
  {
    if HeadExit(k, s, s', i) { LessEffort(k, s, i, Exited); }
    if HeadWait(k, s, s', i) { LessAwake(k, s, i, HeadAsleep); }
  }

  lemma ReadSmaller(k: Config, s: State, s': State, i: nat, n: nat)
    requires s.nextPos <= s.endPos && CompressSome(k, s, s', i, n) && s' != s
    ensures s'.nextPos <= s'.endPos && Smaller(k, s', s)
    ensures RankLess(k, s', s)
  {
    var w := s.workers[i];
    var offset := Place(w.pos + |w.got|, k.capacity);
    var w' := w.(got := w.got + s.buffer[offset..offset + n]);
    assert s' == s.(workers := s.workers[i := w']);
    assert n == 0 ==> w' == w;
    assert s.workers[i := w] == s.workers;
    LessEffort(k, s, i, w');
  }

  lemma CompressSmaller(k: Config, s: State, s': State, i: nat)
    requires s.nextPos <= s.endPos && i < |s.workers| && Holds(k, s.blocks, s.done, s.workers[i])
    requires Compressed(k, s, s', i) || CompressFailed(s, s', i)
    ensures s'.nextPos <= s'.endPos && Smaller(k, s', s)
    ensures RankLess(k, s', s)
  {
    var w := s.workers[i];
    if Compressed(k, s, s', i) {
      assert w.got == s.blocks[w.ticket].data;
      LessEffort(k, s, i, Turn(w.pos, w.ticket, Frame(k.codec, w.got)));
    } else {
      LessEffort(k, s, i, Head);
    }
  }

  lemma TurnSmaller(k: Config, s: State, s': State, i: nat)
    requires s.nextPos <= s.endPos
    requires TurnDrop(s, s', i) || TurnWait(s, s', i) || TurnGo(s, s', i)
    ensures s'.nextPos <= s'.endPos && Smaller(k, s', s)
    ensures RankLess(k, s', s) || TurnWait(s, s', i)
  {
    var w := s.workers[i];
    if TurnDrop(s, s', i) { LessEffort(k, s, i, Head); }
    if TurnWait(s, s', i) { LessAwake(k, s, i, TurnAsleep(w.pos, w.ticket, w.frame)); }
    if TurnGo(s, s', i) { LessEffort(k, s, i, Writing(w.pos, w.ticket, w.frame, 0)); }
  }

  lemma WriteSmaller(k: Config, s: State, s': State, i: nat)
    requires s.nextPos <= s.endPos
    requires (exists n :: WriteSome(s, s', i, n)) || WriteDone(s, s', i)
    ensures s'.nextPos <= s'.endPos && Smaller(k, s', s)
    ensures RankLess(k, s', s)
  {
    var w := s.workers[i];
    if n :| WriteSome(s, s', i, n) {
      LessEffort(k, s, i, w.(sent := w.sent + n));
    } else {
      LessEffort(k, s, i, Head);
    }
  }

  lemma RetrySmaller(k: Config, s: State, s': State)
    requires s.nextPos <= s.endPos && RetryReserve(k, s, s') && Waiting(s')
    ensures s'.nextPos <= s'.endPos && Smaller(k, s', s)
  {
  }

  /** Every step of a waiting system gets it nearer to the end of the wait. */
  lemma RealStepSmaller(k: Config, s: State, s': State)
    requires k.Valid() && Inv(k, s) && RealStep(k, s, s') && Waiting(s')
    ensures Inv(k, s') && Smaller(k, s', s)
  {
    if RetryReserve(k, s, s') {
      RetryReserveInv(k, s, s');
      RetrySmaller(k, s, s');
    } else {
      var i :| WorkerStep(k, s, s', i);
      WorkerStepInv(k, s, s', i);
      WorkerSmaller(k, s, s', i);
    }
  }

  lemma WorkerSmaller(k: Config, s: State, s': State, i: nat)
    requires k.Valid() && Positions(k, s) && Work(k, s.workers, s.blocks, s.done) && WorkerStep(k, s, s', i) && s' != s
    ensures s'.nextPos <= s'.endPos && Smaller(k, s', s)
    ensures RankLess(k, s', s) || HeadWait(k, s, s', i) || TurnWait(s, s', i)
  {
    if Dispatch(k, s, s', i) || HeadExit(k, s, s', i) || HeadWait(k, s, s', i) { HeadSmaller(k, s, s', i); }
    else if TurnDrop(s, s', i) || TurnWait(s, s', i) || TurnGo(s, s', i) { TurnSmaller(k, s, s', i); }
    else if (exists n :: WriteSome(s, s', i, n)) || WriteDone(s, s', i) { WriteSmaller(k, s, s', i); }
    else if n: nat :| CompressSome(k, s, s', i, n) { ReadSmaller(k, s, s', i, n); }
    else { CompressSmaller(k, s, s', i); }
  }

  // ---------------------------------------------------------------- every schedule

  /** A waiting producer can do nothing but retry. */
  lemma OnlyRetry(k: Config, s: State, s': State)
    requires Waiting(s) && ProducerStep(k, s, s')
    ensures RetryReserve(k, s, s')
  {
    hide ReserveLoop;
  }

  /** A schedule: any steps of the system that change something, as long as a real step is possible. */
  ghost predicate IsSchedule(k: Config, f: nat -> State) {
    forall n: nat :: Scheduled(k, f, n)
  }

  ghost predicate Scheduled(k: Config, f: nat -> State, n: nat) {
    || (f(n + 1) != f(n) && Next(k, f(n), f(n + 1)))
    || (f(n + 1) == f(n) && forall s' :: !RealStep(k, f(n), s'))
  }

  ghost predicate Wakes(f: nat -> State, n: nat) {
    f(n + 1) != f(n) && SpuriousWake(f(n), f(n + 1))
  }

  ghost predicate WakesLater(f: nat -> State, n: nat) {
    exists m: nat :: n <= m && Wakes(f, m)
  }

  lemma {:induction false} ScheduleInv(k: Config, f: nat -> State, n: nat)
    requires k.Valid() && Inv(k, f(0)) && IsSchedule(k, f)
    ensures Inv(k, f(n))
  {
    hide Inv, Next, RealStep;
    if n > 0 {
      ScheduleInv(k, f, n - 1);
      assert Scheduled(k, f, n - 1);
      if f(n) != f(n - 1) { NextInv(k, f(n - 1), f(n)); }
    }
  }

  /** From every reachable state, in every schedule, a wait of the producer ends unless spurious wake-ups do not. */
  lemma WaitEnds(k: Config, f: nat -> State, n: nat)
    requires k.Valid() && Reachable(k, f(0)) && IsSchedule(k, f)
    ensures (exists m: nat :: n <= m && !Waiting(f(m))) || (forall m: nat :: n <= m ==> WakesLater(f, m))
  {
    hide Inv, Reachable, IsSchedule, Waiting, Wakes;
    ReachableInv(k, f(0));
    if start: nat :| n <= start && !WakesLater(f, start) {
      ScheduleInv(k, f, start);
      var m := WaitEndsFrom(k, f, start);
    }
  }

  lemma {:induction false} WaitEndsFrom(k: Config, f: nat -> State, n: nat) returns (m: nat)
    requires k.Valid() && IsSchedule(k, f) && Inv(k, f(n)) && !WakesLater(f, n)
    ensures n <= m && !Waiting(f(m))
    decreases f(n).endPos - f(n).nextPos, TotalEffort(k, f(n).blocks, f(n).workers),
        Awake(f(n).workers) + ProducerAwake(f(n).producer)
  {
    hide Core, Sleep, Waiting, TotalEffort, Awake, RealStep, Next, SpuriousWake;
    if !Waiting(f(n)) {
      m := n;
    } else if !Waiting(f(n + 1)) {
      m := n + 1;
    } else {
      var s' := SomebodySteps(k, f(n));
      assert Scheduled(k, f, n) && !Wakes(f, n);
      MoveIsReal(k, f(n), f(n + 1));
      RealStepSmaller(k, f(n), f(n + 1));
      Ordered(k, f(n));
      m := WaitEndsFrom(k, f, n + 1);
    }
  }

  lemma Ordered(k: Config, s: State)
    requires k.Valid() && Inv(k, s)
    ensures s.nextPos <= s.endPos
  {
  }

  lemma MoveIsReal(k: Config, s: State, s': State)
    requires Waiting(s) && s' != s && Next(k, s, s') && !SpuriousWake(s, s')
    ensures RealStep(k, s, s')
  {
    hide Waiting, ProducerStep, WorkerStep, RetryReserve;
    if ProducerStep(k, s, s') { OnlyRetry(k, s, s'); }
  }

  /**
   From every reachable state in which the producer sleeps, spurious wake-ups can go on for ever, and
   with them the wait.
   */
  lemma WakingCanGoOn(k: Config, s: State) returns (f: nat -> State)
    requires k.Valid() && Reachable(k, s) && s.producer.Asleep?
    ensures f(0) == s && IsSchedule(k, f) && forall n: nat :: Waiting(f(n)) && WakesLater(f, n)
  {
    hide Reachable, Inv;
    ReachableInv(k, s);
    var woken := s.(producer := WakeProducer(s.producer));
    BackToSleep(k, s);
    f := n => if n % 2 == 0 then s else woken;
    forall n: nat ensures Scheduled(k, f, n) { Alternates(k, s, f, n); }
    forall n: nat ensures WakesLater(f, n) {
      var m := if n % 2 == 0 then n else n + 1;
      assert Wakes(f, m);
    }
  }

  lemma Alternates(k: Config, s: State, f: nat -> State, n: nat)
    requires s.producer.Asleep?
    requires var woken := s.(producer := WakeProducer(s.producer));
      RetryReserve(k, woken, s) && forall n: nat :: f(n) == if n % 2 == 0 then s else woken
    ensures Scheduled(k, f, n)
  {
    hide RetryReserve;
    if n % 2 == 0 {
      assert SpuriousWake(f(n), f(n + 1));
    } else {
      assert ProducerStep(k, f(n), f(n + 1));
    }
  }

  /** A producer that sleeps with reason goes back to sleep, with nothing changed. */
  lemma BackToSleep(k: Config, s: State)
    requires k.Valid() && Inv(k, s) && s.producer.Asleep?
    ensures RetryReserve(k, s.(producer := WakeProducer(s.producer)), s)
  {
    hide Log, Ring, Work, Covered, Output, Prefix, Exits, HeadSleep, TurnSleep;
    var woken := s.(producer := WakeProducer(s.producer));
    var c: nat :| IsCompleted(s.workers, s.nextPos, c) && c + k.capacity <= s.endPos;
    assert s.uptoPos == c + k.capacity;
    assert s == Reserved(k, woken, c, s.producer.wait, s.producer.caller);
  }
}

/**
 Every wait of the producer ends, in every execution of the whole system in which nobody who can run
 is kept from running for ever. Spurious wake-ups may happen at any time and without end.
 */
module WriterFairness {
  import opened TraceFormat
  import opened CompressedWriter
  import opened WriterInvariant
  import opened WriterProducer
  import opened WriterTheorems
  import opened WriterProgress

  // ---------------------------------------------------------------- executions

  /** Any step of the system, or none. */
  ghost predicate Moves(k: Config, s: State, s': State) { s' == s || Next(k, s, s') }

  /** Thread `i` takes a step that changes something. */
  ghost predicate Steps(k: Config, f: nat -> State, m: nat, i: nat) {
    f(m + 1) != f(m) && WorkerStep(k, f(m), f(m + 1), i)
  }

  ghost predicate Retries(k: Config, f: nat -> State, m: nat) {
    RetryReserve(k, f(m), f(m + 1))
  }

  ghost predicate StepsLater(k: Config, f: nat -> State, n: nat, i: nat) {
    exists m: nat :: n <= m && Steps(k, f, m, i)
  }

  ghost predicate RetriesLater(k: Config, f: nat -> State, n: nat) {
    exists m: nat :: n <= m && Retries(k, f, m)
  }

  ghost predicate MovesAt(k: Config, f: nat -> State, n: nat) { Moves(k, f(n), f(n + 1)) }

  ghost predicate IsExecution(k: Config, f: nat -> State) {
    forall n: nat :: MovesAt(k, f, n)
  }

  /** A thread that is ready to run takes a step at some time, and so does a producer that was woken. */
  ghost predicate Fair(k: Config, f: nat -> State) {
    && (forall n: nat, i: nat :: i < |f(n).workers| && Runnable(f(n).workers[i]) ==> StepsLater(k, f, n, i))
    && (forall n: nat :: f(n).producer.Recheck? ==> RetriesLater(k, f, n))
  }

  // ---------------------------------------------------------------- the measure

  ghost predicate SameRank(k: Config, s': State, s: State) {
    Left(s') == Left(s) && TotalEffort(k, s'.blocks, s'.workers) == TotalEffort(k, s.blocks, s.workers)
  }

  /** The same thread, asleep or awake. */
  predicate SameButAsleep(w: Worker, w': Worker) {
    WakeWorker(w') == WakeWorker(w)
  }

  /** Nothing happens but that somebody falls asleep for a reason or wakes up. */
  ghost predicate Calm(k: Config, s: State, s': State) {
    && s'.nextPos == s.nextPos && s'.endPos == s.endPos && s'.closing == s.closing && s'.writeError == s.writeError
    && s'.error == s.error && s'.reservedPos == s.reservedPos && |s'.workers| == |s.workers|
    && (forall j :: 0 <= j < |s.workers| ==> SameButAsleep(s.workers[j], s'.workers[j]))
    && (forall j :: 0 <= j < |s.workers| && Hot(k, s, j) ==> s'.workers[j] == s.workers[j])
    && (s'.producer == s.producer || s'.producer == WakeProducer(s.producer) || RetryReserve(k, s, s'))
  }

  /** A thread whose next step is not to wait. */
  ghost predicate Hot(k: Config, s: State, i: nat) {
    && i < |s.workers|
    && var w := s.workers[i];
       || w.Compressing? || w.Writing?
       || (w.Turn? && (s.writeError || !OtherFirst(s.workers, w.pos)))
       || (w.Head? && (Dispatchable(k, s) || MayExit(s)))
  }

  lemma {:induction false} SameEffort(k: Config, blocks: seq<Block>, ws: seq<Worker>, i: nat, w: Worker)
    requires i < |ws| && SameButAsleep(ws[i], w)
    ensures TotalEffort(k, blocks, ws[i := w]) == TotalEffort(k, blocks, ws)
  {
    hide TotalEffort, Frame;
    EffortUpdate(k, blocks, ws, i, w);
  }

  // ---------------------------------------------------------------- what a move does

  lemma WaitCalm(k: Config, s: State, s': State, i: nat)
    requires HeadWait(k, s, s', i) || TurnWait(s, s', i)
    ensures SameRank(k, s', s) && Calm(k, s, s')
  {
    hide TotalEffort, Frame;
    SameEffort(k, s.blocks, s.workers, i, s'.workers[i]);
  }

  lemma WakeCalm(k: Config, s: State, s': State)
    requires SpuriousWake(s, s')
    ensures SameRank(k, s', s) && Calm(k, s, s')
  {
    hide TotalEffort, Frame, OtherFirst;
    if s' != s.(producer := WakeProducer(s.producer)) {
      var i :| 0 <= i < |s.workers| && s' == s.(workers := s.workers[i := WakeWorker(s.workers[i])]);
      SameEffort(k, s.blocks, s.workers, i, WakeWorker(s.workers[i]));
    }
  }

  lemma StayCalm(k: Config, s: State)
    ensures SameRank(k, s, s) && Calm(k, s, s)
  {
    hide TotalEffort, OtherFirst;
  }

  lemma RetryCalm(k: Config, s: State, s': State)
    requires RetryReserve(k, s, s') && Waiting(s')
    ensures SameRank(k, s', s) && Calm(k, s, s')
  {
    hide TotalEffort, OtherFirst, IsCompleted;
  }

  /** While the producer waits, a move ends the wait, brings the end nearer, or is calm. */
  lemma MoveCases(k: Config, s: State, s': State)
    requires k.Valid() && Inv(k, s) && Waiting(s) && Moves(k, s, s')
    ensures Inv(k, s') && (!Waiting(s') || RankLess(k, s', s) || (SameRank(k, s', s) && Calm(k, s, s')))
  {
    hide RankLess, SameRank, Calm, WorkerStep, SpuriousWake, RetryReserve;
    if s' == s {
      StayCalm(k, s);
    } else {
      NextInv(k, s, s');
      if SpuriousWake(s, s') {
        WakeCalm(k, s, s');
      } else if i: nat :| WorkerStep(k, s, s', i) {
        WorkCases(k, s, s', i);
      } else if Waiting(s') {
        OnlyRetry(k, s, s');
        RetryCalm(k, s, s');
      }
    }
  }

  lemma WorkCases(k: Config, s: State, s': State, i: nat)
    requires k.Valid() && Inv(k, s) && WorkerStep(k, s, s', i) && s' != s
    ensures RankLess(k, s', s) || (SameRank(k, s', s) && Calm(k, s, s'))
  {
    hide RankLess, SameRank, Calm, WorkerStep, Log, Ring, Behind, Covered, Output, Prefix, Client, Exits, Work, Sleep;
    WorkerSmaller(k, s, s', i);
    if HeadWait(k, s, s', i) || TurnWait(s, s', i) { WaitCalm(k, s, s', i); }
  }

  /** A hot thread that takes a step brings the end nearer. */
  lemma HotStep(k: Config, s: State, s': State, i: nat)
    requires k.Valid() && Inv(k, s) && Hot(k, s, i) && WorkerStep(k, s, s', i) && s' != s
    ensures RankLess(k, s', s)
  {
    hide RankLess, WorkerStep, Log, Ring, Behind, Covered, Output, Prefix, Client, Exits, Work, Sleep;
    WorkerSmaller(k, s, s', i);
  }

  lemma CalmOthers(s: State, s': State, pos: nat)
    requires |s'.workers| == |s.workers|
    requires forall j :: 0 <= j < |s.workers| ==> SameButAsleep(s.workers[j], s'.workers[j])
    ensures OtherFirst(s'.workers, pos) <==> OtherFirst(s.workers, pos)
  {
    if OtherFirst(s.workers, pos) {
      var j :| 0 <= j < |s.workers| && s.workers[j].Active() && s.workers[j].pos < pos;
      assert s'.workers[j].Active() && s'.workers[j].pos == s.workers[j].pos;
    }
    if OtherFirst(s'.workers, pos) {
      var j :| 0 <= j < |s'.workers| && s'.workers[j].Active() && s'.workers[j].pos < pos;
      assert s.workers[j].Active() && s.workers[j].pos == s'.workers[j].pos;
    }
  }

  lemma CalmHot(k: Config, s: State, s': State, i: nat)
    requires Calm(k, s, s') && Hot(k, s, i)
    ensures Hot(k, s', i)
  {
    hide OtherFirst, SameButAsleep;
    if s.workers[i].Turn? { CalmOthers(s, s', s.workers[i].pos); }
  }

  // ---------------------------------------------------------------- somebody is hot

  /** The producer's next look ends its wait. */
  ghost predicate Relieved(k: Config, s: State) {
    && s.producer.Recheck?
    && (s.error || s.writeError ||
        forall c: nat :: IsCompleted(s.workers, s.nextPos, c) ==> s.reservedPos < c + k.capacity)
  }

  /** With blocks in hand, the thread at the earliest position is hot. */
  lemma FirstIsHot(k: Config, s: State) returns (i: nat)
    requires exists i :: 0 <= i < |s.workers| && s.workers[i].Active()
    requires forall i :: 0 <= i < |s.workers| && s.workers[i].Active() ==> s.workers[i].pos < s.nextPos
    requires TurnSleep(s.workers, s.writeError)
    ensures Hot(k, s, i)
  {
    var c := CompletedExists(s.workers, s.nextPos);
    i :| 0 <= i < |s.workers| && s.workers[i].Active() && s.workers[i].pos == c;
  }

  lemma NobodyActive(k: Config, s: State) returns (i: nat)
    requires k.Valid() && Positions(k, s) && Sleep(k, s) && Exits(s.workers, MayExit(s)) && Client(s) && Waiting(s)
    requires forall i :: 0 <= i < |s.workers| ==> !s.workers[i].Active()
    ensures Hot(k, s, i) || Relieved(k, s)
  {
    hide TurnSleep, OtherFirst;
    i := 0;
    if s.producer.Joining? {
      i :| 0 <= i < |s.workers| && !s.workers[i].Exited?;
    } else if s.writeError || s.endPos < s.nextPos + k.capacity {
      NoneAsleepNow(k, s);
    }
  }

  /** With nobody at work, a producer that still sleeps has a full ring before it. */
  lemma NoneAsleepNow(k: Config, s: State)
    requires k.Valid() && Positions(k, s) && ProducerSleep(k, s) && Waiting(s) && !s.producer.Joining?
    requires forall i :: 0 <= i < |s.workers| ==> !s.workers[i].Active()
    requires s.writeError || s.endPos < s.nextPos + k.capacity
    ensures Relieved(k, s)
  {
  }

  /** While the producer waits, some thread is hot, or its own next look ends the wait. */
  lemma SomebodyHot(k: Config, s: State) returns (i: nat)
    requires k.Valid() && Inv(k, s) && Waiting(s)
    ensures Hot(k, s, i) || Relieved(k, s)
  {
    hide Ring, Behind, Covered, Output, Prefix, Hot, Relieved, OtherFirst, TurnSleep;
    forall j | 0 <= j < |s.workers| && s.workers[j].Active() ensures s.workers[j].pos < s.nextPos {
      assert Holds(k, s.blocks, s.done, s.workers[j]);
      assert Piece(k, s.stream, s.nextPos, s.blocks[s.workers[j].ticket]);
    }
    if exists j :: 0 <= j < |s.workers| && s.workers[j].Active() {
      i := FirstIsHot(k, s);
    } else {
      i := NobodyActive(k, s);
    }
  }

  lemma CalmCompleted(s: State, s': State, c: nat)
    requires |s'.workers| == |s.workers| && s'.nextPos == s.nextPos
    requires forall j :: 0 <= j < |s.workers| ==> SameButAsleep(s.workers[j], s'.workers[j])
    requires IsCompleted(s'.workers, s'.nextPos, c)
    ensures IsCompleted(s.workers, s.nextPos, c)
  {
    if c != s.nextPos {
      var i :| 0 <= i < |s'.workers| && s'.workers[i].Active() && s'.workers[i].pos == c;
      assert s.workers[i].Active() && s.workers[i].pos == c;
    }
    forall i | 0 <= i < |s.workers| && s.workers[i].Active() ensures c <= s.workers[i].pos {
      assert s'.workers[i].Active() && s'.workers[i].pos == s.workers[i].pos;
    }
  }

  /** Until the producer looks, what it will see does not get worse. */
  lemma CalmRelieved(k: Config, s: State, s': State)
    requires Calm(k, s, s') && Relieved(k, s) && s'.producer.Recheck?
    ensures Relieved(k, s')
  {
    hide IsCompleted, Hot, SameButAsleep;
    forall c: nat | IsCompleted(s'.workers, s'.nextPos, c) ensures IsCompleted(s.workers, s.nextPos, c) {
      CalmCompleted(s, s', c);
    }
  }

  lemma RelievedRetry(k: Config, s: State, s': State)
    requires Relieved(k, s) && RetryReserve(k, s, s')
    ensures !Waiting(s')
  {
    hide IsCompleted;
  }

  // ---------------------------------------------------------------- every fair execution

  /** Until a hot thread takes its step, the wait ends or the end comes nearer. */
  lemma {:induction false} UntilStep(k: Config, f: nat -> State, n: nat, m: nat, i: nat) returns (t: nat)
    requires k.Valid() && IsExecution(k, f) && Inv(k, f(n)) && Waiting(f(n))
    requires n <= m && Steps(k, f, m, i) && Hot(k, f(n), i)
    ensures n < t && (!Waiting(f(t)) || (Inv(k, f(t)) && RankLess(k, f(t), f(n))))
    decreases m - n
  {
    hide Inv, Waiting, RankLess, SameRank, Calm, Hot, Moves, WorkerStep;
    assert MovesAt(k, f, n);
    MoveCases(k, f(n), f(n + 1));
    t := n + 1;
    if Waiting(f(t)) && !RankLess(k, f(t), f(n)) {
      if n == m { HotStep(k, f(n), f(t), i); } else {
        CalmHot(k, f(n), f(t), i);
        t := UntilStep(k, f, n + 1, m, i);
        if Waiting(f(t)) { RankLessSame(k, f(t), f(n + 1), f(n)); }
      }
    }
  }

  lemma RankLessSame(k: Config, s'': State, s': State, s: State)
    requires RankLess(k, s'', s') && SameRank(k, s', s)
    ensures RankLess(k, s'', s)
  {
    hide TotalEffort;
  }

  /** The same for a producer whose next look ends its wait. */
  lemma {:induction false} UntilRetry(k: Config, f: nat -> State, n: nat, m: nat) returns (t: nat)
    requires k.Valid() && IsExecution(k, f) && Inv(k, f(n)) && Waiting(f(n))
    requires n <= m && Retries(k, f, m) && Relieved(k, f(n))
    ensures n < t && (!Waiting(f(t)) || (Inv(k, f(t)) && RankLess(k, f(t), f(n))))
    decreases m - n
  {
    hide Inv, Waiting, RankLess, SameRank, Moves, RetryReserve, Hot, SameButAsleep, IsCompleted;
    assert MovesAt(k, f, n);
    MoveCases(k, f(n), f(n + 1));
    t := n + 1;
    if RetryReserve(k, f(n), f(t)) {
      RelievedRetry(k, f(n), f(t));
    } else if Waiting(f(t)) && !RankLess(k, f(t), f(n)) {
      CalmRelieved(k, f(n), f(t));
      t := UntilRetry(k, f, n + 1, m);
      if Waiting(f(t)) { RankLessSame(k, f(t), f(n + 1), f(n)); }
    }
  }

  lemma HotIsRunnable(k: Config, s: State, i: nat)
    requires Hot(k, s, i)
    ensures i < |s.workers| && Runnable(s.workers[i])
  {
    hide OtherFirst;
  }

  lemma {:induction false} FairWaitEndsFrom(k: Config, f: nat -> State, n: nat) returns (m: nat)
    requires k.Valid() && IsExecution(k, f) && Fair(k, f) && Inv(k, f(n))
    ensures n <= m && !Waiting(f(m))
    decreases Left(f(n)), TotalEffort(k, f(n).blocks, f(n).workers)
  {
    hide Inv, Waiting, Hot, Relieved, IsExecution, TotalEffort, Steps, Retries, Runnable;
    m := n;
    if Waiting(f(n)) {
      var i := SomebodyHot(k, f(n));
      if Relieved(k, f(n)) {
        RelievedLooks(k, f(n));
        assert RetriesLater(k, f, n);
        var later: nat :| n <= later && Retries(k, f, later);
        m := UntilRetry(k, f, n, later);
      } else {
        HotIsRunnable(k, f(n), i);
        assert StepsLater(k, f, n, i);
        var later: nat :| n <= later && Steps(k, f, later, i);
        m := UntilStep(k, f, n, later, i);
      }
      if Waiting(f(m)) { m := FairWaitEndsFrom(k, f, m); }
    }
  }

  lemma RelievedLooks(k: Config, s: State)
    requires Relieved(k, s)
    ensures s.producer.Recheck?
  {
    hide IsCompleted;
  }

  lemma {:induction false} ExecutionInv(k: Config, f: nat -> State, n: nat)
    requires k.Valid() && Reachable(k, f(0)) && IsExecution(k, f)
    ensures Inv(k, f(n))
  {
    hide Inv, Reachable, Next;
    if n == 0 {
      ReachableInv(k, f(0));
    } else {
      ExecutionInv(k, f, n - 1);
      assert MovesAt(k, f, n - 1);
      if f(n) != f(n - 1) { NextInv(k, f(n - 1), f(n)); }
    }
  }

  /** In every fair execution of the whole system, from every reachable state, every wait of the producer ends. */
  lemma FairWaitEnds(k: Config, f: nat -> State, n: nat)
    requires k.Valid() && Reachable(k, f(0)) && IsExecution(k, f) && Fair(k, f)
    ensures exists m: nat :: n <= m && !Waiting(f(m))
  {
    hide Inv, Reachable, Waiting, IsExecution, Fair;
    ExecutionInv(k, f, n);
    var m := FairWaitEndsFrom(k, f, n);
  }
}

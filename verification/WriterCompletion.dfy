/** From wherever the writer is, its work can still be finished. */
module WriterCompletion {
  import opened TraceFormat
  import opened RingArithmetic
  import opened CompressedWriter
  import opened WriterInvariant
  import opened WriterProducer
  import opened WriterTheorems
  import opened WriterProgress

  // ---------------------------------------------------------------- runs from one state to another

  lemma LeadsSelf(k: Config, s: State)
    ensures Leads(k, s, s)
  {
    hide Next;
    assert IsPath(k, [s], s, s);
  }

  lemma LeadsNext(k: Config, s: State, s': State, s'': State)
    requires Leads(k, s, s') && Next(k, s', s'')
    ensures Leads(k, s, s'')
  {
    hide Next;
    var path :| IsPath(k, path, s, s');
    var path' := path + [s''];
    forall t | 0 <= t < |path'| - 1 ensures Next(k, path'[t], path'[t + 1]) {
      if t < |path| - 1 { assert path'[t] == path[t] && path'[t + 1] == path[t + 1]; }
    }
    assert IsPath(k, path', s, s'');
  }

  lemma {:induction false} LeadsAlong(k: Config, s: State, path: seq<State>, s': State, s'': State)
    requires Leads(k, s, s') && IsPath(k, path, s', s'')
    ensures Leads(k, s, s'')
    decreases |path|
  {
    hide Next, Leads;
    if |path| > 1 {
      var n := |path| - 1;
      assert IsPath(k, path[..n], s', path[n - 1]);
      LeadsAlong(k, s, path[..n], s', path[n - 1]);
      assert Next(k, path[n - 1], path[n - 1 + 1]);
      LeadsNext(k, s, path[n - 1], s'');
    }
  }

  lemma LeadsOn(k: Config, s: State, s': State, s'': State)
    requires Leads(k, s, s') && Leads(k, s', s'')
    ensures Leads(k, s, s'')
  {
    hide IsPath;
    var path :| IsPath(k, path, s', s'');
    LeadsAlong(k, s, path, s', s'');
  }

  /** What can be reached from a reachable state is reachable; reachable is what a start leads to. */
  lemma ReachableIsLed(k: Config, s': State)
    ensures Reachable(k, s') <==> exists s :: Init(k, s) && Leads(k, s, s')
  {
    hide Next, Init;
    if Reachable(k, s') {
      var run :| IsRun(k, run) && run[|run| - 1] == s';
      assert IsPath(k, run, run[0], s');
    }
    if s :| Init(k, s) && Leads(k, s, s') {
      var path :| IsPath(k, path, s, s');
      assert IsRun(k, path) && path[|path| - 1] == s';
    }
  }

  lemma ReachNext(k: Config, s: State, s': State)
    requires Reachable(k, s) && Next(k, s, s')
    ensures Reachable(k, s') && Leads(k, s, s')
  {
    hide Next, Init, IsRun, IsPath, Leads, Reachable;
    ReachableIsLed(k, s);
    var start :| Init(k, start) && Leads(k, start, s);
    LeadsNext(k, start, s, s');
    ReachableIsLed(k, s');
    LeadsSelf(k, s);
    LeadsNext(k, s, s, s');
  }

  /** A run leads from `s` to `s'` with no new input, and with no error if there was none. */
  ghost predicate Continued(k: Config, s: State, s': State) {
    && Leads(k, s, s') && Reachable(k, s') && s'.submitted == s.submitted && s'.writeError == s.writeError
    && (!s.error && !s.writeError ==> !s'.error)
  }

  lemma ContinuedSelf(k: Config, s: State)
    requires Reachable(k, s)
    ensures Continued(k, s, s)
  {
    hide Reachable, Leads;
    LeadsSelf(k, s);
  }

  lemma ContinuedOn(k: Config, s: State, s': State, s'': State)
    requires Continued(k, s, s') && Continued(k, s', s'')
    ensures Continued(k, s, s'')
  {
    hide Reachable, Leads;
    LeadsOn(k, s, s', s'');
  }

  // ---------------------------------------------------------------- the end of each call

  lemma ThreadSteps(k: Config, s: State) returns (s': State)
    requires k.Valid() && Reachable(k, s) && Waiting(s) && !s.producer.Recheck?
    ensures Continued(k, s, s') && RealStep(k, s, s') && Quiet(s, s')
  {
    hide Inv, WorkerStep, IsRun, Leads;
    ReachableInv(k, s);
    var i := SomebodyAwake(k, s);
    s' := RunnableSteps(k, s, i);
    ReachNext(k, s, s');
  }

  lemma RetryDone(k: Config, s: State) returns (s': State)
    requires k.Valid() && Reachable(k, s) && s.producer.Recheck?
    ensures Continued(k, s, s') && RealStep(k, s, s') && s'.writePos == s.writePos && s'.reservedPos == s.reservedPos
    ensures s'.producer == Resume(s.producer.caller) || s'.producer == Asleep(s.producer.wait, s.producer.caller)
    ensures !s'.producer.Asleep? && !s'.error && s.producer.wait ==> s'.reservedPos < s'.uptoPos
  {
    hide IsRun, Leads, Reachable, WorkerStep, RetryReserve, Inv;
    ReachableInv(k, s);
    s' := RetrySteps(k, s);
    assert ProducerStep(k, s, s');
    ReachNext(k, s, s');
  }

  /** A step of a waiting system, as a measure for recursion. */
  lemma Nearer(k: Config, s: State, s': State)
    requires k.Valid() && Reachable(k, s) && Reachable(k, s') && RealStep(k, s, s') && Waiting(s')
    ensures Left(s') < Left(s) || (Left(s') == Left(s) &&
      (TotalEffort(k, s'.blocks, s'.workers) < TotalEffort(k, s.blocks, s.workers)
       || (TotalEffort(k, s'.blocks, s'.workers) == TotalEffort(k, s.blocks, s.workers)
           && Awake(s'.workers) + ProducerAwake(s'.producer) < Awake(s.workers) + ProducerAwake(s.producer))))
  {
    hide IsRun, Reachable, RealStep, TotalEffort, Awake, Core, Sleep;
    PositionsOrdered(k, s);
    PositionsOrdered(k, s');
    ReachableInv(k, s);
    RealStepSmaller(k, s, s');
  }

  /** The wait in update_reservation can end, with space if the producer waits for it. */
  lemma {:induction false} WaitCanEnd(k: Config, s: State) returns (s': State)
    requires k.Valid() && Reachable(k, s) && (s.producer.Asleep? || s.producer.Recheck?)
    ensures Continued(k, s, s') && s'.producer == Resume(s.producer.caller) && s'.writePos == s.writePos
        && s'.reservedPos == s.reservedPos
    ensures !s'.error && s.producer.wait ==> s'.reservedPos < s'.uptoPos
    decreases Left(s), TotalEffort(k, s.blocks, s.workers), Awake(s.workers) + ProducerAwake(s.producer)
  {
    hide IsRun, Reachable, Leads, RealStep, TotalEffort, Awake, Core, Sleep;
    var next;
    if s.producer.Recheck? { next := RetryDone(k, s); } else { next := ThreadSteps(k, s); }
    if next.producer == Resume(s.producer.caller) {
      s' := next;
    } else {
      Nearer(k, s, next);
      s' := WaitCanEnd(k, next);
      ContinuedOn(k, s, next, s');
    }
  }

  lemma JoinNow(k: Config, s: State) returns (s': State)
    requires Reachable(k, s) && s.producer.Joining? && AllExited(s)
    ensures Continued(k, s, s') && s'.producer.Closed?
  {
    hide IsRun;
    s' := s.(error := s.error || s.writeError, producer := Closed);
    assert Join(s, s');
    assert ProducerStep(k, s, s');
    ReachNext(k, s, s');
  }

  /** All compressor threads can leave, and close returns. */
  lemma {:induction false} JoinCanEnd(k: Config, s: State) returns (s': State)
    requires k.Valid() && Reachable(k, s) && s.producer.Joining?
    ensures Continued(k, s, s') && s'.producer.Closed?
    decreases Left(s), TotalEffort(k, s.blocks, s.workers), Awake(s.workers) + ProducerAwake(s.producer)
  {
    hide IsRun, Reachable, Leads, RealStep, TotalEffort, Awake, Core, Sleep;
    if AllExited(s) {
      s' := JoinNow(k, s);
    } else {
      var next := ThreadSteps(k, s);
      if AllExited(next) {
        s' := JoinNow(k, next);
      } else {
        Nearer(k, s, next);
        s' := JoinCanEnd(k, next);
      }
      ContinuedOn(k, s, next, s');
    }
  }

  lemma EnterDone(k: Config, s: State) returns (s': State)
    requires k.Valid() && Reachable(k, s) && s.producer.Reserve?
    ensures Continued(k, s, s') && s'.writePos == s.writePos == s'.reservedPos
    ensures s'.producer == Resume(s.producer.caller) || s'.producer == Asleep(s.producer.wait, s.producer.caller)
    ensures s'.producer.Asleep? ==> s.producer.wait
    ensures !s'.producer.Asleep? && !s'.error && s.producer.wait ==> s'.reservedPos < s'.uptoPos
  {
    hide IsRun, Leads, Reachable, WorkerStep, Inv;
    var p, wait, caller := Publish(s), s.producer.wait, s.producer.caller;
    if s.error {
      s' := p.(producer := Resume(caller));
    } else if s.writeError {
      s' := p.(error := true, producer := Resume(caller));
    } else {
      PositionsOrdered(k, s);
      var c := CompletedExists(p.workers, p.nextPos);
      s' := Reserved(k, p, c, wait, caller);
    }
    assert EnterReserve(k, s, s');
    assert ProducerStep(k, s, s');
    ReachNext(k, s, s');
  }

  /** A call of update_reservation can return, with space if it was to wait for it. */
  lemma ReserveCanEnd(k: Config, s: State) returns (s': State)
    requires k.Valid() && Reachable(k, s) && s.producer.Reserve?
    ensures Continued(k, s, s') && s'.producer == Resume(s.producer.caller) && s'.writePos == s.writePos
    ensures !s'.error && s.producer.wait ==> s'.writePos < s'.uptoPos
  {
    hide Reachable, Leads;
    var entered := EnterDone(k, s);
    s' := entered;
    if entered.producer.Asleep? {
      s' := WaitCanEnd(k, entered);
      ContinuedOn(k, s, entered, s');
    }
  }

  lemma ProducerCan(k: Config, s: State, s': State)
    requires k.Valid() && Reachable(k, s) && ProducerStep(k, s, s')
    ensures Reachable(k, s') && Leads(k, s, s')
  {
    hide IsRun, Reachable, Leads, ProducerStep, WorkerStep;
    ReachNext(k, s, s');
  }

  lemma CloseCanEnd(k: Config, s: State) returns (s': State)
    requires k.Valid() && Reachable(k, s) && (s.producer.Idle? || s.producer.SetClosing?)
    ensures Continued(k, s, s') && s'.producer.Closed?
  {
    hide Reachable, Leads;
    var at := s;
    ContinuedSelf(k, s);
    if s.producer.Idle? {
      var called := s.(producer := Reserve(false, InClose));
      assert CallClose(s, called);
      ProducerCan(k, s, called);
      at := ReserveCanEnd(k, called);
      ContinuedOn(k, s, called, at);
    }
    var joining := Broadcast(at.(closing := true, producer := Joining));
    assert BeginClosing(at, joining);
    ProducerCan(k, at, joining);
    ContinuedOn(k, s, at, joining);
    s' := JoinCanEnd(k, joining);
    ContinuedOn(k, s, joining, s');
  }

  lemma Sizes(k: Config, s: State)
    requires k.Valid() && Inv(k, s)
    ensures |s.buffer| == k.capacity && s.reservedPos <= s.writePos
  {
    hide Log, Behind, Work, Covered, Output, Prefix, Exits, Client, Sleep;
  }

  lemma EndWriteCan(k: Config, s: State) returns (s': State)
    requires k.Valid() && Reachable(k, s) && s.producer.Copying? && (s.error || s.producer.rest == [])
    ensures Continued(k, s, s') && s'.producer.Idle?
  {
    hide Reachable, Leads, Inv;
    ReachableInv(k, s);
    Sizes(k, s);
    var publish := !s.error && s.writePos - s.reservedPos >= k.capacity / 2;
    var ended := s.(producer := if publish then Reserve(false, AfterWrite) else Idle);
    assert EndWrite(k, s, ended);
    ProducerCan(k, s, ended);
    s' := ended;
    if publish {
      s' := ReserveCanEnd(k, ended);
      ContinuedOn(k, s, ended, s');
    }
  }

  lemma OneByte(k: Config, s: State) returns (s': State)
    requires k.capacity > 0 && |s.buffer| == k.capacity
    requires s.producer.Copying? && !s.error && s.producer.rest != [] && s.writePos < s.uptoPos
    ensures CopySome(k, s, s', 1) && s'.producer == Copying(s.producer.rest[1..])
    ensures s'.submitted == s.submitted && s'.writeError == s.writeError && s'.error == s.error
  {
    var rest, offset := s.producer.rest, Place(s.writePos, k.capacity);
    s' := s.(buffer := Overwrite(s.buffer, offset, rest[..1]), writePos := s.writePos + 1,
             stream := s.stream + rest[..1], producer := Copying(rest[1..]));
  }

  lemma CopyOne(k: Config, s: State) returns (s': State)
    requires k.Valid() && Reachable(k, s) && s.producer.Copying? && !s.error && s.producer.rest != []
        && s.writePos < s.uptoPos
    ensures Continued(k, s, s') && s'.producer == Copying(s.producer.rest[1..])
  {
    hide Reachable, Leads, Inv, CopySome;
    ReachableInv(k, s);
    Sizes(k, s);
    s' := OneByte(k, s);
    ProducerCan(k, s, s');
  }

  /** A call of write can return. */
  lemma {:induction false} WriteCanEnd(k: Config, s: State) returns (s': State)
    requires k.Valid() && Reachable(k, s) && s.producer.Copying?
    ensures Continued(k, s, s') && s'.producer.Idle?
    decreases |s.producer.rest|, if s.error then 0 else if s.writePos < s.uptoPos then 1 else 2
  {
    hide Reachable, Leads;
    if s.error || s.producer.rest == [] {
      s' := EndWriteCan(k, s);
    } else if s.writePos < s.uptoPos {
      var copied := CopyOne(k, s);
      s' := WriteCanEnd(k, copied);
      ContinuedOn(k, s, copied, s');
    } else {
      PositionsOrdered(k, s);
      var asking := s.(producer := Reserve(true, InWrite(s.producer.rest)));
      assert NeedSpace(s, asking);
      ProducerCan(k, s, asking);
      var got := ReserveCanEnd(k, asking);
      ContinuedOn(k, s, asking, got);
      s' := WriteCanEnd(k, got);
      ContinuedOn(k, s, got, s');
    }
  }

  /** A call of update_reservation or write that is under way can return. */
  lemma CallCanEnd(k: Config, s: State) returns (s': State)
    requires k.Valid() && Reachable(k, s)
    ensures Continued(k, s, s')
    ensures s'.producer.Idle? || s'.producer.SetClosing? || s'.producer.Joining? || s'.producer.Closed?
    ensures s'.producer.Closed? ==> s' == s
  {
    hide Reachable, Leads;
    ContinuedSelf(k, s);
    var at := s;
    if s.producer.Asleep? || s.producer.Recheck? { at := WaitCanEnd(k, s); }
    if s.producer.Reserve? { at := ReserveCanEnd(k, s); }
    s' := at;
    if at.producer.Copying? {
      s' := WriteCanEnd(k, at);
      ContinuedOn(k, s, at, s');
    }
  }

  /**
   From every reachable state a run leads to a closed writer with no more input; without errors so
   far, with everything passed to `write` in the file.
   */
  lemma CanFinish(k: Config, s: State) returns (s': State)
    requires k.Valid() && Reachable(k, s)
    ensures Leads(k, s, s') && Reachable(k, s') && s'.producer.Closed? && s'.submitted == s.submitted
    ensures !s.error && !s.writeError ==>
      !s'.error && s'.file == FileOf(k.codec, Chop(s.submitted, k.blockSize))
  {
    hide Reachable, Leads;
    var at := CallCanEnd(k, s);
    s' := at;
    if at.producer.Idle? || at.producer.SetClosing? { s' := CloseCanEnd(k, at); }
    if at.producer.Joining? { s' := JoinCanEnd(k, at); }
    if !at.producer.Closed? { ContinuedOn(k, s, at, s'); }
    if !s'.error { ClosedFile(k, s'); }
  }
}

/** The producer's steps preserve the invariant. */
module WriterProducer {
  import opened Common
  import opened RingArithmetic
  import opened CompressedWriter
  import opened WriterInvariant
  import opened WriterSteps

  /** Steps that concern only the producer's own place in its code. */
  lemma ProducerOnly(k: Config, s: State, s': State)
    requires k.Valid() && Inv(k, s)
    requires s' == s.(producer := s'.producer, submitted := s'.submitted, error := s'.error)
    requires Client(s') && ProducerSleep(k, s')
    ensures Inv(k, s')
  {
    hide Log, Ring, Behind, Work, Covered, Output, Prefix, HeadSleep, TurnSleep;
  }

  lemma CallWriteInv(k: Config, s: State, s': State, data: seq<byte>)
    requires k.Valid() && Inv(k, s) && CallWrite(s, s', data)
    ensures Inv(k, s')
  {
    hide Log, Ring, Behind, Work, Covered, Output, Prefix, HeadSleep, TurnSleep;
    assert Client(s') by { ClientCallWrite(s, s', data); }
    ProducerOnly(k, s, s');
  }

  lemma ClientCallWrite(s: State, s': State, data: seq<byte>)
    requires Client(s) && CallWrite(s, s', data)
    ensures Client(s')
  {
  }

  /** More bytes at the end of the stream do not disturb what was dispatched. */
  lemma LogCopy(k: Config, blocks: seq<Block>, stream: seq<byte>, next: nat, final: bool, chunk: seq<byte>)
    requires Log(k, blocks, stream, next, final) && next <= |stream|
    ensures Log(k, blocks, stream + chunk, next, final)
  {
    var stream' := stream + chunk;
    assert stream'[..next] == stream[..next];
    forall t | 0 <= t < |blocks| ensures Piece(k, stream', next, blocks[t]) {
      assert Piece(k, stream, next, blocks[t]);
      var b := blocks[t];
      assert stream'[b.pos..b.pos + |b.data|] == stream[b.pos..b.pos + |b.data|];
    }
  }

  lemma CopyShape(k: Config, s: State, s': State, n: nat) returns (chunk: seq<byte>, rest: seq<byte>)
    requires CopySome(k, s, s', n)
    ensures s.producer.rest == chunk + rest && 0 < |chunk| <= s.uptoPos - s.writePos
    ensures Place(s.writePos, k.capacity) + |chunk| <= |s.buffer| == k.capacity
    ensures s' == s.(buffer := Overwrite(s.buffer, Place(s.writePos, k.capacity), chunk),
                     writePos := s.writePos + |chunk|,
                     stream := s.stream + chunk, producer := Copying(rest))
  {
    chunk, rest := s.producer.rest[..n], s.producer.rest[n..];
  }

  lemma CopyClient(k: Config, s: State, s': State, n: nat)
    requires Client(s) && CopySome(k, s, s', n)
    ensures Client(s')
  {
    var chunk, rest := CopyShape(k, s, s', n);
    assert s.stream + (chunk + rest) == (s.stream + chunk) + rest;
  }

  lemma CopyStream(k: Config, s: State, s': State, n: nat)
    requires k.Valid() && Inv(k, s) && CopySome(k, s, s', n)
    ensures Log(k, s'.blocks, s'.stream, s'.nextPos, Final(s')) && Ring(k, s'.buffer, s'.stream)
  {
    var chunk, rest := CopyShape(k, s, s', n);
    LogCopy(k, s.blocks, s.stream, s.nextPos, Final(s), chunk);
    RingWrite(k, s.buffer, s.stream, chunk);
  }

  lemma CopySomeInv(k: Config, s: State, s': State, n: nat)
    requires k.Valid() && Inv(k, s) && CopySome(k, s, s', n)
    ensures Inv(k, s')
  {
    CopyClient(k, s, s', n);
    CopyStream(k, s, s', n);
    var chunk, rest := CopyShape(k, s, s', n);
  }

  lemma NeedSpaceInv(k: Config, s: State, s': State)
    requires k.Valid() && Inv(k, s) && NeedSpace(s, s')
    ensures Inv(k, s')
  {
    hide Log, Ring, Behind, Work, Covered, Output, Prefix, HeadSleep, TurnSleep;
    ProducerOnly(k, s, s');
  }

  lemma EndWriteInv(k: Config, s: State, s': State)
    requires k.Valid() && Inv(k, s) && EndWrite(k, s, s')
    ensures Inv(k, s')
  {
    hide Log, Ring, Behind, Work, Covered, Output, Prefix, HeadSleep, TurnSleep;
    ProducerOnly(k, s, s');
  }

  lemma CallCloseInv(k: Config, s: State, s': State)
    requires k.Valid() && Inv(k, s) && CallClose(s, s')
    ensures Inv(k, s')
  {
    hide Log, Ring, Behind, Work, Covered, Output, Prefix, HeadSleep, TurnSleep;
    ProducerOnly(k, s, s');
  }

  // ---------------------------------------------------------------- update_reservation

  /** Publishing the bytes copied so far. */
  lemma PublishCore(k: Config, s: State)
    requires k.Valid() && Inv(k, s) && s.producer.Reserve?
    ensures Core(k, s.(endPos := s.writePos, reservedPos := s.writePos))
  {
  }

  lemma PublishInv(k: Config, s: State)
    requires k.Valid() && Inv(k, s) && s.producer.Reserve?
    ensures Inv(k, Publish(s)) && Publish(s).producer == s.producer && Publish(s).endPos == Publish(s).writePos
  {
    PublishCore(k, s);
    BroadcastInv(k, s.(endPos := s.writePos, reservedPos := s.writePos));
  }

  /** The freed space never ends before what is already reserved. */
  lemma UptoGrows(k: Config, s: State, c: nat)
    requires k.Valid() && Positions(k, s) && Behind(k, s.workers, s.uptoPos) && IsCompleted(s.workers, s.nextPos, c)
    ensures s.uptoPos <= c + k.capacity && Behind(k, s.workers, c + k.capacity)
  {
    if c != s.nextPos {
      var i :| 0 <= i < |s.workers| && s.workers[i].Active() && s.workers[i].pos == c;
    }
  }

  /** The producer as it stands inside update_reservation, after publishing. */
  ghost predicate InReserve(s: State, wait: bool, caller: Caller) {
    && (s.producer == Reserve(wait, caller) || s.producer == Recheck(wait, caller))
    && (s.producer.Reserve? ==> s.endPos == s.writePos)
  }

  lemma ResumeInv(k: Config, s: State, wait: bool, caller: Caller, error: bool)
    requires k.Valid() && Inv(k, s) && InReserve(s, wait, caller) && (error ==> s.writeError) && (s.error ==> error)
    ensures Inv(k, s.(producer := Resume(caller), error := error))
  {
    hide Log, Ring, Behind, Work, Covered, Output, Prefix, HeadSleep, TurnSleep;
    ProducerOnly(k, s, s.(producer := Resume(caller), error := error));
  }

  lemma ReservedClient(k: Config, s: State, c: nat, wait: bool, caller: Caller)
    requires Client(s) && InReserve(s, wait, caller)
    ensures Client(Reserved(k, s, c, wait, caller))
  {
  }

  lemma ReservedCore(k: Config, s: State, c: nat, wait: bool, caller: Caller)
    requires k.Valid() && Inv(k, s) && InReserve(s, wait, caller) && !s.error && !s.writeError
    requires IsCompleted(s.workers, s.nextPos, c)
    ensures Core(k, Reserved(k, s, c, wait, caller))
  {
    ReservedClient(k, s, c, wait, caller);
    UptoGrows(k, s, c);
  }

  lemma ReservedSleep(k: Config, s: State, c: nat, wait: bool, caller: Caller)
    requires k.Valid() && Inv(k, s) && InReserve(s, wait, caller) && !s.error && !s.writeError
    requires IsCompleted(s.workers, s.nextPos, c)
    ensures Sleep(k, Reserved(k, s, c, wait, caller))
  {
    var s' := Reserved(k, s, c, wait, caller);
    assert IsCompleted(s'.workers, s'.nextPos, c);
  }

  lemma ReserveLoopInv(k: Config, s: State, s': State, wait: bool, caller: Caller)
    requires k.Valid() && Inv(k, s) && InReserve(s, wait, caller) && ReserveLoop(k, s, s', wait, caller)
    ensures Inv(k, s')
  {
    if s.error || s.writeError {
      ResumeInv(k, s, wait, caller, true);
      assert s' == s.(producer := Resume(caller), error := true);
    } else {
      var c: nat :| IsCompleted(s.workers, s.nextPos, c) && s' == Reserved(k, s, c, wait, caller);
      ReservedCore(k, s, c, wait, caller);
      ReservedSleep(k, s, c, wait, caller);
    }
  }

  lemma EnterReserveInv(k: Config, s: State, s': State)
    requires k.Valid() && Inv(k, s) && EnterReserve(k, s, s')
    ensures Inv(k, s')
  {
    PublishInv(k, s);
    ReserveLoopInv(k, Publish(s), s', s.producer.wait, s.producer.caller);
  }

  lemma RetryReserveInv(k: Config, s: State, s': State)
    requires k.Valid() && Inv(k, s) && RetryReserve(k, s, s')
    ensures Inv(k, s')
  {
    ReserveLoopInv(k, s, s', s.producer.wait, s.producer.caller);
  }

  // ---------------------------------------------------------------- close

  lemma ClosingCore(k: Config, s: State)
    requires k.Valid() && Inv(k, s) && s.producer.SetClosing?
    ensures Core(k, s.(closing := true, producer := Joining))
  {
    hide Ring, Behind, Work, Covered, Output, Prefix;
  }

  lemma BeginClosingInv(k: Config, s: State, s': State)
    requires k.Valid() && Inv(k, s) && BeginClosing(s, s')
    ensures Inv(k, s')
  {
    ClosingCore(k, s);
    BroadcastInv(k, s.(closing := true, producer := Joining));
  }

  lemma JoinInv(k: Config, s: State, s': State)
    requires k.Valid() && Inv(k, s) && Join(s, s')
    ensures Inv(k, s')
  {
    hide Log, Ring, Behind, Work, Covered, Output, Prefix, HeadSleep, TurnSleep;
    ProducerOnly(k, s, s');
  }

  // ---------------------------------------------------------------- runs

  lemma WakeProducerInv(k: Config, s: State)
    requires k.Valid() && Inv(k, s)
    ensures Inv(k, s.(producer := WakeProducer(s.producer)))
  {
    hide Log, Ring, Behind, Work, Covered, Output, Prefix, HeadSleep, TurnSleep;
    ProducerOnly(k, s, s.(producer := WakeProducer(s.producer)));
  }

  lemma WakeWorkerInv(k: Config, s: State, i: nat)
    requires k.Valid() && Inv(k, s) && i < |s.workers|
    ensures Inv(k, s.(workers := s.workers[i := WakeWorker(s.workers[i])]))
  {
    hide Behind, Covered, Output, Log, Ring, IsCompleted, Prefix, OtherFirst, Client;
    var w := s.workers[i];
    assert Holds(k, s.blocks, s.done, w);
    if w.Asleep() {
      NoOutput(k, s, i, WakeWorker(w));
    } else {
      assert s.workers[i := w] == s.workers;
    }
  }

  lemma SpuriousWakeInv(k: Config, s: State, s': State)
    requires k.Valid() && Inv(k, s) && SpuriousWake(s, s')
    ensures Inv(k, s')
  {
    WakeProducerInv(k, s);
    if s' != s.(producer := WakeProducer(s.producer)) {
      var i :| 0 <= i < |s.workers| && s' == s.(workers := s.workers[i := WakeWorker(s.workers[i])]);
      WakeWorkerInv(k, s, i);
    }
  }

  lemma ProducerStepInv(k: Config, s: State, s': State)
    requires k.Valid() && Inv(k, s) && ProducerStep(k, s, s')
    ensures Inv(k, s')
  {
    if NeedSpace(s, s') { NeedSpaceInv(k, s, s'); }
    else if EndWrite(k, s, s') { EndWriteInv(k, s, s'); }
    else if EnterReserve(k, s, s') { EnterReserveInv(k, s, s'); }
    else if RetryReserve(k, s, s') { RetryReserveInv(k, s, s'); }
    else if CallClose(s, s') { CallCloseInv(k, s, s'); }
    else if BeginClosing(s, s') { BeginClosingInv(k, s, s'); }
    else if Join(s, s') { JoinInv(k, s, s'); }
    else if n :| CopySome(k, s, s', n) { CopySomeInv(k, s, s', n); }
    else { var data :| CallWrite(s, s', data); CallWriteInv(k, s, s', data); }
  }

  lemma WorkerStepInv(k: Config, s: State, s': State, i: nat)
    requires k.Valid() && Inv(k, s) && WorkerStep(k, s, s', i)
    ensures Inv(k, s')
  {
    if Dispatch(k, s, s', i) { DispatchInv(k, s, s', i); }
    else if HeadExit(k, s, s', i) { HeadExitInv(k, s, s', i); }
    else if HeadWait(k, s, s', i) { HeadWaitInv(k, s, s', i); }
    else if Compressed(k, s, s', i) { CompressedInv(k, s, s', i); }
    else if CompressFailed(s, s', i) { CompressFailedInv(k, s, s', i); }
    else if TurnDrop(s, s', i) { TurnDropInv(k, s, s', i); }
    else if TurnWait(s, s', i) { TurnWaitInv(k, s, s', i); }
    else if TurnGo(s, s', i) { TurnGoInv(k, s, s', i); }
    else if WriteDone(s, s', i) { WriteDoneInv(k, s, s', i); }
    else if n :| CompressSome(k, s, s', i, n) { CompressSomeInv(k, s, s', i, n); }
    else { var n :| WriteSome(s, s', i, n); WriteSomeInv(k, s, s', i, n); }
  }

  /** Every step of every thread, under any interleaving, keeps the invariant. */
  lemma NextInv(k: Config, s: State, s': State)
    requires k.Valid() && Inv(k, s) && Next(k, s, s')
    ensures Inv(k, s')
  {
    if ProducerStep(k, s, s') {
      ProducerStepInv(k, s, s');
    } else if SpuriousWake(s, s') {
      SpuriousWakeInv(k, s, s');
    } else {
      var i :| WorkerStep(k, s, s', i);
      WorkerStepInv(k, s, s', i);
    }
  }

  lemma {:induction false} RunInv(k: Config, run: seq<State>)
    requires k.Valid() && IsRun(k, run)
    ensures Inv(k, run[|run| - 1])
  {
    var n := |run| - 1;
    if n == 0 {
      InitInv(k, run[0]);
    } else {
      assert Next(k, run[n - 1], run[n]);
      RunInv(k, run[..n]);
      NextInv(k, run[n - 1], run[n]);
    }
  }

  lemma ReachableInv(k: Config, s: State)
    requires k.Valid() && Reachable(k, s)
    ensures Inv(k, s)
  {
    var run :| IsRun(k, run) && run[|run| - 1] == s;
    RunInv(k, run);
  }
}

/** What the invariant means: ring safety, ordered output, no lost wake-up, and a complete file. */
module WriterTheorems {
  import opened Common
  import opened TraceFormat
  import opened RingArithmetic
  import opened CompressedWriter
  import opened WriterInvariant
  import opened WriterSteps
  import opened WriterProducer

  // ---------------------------------------------------------------- ring safety

  /**
   Stream position `q` will still be read from the ring: it is not dispatched yet, or a thread is
   not done reading it.
   */
  ghost predicate StillNeeded(s: State, q: nat) {
    || s.nextPos <= q < s.writePos
    || exists i :: 0 <= i < |s.workers| && s.workers[i].Compressing?
                   && s.workers[i].pos + |s.workers[i].got| <= q < s.workers[i].pos + s.workers[i].len
  }

  /**
   The producer may write positions up to `upto_pos` without the lock, and none of them shares a
   place with a byte still needed.
   */
  lemma RingSafety(k: Config, s: State, p: nat, q: nat)
    requires k.Valid() && Reachable(k, s)
    requires s.writePos <= p < s.uptoPos && StillNeeded(s, q)
    ensures q < p && |s.buffer| == k.capacity && q < |s.stream|
    ensures s.buffer[Place(q, k.capacity)] == s.stream[q]
    ensures Place(p, k.capacity) != Place(q, k.capacity)
  {
    ReachableInv(k, s);
    if !(s.nextPos <= q < s.writePos) {
      var i :| 0 <= i < |s.workers| && s.workers[i].Compressing?
               && s.workers[i].pos + |s.workers[i].got| <= q < s.workers[i].pos + s.workers[i].len;
      assert Holds(k, s.blocks, s.done, s.workers[i]);
      assert Piece(k, s.stream, s.nextPos, s.blocks[s.workers[i].ticket]);
    }
    PlaceDistinct(q, p, k.capacity);
  }

  /** The order of the positions, in every reachable state. */
  lemma PositionsOrdered(k: Config, s: State)
    requires k.Valid() && Reachable(k, s)
    ensures s.nextPos <= s.endPos <= s.writePos <= s.uptoPos <= s.nextPos + k.capacity
    ensures forall i :: 0 <= i < |s.workers| && s.workers[i].Active() ==>
              s.workers[i].pos < s.nextPos && s.uptoPos <= s.workers[i].pos + k.capacity
  {
    ReachableInv(k, s);
    forall i | 0 <= i < |s.workers| && s.workers[i].Active() ensures s.workers[i].pos < s.nextPos {
      assert Holds(k, s.blocks, s.done, s.workers[i]);
      assert Piece(k, s.stream, s.nextPos, s.blocks[s.workers[i].ticket]);
    }
  }

  // ---------------------------------------------------------------- output

  /** What was dispatched is the stream cut into blocks. */
  lemma DispatchedIsChop(k: Config, s: State)
    requires k.Valid() && Inv(k, s)
    ensures Data(s.blocks) == Chop(s.stream[..s.nextPos], k.blockSize)
  {
    assert Blocked(Data(s.blocks), k.blockSize) by {
      forall t | 0 <= t < |s.blocks| ensures 0 < |Data(s.blocks)[t]| <= k.blockSize {
        assert Piece(k, s.stream, s.nextPos, s.blocks[t]);
      }
    }
    ChopUnique(Data(s.blocks), k.blockSize);
  }

  lemma {:induction false} FilePrefix(c: Codec, blocks: seq<seq<byte>>, n: nat)
    requires n <= |blocks|
    ensures FileOf(c, blocks[..n]) <= FileOf(c, blocks)
  {
    if n == |blocks| {
      assert blocks[..n] == blocks;
    } else {
      var init := blocks[..|blocks| - 1];
      FilePrefix(c, init, n);
      assert init[..n] == blocks[..n];
    }
  }

  /**
   With or without a write error, one thread writes at a time, and the file is a prefix of the
   frames of consecutive blocks in stream order.
   */
  lemma InOrderOutput(k: Config, s: State)
    requires k.Valid() && Reachable(k, s)
    ensures forall i, j :: 0 <= i < |s.workers| && 0 <= j < |s.workers| ==>
              s.workers[i].Writing? && s.workers[j].Writing? ==> i == j
    ensures s.nextPos <= |s.stream| && s.file <= FileOf(k.codec, Chop(s.stream[..s.nextPos], k.blockSize))
  {
    ReachableInv(k, s);
    forall i, j | 0 <= i < |s.workers| && 0 <= j < |s.workers| && s.workers[i].Writing? && s.workers[j].Writing?
      ensures i == j
    {
      OneWriter(k, s.workers, s.blocks, s.done, i, j);
    }
    DispatchedIsChop(k, s);
    FileIsPrefix(k, s);
  }

  lemma PrefixOfAll(k: Config, blocks: seq<Block>, n: nat)
    requires n <= |blocks|
    ensures Prefix(k, blocks, n) <= FileOf(k.codec, Data(blocks))
  {
    assert Data(blocks[..n]) == Data(blocks)[..n];
    FilePrefix(k.codec, Data(blocks), n);
  }

  lemma FileIsPrefix(k: Config, s: State)
    requires Work(k, s.workers, s.blocks, s.done) && Output(s.workers, Prefix(k, s.blocks, s.done), s.file)
    ensures s.file <= FileOf(k.codec, Data(s.blocks))
  {
    PrefixOfAll(k, s.blocks, s.done);
    if i :| 0 <= i < |s.workers| && s.workers[i].Writing? {
      assert Holds(k, s.blocks, s.done, s.workers[i]);
      PrefixStep(k, s.blocks, s.done);
      PrefixOfAll(k, s.blocks, s.done + 1);
    }
  }

  lemma NothingInFlight(k: Config, s: State)
    requires k.Valid() && Inv(k, s) && s.producer.Closed? && !s.error
    ensures s.nextPos == |s.stream| && s.done == |s.blocks| && s.submitted == s.stream
    ensures s.file == Prefix(k, s.blocks, s.done)
  {
    assert s.workers[0].Exited?;
    assert !Owned(s.workers, s.done);
  }

  /** Once `close` has returned and `good()` still holds, the file holds all that was ever passed to `write`. */
  lemma ClosedFile(k: Config, s: State)
    requires k.Valid() && Reachable(k, s)
    requires s.producer.Closed? && !s.error
    ensures s.file == FileOf(k.codec, Chop(s.submitted, k.blockSize))
  {
    ReachableInv(k, s);
    NothingInFlight(k, s);
    DispatchedIsChop(k, s);
    assert s.blocks[..s.done] == s.blocks && s.stream[..s.nextPos] == s.stream;
  }

  // ---------------------------------------------------------------- no lost wake-up, no deadlock

  lemma {:induction false} CompletedExists(ws: seq<Worker>, next: nat) returns (c: nat)
    requires forall i :: 0 <= i < |ws| && ws[i].Active() ==> ws[i].pos <= next
    ensures IsCompleted(ws, next, c)
  {
    if ws == [] {
      c := next;
    } else {
      var n := |ws| - 1;
      c := CompletedExists(ws[..n], next);
      if ws[n].Active() && ws[n].pos < c { c := ws[n].pos; }
      else if c != next {
        var i :| 0 <= i < n && ws[..n][i].Active() && ws[..n][i].pos == c;
        assert ws[i].Active() && ws[i].pos == c;
      }
    }
  }

  /** A thread is ready to run: it is neither asleep nor gone. */
  predicate Runnable(w: Worker) { !w.Asleep() && !w.Exited? }

  /** The thread at the earliest position is not waiting for anybody. */
  lemma FirstIsRunnable(ws: seq<Worker>, next: nat, writeError: bool) returns (i: nat)
    requires TurnSleep(ws, writeError)
    requires forall i :: 0 <= i < |ws| && ws[i].Active() ==> ws[i].pos < next
    requires exists i :: 0 <= i < |ws| && ws[i].Active()
    ensures i < |ws| && Runnable(ws[i])
  {
    var c := CompletedExists(ws, next);
    i :| 0 <= i < |ws| && ws[i].Active() && ws[i].pos == c;
  }

  /**
   In every reachable state in which the producer waits for space or for the threads to end, some
   live thread is awake.
   */
  lemma NoLostWakeup(k: Config, s: State) returns (i: nat)
    requires k.Valid() && Reachable(k, s)
    requires s.producer.Asleep? || (s.producer.Joining? && exists j :: 0 <= j < |s.workers| && !s.workers[j].Exited?)
    ensures i < |s.workers| && Runnable(s.workers[i])
  {
    hide Reachable, Inv;
    ReachableInv(k, s);
    i := SomebodyAwake(k, s);
  }

  lemma SomebodyAwake(k: Config, s: State) returns (i: nat)
    requires k.Valid() && Inv(k, s)
    requires s.producer.Asleep? || (s.producer.Joining? && exists j :: 0 <= j < |s.workers| && !s.workers[j].Exited?)
    ensures i < |s.workers| && Runnable(s.workers[i])
  {
    forall j | 0 <= j < |s.workers| && s.workers[j].Active() ensures s.workers[j].pos < s.nextPos {
      assert Holds(k, s.blocks, s.done, s.workers[j]);
      assert Piece(k, s.stream, s.nextPos, s.blocks[s.workers[j].ticket]);
    }
    if exists j :: 0 <= j < |s.workers| && s.workers[j].Active() {
      i := FirstIsRunnable(s.workers, s.nextPos, s.writeError);
    } else if s.producer.Asleep? {
      i := 0;
      assert !s.workers[0].Active();
    } else {
      i :| 0 <= i < |s.workers| && !s.workers[i].Exited?;
    }
  }
}

/** Every step of every thread preserves the invariant. */
module WriterSteps {
  import opened Common
  import opened TraceFormat
  import opened RingArithmetic
  import opened CompressedWriter
  import opened WriterInvariant

  // ---------------------------------------------------------------- the ring

  /** What is read out of the ring is the stream. */
  lemma RingRead(k: Config, buffer: seq<byte>, stream: seq<byte>, p: nat, n: nat)
    requires k.capacity > 0 && Ring(k, buffer, stream)
    requires Place(p, k.capacity) + n <= k.capacity && |stream| - k.capacity <= p && p + n <= |stream|
    ensures buffer[Place(p, k.capacity)..Place(p, k.capacity) + n] == stream[p..p + n]
  {
    var off := Place(p, k.capacity);
    var read, wanted := buffer[off..off + n], stream[p..p + n];
    forall j | 0 <= j < n ensures read[j] == wanted[j] {
      PlaceStep(p, j, k.capacity);
      assert buffer[Place(p + j, k.capacity)] == stream[p + j];
    }
  }

  /** Copying more of the stream in keeps the rest of the last `capacity` bytes. */
  lemma RingWrite(k: Config, buffer: seq<byte>, stream: seq<byte>, chunk: seq<byte>)
    requires k.capacity > 0 && Ring(k, buffer, stream)
    requires Place(|stream|, k.capacity) + |chunk| <= k.capacity
    ensures Ring(k, Overwrite(buffer, Place(|stream|, k.capacity), chunk), stream + chunk)
  {
    hide Place;
    var buffer', stream' := Overwrite(buffer, Place(|stream|, k.capacity), chunk), stream + chunk;
    forall p: nat | |stream'| - k.capacity <= p < |stream'| ensures buffer'[Place(p, k.capacity)] == stream'[p] {
      PlaceOfCopy(|stream|, |chunk|, k.capacity, p);
      if p < |stream| { assert buffer[Place(p, k.capacity)] == stream[p]; }
    }
  }

  // ---------------------------------------------------------------- compressor threads

  /** A thread that keeps its block, or has none before and after; it may be writing. */
  lemma SameBlock(k: Config, s: State, i: nat, w: Worker, file: seq<byte>)
    requires k.Valid() && Inv(k, s) && i < |s.workers|
    requires Continues(s.workers[i], w) && Continues(w, s.workers[i]) && Holds(k, s.blocks, s.done, w)
    requires Output(s.workers[i := w], Prefix(k, s.blocks, s.done), file)
    requires w.TurnAsleep? ==> !s.writeError && OtherFirst(s.workers, w.pos)
    requires w.HeadAsleep? ==> NothingToDo(k, s)
    requires w.Exited? ==> MayExit(s)
    requires s.workers[i].Exited? ==> w.Exited?
    ensures Inv(k, s.(workers := s.workers[i := w], file := file))
  {
    hide Behind, Work, Covered, Output, Log, Ring, TurnSleep, Holds, IsCompleted, Prefix, OtherFirst;
    BehindUpdate(k, s.workers, s.uptoPos, i, w);
    WorkUpdate(k, s.workers, s.blocks, s.done, i, w);
    if !s.writeError { CoveredUpdate(s.workers, s.done, |s.blocks|, i, w); }
    TurnSleepUpdate(s.workers, s.writeError, i, w);
    if s.producer.Asleep? {
      var c: nat :| IsCompleted(s.workers, s.nextPos, c) && c + k.capacity <= s.endPos;
      CompletedUpdate(s.workers, s.nextPos, c, i, w);
    }
  }

  /** The same for a thread that neither starts nor stops writing. */
  lemma NoOutput(k: Config, s: State, i: nat, w: Worker)
    requires k.Valid() && Inv(k, s) && i < |s.workers|
    requires Continues(s.workers[i], w) && Continues(w, s.workers[i]) && Holds(k, s.blocks, s.done, w)
    requires !s.workers[i].Writing? && !w.Writing?
    requires w.TurnAsleep? ==> !s.writeError && OtherFirst(s.workers, w.pos)
    requires w.HeadAsleep? ==> NothingToDo(k, s)
    requires w.Exited? ==> MayExit(s)
    requires s.workers[i].Exited? ==> w.Exited?
    ensures Inv(k, s.(workers := s.workers[i := w]))
  {
    OutputUpdate(s.workers, Prefix(k, s.blocks, s.done), s.file, i, w);
    SameBlock(k, s, i, w, s.file);
  }

  lemma HeadExitInv(k: Config, s: State, s': State, i: nat)
    requires k.Valid() && Inv(k, s) && HeadExit(k, s, s', i)
    ensures Inv(k, s')
  {
    NoOutput(k, s, i, Exited);
  }

  lemma HeadWaitInv(k: Config, s: State, s': State, i: nat)
    requires k.Valid() && Inv(k, s) && HeadWait(k, s, s', i)
    ensures Inv(k, s')
  {
    NoOutput(k, s, i, HeadAsleep);
  }

  lemma SliceOn(stream: seq<byte>, pos: nat, data: seq<byte>, got: nat, n: nat)
    requires pos + |data| <= |stream| && data == stream[pos..pos + |data|] && got + n <= |data|
    ensures data[..got] + stream[pos + got..pos + got + n] == data[..got + n]
  {
  }

  /** The next bytes a thread reads are the next bytes of its block. */
  lemma ReadOn(k: Config, s: State, w: Worker, n: nat)
    requires k.capacity > 0 && Ring(k, s.buffer, s.stream)
    requires w.Compressing? && Holds(k, s.blocks, s.done, w) && Piece(k, s.stream, s.nextPos, s.blocks[w.ticket])
    requires |s.stream| <= w.pos + k.capacity
    requires |w.got| + n <= w.len && Place(w.pos + |w.got|, k.capacity) + n <= k.capacity
    ensures var off := Place(w.pos + |w.got|, k.capacity);
      Holds(k, s.blocks, s.done, w.(got := w.got + s.buffer[off..off + n]))
  {
    var p := w.pos + |w.got|;
    RingRead(k, s.buffer, s.stream, p, n);
    SliceOn(s.stream, w.pos, s.blocks[w.ticket].data, |w.got|, n);
  }

  /** The thread's new state, and that it still holds its block. */
  lemma AfterRead(k: Config, s: State, s': State, i: nat, n: nat) returns (w': Worker)
    requires CompressSome(k, s, s', i, n)
    requires Ring(k, s.buffer, s.stream) && Holds(k, s.blocks, s.done, s.workers[i])
    requires Piece(k, s.stream, s.nextPos, s.blocks[s.workers[i].ticket])
    requires |s.stream| <= s.workers[i].pos + k.capacity
    ensures s' == s.(workers := s.workers[i := w'])
    ensures w'.Compressing? && Continues(s.workers[i], w') && Holds(k, s.blocks, s.done, w')
  {
    var w := s.workers[i];
    var off := Place(w.pos + |w.got|, k.capacity);
    w' := w.(got := w.got + s.buffer[off..off + n]);
    ReadOn(k, s, w, n);
  }

  lemma CompressSomeInv(k: Config, s: State, s': State, i: nat, n: nat)
    requires k.Valid() && Inv(k, s) && CompressSome(k, s, s', i, n)
    ensures Inv(k, s')
  {
    assert Holds(k, s.blocks, s.done, s.workers[i]);
    var w' := AfterRead(k, s, s', i, n);
    NoOutput(k, s, i, w');
  }

  lemma CompressedInv(k: Config, s: State, s': State, i: nat)
    requires k.Valid() && Inv(k, s) && Compressed(k, s, s', i)
    ensures Inv(k, s')
  {
    var w := s.workers[i];
    assert Holds(k, s.blocks, s.done, w);
    assert w.got == s.blocks[w.ticket].data;
    NoOutput(k, s, i, s'.workers[i]);
  }

  lemma TurnWaitInv(k: Config, s: State, s': State, i: nat)
    requires k.Valid() && Inv(k, s) && TurnWait(s, s', i)
    ensures Inv(k, s')
  {
    assert Holds(k, s.blocks, s.done, s.workers[i]);
    NoOutput(k, s, i, s'.workers[i]);
  }

  /** A thread gives its block up after an error. */
  lemma GiveUp(k: Config, s: State, i: nat)
    requires k.Valid() && Inv(k, s) && i < |s.workers| && s.workers[i].Active() && !s.workers[i].Writing?
    ensures Inv(k, Broadcast(s.(workers := s.workers[i := Head], writeError := true)))
  {
    BehindUpdate(k, s.workers, s.uptoPos, i, Head);
    WorkUpdate(k, s.workers, s.blocks, s.done, i, Head);
    OutputUpdate(s.workers, Prefix(k, s.blocks, s.done), s.file, i, Head);
    NotClosed(s, i);
    BroadcastInv(k, s.(workers := s.workers[i := Head], writeError := true));
  }

  lemma CompressFailedInv(k: Config, s: State, s': State, i: nat)
    requires k.Valid() && Inv(k, s) && CompressFailed(s, s', i)
    ensures Inv(k, s')
  {
    GiveUp(k, s, i);
  }

  lemma TurnDropInv(k: Config, s: State, s': State, i: nat)
    requires k.Valid() && Inv(k, s) && TurnDrop(s, s', i)
    ensures Inv(k, s')
  {
    GiveUp(k, s, i);
  }

  /** The thread whose turn it is holds the first unfinished block, and nobody else is writing. */
  lemma FirstInLine(k: Config, ws: seq<Worker>, blocks: seq<Block>, done: nat, i: nat)
    requires Work(k, ws, blocks, done) && Covered(ws, done, |blocks|)
    requires forall t, u :: 0 <= t < u < |blocks| ==> blocks[t].pos < blocks[u].pos
    requires i < |ws| && ws[i].Turn? && !OtherFirst(ws, ws[i].pos)
    ensures ws[i].ticket == done && forall j :: 0 <= j < |ws| ==> !ws[j].Writing?
  {
    assert Holds(k, blocks, done, ws[i]);
    assert Owned(ws, done);
    var m :| 0 <= m < |ws| && ws[m].Active() && ws[m].ticket == done;
    assert Holds(k, blocks, done, ws[m]);
    forall j | 0 <= j < |ws| ensures !ws[j].Writing? {
      assert Holds(k, blocks, done, ws[j]);
    }
  }

  lemma StartWriting(k: Config, ws: seq<Worker>, finished: seq<byte>, file: seq<byte>, i: nat, w: Worker)
    requires Output(ws, finished, file) && i < |ws| && w.Writing? && w.sent == 0
    requires forall j :: 0 <= j < |ws| ==> !ws[j].Writing?
    ensures Output(ws[i := w], finished, file)
  {
    var ws' := ws[i := w];
    assert ws'[i].Writing?;
  }

  lemma TurnGoInv(k: Config, s: State, s': State, i: nat)
    requires k.Valid() && Inv(k, s) && TurnGo(s, s', i)
    ensures Inv(k, s')
  {
    var w := s.workers[i];
    assert Holds(k, s.blocks, s.done, w);
    FirstInLine(k, s.workers, s.blocks, s.done, i);
    var w' := Writing(w.pos, w.ticket, w.frame, 0);
    StartWriting(k, s.workers, Prefix(k, s.blocks, s.done), s.file, i, w');
    SameBlock(k, s, i, w', s.file);
  }

  // ---------------------------------------------------------------- output

  /** At most one thread is in the unlocked write. */
  lemma OneWriter(k: Config, ws: seq<Worker>, blocks: seq<Block>, done: nat, i: nat, j: nat)
    requires Work(k, ws, blocks, done)
    requires i < |ws| && j < |ws| && ws[i].Writing? && ws[j].Writing?
    ensures i == j
  {
    assert Holds(k, blocks, done, ws[i]) && Holds(k, blocks, done, ws[j]);
  }

  lemma WriteOn(k: Config, ws: seq<Worker>, blocks: seq<Block>, done: nat, finished: seq<byte>, file: seq<byte>,
                i: nat, n: nat)
    requires Work(k, ws, blocks, done) && Output(ws, finished, file)
    requires i < |ws| && ws[i].Writing? && ws[i].sent + n <= |ws[i].frame|
    ensures Output(ws[i := ws[i].(sent := ws[i].sent + n)], finished,
                   file + ws[i].frame[ws[i].sent..ws[i].sent + n])
  {
    var w := ws[i];
    var w' := w.(sent := w.sent + n);
    var ws' := ws[i := w'];
    assert w.frame[..w.sent] + w.frame[w.sent..w.sent + n] == w.frame[..w.sent + n];
    forall j | 0 <= j < |ws'| && ws'[j].Writing? ensures j == i {
      OneWriter(k, ws, blocks, done, i, j);
    }
    assert ws'[i].Writing?;
  }

  lemma AfterWrite(k: Config, s: State, s': State, i: nat, n: nat) returns (w': Worker)
    requires WriteSome(s, s', i, n) && Work(k, s.workers, s.blocks, s.done)
    requires Output(s.workers, Prefix(k, s.blocks, s.done), s.file)
    ensures s' == s.(workers := s.workers[i := w'], file := s'.file)
    ensures w'.Writing? && Continues(s.workers[i], w') && Holds(k, s.blocks, s.done, w')
    ensures Output(s.workers[i := w'], Prefix(k, s.blocks, s.done), s'.file)
  {
    var w := s.workers[i];
    w' := w.(sent := w.sent + n);
    assert Holds(k, s.blocks, s.done, w);
    WriteOn(k, s.workers, s.blocks, s.done, Prefix(k, s.blocks, s.done), s.file, i, n);
  }

  lemma WriteSomeInv(k: Config, s: State, s': State, i: nat, n: nat)
    requires k.Valid() && Inv(k, s) && WriteSome(s, s', i, n)
    ensures Inv(k, s')
  {
    var w' := AfterWrite(k, s, s', i, n);
    SameBlock(k, s, i, w', s'.file);
  }

  lemma PrefixStep(k: Config, blocks: seq<Block>, done: nat)
    requires done < |blocks|
    ensures Prefix(k, blocks, done + 1) == Prefix(k, blocks, done) + Frame(k.codec, blocks[done].data)
  {
    var d := Data(blocks[..done + 1]);
    assert d[..done] == Data(blocks[..done]);
  }

  /** The other threads are all past a finished block. */
  lemma FinishBlock(k: Config, ws: seq<Worker>, blocks: seq<Block>, done: nat, file: seq<byte>, i: nat)
    requires Work(k, ws, blocks, done) && Output(ws, Prefix(k, blocks, done), file)
    requires i < |ws| && ws[i].Writing? && ws[i].sent == |ws[i].frame|
    ensures Work(k, ws[i := Head], blocks, done + 1)
    ensures Output(ws[i := Head], Prefix(k, blocks, done + 1), file)
  {
    var ws' := ws[i := Head];
    assert Holds(k, blocks, done, ws[i]);
    PrefixStep(k, blocks, done);
    assert ws[i].frame[..ws[i].sent] == ws[i].frame;
    forall j | 0 <= j < |ws'| ensures Holds(k, blocks, done + 1, ws'[j]) && !ws'[j].Writing? {
      assert Holds(k, blocks, done, ws[j]);
      if j != i && ws[j].Writing? { OneWriter(k, ws, blocks, done, i, j); }
    }
  }

  lemma NotClosed(s: State, i: nat)
    requires Client(s) && i < |s.workers| && !s.workers[i].Exited?
    ensures !s.producer.Closed?
  {
  }

  lemma FinishCore(k: Config, s: State, i: nat)
    requires k.Valid() && Inv(k, s) && i < |s.workers| && s.workers[i].Writing?
    requires s.workers[i].sent == |s.workers[i].frame|
    ensures Core(k, s.(workers := s.workers[i := Head], done := s.done + 1))
  {
    assert Holds(k, s.blocks, s.done, s.workers[i]);
    BehindUpdate(k, s.workers, s.uptoPos, i, Head);
    FinishBlock(k, s.workers, s.blocks, s.done, s.file, i);
    if !s.writeError { CoveredUpdate(s.workers, s.done + 1, |s.blocks|, i, Head); }
    NotClosed(s, i);
  }

  lemma WriteDoneInv(k: Config, s: State, s': State, i: nat)
    requires k.Valid() && Inv(k, s) && WriteDone(s, s', i)
    ensures Inv(k, s')
  {
    FinishCore(k, s, i);
    BroadcastInv(k, s.(workers := s.workers[i := Head], done := s.done + 1));
  }

  // ---------------------------------------------------------------- dispatch

  lemma DataSnoc(blocks: seq<Block>, b: Block)
    ensures Flatten(Data(blocks + [b])) == Flatten(Data(blocks)) + b.data
  {
    var d := Data(blocks + [b]);
    assert d[..|d| - 1] == Data(blocks);
  }

  lemma PiecesDispatch(k: Config, blocks: seq<Block>, stream: seq<byte>, next: nat, b: Block)
    requires forall t :: 0 <= t < |blocks| ==> Piece(k, stream, next, blocks[t])
    requires b.pos == next && Piece(k, stream, next + |b.data|, b)
    ensures forall t :: 0 <= t < |blocks + [b]| ==> Piece(k, stream, next + |b.data|, (blocks + [b])[t])
  {
    forall t | 0 <= t < |blocks + [b]| ensures Piece(k, stream, next + |b.data|, (blocks + [b])[t]) {
      if t < |blocks| { assert Piece(k, stream, next, blocks[t]); }
    }
  }

  lemma OrderDispatch(k: Config, blocks: seq<Block>, stream: seq<byte>, next: nat, b: Block)
    requires Log(k, blocks, stream, next, false) && b.pos == next
    ensures var all := blocks + [b];
      && (forall t, u :: 0 <= t < u < |all| ==> all[t].pos + |all[t].data| <= all[u].pos)
      && (forall t :: 0 <= t < |all| - 1 ==> |all[t].data| == k.blockSize)
  {
    forall t | 0 <= t < |blocks| ensures blocks[t].pos + |blocks[t].data| <= next {
      assert Piece(k, stream, next, blocks[t]);
    }
  }

  lemma LogDispatch(k: Config, blocks: seq<Block>, stream: seq<byte>, next: nat, next': nat, final: bool)
    requires Log(k, blocks, stream, next, false)
    requires next < next' <= |stream| && next' <= next + k.blockSize
    requires final || next' == next + k.blockSize
    ensures Log(k, blocks + [Block(next, stream[next..next'])], stream, next', final)
  {
    var b := Block(next, stream[next..next']);
    PiecesDispatch(k, blocks, stream, next, b);
    OrderDispatch(k, blocks, stream, next, b);
    DataSnoc(blocks, b);
    assert stream[..next] + stream[next..next'] == stream[..next'];
  }

  lemma WorkDispatch(k: Config, ws: seq<Worker>, blocks: seq<Block>, done: nat, i: nat, b: Block)
    requires Work(k, ws, blocks, done) && i < |ws| && !ws[i].Active()
    ensures Work(k, ws[i := Compressing(b.pos, |blocks|, |b.data|, [])], blocks + [b], done)
  {
    var ws' := ws[i := Compressing(b.pos, |blocks|, |b.data|, [])];
    forall j | 0 <= j < |ws'| ensures Holds(k, blocks + [b], done, ws'[j]) {
      if j != i { assert Holds(k, blocks, done, ws[j]); }
    }
    forall j, m | 0 <= j < m < |ws'| && ws'[j].Active() && ws'[m].Active() ensures ws'[j].ticket != ws'[m].ticket {
      assert Holds(k, blocks, done, ws[j]) && Holds(k, blocks, done, ws[m]);
    }
  }

  lemma CoveredDispatch(ws: seq<Worker>, done: nat, dispatched: nat, i: nat, w: Worker)
    requires Covered(ws, done, dispatched) && i < |ws| && !ws[i].Active() && w.Active() && w.ticket == dispatched
    ensures Covered(ws[i := w], done, dispatched + 1)
  {
    var ws' := ws[i := w];
    forall t: nat | done <= t < dispatched + 1 ensures Owned(ws', t) {
      if t < dispatched {
        assert Owned(ws, t);
        var j :| 0 <= j < |ws| && ws[j].Active() && ws[j].ticket == t;
        assert ws'[j].Active();
      } else {
        assert ws'[i].Active();
      }
    }
  }

  /** A new block lies behind everything that sleeping threads and the producer wait for. */
  lemma SleepDispatch(ws: seq<Worker>, writeError: bool, i: nat, w: Worker)
    requires TurnSleep(ws, writeError) && i < |ws| && !ws[i].Active() && w.Compressing?
    ensures TurnSleep(ws[i := w], writeError)
  {
    var ws' := ws[i := w];
    forall j | 0 <= j < |ws'| && ws'[j].TurnAsleep? ensures OtherFirst(ws', ws'[j].pos) {
      assert OtherFirst(ws, ws[j].pos);
      var m :| 0 <= m < |ws| && ws[m].Active() && ws[m].pos < ws[j].pos;
      assert ws'[m].Active();
    }
  }

  lemma CompletedDispatch(ws: seq<Worker>, next: nat, next': nat, c: nat, i: nat, w: Worker)
    requires IsCompleted(ws, next, c) && next < next' && i < |ws| && !ws[i].Active() && w.Active() && w.pos == next
    ensures IsCompleted(ws[i := w], next', c)
  {
    var ws' := ws[i := w];
    assert ws'[i].pos == next;
    if c != next {
      var j :| 0 <= j < |ws| && ws[j].Active() && ws[j].pos == c;
      assert ws'[j].Active() && ws'[j].pos == c;
    }
  }

  lemma DispatchShape(k: Config, s: State, s': State, i: nat) returns (b: Block, w: Worker)
    requires k.Valid() && Dispatch(k, s, s', i)
    ensures b == Block(s.nextPos, s.stream[s.nextPos..s'.nextPos])
    ensures w == Compressing(s.nextPos, |s.blocks|, |b.data|, [])
    ensures s' == s.(workers := s.workers[i := w], nextPos := s'.nextPos, blocks := s.blocks + [b])
    ensures s.nextPos < s'.nextPos <= s.endPos && (s'.nextPos == s.nextPos + k.blockSize || Final(s'))
    ensures s'.nextPos <= s.nextPos + k.blockSize && s'.nextPos <= |s.stream|
    ensures MayExit(s) ==> MayExit(s')
    ensures NothingToDo(k, s) ==> NothingToDo(k, s')
  {
    b := Block(s.nextPos, s.stream[s.nextPos..s'.nextPos]);
    w := Compressing(s.nextPos, |s.blocks|, |b.data|, []);
  }

  lemma DispatchSleep(k: Config, s: State, s': State, i: nat)
    requires k.Valid() && Inv(k, s) && Dispatch(k, s, s', i)
    ensures Sleep(k, s')
  {
    var b, w := DispatchShape(k, s, s', i);
    SleepDispatch(s.workers, s.writeError, i, w);
    if s.producer.Asleep? {
      var c: nat :| IsCompleted(s.workers, s.nextPos, c) && c + k.capacity <= s.endPos;
      CompletedDispatch(s.workers, s.nextPos, s'.nextPos, c, i, w);
    }
  }

  lemma DispatchLog(k: Config, s: State, s': State, i: nat)
    requires k.Valid() && Inv(k, s) && Dispatch(k, s, s', i)
    ensures Log(k, s'.blocks, s'.stream, s'.nextPos, Final(s'))
  {
    var b, w := DispatchShape(k, s, s', i);
    LogDispatch(k, s.blocks, s.stream, s.nextPos, s'.nextPos, Final(s'));
  }

  lemma DispatchThreads(k: Config, s: State, s': State, i: nat)
    requires k.Valid() && Inv(k, s) && Dispatch(k, s, s', i)
    ensures Work(k, s'.workers, s'.blocks, s'.done) && (!s'.writeError ==> Covered(s'.workers, s'.done, |s'.blocks|))
    ensures Output(s'.workers, Prefix(k, s'.blocks, s'.done), s'.file)
  {
    var b, w := DispatchShape(k, s, s', i);
    WorkDispatch(k, s.workers, s.blocks, s.done, i, b);
    if !s.writeError { CoveredDispatch(s.workers, s.done, |s.blocks|, i, w); }
    OutputUpdate(s.workers, Prefix(k, s.blocks, s.done), s.file, i, w);
    assert (s.blocks + [b])[..s.done] == s.blocks[..s.done];
  }

  lemma DispatchInv(k: Config, s: State, s': State, i: nat)
    requires k.Valid() && Inv(k, s) && Dispatch(k, s, s', i)
    ensures Inv(k, s')
  {
    hide Work, Covered, Output, Log, Ring, Holds, IsCompleted, Prefix, OtherFirst, Sleep;
    DispatchSleep(k, s, s', i);
    DispatchThreads(k, s, s', i);
    DispatchLog(k, s, s', i);
    var b, w := DispatchShape(k, s, s', i);
  }
}

/** What every step of the compressed writer keeps, one aspect of the state at a time. */
module WriterInvariant {
  import opened Common
  import opened TraceFormat
  import opened RingArithmetic
  import opened CompressedWriter

  /** No byte that a busy thread may still read is more than one ring behind `upto`. */
  ghost predicate Behind(k: Config, ws: seq<Worker>, upto: nat) {
    forall i :: 0 <= i < |ws| && ws[i].Active() ==> upto <= ws[i].pos + k.capacity
  }

  /** next_thread_pos <= next_thread_end_pos <= write_pos <= upto_pos <= next_thread_pos + ring size. */
  ghost predicate Positions(k: Config, s: State) {
    && |s.workers| == k.numThreads
    && s.nextPos <= s.endPos == s.reservedPos <= s.writePos <= s.uptoPos <= s.nextPos + k.capacity
    && |s.stream| == s.writePos
  }

  /** Block t of the log is a non-empty piece of the stream before `next`. */
  ghost predicate Piece(k: Config, stream: seq<byte>, next: nat, b: Block) {
    && 0 < |b.data| <= k.blockSize
    && b.pos + |b.data| <= next <= |stream|
    && b.data == stream[b.pos..b.pos + |b.data|]
  }

  /** The dispatched blocks tile the stream up to `next`; the last may be short only if it is final. */
  ghost predicate Log(k: Config, blocks: seq<Block>, stream: seq<byte>, next: nat, final: bool) {
    && (forall t :: 0 <= t < |blocks| ==> Piece(k, stream, next, blocks[t]))
    && (forall t, u :: 0 <= t < u < |blocks| ==> blocks[t].pos + |blocks[t].data| <= blocks[u].pos)
    && (forall t :: 0 <= t < |blocks| - 1 ==> |blocks[t].data| == k.blockSize)
    && (if blocks == [] then next == 0 else
          var last := blocks[|blocks| - 1];
          last.pos + |last.data| == next && (final || |last.data| == k.blockSize))
    && Flatten(Data(blocks)) == stream[..Min(next, |stream|)]
  }

  /** What a busy thread holds is its own block: read from the ring so far, or framed. */
  ghost predicate Holds(k: Config, blocks: seq<Block>, done: nat, w: Worker) {
    w.Active() ==>
      && done <= w.ticket < |blocks|
      && w.pos == blocks[w.ticket].pos
      && var data := blocks[w.ticket].data;
         && (w.Compressing? ==> w.len == |data| && |w.got| <= w.len && w.got == data[..|w.got|])
         && (w.Framed() ==> w.frame == Frame(k.codec, data))
         && (w.Writing? ==> w.ticket == done && w.sent <= |w.frame|)
  }

  ghost predicate Work(k: Config, ws: seq<Worker>, blocks: seq<Block>, done: nat) {
    && done <= |blocks|
    && (forall i :: 0 <= i < |ws| ==> Holds(k, blocks, done, ws[i]))
    && (forall i, j :: 0 <= i < j < |ws| && ws[i].Active() && ws[j].Active() ==> ws[i].ticket != ws[j].ticket)
  }

  ghost predicate Owned(ws: seq<Worker>, t: nat) {
    exists i :: 0 <= i < |ws| && ws[i].Active() && ws[i].ticket == t
  }

  /** Every dispatched block not yet in the file is in some thread's hands. */
  ghost predicate Covered(ws: seq<Worker>, done: nat, dispatched: nat) {
    forall t: nat :: done <= t < dispatched ==> Owned(ws, t)
  }

  function Prefix(k: Config, blocks: seq<Block>, done: nat): seq<byte>
    requires done <= |blocks|
  {
    FileOf(k.codec, Data(blocks[..done]))
  }

  /** The file is the frames of the finished blocks and the part of the next one its thread has written. */
  ghost predicate Output(ws: seq<Worker>, finished: seq<byte>, file: seq<byte>) {
    && (forall i :: 0 <= i < |ws| && ws[i].Writing? ==>
          ws[i].sent <= |ws[i].frame| && file == finished + ws[i].frame[..ws[i].sent])
    && ((forall i :: 0 <= i < |ws| ==> !ws[i].Writing?) ==> file == finished)
  }

  /** The last `capacity` bytes of the stream are in the ring, at their positions modulo its size. */
  ghost predicate Ring(k: Config, buffer: seq<byte>, stream: seq<byte>)
    requires k.capacity > 0
  {
    && |buffer| == k.capacity
    && forall p: nat :: |stream| - k.capacity <= p < |stream| ==> buffer[Place(p, k.capacity)] == stream[p]
  }

  /** No thread sleeps at the top of its loop while there is something for it to do there. */
  ghost predicate HeadSleep(ws: seq<Worker>, nothingToDo: bool) {
    forall i :: 0 <= i < |ws| && ws[i].HeadAsleep? ==> nothingToDo
  }

  /** No thread sleeps for its turn unless another one really is before it. */
  ghost predicate TurnSleep(ws: seq<Worker>, writeError: bool) {
    forall i :: 0 <= i < |ws| && ws[i].TurnAsleep? ==> !writeError && OtherFirst(ws, ws[i].pos)
  }

  predicate NothingToDo(k: Config, s: State) {
    !s.closing && (s.writeError || s.endPos < s.nextPos + k.blockSize)
  }

  /** The producer sleeps only while the ring is full. */
  ghost predicate ProducerSleep(k: Config, s: State) {
    s.producer.Asleep? ==>
      && !s.writeError && s.producer.wait
      && exists c: nat :: IsCompleted(s.workers, s.nextPos, c) && c + k.capacity <= s.endPos
  }

  function Pending(p: Producer): seq<byte> {
    match p
    case Copying(rest) => rest
    case Reserve(_, InWrite(rest)) => rest
    case Recheck(_, InWrite(rest)) => rest
    case Asleep(_, InWrite(rest)) => rest
    case _ => []
  }

  predicate Reserving(p: Producer) {
    p.Reserve? || p.Recheck? || p.Asleep?
  }

  ghost predicate Client(s: State) {
    && (s.error ==> s.writeError)
    && (!s.error ==> s.submitted == s.stream + Pending(s.producer))
    && (s.closing <==> s.producer.Joining? || s.producer.Closed?)
    && (s.producer.SetClosing? || s.closing ==> s.endPos == s.writePos)
    && (Reserving(s.producer) && !s.producer.Reserve? && s.producer.caller.InClose? ==> s.endPos == s.writePos)
    && (s.producer.Closed? ==> (s.error <==> s.writeError) && forall i :: 0 <= i < |s.workers| ==> s.workers[i].Exited?)
  }

  /** A thread leaves only when nothing remains to be dispatched. */
  ghost predicate Exits(ws: seq<Worker>, mayExit: bool) {
    forall i :: 0 <= i < |ws| && ws[i].Exited? ==> mayExit
  }

  predicate Final(s: State) { s.closing && s.nextPos == s.endPos }

  /** Everything except who may be asleep. */
  ghost predicate Core(k: Config, s: State)
    requires k.Valid()
  {
    && Positions(k, s)
    && Log(k, s.blocks, s.stream, s.nextPos, Final(s))
    && Ring(k, s.buffer, s.stream)
    && Behind(k, s.workers, s.uptoPos)
    && Work(k, s.workers, s.blocks, s.done)
    && (!s.writeError ==> Covered(s.workers, s.done, |s.blocks|))
    && Output(s.workers, Prefix(k, s.blocks, s.done), s.file)
    && Exits(s.workers, MayExit(s))
    && Client(s)
  }

  ghost predicate Sleep(k: Config, s: State) {
    && HeadSleep(s.workers, NothingToDo(k, s))
    && TurnSleep(s.workers, s.writeError)
    && ProducerSleep(k, s)
  }

  ghost predicate Inv(k: Config, s: State)
    requires k.Valid()
  {
    Core(k, s) && Sleep(k, s)
  }

  lemma InitInv(k: Config, s: State)
    requires k.Valid() && Init(k, s)
    ensures Inv(k, s)
  {
    assert Data(s.blocks[..0]) == [];
  }

  // ---------------------------------------------------------------- one thread changes

  /** The thread keeps its block or gives it up; it does not take a new one. */
  predicate Continues(w: Worker, w': Worker) {
    w'.Active() ==> w.Active() && w'.pos == w.pos && w'.ticket == w.ticket
  }

  lemma BehindUpdate(k: Config, ws: seq<Worker>, upto: nat, i: nat, w: Worker)
    requires Behind(k, ws, upto) && i < |ws| && Continues(ws[i], w)
    ensures Behind(k, ws[i := w], upto)
  {
  }

  lemma WorkUpdate(k: Config, ws: seq<Worker>, blocks: seq<Block>, done: nat, i: nat, w: Worker)
    requires Work(k, ws, blocks, done) && i < |ws| && Continues(ws[i], w) && Holds(k, blocks, done, w)
    ensures Work(k, ws[i := w], blocks, done)
  {
  }

  lemma CoveredUpdate(ws: seq<Worker>, done: nat, dispatched: nat, i: nat, w: Worker)
    requires Covered(ws, done, dispatched) && i < |ws| && Continues(ws[i], w)
    requires ws[i].Active() ==> w.Active() || ws[i].ticket < done
    ensures Covered(ws[i := w], done, dispatched)
  {
    var ws' := ws[i := w];
    forall t: nat | done <= t < dispatched ensures Owned(ws', t) {
      assert Owned(ws, t);
      var j :| 0 <= j < |ws| && ws[j].Active() && ws[j].ticket == t;
      assert ws'[j].Active();
    }
  }

  lemma OutputUpdate(ws: seq<Worker>, finished: seq<byte>, file: seq<byte>, i: nat, w: Worker)
    requires Output(ws, finished, file) && i < |ws| && !ws[i].Writing? && !w.Writing?
    ensures Output(ws[i := w], finished, file)
  {
    var ws' := ws[i := w];
    if forall j :: 0 <= j < |ws'| ==> !ws'[j].Writing? {
      forall j | 0 <= j < |ws| ensures !ws[j].Writing? { assert !ws'[j].Writing?; }
    }
  }

  /** Waiting for one's turn only depends on where the other threads are. */
  lemma TurnSleepUpdate(ws: seq<Worker>, writeError: bool, i: nat, w: Worker)
    requires TurnSleep(ws, writeError) && i < |ws| && Continues(ws[i], w)
    requires ws[i].Active() ==> w.Active()
    requires w.TurnAsleep? ==> !writeError && OtherFirst(ws, w.pos)
    ensures TurnSleep(ws[i := w], writeError)
  {
    var ws' := ws[i := w];
    forall j | 0 <= j < |ws'| && ws'[j].TurnAsleep? ensures OtherFirst(ws', ws'[j].pos) {
      assert OtherFirst(ws, ws'[j].pos);
      var m :| 0 <= m < |ws| && ws[m].Active() && ws[m].pos < ws'[j].pos;
      assert ws'[m].Active();
    }
  }

  lemma CompletedUpdate(ws: seq<Worker>, next: nat, c: nat, i: nat, w: Worker)
    requires IsCompleted(ws, next, c) && i < |ws| && Continues(ws[i], w) && Continues(w, ws[i])
    ensures IsCompleted(ws[i := w], next, c)
  {
    var ws' := ws[i := w];
    if c != next {
      var j :| 0 <= j < |ws| && ws[j].Active() && ws[j].pos == c;
      assert ws'[j].Active() && ws'[j].pos == c;
    }
  }

  // ---------------------------------------------------------------- everybody is woken

  lemma BehindWake(k: Config, ws: seq<Worker>, upto: nat)
    requires Behind(k, ws, upto)
    ensures Behind(k, WakeWorkers(ws), upto)
  {
  }

  lemma WorkWake(k: Config, ws: seq<Worker>, blocks: seq<Block>, done: nat)
    requires Work(k, ws, blocks, done)
    ensures Work(k, WakeWorkers(ws), blocks, done)
  {
    forall i | 0 <= i < |ws| ensures Holds(k, blocks, done, WakeWorkers(ws)[i]) {
      assert Holds(k, blocks, done, ws[i]);
    }
  }

  lemma CoveredWake(ws: seq<Worker>, done: nat, dispatched: nat)
    requires Covered(ws, done, dispatched)
    ensures Covered(WakeWorkers(ws), done, dispatched)
  {
    forall t: nat | done <= t < dispatched ensures Owned(WakeWorkers(ws), t) {
      assert Owned(ws, t);
      var j :| 0 <= j < |ws| && ws[j].Active() && ws[j].ticket == t;
      assert WakeWorkers(ws)[j] == WakeWorker(ws[j]);
    }
  }

  lemma OutputWake(ws: seq<Worker>, finished: seq<byte>, file: seq<byte>)
    requires Output(ws, finished, file)
    ensures Output(WakeWorkers(ws), finished, file)
  {
    if forall j :: 0 <= j < |ws| ==> !WakeWorkers(ws)[j].Writing? {
      forall j | 0 <= j < |ws| ensures !ws[j].Writing? { assert !WakeWorkers(ws)[j].Writing?; }
    }
  }

  /** After a broadcast nobody is asleep. */
  lemma NobodyAsleep(ws: seq<Worker>, b: bool)
    ensures HeadSleep(WakeWorkers(ws), b) && TurnSleep(WakeWorkers(ws), b)
  {
  }

  lemma ClientWake(s: State)
    requires Client(s)
    ensures Client(Broadcast(s))
  {
    if s.producer.Closed? {
      forall i | 0 <= i < |s.workers| ensures WakeWorkers(s.workers)[i].Exited? { assert s.workers[i].Exited?; }
    }
  }

  lemma BroadcastCore(k: Config, s: State)
    requires k.Valid() && Core(k, s)
    ensures Core(k, Broadcast(s))
  {
    hide Behind, Work, Covered, Output, Log, Ring, Client, Prefix;
    BehindWake(k, s.workers, s.uptoPos);
    WorkWake(k, s.workers, s.blocks, s.done);
    if !s.writeError { CoveredWake(s.workers, s.done, |s.blocks|); }
    OutputWake(s.workers, Prefix(k, s.blocks, s.done), s.file);
    ClientWake(s);
  }

  /** A broadcast restores what is known about sleepers. */
  lemma BroadcastInv(k: Config, s: State)
    requires k.Valid() && Core(k, s)
    ensures Inv(k, Broadcast(s))
  {
    BroadcastCore(k, s);
    NobodyAsleep(s.workers, NothingToDo(k, s));
    NobodyAsleep(s.workers, s.writeError);
  }
}

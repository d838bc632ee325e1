/**
 The parallel compressed writer as a transition system.

 One producer and `numThreads` compressor threads share a ring buffer, a mutex and a
 condition variable. A step is what one thread does between two scheduling points: a
 whole critical section up to its unlock or wait, or an arbitrarily small piece of the
 work done with the lock released (copying into the ring, compressing out of it,
 appending to the file). Any enabled step of any thread may come next, and a sleeping
 thread may also wake up spuriously.
 */
module CompressedWriter {
  import opened Common
  import opened TraceFormat
  import opened RingArithmetic

  /** The constructor's parameters; `capacity` is the size of the ring buffer. */
  datatype Config = Config(codec: Codec, blockSize: nat, numThreads: nat, capacity: nat) {
    /** Any ring that holds at least one block will do. */
    predicate Valid() {
      0 < blockSize <= capacity && 0 < numThreads
    }
  }

  /** The ring the constructor allocates: one block for each thread and two more. */
  function Configure(codec: Codec, blockSize: nat, numThreads: nat): (k: Config)
    requires 0 < blockSize && 0 < numThreads
    ensures k.Valid() && k.codec == codec && k.blockSize == blockSize && k.numThreads == numThreads
    ensures k.capacity - numThreads * blockSize == 2 * blockSize
  {
    assert blockSize * (numThreads + 2) == blockSize * (numThreads + 1) + blockSize;
    Config(codec, blockSize, numThreads, blockSize * (numThreads + 2))
  }

  /** A block handed to a compressor thread, at its position in the stream. */
  datatype Block = Block(pos: nat, data: seq<byte>)

  /**
   A compressor thread. `pos` is its `thread_pos` entry, which is UINT64_MAX in the states
   without one. `ticket` is history: which dispatched block the thread is working on.
   */
  datatype Worker =
    | Head                       // about to take the lock and look at the top of the loop
    | HeadAsleep                 // waiting on the condition variable there
    | Compressing(pos: nat, ticket: nat, len: nat, got: seq<byte>)   // unlocked; `got` is read so far
    | Turn(pos: nat, ticket: nat, frame: seq<byte>)                  // about to take the lock and check for its turn
    | TurnAsleep(pos: nat, ticket: nat, frame: seq<byte>)
    | Writing(pos: nat, ticket: nat, frame: seq<byte>, sent: nat)    // unlocked, in write_all
    | Exited
  {
    predicate Active() { Compressing? || Turn? || TurnAsleep? || Writing? }
    predicate Asleep() { HeadAsleep? || TurnAsleep? }
    predicate Framed() { Turn? || TurnAsleep? || Writing? }
  }

  /** What `update_reservation` returns to. */
  datatype Caller = InWrite(rest: seq<byte>) | AfterWrite | InClose

  datatype Producer =
    | Idle                                    // in the client's code
    | Copying(rest: seq<byte>)                // in the loop of `write`
    | Reserve(wait: bool, caller: Caller)     // entering update_reservation
    | Recheck(wait: bool, caller: Caller)     // about to retake the lock after a wake-up
    | Asleep(wait: bool, caller: Caller)
    | SetClosing
    | Joining
    | Closed

  datatype State = State(
    buffer: seq<byte>,
    workers: seq<Worker>,
    nextPos: nat,             // next_thread_pos
    endPos: nat,              // next_thread_end_pos
    closing: bool,
    writeError: bool,
    reservedPos: nat,         // producer_reserved_pos
    writePos: nat,            // producer_reserved_write_pos
    uptoPos: nat,             // producer_reserved_upto_pos
    error: bool,
    producer: Producer,
    file: seq<byte>,
    // history
    submitted: seq<byte>,     // all bytes ever passed to `write`
    stream: seq<byte>,        // all bytes ever copied into the ring
    blocks: seq<Block>,       // all blocks ever dispatched
    done: nat)                // how many of them are completely in the file

  function Data(blocks: seq<Block>): (d: seq<seq<byte>>)
    ensures |d| == |blocks|
    ensures forall t :: 0 <= t < |blocks| ==> d[t] == blocks[t].data
  {
    seq(|blocks|, t requires 0 <= t < |blocks| => blocks[t].data)
  }

  function WakeWorker(w: Worker): Worker {
    match w
    case HeadAsleep => Head
    case TurnAsleep(p, t, f) => Turn(p, t, f)
    case _ => w
  }

  function WakeProducer(p: Producer): Producer {
    if p.Asleep? then Recheck(p.wait, p.caller) else p
  }

  /** pthread_cond_broadcast: every sleeper becomes ready to retake the lock. */
  function WakeWorkers(ws: seq<Worker>): (r: seq<Worker>)
    ensures |r| == |ws|
    ensures forall i :: 0 <= i < |ws| ==> r[i] == WakeWorker(ws[i])
  {
    seq(|ws|, i requires 0 <= i < |ws| => WakeWorker(ws[i]))
  }

  function Broadcast(s: State): State {
    s.(workers := WakeWorkers(s.workers), producer := WakeProducer(s.producer))
  }

  ghost predicate Init(k: Config, s: State) {
    && |s.buffer| == k.capacity
    && |s.workers| == k.numThreads
    && (forall i :: 0 <= i < |s.workers| ==> s.workers[i] == Head)
    && s.nextPos == s.endPos == s.reservedPos == s.writePos == s.uptoPos == s.done == 0
    && !s.closing && !s.writeError && !s.error
    && s.producer == Idle
    && s.file == s.submitted == s.stream == [] && s.blocks == []
  }

  // ---------------------------------------------------------------- compressor threads

  predicate Dispatchable(k: Config, s: State) {
    && !s.writeError && s.nextPos < s.endPos
    && (s.closing || s.nextPos + k.blockSize <= s.endPos)
  }

  predicate MayExit(s: State) {
    s.closing && (s.writeError || s.nextPos == s.endPos)
  }

  /** Take the next block: the critical section from the top of the loop to the unlock before do_compress. */
  ghost predicate Dispatch(k: Config, s: State, s': State, i: nat) {
    && i < |s.workers| && s.workers[i].Head? && Dispatchable(k, s)
    && var next := Min(s.endPos, s.nextPos + k.blockSize);
       next <= |s.stream| &&
       s' == s.(workers := s.workers[i := Compressing(s.nextPos, |s.blocks|, next - s.nextPos, [])],
                nextPos := next,
                blocks := s.blocks + [Block(s.nextPos, s.stream[s.nextPos..next])])
  }

  ghost predicate HeadExit(k: Config, s: State, s': State, i: nat) {
    && i < |s.workers| && s.workers[i].Head? && !Dispatchable(k, s) && MayExit(s)
    && s' == s.(workers := s.workers[i := Exited])
  }

  ghost predicate HeadWait(k: Config, s: State, s': State, i: nat) {
    && i < |s.workers| && s.workers[i].Head? && !Dispatchable(k, s) && !MayExit(s)
    && s' == s.(workers := s.workers[i := HeadAsleep])
  }

  /** One BrotliEncoderCompressStream call consumes `n` bytes, at most up to the end of the ring. */
  ghost predicate CompressSome(k: Config, s: State, s': State, i: nat, n: nat) {
    && i < |s.workers| && s.workers[i].Compressing?
    && k.capacity > 0 && |s.buffer| == k.capacity
    && var w := s.workers[i];
       |w.got| < w.len &&
       var offset := Place(w.pos + |w.got|, k.capacity);
       && n <= Min(w.len - |w.got|, k.capacity - offset)
       && s' == s.(workers := s.workers[i := w.(got := w.got + s.buffer[offset..offset + n])])
  }

  /** do_compress returns and the lock is retaken: the compressed length is not zero. */
  ghost predicate Compressed(k: Config, s: State, s': State, i: nat) {
    && i < |s.workers| && s.workers[i].Compressing?
    && var w := s.workers[i];
       && |w.got| == w.len
       && s' == s.(workers := s.workers[i := Turn(w.pos, w.ticket, Frame(k.codec, w.got))])
  }

  /** do_compress produced nothing: flag the error, give up the block and wake everybody. */
  ghost predicate CompressFailed(s: State, s': State, i: nat) {
    && i < |s.workers| && s.workers[i].Compressing?
    && |s.workers[i].got| == s.workers[i].len
    && s' == Broadcast(s.(workers := s.workers[i := Head], writeError := true))
  }

  /** Some other thread works at an earlier position. */
  ghost predicate OtherFirst(ws: seq<Worker>, pos: nat) {
    exists j :: 0 <= j < |ws| && ws[j].Active() && ws[j].pos < pos
  }

  ghost predicate TurnDrop(s: State, s': State, i: nat) {
    && i < |s.workers| && s.workers[i].Turn? && s.writeError
    && s' == Broadcast(s.(workers := s.workers[i := Head]))
  }

  ghost predicate TurnWait(s: State, s': State, i: nat) {
    && i < |s.workers| && s.workers[i].Turn? && !s.writeError && OtherFirst(s.workers, s.workers[i].pos)
    && var w := s.workers[i];
       s' == s.(workers := s.workers[i := TurnAsleep(w.pos, w.ticket, w.frame)])
  }

  ghost predicate TurnGo(s: State, s': State, i: nat) {
    && i < |s.workers| && s.workers[i].Turn? && !s.writeError && !OtherFirst(s.workers, s.workers[i].pos)
    && var w := s.workers[i];
       s' == s.(workers := s.workers[i := Writing(w.pos, w.ticket, w.frame, 0)])
  }

  /** write(2) inside write_all appends `n` more bytes of the frame. */
  ghost predicate WriteSome(s: State, s': State, i: nat, n: nat) {
    && i < |s.workers| && s.workers[i].Writing?
    && var w := s.workers[i];
       && 0 < n && w.sent + n <= |w.frame|
       && s' == s.(workers := s.workers[i := w.(sent := w.sent + n)],
                   file := s.file + w.frame[w.sent..w.sent + n])
  }

  ghost predicate WriteDone(s: State, s': State, i: nat) {
    && i < |s.workers| && s.workers[i].Writing?
    && s.workers[i].sent == |s.workers[i].frame|
    && s' == Broadcast(s.(workers := s.workers[i := Head], done := s.done + 1))
  }

  ghost predicate WorkerStep(k: Config, s: State, s': State, i: nat) {
    || Dispatch(k, s, s', i) || HeadExit(k, s, s', i) || HeadWait(k, s, s', i)
    || (exists n :: CompressSome(k, s, s', i, n)) || Compressed(k, s, s', i) || CompressFailed(s, s', i)
    || TurnDrop(s, s', i) || TurnWait(s, s', i) || TurnGo(s, s', i)
    || (exists n :: WriteSome(s, s', i, n)) || WriteDone(s, s', i)
  }

  // ---------------------------------------------------------------- the producer

  ghost predicate CallWrite(s: State, s': State, data: seq<byte>) {
    && s.producer.Idle?
    && s' == s.(producer := Copying(data), submitted := s.submitted + data)
  }

  /** memcpy into the ring. */
  function Overwrite(buffer: seq<byte>, off: nat, chunk: seq<byte>): (r: seq<byte>)
    requires off + |chunk| <= |buffer|
    ensures |r| == |buffer|
    ensures forall q :: 0 <= q < |r| ==> r[q] == if off <= q < off + |chunk| then chunk[q - off] else buffer[q]
  {
    seq(|buffer|, q requires 0 <= q < |buffer| => if off <= q < off + |chunk| then chunk[q - off] else buffer[q])
  }

  /** `n` bytes of the memcpy in `write`; other threads may see it done in any number of pieces. */
  ghost predicate CopySome(k: Config, s: State, s': State, n: nat) {
    && s.producer.Copying? && !s.error && s.producer.rest != []
    && s.writePos < s.uptoPos
    && k.capacity > 0 && |s.buffer| == k.capacity
    && var rest := s.producer.rest;
       var offset := Place(s.writePos, k.capacity);
       && 0 < n <= Min(k.capacity - offset, Min(s.uptoPos - s.writePos, |rest|))
       && s' == s.(buffer := Overwrite(s.buffer, offset, rest[..n]),
                   writePos := s.writePos + n,
                   stream := s.stream + rest[..n],
                   producer := Copying(rest[n..]))
  }

  ghost predicate NeedSpace(s: State, s': State) {
    && s.producer.Copying? && !s.error && s.producer.rest != []
    && s.writePos == s.uptoPos
    && s' == s.(producer := Reserve(true, InWrite(s.producer.rest)))
  }

  /** The loop of `write` ends; with at least half the ring unpublished, publish it without waiting. */
  ghost predicate EndWrite(k: Config, s: State, s': State) {
    && s.producer.Copying? && (s.error || s.producer.rest == [])
    && s.reservedPos <= s.writePos
    && s' == s.(producer :=
                  if !s.error && s.writePos - s.reservedPos >= k.capacity / 2
                  then Reserve(false, AfterWrite) else Idle)
  }

  /** The position below which every dispatched block has been dealt with. */
  ghost predicate IsCompleted(ws: seq<Worker>, nextPos: nat, c: nat) {
    && c <= nextPos
    && (forall i :: 0 <= i < |ws| && ws[i].Active() ==> c <= ws[i].pos)
    && (c == nextPos || exists i :: 0 <= i < |ws| && ws[i].Active() && ws[i].pos == c)
  }

  function Resume(c: Caller): Producer {
    match c
    case InWrite(rest) => Copying(rest)
    case AfterWrite => Idle
    case InClose => SetClosing
  }

  function Reserved(k: Config, s: State, c: nat, wait: bool, caller: Caller): State {
    var upto := c + k.capacity;
    s.(uptoPos := upto,
       producer := if s.reservedPos < upto || !wait then Resume(caller) else Asleep(wait, caller))
  }

  /** One pass of the loop in update_reservation, ending in a return or in pthread_cond_wait. */
  ghost predicate ReserveLoop(k: Config, s: State, s': State, wait: bool, caller: Caller) {
    if s.error then s' == s.(producer := Resume(caller))
    else if s.writeError then s' == s.(error := true, producer := Resume(caller))
    else (exists c: nat :: IsCompleted(s.workers, s.nextPos, c) && s' == Reserved(k, s, c, wait, caller))
  }

  function Publish(s: State): State {
    Broadcast(s.(endPos := s.writePos, reservedPos := s.writePos))
  }

  ghost predicate EnterReserve(k: Config, s: State, s': State) {
    s.producer.Reserve? && ReserveLoop(k, Publish(s), s', s.producer.wait, s.producer.caller)
  }

  ghost predicate RetryReserve(k: Config, s: State, s': State) {
    s.producer.Recheck? && ReserveLoop(k, s, s', s.producer.wait, s.producer.caller)
  }

  ghost predicate CallClose(s: State, s': State) {
    s.producer.Idle? && s' == s.(producer := Reserve(false, InClose))
  }

  ghost predicate BeginClosing(s: State, s': State) {
    s.producer.SetClosing? && s' == Broadcast(s.(closing := true, producer := Joining))
  }

  ghost predicate Join(s: State, s': State) {
    && s.producer.Joining? && (forall i :: 0 <= i < |s.workers| ==> s.workers[i].Exited?)
    && s' == s.(error := s.error || s.writeError, producer := Closed)
  }

  ghost predicate ProducerStep(k: Config, s: State, s': State) {
    || (exists data :: CallWrite(s, s', data)) || (exists n :: CopySome(k, s, s', n))
    || NeedSpace(s, s') || EndWrite(k, s, s') || EnterReserve(k, s, s') || RetryReserve(k, s, s')
    || CallClose(s, s') || BeginClosing(s, s') || Join(s, s')
  }

  // ---------------------------------------------------------------- runs

  /** A sleeper returns from pthread_cond_wait without a broadcast, as POSIX allows. */
  ghost predicate SpuriousWake(s: State, s': State) {
    || s' == s.(producer := WakeProducer(s.producer))
    || exists i :: 0 <= i < |s.workers| && s' == s.(workers := s.workers[i := WakeWorker(s.workers[i])])
  }

  ghost predicate Next(k: Config, s: State, s': State) {
    ProducerStep(k, s, s') || (exists i :: WorkerStep(k, s, s', i)) || SpuriousWake(s, s')
  }

  ghost predicate IsRun(k: Config, run: seq<State>) {
    && |run| > 0 && Init(k, run[0])
    && forall t :: 0 <= t < |run| - 1 ==> Next(k, run[t], run[t + 1])
  }

  /** Reached by some schedule, whatever the chunking of the writes. */
  ghost predicate Reachable(k: Config, s: State) {
    exists run :: IsRun(k, run) && run[|run| - 1] == s
  }

  /** A sequence of steps from `s` to `s'`. */
  ghost predicate IsPath(k: Config, path: seq<State>, s: State, s': State) {
    && |path| > 0 && path[0] == s && path[|path| - 1] == s'
    && forall t :: 0 <= t < |path| - 1 ==> Next(k, path[t], path[t + 1])
  }

  ghost predicate Leads(k: Config, s: State, s': State) {
    exists path :: IsPath(k, path, s, s')
  }
}

/** Writer and reader together: what was written is what is read, under every schedule and every chunking. */
module RoundTrip {
  import opened Common
  import opened TraceFormat
  import opened CompressedWriter
  import opened WriterInvariant
  import opened WriterSteps
  import opened WriterProducer
  import opened WriterTheorems
  import opened CompressedReader

  lemma {:induction false} ChopBlocked(stream: seq<byte>, blockSize: nat)
    requires blockSize > 0
    ensures Blocked(Chop(stream, blockSize), blockSize) && Flatten(Chop(stream, blockSize)) == stream
    decreases |stream|
  {
    if stream == [] {
    } else if |stream| <= blockSize {
      FlattenCons(stream, []);
      assert [stream] + [] == [stream];
    } else {
      var b, rest := stream[..blockSize], stream[blockSize..];
      ChopBlocked(rest, blockSize);
      FlattenCons(b, Chop(rest, blockSize));
      assert b + rest == stream;
    }
  }

  /** A faithful codec recovers every block the writer emits. */
  lemma BlocksRecoverable(c: Codec, blocks: seq<seq<byte>>, blockSize: nat)
    requires Faithful(c) && blockSize < TWO_32 && Blocked(blocks, blockSize)
    ensures forall i :: 0 <= i < |blocks| ==> Recoverable(c, blocks[i])
  {
    forall i | 0 <= i < |blocks| ensures Recoverable(c, blocks[i]) { BlockRecoverable(c, blocks[i]); }
  }

  lemma BlockRecoverable(c: Codec, b: seq<byte>)
    requires Faithful(c) && 0 < |b| < TWO_32
    ensures Recoverable(c, b)
  {
  }

  /** The frames of a whole stream parse back into its blocks. */
  lemma WholeFileParses(c: Codec, stream: seq<byte>, blockSize: nat)
    requires 0 < blockSize < TWO_32 && Faithful(c)
    ensures var blocks := Chop(stream, blockSize);
      Parsed(c, FileOf(c, blocks), blocks) && Flatten(blocks) == stream
  {
    var blocks := Chop(stream, blockSize);
    ChopBlocked(stream, blockSize);
    BlocksRecoverable(c, blocks, blockSize);
    NothingBehind(c, FileOf(c, blocks));
    hide Chop, FileOf, Fetch, Flatten, Recoverable;
  }

  lemma NothingBehind(c: Codec, file: seq<byte>)
    ensures !Fetch(c, file, |file|).Loaded?
  {
    assert file[|file|..] == [];
  }

  // ---------------------------------------------------------------- a recording that was cut short

  /** A frame that is only partly in the file is not mistaken for a block. */
  lemma CutFrame(c: Codec, file: seq<byte>, p: nat, b: seq<byte>)
    requires p <= |file| && Encodable(c, b)
    requires file[p..] <= Frame(c, b) && |file| - p < |Frame(c, b)|
    ensures !Fetch(c, file, p).Loaded?
  {
    var rest, f := file[p..], Frame(c, b);
    if |rest| >= HEADER_SIZE {
      HeaderRoundTrip(|c.compress(b)|, |b|);
      assert rest[..4] == f[..4] == Header(|c.compress(b)|, |b|)[..4];
    }
  }

  /** While a thread is inside write_all, the file ends in a part of its frame. */
  lemma CutWrite(k: Config, s: State, i: nat)
    requires Work(k, s.workers, s.blocks, s.done) && Output(s.workers, Prefix(k, s.blocks, s.done), s.file)
    requires i < |s.workers| && s.workers[i].Writing? && Encodable(k.codec, s.blocks[s.done].data)
    ensures s.workers[i].sent < |s.workers[i].frame| ==>
      Prefix(k, s.blocks, s.done) <= s.file && !Fetch(k.codec, s.file, |Prefix(k, s.blocks, s.done)|).Loaded?
    ensures s.workers[i].sent == |s.workers[i].frame| ==> s.file == Prefix(k, s.blocks, s.done + 1)
  {
    var w := s.workers[i];
    assert Holds(k, s.blocks, s.done, w);
    PrefixStep(k, s.blocks, s.done);
    var p := |Prefix(k, s.blocks, s.done)|;
    assert s.file[p..] == w.frame[..w.sent];
    if w.sent < |w.frame| {
      CutFrame(k.codec, s.file, p, s.blocks[s.done].data);
    } else {
      assert w.frame[..w.sent] == w.frame;
    }
  }

  /** How many blocks are completely in the file, in any state that satisfies the invariant. */
  lemma CrashFile(k: Config, s: State) returns (n: nat)
    requires Work(k, s.workers, s.blocks, s.done) && Output(s.workers, Prefix(k, s.blocks, s.done), s.file)
    requires forall t :: 0 <= t < |s.blocks| ==> Encodable(k.codec, s.blocks[t].data)
    ensures s.done <= n <= |s.blocks| && Prefix(k, s.blocks, n) <= s.file
    ensures !Fetch(k.codec, s.file, |Prefix(k, s.blocks, n)|).Loaded?
  {
    n := s.done;
    if i :| 0 <= i < |s.workers| && s.workers[i].Writing? {
      assert Holds(k, s.blocks, s.done, s.workers[i]);
      CutWrite(k, s, i);
      if s.workers[i].sent == |s.workers[i].frame| {
        n := s.done + 1;
      }
    }
  }

  lemma DispatchedRecoverable(k: Config, s: State)
    requires k.Valid() && k.blockSize < TWO_32 && Faithful(k.codec) && Inv(k, s)
    ensures Data(s.blocks) == Chop(s.stream[..s.nextPos], k.blockSize)
    ensures forall t :: 0 <= t < |s.blocks| ==> Recoverable(k.codec, Data(s.blocks)[t])
  {
    DispatchedIsChop(k, s);
    ChopBlocked(s.stream[..s.nextPos], k.blockSize);
    BlocksRecoverable(k.codec, Data(s.blocks), k.blockSize);
  }

  /**
   Whenever recording stops, even in the middle of a write, what the reader finds is a run of whole
   leading blocks of the stream.
   */
  lemma CrashedFileParses(k: Config, s: State) returns (blocks: seq<seq<byte>>)
    requires k.Valid() && k.blockSize < TWO_32 && Faithful(k.codec) && Reachable(k, s)
    ensures s.nextPos <= |s.stream| && blocks <= Chop(s.stream[..s.nextPos], k.blockSize)
    ensures Parsed(k.codec, s.file, blocks) && |blocks| >= s.done
  {
    ReachableInv(k, s);
    DispatchedRecoverable(k, s);
    blocks := CrashBlocks(k, s);
  }

  lemma CrashBlocks(k: Config, s: State) returns (blocks: seq<seq<byte>>)
    requires Work(k, s.workers, s.blocks, s.done) && Output(s.workers, Prefix(k, s.blocks, s.done), s.file)
    requires forall t :: 0 <= t < |s.blocks| ==> Recoverable(k.codec, Data(s.blocks)[t])
    ensures blocks <= Data(s.blocks) && Parsed(k.codec, s.file, blocks) && |blocks| >= s.done
  {
    forall t | 0 <= t < |s.blocks| ensures Encodable(k.codec, s.blocks[t].data) {
      assert Recoverable(k.codec, Data(s.blocks)[t]);
    }
    var n := CrashFile(k, s);
    blocks := Data(s.blocks[..n]);
    assert blocks == Data(s.blocks)[..n];
  }

  // ---------------------------------------------------------------- end to end

  function Sum(sizes: seq<nat>): nat {
    if sizes == [] then 0 else Sum(sizes[..|sizes| - 1]) + sizes[|sizes| - 1]
  }

  lemma SumStart(sizes: seq<nat>)
    ensures Sum(sizes[..0]) == 0 && Flatten([]) == []
  {
  }

  lemma SumNext(sizes: seq<nat>, i: nat)
    requires i < |sizes|
    ensures Sum(sizes[..i + 1]) == Sum(sizes[..i]) + sizes[i]
  {
    assert sizes[..i + 1][..i] == sizes[..i];
  }

  lemma FlattenMore(chunks: seq<seq<byte>>, data: seq<byte>)
    ensures Flatten(chunks + [data]) == Flatten(chunks) + data
  {
    assert (chunks + [data])[..|chunks|] == chunks;
  }

  lemma {:induction false} SumPrefix(sizes: seq<nat>, n: nat)
    requires n <= |sizes|
    ensures Sum(sizes[..n]) <= Sum(sizes)
  {
    if n == |sizes| {
      assert sizes[..n] == sizes;
    } else {
      SumPrefix(sizes[..|sizes| - 1], n);
      assert sizes[..|sizes| - 1][..n] == sizes[..n];
    }
  }

  /** Reads a parsed file in pieces of any sizes. */
  method ReadPieces(codec: Codec, file: seq<byte>, sizes: seq<nat>, ghost blocks: seq<seq<byte>>)
    returns (chunks: seq<seq<byte>>, atEnd: bool)
    requires Parsed(codec, file, blocks) && Sum(sizes) <= |Flatten(blocks)|
    ensures |chunks| == |sizes| && Flatten(chunks) == Flatten(blocks)[..Sum(sizes)]
    ensures forall i :: 0 <= i < |sizes| ==> |chunks[i]| == sizes[i]
    ensures file == FileOf(codec, blocks) ==> (atEnd <==> Sum(sizes) == |Flatten(blocks)|)
  {
    hide Parsed, FileOf, Flatten, Sum;
    SumStart(sizes);
    ghost var stream := Flatten(blocks);
    var reader := new Reader(codec, file, blocks);
    chunks := [];
    var i := 0;
    while i < |sizes|
      invariant i <= |sizes| && |chunks| == i
      invariant reader.WellFormed() && reader.Valid() && !reader.error
      invariant reader.Stream() == stream && reader.Offset() == Sum(sizes[..i])
      invariant Sum(sizes[..i]) <= |stream| && Flatten(chunks) == stream[..Sum(sizes[..i])]
      invariant forall j :: 0 <= j < i ==> |chunks[j]| == sizes[j]
    {
      SumNext(sizes, i);
      SumPrefix(sizes, i + 1);
      var ok, data := reader.Read(sizes[i]);
      FlattenMore(chunks, data);
      SliceJoin(stream, 0, Sum(sizes[..i]), Sum(sizes[..i + 1]));
      chunks := chunks + [data];
      i := i + 1;
    }
    assert sizes[..|sizes|] == sizes;
    reader.AtEndIffAllRead();
    atEnd := reader.AtEnd();
  }

  /**
   Reads back the file of a writer that closed cleanly. Whatever the chunking of the writes
   and the interleaving of the threads, the pieces are the bytes that were written.
   */
  method ReadBack(codec: Codec, file: seq<byte>, sizes: seq<nat>, ghost k: Config, ghost s: State)
    returns (chunks: seq<seq<byte>>, atEnd: bool)
    requires k.Valid() && k.blockSize < TWO_32 && Faithful(codec) && k.codec == codec
    requires Reachable(k, s) && s.producer.Closed? && !s.error && s.file == file
    requires Sum(sizes) <= |s.submitted|
    ensures |chunks| == |sizes| && Flatten(chunks) == s.submitted[..Sum(sizes)]
    ensures forall i :: 0 <= i < |sizes| ==> |chunks[i]| == sizes[i]
    ensures atEnd <==> Sum(sizes) == |s.submitted|
  {
    ClosedFile(k, s);
    WholeFileParses(codec, s.submitted, k.blockSize);
    chunks, atEnd := ReadPieces(codec, file, sizes, Chop(s.submitted, k.blockSize));
  }
}

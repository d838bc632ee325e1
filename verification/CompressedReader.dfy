/** The reader of compressed trace files, proved against one logical offset into the stream. */
module CompressedReader {
  import opened Common
  import opened TraceFormat

  /** The reader gets this block back from its frame. */
  ghost predicate Recoverable(c: Codec, block: seq<byte>) {
    block != [] && Encodable(c, block) && c.decompress(c.compress(block), |block|) == Some(block)
  }

  /** A file: frames of non-empty blocks, and behind them nothing or something that is not a whole frame. */
  ghost predicate Parsed(c: Codec, file: seq<byte>, blocks: seq<seq<byte>>) {
    && (forall i :: 0 <= i < |blocks| ==> Recoverable(c, blocks[i]))
    && FileOf(c, blocks) <= file
    && !Fetch(c, file, |FileOf(c, blocks)|).Loaded?
  }

  /** Behind the first `n` frames the reader finds the next block. */
  lemma FetchNext(c: Codec, file: seq<byte>, blocks: seq<seq<byte>>, n: nat)
    requires Parsed(c, file, blocks) && n < |blocks|
    ensures var at, next := |FileOf(c, blocks[..n])|, |FileOf(c, blocks[..n + 1])|;
      && at < next <= |file|
      && Fetch(c, file, at) == Loaded(next, blocks[n])
      && |Flatten(blocks[..n + 1])| == |Flatten(blocks[..n])| + |blocks[n]|
      && blocks[n] != []
  {
    FrameAt(c, blocks, n);
    var at := |FileOf(c, blocks[..n])|;
    var all, rest := FileOf(c, blocks), file[at..];
    assert Recoverable(c, blocks[n]);
    BlockAt(blocks, n);
    assert rest[..|Frame(c, blocks[n])|] == all[at..at + |Frame(c, blocks[n])|];
    FrameParts(c, blocks[n], rest);
  }

  lemma FetchLast(c: Codec, file: seq<byte>, blocks: seq<seq<byte>>, n: nat)
    requires Parsed(c, file, blocks) && n == |blocks|
    ensures |FileOf(c, blocks[..n])| <= |file| && !Fetch(c, file, |FileOf(c, blocks[..n])|).Loaded?
  {
    assert blocks[..n] == blocks;
  }

  /** A call that reads from the stream. */
  datatype Access = DoRead(size: nat) | DoSkip(size: nat) | DoGetBuffer

  function Advance(a: Access): nat { if a.DoGetBuffer? then 0 else a.size }

  function Advances(accesses: seq<Access>): nat {
    if accesses == [] then 0 else Advances(accesses[..|accesses| - 1]) + Advance(accesses[|accesses| - 1])
  }

  class Reader {
    const codec: Codec
    const file: seq<byte>
    var fdOffset: nat
    var error: bool
    var eof: bool
    var buffer: seq<byte>
    var bufferReadPos: nat
    var haveSavedState: bool
    var haveSavedBuffer: bool
    var savedFdOffset: nat
    var savedBuffer: seq<byte>
    var savedBufferReadPos: nat

    ghost const blocks: seq<seq<byte>>   // what the file holds
    ghost var loaded: nat                // how many of them have been read
    ghost var savedLoaded: nat           // the same when the state was saved

    /** Where reading stands after `n` blocks. */
    ghost function FileAt(n: nat): nat
      requires n <= |blocks|
    {
      |FileOf(codec, blocks[..n])|
    }

    ghost function StreamAt(n: nat): nat
      requires n <= |blocks|
    {
      |Flatten(blocks[..n])|
    }

    ghost function Current(n: nat): seq<byte>
      requires n <= |blocks|
    {
      if n == 0 then [] else blocks[n - 1]
    }

    ghost predicate At(n: nat, offset: nat, buf: seq<byte>, pos: nat) {
      n <= |blocks| && offset == FileAt(n) && buf == Current(n) && pos <= |buf|
    }

    ghost predicate Valid()
      reads this
    {
      !error ==>
        && At(loaded, fdOffset, buffer, bufferReadPos)
        && (eof <==> fdOffset == |file|)
        && (haveSavedState ==>
          && savedLoaded <= loaded
          && (!haveSavedBuffer ==> savedLoaded == loaded && savedBuffer == [])
          && At(savedLoaded, savedFdOffset, if haveSavedBuffer then savedBuffer else buffer, savedBufferReadPos))
        && (!haveSavedState ==> savedBuffer == [])
    }

    /** The file holds the blocks; it does not change while it is read. */
    ghost predicate WellFormed() {
      Parsed(codec, file, blocks)
    }

    ghost function Stream(): seq<byte>
    {
      Flatten(blocks)
    }

    /** The logical position in the stream. */
    ghost function Offset(): int
      reads this
      requires loaded <= |blocks|
    {
      StreamAt(loaded) - |buffer| + bufferReadPos
    }

    /** The logical position that `RestoreState` goes back to. */
    ghost function SavedOffset(): int
      reads this`savedLoaded, this`savedBufferReadPos
      requires savedLoaded <= |blocks|
    {
      StreamAt(savedLoaded) - |Current(savedLoaded)| + savedBufferReadPos
    }

    constructor (codec: Codec, file: seq<byte>, ghost blocks: seq<seq<byte>>)
      requires Parsed(codec, file, blocks)
      ensures Valid() && !error && !haveSavedState && Offset() == 0
      ensures this.codec == codec && this.file == file && this.blocks == blocks
    {
      this.codec := codec;
      this.file := file;
      this.blocks := blocks;
      fdOffset := 0;
      error := false;
      eof := |file| == 0;
      buffer := [];
      bufferReadPos := 0;
      haveSavedState := false;
      haveSavedBuffer := false;
      savedFdOffset := 0;
      savedBuffer := [];
      savedBufferReadPos := 0;
      loaded := 0;
      savedLoaded := 0;
    }

    /** What the buffer still holds is the stream from the logical position on. */
    lemma BufferIsStream()
      requires Valid() && !error
      ensures 0 <= Offset() <= StreamAt(loaded) <= |Stream()|
      ensures buffer[bufferReadPos..] == Stream()[Offset()..StreamAt(loaded)]
    {
      if loaded > 0 {
        BlockAt(blocks, loaded - 1);
        var s := Stream()[StreamAt(loaded - 1)..StreamAt(loaded)];
        assert s == buffer;
        assert s[bufferReadPos..] == Stream()[Offset()..StreamAt(loaded)];
      }
    }

    /** The reads of `refill_buffer`: they give the next block as long as there is one, and fail behind the last. */
    method ReadFrame() returns (f: Fetched)
      requires WellFormed() && Valid() && !error
      ensures loaded < |blocks| ==>
        && f == Loaded(FileAt(loaded + 1), blocks[loaded])
        && StreamAt(loaded + 1) == StreamAt(loaded) + |blocks[loaded]|
        && blocks[loaded] != []
        && fdOffset < FileAt(loaded + 1) <= |file|
      ensures loaded == |blocks| ==> !f.Loaded?
    {
      hide Fetch, Parsed, Flatten, FileOf;
      if loaded < |blocks| { FetchNext(codec, file, blocks, loaded); } else { FetchLast(codec, file, blocks, loaded); }
      f := Fetch(codec, file, fdOffset);
    }

    /** Before the buffer is overwritten for the first time after `SaveState`, it is put aside. */
    method PutAside()
      requires Valid() && !error && bufferReadPos == |buffer|
      modifies this`buffer, this`savedBuffer, this`haveSavedBuffer
      ensures haveSavedState ==>
        haveSavedBuffer && savedLoaded <= loaded && At(savedLoaded, savedFdOffset, savedBuffer, savedBufferReadPos)
      ensures !haveSavedState ==> savedBuffer == []
    {
      if haveSavedState && !haveSavedBuffer {
        buffer, savedBuffer := savedBuffer, buffer;
        haveSavedBuffer := true;
      }
    }

    method Load(offset: nat, block: seq<byte>)
      requires loaded < |blocks| && block == blocks[loaded] && fdOffset < offset == FileAt(loaded + 1) <= |file|
      requires !error && (eof <==> fdOffset == |file|)
      modifies this`fdOffset, this`eof, this`buffer, this`bufferReadPos, this`loaded
      ensures loaded == old(loaded) + 1 && bufferReadPos == 0
      ensures At(loaded, fdOffset, buffer, bufferReadPos)
      ensures eof <==> fdOffset == |file|
    {
      fdOffset := offset;
      if fdOffset == |file| {
        eof := true;
      }
      buffer := block;
      bufferReadPos := 0;
      loaded := loaded + 1;
    }

    method Fail(f: Fetched)
      requires !f.Loaded?
      modifies this`fdOffset, this`eof, this`buffer, this`bufferReadPos, this`error
      ensures error
    {
      error := true;
      match f
      case NoHeader =>
      case NoBody(offset) =>
        fdOffset := offset;
      case Garbled(offset, length) =>
        fdOffset := offset;
        if fdOffset == |file| {
          eof := true;
        }
        buffer := seq(length, _ => 0);
        bufferReadPos := 0;
      case Loaded(_, _) =>
    }

    method RefillBuffer() returns (ok: bool)
      requires WellFormed() && Valid() && !error && bufferReadPos == |buffer|
      modifies this`fdOffset, this`eof, this`error, this`buffer, this`bufferReadPos, this`loaded, this`savedBuffer,
          this`haveSavedBuffer
      ensures Valid()
      ensures ok <==> old(loaded) < |blocks|
      ensures ok <==> !error
      ensures ok ==> buffer != [] && bufferReadPos == 0 && Offset() == old(Offset())
    {
      hide Parsed, Flatten, FileOf;
      var f := ReadFrame();
      PutAside();
      ok := f.Loaded?;
      if ok {
        Load(f.offset, f.block);
      } else {
        Fail(f);
      }
    }

    /** Delivers the next `amount` buffered bytes. */
    method Take(amount: nat) returns (data: seq<byte>)
      requires Valid() && !error && amount <= |buffer| - bufferReadPos
      modifies this`bufferReadPos
      ensures Valid() && Offset() == old(Offset()) + amount
      ensures 0 <= old(Offset()) && Offset() <= |Stream()|
      ensures data == Stream()[old(Offset())..Offset()]
    {
      BufferIsStream();
      data := buffer[bufferReadPos..bufferReadPos + amount];
      assert data == buffer[bufferReadPos..][..amount];
      assert data == Stream()[Offset()..Offset() + amount];
      bufferReadPos := bufferReadPos + amount;
    }

    /** More bytes are buffered, or the stream is at its end. */
    method Need() returns (ok: bool)
      requires WellFormed() && Valid() && !error && bufferReadPos == |buffer|
      modifies this`fdOffset, this`eof, this`error, this`buffer, this`bufferReadPos, this`loaded, this`savedBuffer,
          this`haveSavedBuffer
      ensures Valid() && (ok <==> !error)
      ensures ok ==> bufferReadPos < |buffer| && Offset() == old(Offset()) < |Stream()|
      ensures !ok ==> old(Offset()) == |Stream()|
    {
      assert loaded == |blocks| ==> blocks[..loaded] == blocks;
      ok := RefillBuffer();
      if ok { BufferIsStream(); }
    }

    /** Delivers exactly the next `size` bytes of the stream, or what is left of it and an error. */
    method Read(size: nat) returns (ok: bool, data: seq<byte>)
      requires WellFormed() && Valid()
      modifies this`fdOffset, this`eof, this`error, this`buffer, this`bufferReadPos, this`loaded, this`savedBuffer,
          this`haveSavedBuffer
      ensures Valid() && (!ok ==> error)
      ensures old(error) ==> error && (ok <==> size == 0)
      ensures !old(error) ==> 0 <= old(Offset()) <= |Stream()| && (ok <==> old(Offset()) + size <= |Stream()|)
      ensures !old(error) && ok ==> !error && Offset() == old(Offset()) + size
      ensures !old(error) && ok ==> data == Stream()[old(Offset())..old(Offset()) + size]
      ensures !old(error) && !ok ==> data == Stream()[old(Offset())..]
    {
      hide Parsed, Flatten, FileOf;
      data := [];
      if error {
        return size == 0, data;
      }
      BufferIsStream();
      ghost var start := Offset();
      var left: nat := size;
      while left > 0
        invariant Valid() && !error && left + |data| == size
        invariant 0 <= start == old(Offset()) && start + |data| == Offset() <= |Stream()|
        invariant data == Stream()[start..start + |data|]
        decreases left, if bufferReadPos < |buffer| then 0 else 1
      {
        if bufferReadPos < |buffer| {
          var amount := if left <= |buffer| - bufferReadPos then left else |buffer| - bufferReadPos;
          var chunk := Take(amount);
          SliceJoin(Stream(), start, start + |data|, Offset());
          data := data + chunk;
          left := left - amount;
        } else {
          var more := Need();
          if !more {
            return false, data;
          }
        }
      }
      ok := true;
    }

    /** Moves the logical position forward as `Read` does. */
    method Skip(size: nat) returns (ok: bool)
      requires WellFormed() && Valid()
      modifies this`fdOffset, this`eof, this`error, this`buffer, this`bufferReadPos, this`loaded, this`savedBuffer,
          this`haveSavedBuffer
      ensures Valid() && (!ok ==> error)
      ensures old(error) ==> error && (ok <==> size == 0)
      ensures !old(error) ==> 0 <= old(Offset()) <= |Stream()| && (ok <==> old(Offset()) + size <= |Stream()|)
      ensures !old(error) && ok ==> !error && Offset() == old(Offset()) + size
    {
      if error {
        return size == 0;
      }
      BufferIsStream();
      ghost var start := Offset();
      var left: nat := size;
      while left > 0
        invariant Valid() && !error && left <= size
        invariant 0 <= start == old(Offset()) && start + size - left == Offset() <= |Stream()|
        decreases left, if bufferReadPos < |buffer| then 0 else 1
      {
        if bufferReadPos < |buffer| {
          var amount := if left <= |buffer| - bufferReadPos then left else |buffer| - bufferReadPos;
          var _ := Take(amount);
          left := left - amount;
        } else {
          var more := Need();
          if !more {
            return false;
          }
        }
      }
      ok := true;
    }

    /** Exposes buffered bytes at the logical position without moving it; none exactly at the end. */
    method GetBuffer() returns (ok: bool, data: seq<byte>)
      requires WellFormed() && Valid()
      modifies this`fdOffset, this`eof, this`error, this`buffer, this`bufferReadPos, this`loaded, this`savedBuffer,
          this`haveSavedBuffer
      ensures Valid() && (ok <==> !error)
      ensures ok ==> !old(error) && Offset() == old(Offset()) && 0 <= Offset() <= |Stream()|
      ensures ok ==> data <= Stream()[Offset()..]
      ensures ok ==> (data == [] <==> Offset() == |Stream()| == old(Offset()))
      ensures !old(error) && !ok ==> old(Offset()) == |Stream()| && !old(AtEnd())
    {
      if error {
        return false, [];
      }
      BufferIsStream();
      if bufferReadPos >= |buffer| && !eof {
        var more := Need();
        if !more {
          return false, [];
        }
      }
      BufferIsStream();
      AtEndIffAllRead();
      data := buffer[bufferReadPos..];
      ok := true;
    }

    predicate AtEnd()
      reads this
    {
      eof && bufferReadPos == |buffer|
    }

    /** Nothing behind the last frame: the file is not cut off. */
    ghost predicate Complete() {
      FileOf(codec, blocks) == file
    }

    lemma EofMeansAllLoaded()
      requires WellFormed() && Valid() && !error
      ensures eof ==> loaded == |blocks|
      ensures loaded == |blocks| ==> (eof <==> Complete())
    {
      if loaded < |blocks| {
        FrameAt(codec, blocks, loaded);
      } else {
        assert blocks[..loaded] == blocks;
      }
    }

    /** In a complete file, `at_end` holds exactly at the end of the stream. */
    lemma AtEndIffAllRead()
      requires WellFormed() && Valid() && !error
      ensures AtEnd() ==> Offset() == |Stream()|
      ensures Complete() ==> (AtEnd() <==> Offset() == |Stream()|)
    {
      EofMeansAllLoaded();
      if loaded < |blocks| {
        assert Recoverable(codec, blocks[loaded]);
        BlockAt(blocks, loaded);
      } else {
        assert blocks[..loaded] == blocks;
      }
    }

    method SaveState()
      requires Valid() && !haveSavedState
      modifies this`haveSavedState, this`haveSavedBuffer, this`savedFdOffset, this`savedBufferReadPos, this`savedLoaded
      ensures Valid() && haveSavedState
      ensures savedLoaded == loaded && savedFdOffset == fdOffset && savedBufferReadPos == bufferReadPos
      ensures !error ==> SavedOffset() == Offset()
    {
      haveSavedState := true;
      haveSavedBuffer := false;
      savedFdOffset := fdOffset;
      savedBufferReadPos := bufferReadPos;
      savedLoaded := loaded;
    }

    /** Back to where `SaveState` was called: the same position, buffer, file offset and end-of-file flag. */
    method RestoreState()
      requires WellFormed() && Valid() && haveSavedState
      modifies this
      ensures Valid() && !haveSavedState && error == old(error)
      ensures !error ==> Offset() == old(SavedOffset())
      ensures !error ==>
        loaded == old(savedLoaded) && fdOffset == old(savedFdOffset) && bufferReadPos == old(savedBufferReadPos)
    {
      if !error {
        FileMonotone(savedLoaded, loaded);
      }
      haveSavedState := false;
      if savedFdOffset < fdOffset {
        eof := false;
      }
      fdOffset := savedFdOffset;
      if haveSavedBuffer {
        buffer := savedBuffer;
        savedBuffer := [];
      }
      bufferReadPos := savedBufferReadPos;
      loaded := savedLoaded;
    }

    lemma {:induction false} FileMonotone(m: nat, n: nat)
      requires m <= n <= |blocks|
      ensures FileAt(m) <= FileAt(n) <= |FileOf(codec, blocks)|
      ensures m < n ==> FileAt(m) < FileAt(n)
      decreases n - m
    {
      if n < |blocks| {
        FrameAt(codec, blocks, n);
      } else {
        assert blocks[..n] == blocks;
      }
      if m < n {
        FrameAt(codec, blocks, m);
        FileMonotone(m + 1, n);
      }
    }

    /** One call of a client that looks ahead. */
    method Perform(a: Access)
      requires WellFormed() && Valid()
      modifies this`fdOffset, this`eof, this`error, this`buffer, this`bufferReadPos, this`loaded, this`savedBuffer,
          this`haveSavedBuffer
      ensures Valid() && (old(error) ==> error)
      ensures !old(error) ==> 0 <= old(Offset()) <= |Stream()|
      ensures !error ==> Offset() == old(Offset()) + Advance(a)
      ensures !old(error) && old(Offset()) + Advance(a) > |Stream()| ==> error
      ensures !old(error) && error && Complete() ==> old(Offset()) + Advance(a) > |Stream()|
    {
      if !error {
        BufferIsStream();
        AtEndIffAllRead();
      }
      match a
      case DoRead(size) => var _, _ := Read(size);
      case DoSkip(size) => var _ := Skip(size);
      case DoGetBuffer => var _, _ := GetBuffer();
    }

    /**
     Save the state, look ahead in any way, restore the state. If no access failed, everything the
     reader goes by is as it was; in a complete file one fails exactly if they go past the end.
     */
    method LookAhead(accesses: seq<Access>)
      requires WellFormed() && Valid() && !error && !haveSavedState
      modifies this
      ensures Valid() && !haveSavedState
      ensures !error ==>
        && buffer == old(buffer) && bufferReadPos == old(bufferReadPos) && fdOffset == old(fdOffset)
        && eof == old(eof) && loaded == old(loaded) && Offset() == old(Offset())
      ensures old(Offset()) + Advances(accesses) > |Stream()| ==> error
      ensures error && Complete() ==> old(Offset()) + Advances(accesses) > |Stream()|
    {
      hide Parsed, Flatten, FileOf;
      BufferIsStream();
      ghost var start := Offset();
      SaveState();
      var i := 0;
      while i < |accesses|
        invariant 0 <= i <= |accesses| && Valid() && haveSavedState
        invariant savedLoaded == old(loaded) && savedFdOffset == old(fdOffset)
            && savedBufferReadPos == old(bufferReadPos)
        invariant !error ==> Offset() == start + Advances(accesses[..i])
        invariant start + Advances(accesses[..i]) > |Stream()| ==> error
        invariant error && Complete() ==> start + Advances(accesses[..i]) > |Stream()|
      {
        assert accesses[..i + 1][..i] == accesses[..i];
        Perform(accesses[i]);
        i := i + 1;
      }
      assert accesses[..i] == accesses;
      RestoreState();
    }

    method DiscardState()
      requires Valid() && haveSavedState
      modifies this`haveSavedState, this`savedBuffer
      ensures Valid() && !haveSavedState
      ensures !error ==> Offset() == old(Offset())
    {
      haveSavedState := false;
      if haveSavedBuffer {
        savedBuffer := [];
      }
    }

    /** Back to the start. On an empty file the end-of-file flag is lost, and with it what `at_end` promises. */
    method Rewind()
      requires WellFormed() && Valid() && !haveSavedState
      modifies this
      ensures error == old(error) && !haveSavedState && loaded == 0 && Offset() == 0
      ensures Valid() <==> error || |file| > 0
      ensures !error && Complete() ==> ((AtEnd() <==> Offset() == |Stream()|) <==> |file| > 0)
    {
      if Complete() { EmptyTogether(); }
      fdOffset := 0;
      bufferReadPos := 0;
      buffer := [];
      eof := false;
      loaded := 0;
    }

    lemma EmptyTogether()
      requires WellFormed() && Complete()
      ensures |Stream()| == 0 <==> |file| == 0
    {
      if blocks != [] {
        assert Recoverable(codec, blocks[0]);
        FrameAt(codec, blocks, 0);
        BlockAt(blocks, 0);
      }
    }

    /** What is behind the last whole frame. */
    ghost function Tail(): Fetched
      requires |FileOf(codec, blocks)| <= |file|
    {
      Fetch(codec, file, |FileOf(codec, blocks)|)
    }

    /**
     The sum of the headers' uncompressed lengths: the length of the stream, and what the headers
     behind the last block that can be read say. Those are none if the file is not cut inside a
     block, and only that block's if it is.
     */
    method UncompressedBytes() returns (total: nat)
      requires WellFormed()
      ensures |FileOf(codec, blocks)| <= |file| && (Complete() ==> Tail().NoHeader?)
      ensures total == |Stream()| + HeaderSum(file, |FileOf(codec, blocks)|)
      ensures Tail().NoHeader? ==> total == |Stream()|
      ensures Tail().NoBody? ==>
        var end := |FileOf(codec, blocks)|;
        end + HEADER_SIZE <= |file| && total == |Stream()| + FromLe32(file[end + 4..end + 8])
    {
      hide *;
      SumOfBlocks(0);
      NothingRead();
      TailSum();
      total := SumHeaders();
    }

    method SumHeaders() returns (total: nat)
      ensures total == HeaderSum(file, 0)
    {
      hide FromLe32;
      var offset := 0;
      total := 0;
      while offset + HEADER_SIZE <= |file|
        invariant total + HeaderSum(file, offset) == HeaderSum(file, 0)
        decreases |file| - offset
      {
        var compressedLength := FromLe32(file[offset..offset + 4]);
        var uncompressedLength := FromLe32(file[offset + 4..offset + 8]);
        total := total + uncompressedLength;
        offset := offset + HEADER_SIZE + compressedLength;
      }
    }

    /** The headers of the blocks from `n` on add up to the length of the rest of the stream. */
    lemma {:induction false} SumOfBlocks(n: nat)
      requires WellFormed() && n <= |blocks|
      ensures HeaderSum(file, FileAt(n)) + StreamAt(n) == |Stream()| + HeaderSum(file, |FileOf(codec, blocks)|)
      decreases |blocks| - n
    {
      hide Fetch, Flatten, FileOf, Recoverable;
      if n < |blocks| {
        FetchNext(codec, file, blocks, n);
        RoomForHeader(n);
        HeaderOf(n, FileAt(n));
        SumOfBlocks(n + 1);
      } else {
        assert blocks[..n] == blocks;
      }
    }

    lemma RoomForHeader(n: nat)
      requires WellFormed() && n < |blocks|
      ensures FileAt(n) + HEADER_SIZE <= |file|
    {
      FetchNext(codec, file, blocks, n);
    }

    lemma TailSum()
      requires WellFormed()
      ensures var end := |FileOf(codec, blocks)|;
        && end <= |file|
        && (Tail().NoHeader? ==> HeaderSum(file, end) == 0)
        && (Tail().NoBody? ==>
              end + HEADER_SIZE <= |file| && HeaderSum(file, end) == FromLe32(file[end + 4..end + 8]))
    {
      hide Flatten, FileOf, Recoverable;
      var end := |FileOf(codec, blocks)|;
      var rest := file[end..];
      if end + HEADER_SIZE <= |file| {
        assert rest[..4] == file[end..end + 4];
      }
    }

    lemma NothingRead()
      requires WellFormed()
      ensures FileAt(0) == 0 && StreamAt(0) == 0 && |FileOf(codec, blocks)| <= |file|
          && (Complete() ==> Tail().NoHeader?)
    {
      assert blocks[..0] == [];
    }

    lemma HeaderOf(n: nat, offset: nat)
      requires WellFormed() && n < |blocks| && offset == FileAt(n) && offset + HEADER_SIZE <= |file|
      ensures FileAt(n + 1) == offset + HEADER_SIZE + FromLe32(file[offset..offset + 4])
      ensures StreamAt(n + 1) == StreamAt(n) + FromLe32(file[offset + 4..offset + 8])
    {
      assert Recoverable(codec, blocks[n]);
      FrameAt(codec, blocks, n);
      BlockAt(blocks, n);
      HeaderParts(codec, blocks[n], file, offset);
    }
  }

  /** What the headers from `offset` on say their blocks amount to. */
  function HeaderSum(file: seq<byte>, offset: nat): nat
    decreases |file| - offset
  {
    if offset + HEADER_SIZE > |file| then 0 else
    FromLe32(file[offset + 4..offset + 8])
      + HeaderSum(file, offset + HEADER_SIZE + FromLe32(file[offset..offset + 4]))
  }

  lemma HeaderParts(c: Codec, b: seq<byte>, file: seq<byte>, p: nat)
    requires p + |Frame(c, b)| <= |file| && file[p..p + |Frame(c, b)|] == Frame(c, b) && Recoverable(c, b)
    ensures |Frame(c, b)| == HEADER_SIZE + FromLe32(file[p..p + 4]) && FromLe32(file[p + 4..p + 8]) == |b|
  {
    var rest := file[p..];
    assert rest[..|Frame(c, b)|] == file[p..p + |Frame(c, b)|];
    FrameParts(c, b, rest);
    assert rest[..4] == file[p..p + 4] && rest[4..8] == file[p + 4..p + 8];
  }

  lemma SliceJoin(s: seq<byte>, a: nat, b: nat, c: nat)
    requires a <= b <= c <= |s|
    ensures s[a..b] + s[b..c] == s[a..c]
  {
  }

  /** What the reads of `refill_buffer` find at a file offset, and the offset they leave. */
  datatype Fetched =
    | NoHeader
    | NoBody(offset: nat)
    | Garbled(offset: nat, length: nat)
    | Loaded(offset: nat, block: seq<byte>)

  function Fetch(c: Codec, file: seq<byte>, offset: nat): Fetched
    requires offset <= |file|
  {
    var rest := file[offset..];
    if |rest| < HEADER_SIZE then NoHeader else
    var compressedLength, uncompressedLength := FromLe32(rest[..4]), FromLe32(rest[4..8]);
    if |rest| - HEADER_SIZE < compressedLength then NoBody(offset + HEADER_SIZE) else
    var end := offset + HEADER_SIZE + compressedLength;
    var out := c.decompress(rest[HEADER_SIZE..HEADER_SIZE + compressedLength], uncompressedLength);
    if out.Some? && |out.value| == uncompressedLength then Loaded(end, out.value)
    else Garbled(end, uncompressedLength)
  }

  /** `rest` starts with the frame of block `b`. */
  ghost predicate FramePrefix(c: Codec, rest: seq<byte>, b: seq<byte>) {
    && |rest| >= HEADER_SIZE + |c.compress(b)| == |Frame(c, b)|
    && FromLe32(rest[..4]) == |c.compress(b)| && FromLe32(rest[4..8]) == |b|
    && rest[HEADER_SIZE..HEADER_SIZE + |c.compress(b)|] == c.compress(b)
  }

  lemma FrameParts(c: Codec, b: seq<byte>, rest: seq<byte>)
    requires Frame(c, b) <= rest && Recoverable(c, b)
    ensures FramePrefix(c, rest, b)
  {
    var f, h := Frame(c, b), Header(|c.compress(b)|, |b|);
    HeaderRoundTrip(|c.compress(b)|, |b|);
    assert rest[..8] == f[..8] == h;
    assert rest[..4] == h[..4] && rest[4..8] == h[4..8];
    assert rest[8..|f|] == f[8..] == c.compress(b);
  }
}

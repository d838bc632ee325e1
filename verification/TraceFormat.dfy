/**
 The on-disk format shared by the compressed trace writer and reader: a file is a
 sequence of frames, and a frame is a header of two little-endian 32-bit lengths
 followed by one independently compressed block.
 */
module TraceFormat {
  import opened Common

  const TWO_32: int := 0x1_0000_0000

  /** Brotli, kept opaque. `decompress` is given the expected output size, as the reader gives it. */
  datatype Codec = Codec(compress: seq<byte> -> seq<byte>,
                         decompress: (seq<byte>, nat) -> Option<seq<byte>>)

  /** All that the stream relies on: lengths fit the header and decompression inverts compression. */
  ghost predicate Faithful(c: Codec) {
    forall x: seq<byte> :: |x| < TWO_32 ==>
      |c.compress(x)| < TWO_32 && c.decompress(c.compress(x), |x|) == Some(x)
  }

  const HEADER_SIZE: nat := 8

  function Le32(n: nat): (b: seq<byte>)
    requires n < TWO_32
    ensures |b| == 4
  {
    [n % 256, n / 256 % 256, n / 65536 % 256, n / 16777216]
  }

  function FromLe32(b: seq<byte>): (n: nat)
    requires |b| == 4
    ensures n < TWO_32
  {
    b[0] as int + 256 * (b[1] as int) + 65536 * (b[2] as int) + 16777216 * (b[3] as int)
  }

  lemma Le32RoundTrip(n: nat)
    requires n < TWO_32
    ensures FromLe32(Le32(n)) == n
  {
    var q := n / 256;
    var r := q / 256;
    assert n / 65536 == r;
    assert n / 16777216 == r / 256;
    assert n == 256 * q + n % 256;
    assert q == 256 * r + q % 256;
    assert r == 256 * (r / 256) + r % 256;
  }

  /** A block that survives the trip: the header can express both of its lengths. */
  ghost predicate Encodable(c: Codec, block: seq<byte>) {
    |block| < TWO_32 && |c.compress(block)| < TWO_32
  }

  /** Assignment to a 32-bit field. */
  function Cut32(n: nat): (r: nat)
    ensures r < TWO_32
  {
    if n < TWO_32 then n else n % TWO_32
  }

  function Header(compressedLength: nat, uncompressedLength: nat): (h: seq<byte>)
    ensures |h| == HEADER_SIZE
  {
    Le32(Cut32(compressedLength)) + Le32(Cut32(uncompressedLength))
  }

  function Frame(c: Codec, block: seq<byte>): (f: seq<byte>)
    ensures |f| >= HEADER_SIZE
  {
    Header(|c.compress(block)|, |block|) + c.compress(block)
  }

  /** Reading a frame's header gives back the two lengths. */
  lemma HeaderRoundTrip(compressedLength: nat, uncompressedLength: nat)
    requires compressedLength < TWO_32 && uncompressedLength < TWO_32
    ensures var h := Header(compressedLength, uncompressedLength);
      FromLe32(h[..4]) == compressedLength && FromLe32(h[4..8]) == uncompressedLength
  {
    var h := Header(compressedLength, uncompressedLength);
    assert h[..4] == Le32(compressedLength) && h[4..8] == Le32(uncompressedLength);
    Le32RoundTrip(compressedLength);
    Le32RoundTrip(uncompressedLength);
  }

  /** Byte `i` of a number, the lowest first. */
  function ByteOf(n: nat, i: nat): int
    requires i < 4
  {
    if i == 0 then n % 256 else if i == 1 then n / 0x100 % 256 else if i == 2 then n / 0x1_0000 % 256
    else n / 0x100_0000 % 256
  }

  /** A frame: the compressed length, the uncompressed length, each lowest byte first, and the compressed block. */
  lemma FrameLayout(c: Codec, block: seq<byte>, i: nat)
    requires Encodable(c, block) && i < 4
    ensures var f := Frame(c, block);
      && |f| == 8 + |c.compress(block)| && f[8..] == c.compress(block)
      && f[i] == ByteOf(|c.compress(block)|, i) && f[4 + i] == ByteOf(|block|, i)
  {
    LayoutOf(|c.compress(block)|, i);
    LayoutOf(|block|, i);
    hide Le32, ByteOf;
  }

  lemma LayoutOf(n: nat, i: nat)
    requires n < TWO_32 && i < 4
    ensures Le32(n)[i] == ByteOf(n, i)
  {
  }

  /** The file holding exactly these blocks, in this order. */
  function FileOf(c: Codec, blocks: seq<seq<byte>>): seq<byte>
  {
    if blocks == [] then [] else
      FileOf(c, blocks[..|blocks| - 1]) + Frame(c, blocks[|blocks| - 1])
  }

  /** The byte stream the blocks carry. */
  function Flatten(blocks: seq<seq<byte>>): seq<byte> {
    if blocks == [] then [] else Flatten(blocks[..|blocks| - 1]) + blocks[|blocks| - 1]
  }

  /** The frame of block k sits in the file right after the frames of the blocks before it. */
  lemma {:induction false} FrameAt(c: Codec, blocks: seq<seq<byte>>, k: nat)
    requires k < |blocks|
    ensures |FileOf(c, blocks[..k])| + |Frame(c, blocks[k])| == |FileOf(c, blocks[..k + 1])| <= |FileOf(c, blocks)|
    ensures FileOf(c, blocks)[|FileOf(c, blocks[..k])|..|FileOf(c, blocks[..k + 1])|] == Frame(c, blocks[k])
    ensures k + 1 < |blocks| ==> |FileOf(c, blocks[..k + 1])| < |FileOf(c, blocks)|
  {
    hide Frame;
    assert blocks[..k + 1][..k] == blocks[..k];
    var n := |blocks| - 1;
    if k == n {
      assert blocks[..n + 1] == blocks;
    } else {
      var init := blocks[..n];
      FrameAt(c, init, k);
      assert init[..k] == blocks[..k] && init[..k + 1] == blocks[..k + 1];
    }
  }

  /** The same for the uncompressed stream. */
  lemma {:induction false} BlockAt(blocks: seq<seq<byte>>, k: nat)
    requires k < |blocks|
    ensures |Flatten(blocks[..k])| + |blocks[k]| == |Flatten(blocks[..k + 1])| <= |Flatten(blocks)|
    ensures Flatten(blocks)[|Flatten(blocks[..k])|..|Flatten(blocks[..k + 1])|] == blocks[k]
  {
    assert blocks[..k + 1][..k] == blocks[..k];
    var n := |blocks| - 1;
    if k == n {
      assert blocks[..n + 1] == blocks;
    } else {
      var init := blocks[..n];
      BlockAt(init, k);
      assert init[..k] == blocks[..k] && init[..k + 1] == blocks[..k + 1];
    }
  }

  /** An independent description of how a stream is cut: full blocks, then what is left. */
  function Chop(stream: seq<byte>, blockSize: nat): (blocks: seq<seq<byte>>)
    requires blockSize > 0
    decreases |stream|
  {
    if stream == [] then []
    else if |stream| <= blockSize then [stream]
    else [stream[..blockSize]] + Chop(stream[blockSize..], blockSize)
  }

  /** Every block is non-empty and all but the last have exactly `blockSize` bytes. */
  ghost predicate Blocked(blocks: seq<seq<byte>>, blockSize: nat) {
    && (forall t :: 0 <= t < |blocks| ==> 0 < |blocks[t]| <= blockSize)
    && (forall t :: 0 <= t < |blocks| - 1 ==> |blocks[t]| == blockSize)
  }

  lemma {:induction false} FlattenCons(b: seq<byte>, rest: seq<seq<byte>>)
    ensures Flatten([b] + rest) == b + Flatten(rest)
  {
    var all := [b] + rest;
    if rest == [] {
      assert all[..|all| - 1] == [];
    } else {
      var n := |rest| - 1;
      assert all[..|all| - 1] == [b] + rest[..n];
      FlattenCons(b, rest[..n]);
    }
  }

  /** A stream has exactly one cutting of that shape, and it is `Chop`. */
  lemma {:induction false} ChopUnique(blocks: seq<seq<byte>>, blockSize: nat)
    requires blockSize > 0 && Blocked(blocks, blockSize)
    ensures blocks == Chop(Flatten(blocks), blockSize)
  {
    if blocks != [] {
      var b, rest := blocks[0], blocks[1..];
      assert blocks == [b] + rest;
      FlattenCons(b, rest);
      var s := Flatten(blocks);
      if rest == [] {
        assert s == b;
      } else {
        assert |b| == blockSize;
        FlattenCons(rest[0], rest[1..]);
        assert rest == [rest[0]] + rest[1..];
        assert s[..blockSize] == b && s[blockSize..] == Flatten(rest);
        ChopUnique(rest, blockSize);
      }
    }
  }
}

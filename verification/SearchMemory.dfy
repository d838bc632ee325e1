/** gdb's memory search: page by page over the mappings, equal to a search of every address. */
module SearchMemory {
  import opened Common
  import opened MemoryMap

  /** The bytes of the tracee that can be read. */
  type Memory = map<nat, byte>

  /** Whether a byte can be read depends only on its page. */
  ghost predicate ByPage(bytes: Memory) {
    forall a: nat, b: nat :: a in bytes && FloorPage(a) == FloorPage(b) ==> b in bytes
  }

  function ReadableLength(bytes: Memory, start: nat, len: nat): (n: nat)
    ensures n <= len
    ensures forall a :: start <= a < start + n ==> a in bytes
    ensures n < len ==> start + n !in bytes
    decreases len
  {
    if len == 0 || start !in bytes then 0 else 1 + ReadableLength(bytes, start + 1, len - 1)
  }

  /** read_bytes_fallible: the longest readable prefix. */
  function ReadPrefix(bytes: Memory, start: nat, len: nat): (data: seq<byte>) {
    seq(ReadableLength(bytes, start, len), i requires 0 <= i < ReadableLength(bytes, start, len) => bytes[start + i])
  }

  predicate SubAt(buf: seq<byte>, find: seq<byte>, i: nat) {
    i + |find| <= |buf| && buf[i..i + |find|] == find
  }

  /** memmem: the first occurrence. */
  method Memmem(buf: seq<byte>, find: seq<byte>) returns (r: Option<nat>)
    ensures r.Some? ==> SubAt(buf, find, r.value) && forall i: nat :: i < r.value ==> !SubAt(buf, find, i)
    ensures r.None? ==> forall i: nat :: !SubAt(buf, find, i)
  {
    var i: nat := 0;
    while i + |find| <= |buf|
      invariant forall j: nat :: j < i ==> !SubAt(buf, find, j)
    {
      if SubAt(buf, find, i) {
        return Some(i);
      }
      i := i + 1;
    }
    r := None;
  }

  predicate ByteAt(bytes: Memory, a: nat, b: byte) {
    a in bytes && bytes[a] == b
  }

  /** The whole needle is readable at `s`. */
  ghost predicate MatchAt(bytes: Memory, find: seq<byte>, s: nat) {
    forall k :: 0 <= k < |find| ==> ByteAt(bytes, s + k, find[k])
  }

  /** A match inside `r`. */
  ghost predicate MatchIn(bytes: Memory, find: seq<byte>, r: Range, s: nat) {
    r.start <= s && s + |find| <= r.end && MatchAt(bytes, find, s)
  }

  /** A match that starts in a mapping and lies in the searched range. */
  ghost predicate Hit(mem: seq<Mapping>, bytes: Memory, find: seq<byte>, where: Range, s: nat) {
    MatchIn(bytes, find, where, s) && exists i :: 0 <= i < |mem| && mem[i].Has(s)
  }

  /** What is found in the bytes read is a match. */
  lemma SubAtIsMatch(bytes: Memory, find: seq<byte>, start: nat, len: nat, i: nat)
    requires SubAt(ReadPrefix(bytes, start, len), find, i)
    ensures MatchAt(bytes, find, start + i)
  {
    var data := ReadPrefix(bytes, start, len);
    forall k | 0 <= k < |find| ensures ByteAt(bytes, start + i + k, find[k]) {
      assert data[i..i + |find|][k] == data[i + k];
    }
  }

  /** A match within the bytes read is found there. */
  lemma MatchIsSubAt(bytes: Memory, find: seq<byte>, start: nat, len: nat, i: nat)
    requires MatchAt(bytes, find, start + i) && i + |find| <= |ReadPrefix(bytes, start, len)|
    ensures SubAt(ReadPrefix(bytes, start, len), find, i)
  {
    var data := ReadPrefix(bytes, start, len);
    var part := data[i..i + |find|];
    forall k | 0 <= k < |find| ensures part[k] == find[k] {
      assert ByteAt(bytes, start + i + k, find[k]);
    }
  }

  /** A match that starts in the first page of the read is read completely. */
  lemma MatchIsRead(bytes: Memory, find: seq<byte>, start: nat, len: nat, s: nat)
    requires ByPage(bytes) && find != [] && MatchAt(bytes, find, s)
    requires start <= s && FloorPage(s) == FloorPage(start) && s + |find| - start <= len
    ensures s + |find| - start <= |ReadPrefix(bytes, start, len)|
  {
    assert ByteAt(bytes, s + 0, find[0]);
    forall a: nat | start <= a < s + |find| ensures a in bytes {
      if a <= s {
        SamePage(start, a, s);
      } else {
        assert ByteAt(bytes, s + (a - s), find[a - s]);
      }
    }
  }

  lemma SamePage(a: nat, b: nat, c: nat)
    requires a <= b <= c && FloorPage(a) == FloorPage(c)
    ensures FloorPage(b) == FloorPage(a)
  {
  }

  /** The search of one mapping: page by page, reading past the end of each page. */
  method SearchRange(bytes: Memory, find: seq<byte>, range: Range) returns (r: Option<nat>)
    requires ByPage(bytes) && find != []
    ensures r.Some? ==> MatchIn(bytes, find, range, r.value)
    ensures r.Some? ==> forall s: nat :: s < r.value ==> !MatchIn(bytes, find, range, s)
    ensures r.None? ==> forall s: nat :: !MatchIn(bytes, find, range, s)
  {
    var start, end := range.start, range.end;
    while end - start >= |find|
      invariant range.start <= start
      invariant forall s: nat :: s < start ==> !MatchIn(bytes, find, range, s)
      decreases end - start
    {
      var len := Min(PAGE + |find| - 1, end - start);
      var data := ReadPrefix(bytes, start, len);
      if |data| >= |find| {
        var found := Memmem(data, find);
        if found.Some? {
          SubAtIsMatch(bytes, find, start, len, found.value);
          forall s: nat | start <= s < start + found.value ensures !MatchIn(bytes, find, range, s) {
            FoundIfMatch(bytes, find, range, start, len, s);
          }
          return Some(start + found.value);
        }
      }
      var next := Min(end, FloorPage(start) + PAGE);
      forall s: nat | start <= s < next ensures !MatchIn(bytes, find, range, s) {
        FoundIfMatch(bytes, find, range, start, len, s);
      }
      start := next;
    }
    r := None;
  }

  /** A match is among the bytes read if it starts in the first page, or before something else that was read. */
  lemma FoundIfMatch(bytes: Memory, find: seq<byte>, range: Range, start: nat, len: nat, s: nat)
    requires ByPage(bytes) && find != [] && range.start <= start <= s && |find| <= range.end - start
    requires len == Min(PAGE + |find| - 1, range.end - start)
    requires s < FloorPage(start) + PAGE || s - start + |find| <= |ReadPrefix(bytes, start, len)|
    ensures MatchIn(bytes, find, range, s) ==>
      SubAt(ReadPrefix(bytes, start, len), find, s - start) && |ReadPrefix(bytes, start, len)| >= |find|
  {
    if MatchIn(bytes, find, range, s) {
      if s < FloorPage(start) + PAGE {
        InFirstPage(start, s);
        MatchIsRead(bytes, find, start, len, s);
      }
      MatchIsSubAt(bytes, find, start, len, s - start);
    }
  }

  lemma InFirstPage(start: nat, s: nat)
    requires start <= s < FloorPage(start) + PAGE
    ensures FloorPage(s) == FloorPage(start)
  {
  }

  /** The part of the searched range whose matches start in the mapping. */
  function Reach(m: Mapping, find: seq<byte>, where: Range): Range
    requires find != []
  {
    var s, e := Max(m.live.range.start, where.start), Min(m.live.range.end + |find| - 1, where.end);
    Range(s, Max(s, e))
  }

  lemma ReachIsHits(m: Mapping, bytes: Memory, find: seq<byte>, where: Range, s: nat)
    requires find != []
    ensures MatchIn(bytes, find, Reach(m, find, where), s) <==> MatchIn(bytes, find, where, s) && m.Has(s)
  {
  }

  /** The lowest hit, or none when there is none. */
  method Search(mem: seq<Mapping>, bytes: Memory, where: Range, find: seq<byte>) returns (r: Option<nat>)
    requires Sorted(mem) && ByPage(bytes) && find != []
    ensures r.Some? ==> Hit(mem, bytes, find, where, r.value)
    ensures r.Some? ==> forall s: nat :: s < r.value ==> !Hit(mem, bytes, find, where, s)
    ensures r.None? ==> forall s: nat :: !Hit(mem, bytes, find, where, s)
  {
    var i := 0;
    while i < |mem|
      invariant 0 <= i <= |mem|
      invariant forall j: nat, s: nat :: j < i && mem[j].Has(s) ==> !MatchIn(bytes, find, where, s)
    {
      r := SearchRange(bytes, find, Reach(mem[i], find, where));
      forall s: nat
        ensures MatchIn(bytes, find, Reach(mem[i], find, where), s) <==> MatchIn(bytes, find, where, s) && mem[i].Has(s)
      {
        ReachIsHits(mem[i], bytes, find, where, s);
      }
      if r.Some? {
        forall s: nat | s < r.value ensures !Hit(mem, bytes, find, where, s) {
          LowestHit(mem, bytes, find, where, i, r.value, s);
        }
        return;
      }
      i := i + 1;
    }
    r := None;
  }

  lemma LowestHit(mem: seq<Mapping>, bytes: Memory, find: seq<byte>, where: Range, i: nat, found: nat, s: nat)
    requires Sorted(mem) && i < |mem| && mem[i].Has(found) && s < found
    requires forall j: nat :: j < i && mem[j].Has(s) ==> !MatchIn(bytes, find, where, s)
    requires mem[i].Has(s) ==> !MatchIn(bytes, find, where, s)
    ensures !Hit(mem, bytes, find, where, s)
  {
    assert forall j :: i < j < |mem| ==> mem[i].live.range.end <= mem[j].live.range.start;
  }
}

/** mmap, munmap and mprotect on the cached memory map. */
module AddressSpace {
  import opened Common
  import opened MemoryMap
  import opened RingArithmetic

  // ---------------------------------------------------------------- coalescing

  predicate IsStack(name: string) { "[stack" <= name }

  const DELETED := " (deleted)"

  predicate OccursAt(s: string, sub: string, i: nat) {
    i + |sub| <= |s| && s[i..i + |sub|] == sub
  }

  /** Drops the suffix the kernel adds to the name of a deleted file, if that is its first occurrence. */
  function StripDeleted(s: string): string {
    if |s| >= |DELETED| && OccursAt(s, DELETED, |s| - |DELETED|)
       && (forall i :: 0 <= i < |s| - |DELETED| ==> !OccursAt(s, DELETED, i))
    then s[..|s| - |DELETED|] else s
  }

  predicate SameName(a: KernelMapping, b: KernelMapping) {
    IsStack(a.fsname) || IsStack(b.fsname) || StripDeleted(a.fsname) == StripDeleted(b.fsname)
  }

  /** Adjacent in memory, with the same metadata, and adjacent in the file where there is one. */
  predicate Adjacent(l: KernelMapping, r: KernelMapping) {
    && l.range.end == r.range.start
    && l.flags == r.flags && l.prot == r.prot
    && SameName(l, r)
    && l.device == r.device && l.inode == r.inode
    && (l.RealDevice() ==> l.offset + (l.range.end - l.range.start) == r.offset)
  }

  predicate Coalescable(l: Mapping, r: Mapping) {
    Adjacent(l.live, r.live) && Adjacent(l.recorded, r.recorded) && l.flags == r.flags
  }

  /**
   Two mappings can be merged exactly if the first, extended over the second, would show what the
   second shows at each of its addresses, and their names do not tell them apart.
   */
  lemma CoalescableExact(l: Mapping, r: Mapping)
    requires l.Valid() && r.Valid()
    ensures Coalescable(l, r) <==>
      && l.live.range.end == r.live.range.start
      && (forall a: nat :: r.Has(a) ==> ViewAt(l, a) == ViewAt(r, a))
      && NamesAgree(l.live.fsname, r.live.fsname) && NamesAgree(l.recorded.fsname, r.recorded.fsname)
  {
    hide SameName, NamesAgree;
    NamesExact(l.live, r.live);
    NamesExact(l.recorded, r.recorded);
    var start := r.live.range.start;
    assert r.Has(start);
    if l.live.range.end == start {
      forall a: nat | r.Has(a)
        ensures ViewAt(l, a) == ViewAt(r, a) <==>
          l.flags == r.flags && Continues(l.live, r.live) && Continues(l.recorded, r.recorded)
      {
        ContinuesAt(l.live, r.live, a);
        ContinuesAt(l.recorded, r.recorded, a);
      }
    }
  }

  predicate Continues(l: KernelMapping, r: KernelMapping) {
    && l.flags == r.flags && l.prot == r.prot && l.device == r.device && l.inode == r.inode
    && (l.RealDevice() ==> l.offset + (l.range.end - l.range.start) == r.offset)
  }

  lemma ContinuesAt(l: KernelMapping, r: KernelMapping, a: nat)
    requires l.range.end == r.range.start
    ensures AttributesAt(l, a) == AttributesAt(r, a) <==> Continues(l, r)
  {
  }

  /** One of them is a stack, or they are the same once the mark of a deleted file is gone. */
  ghost predicate NamesAgree(a: string, b: string) {
    || "[stack" <= a || "[stack" <= b
    || exists x: string :: Unmarked(a, x) && Unmarked(b, x)
  }

  /** `x` is the name without the mark, which only counts where it first occurs at the end. */
  ghost predicate Unmarked(name: string, x: string) {
    if MarkedFirst(name, x) then true else name == x && forall y: string :: !MarkedFirst(name, y)
  }

  ghost predicate MarkedFirst(name: string, x: string) {
    name == x + " (deleted)" && forall i: nat :: OccursAt(name, " (deleted)", i) ==> i == |x|
  }

  lemma StripMeans(name: string)
    ensures Unmarked(name, StripDeleted(name))
    ensures forall x: string :: Unmarked(name, x) ==> x == StripDeleted(name)
  {
    var x := StripDeleted(name);
    if x != name {
      assert name == x + DELETED;
    }
    forall y: string | MarkedFirst(name, y) ensures y == x && x != name {
      assert OccursAt(name, DELETED, |y|);
      assert name[..|y|] == y;
    }
  }

  lemma NamesExact(a: KernelMapping, b: KernelMapping)
    ensures SameName(a, b) <==> NamesAgree(a.fsname, b.fsname)
  {
    hide StripDeleted, Unmarked;
    StripMeans(a.fsname);
    StripMeans(b.fsname);
  }

  /** Each mapping of the run can be merged with the next. */
  ghost predicate Chain(run: seq<Mapping>) {
    && run != [] && Sorted(run)
    && forall i :: 0 <= i < |run| - 1 ==> Coalescable(run[i], run[i + 1])
  }

  function Merged(run: seq<Mapping>): Mapping
    requires run != []
  {
    var end := run[|run| - 1].live.range.end;
    Mapping(run[0].live.Extend(end), run[0].recorded.Extend(end), run[0].flags)
  }

  /** The longest run around position `i` in which each mapping can be merged with the next. */
  ghost predicate MaximalRun(mem: seq<Mapping>, i: nat, first: nat, last: nat) {
    && first <= i <= last < |mem|
    && (forall j :: first <= j < last ==> Coalescable(mem[j], mem[j + 1]))
    && (first > 0 ==> !Coalescable(mem[first - 1], mem[first]))
    && (last + 1 < |mem| ==> !Coalescable(mem[last], mem[last + 1]))
  }

  /** One mapping in the place of a run. */
  function Collapse(mem: seq<Mapping>, first: nat, last: nat): seq<Mapping>
    requires first <= last < |mem|
  {
    mem[..first] + [Merged(mem[first..last + 1])] + mem[last + 1..]
  }

  /** A mapping is put in its place and merged as far as possible with its neighbours. */
  ghost predicate Inserted(before: seq<Mapping>, m: Mapping, after: seq<Mapping>) {
    exists i: nat, first: nat, last: nat :: i <= |before|
      && MaximalRun(before[..i] + [m] + before[i..], i, first, last)
      && after == Collapse(before[..i] + [m] + before[i..], first, last)
  }

  /** The mapping that ends at `stop` is merged as far as possible with its neighbours. */
  ghost predicate Tidied(before: seq<Mapping>, stop: nat, after: seq<Mapping>) {
    exists i: nat, first: nat, last: nat ::
      MaximalRun(before, i, first, last) && before[i].live.range.end == stop && after == Collapse(before, first, last)
  }

  lemma ChainTail(run: seq<Mapping>)
    requires Chain(run) && |run| > 1
    ensures Chain(run[1..])
  {
    var rest := run[1..];
    forall i | 0 <= i < |rest| - 1 ensures Coalescable(rest[i], rest[i + 1]) {
      assert Coalescable(run[i + 1], run[i + 2]);
    }
  }

  /** Merging a run does not change what is seen at any address. */
  lemma {:induction false} MergedLookup(run: seq<Mapping>, a: nat)
    requires Chain(run)
    ensures Lookup(run, a) == Lookup([Merged(run)], a)
    ensures Merged(run).Valid()
  {
    assert run[0].Valid() && run[|run| - 1].Valid();
    if |run| > 1 {
      var rest := run[1..];
      assert Coalescable(run[0], run[1]) && run[1].Valid();
      assert Chain(rest) by { ChainTail(run); }
      MergedLookup(rest, a);
      assert ViewAt(Merged(rest), a) == ViewAt(Merged(run), a);
    }
  }

  // ---------------------------------------------------------------- cutting

  /** What `unmap` leaves of a mapping when `rem` is to go. */
  function CutOut(m: Mapping, rem: Range): seq<Mapping>
    requires m.Valid() && m.live.range.Intersects(rem)
  {
    var r := m.live.range;
    (if r.start < rem.start then [m.Subrange(r.start, rem.start)] else []) +
    (if rem.end < r.end then [m.Subrange(rem.end, r.end)] else [])
  }

  lemma CutOutLookup(m: Mapping, rem: Range, a: nat)
    requires m.Valid() && m.live.range.Intersects(rem) && rem.start % PAGE == 0 && rem.end % PAGE == 0
    ensures PiecesOf(CutOut(m, rem), m.live.range)
    ensures Lookup(CutOut(m, rem), a) == if m.Has(a) && !rem.Has(a) then Some(ViewAt(m, a)) else None
  {
    var r := m.live.range;
    var under := if r.start < rem.start then [m.Subrange(r.start, rem.start)] else [];
    var over := if rem.end < r.end then [m.Subrange(rem.end, r.end)] else [];
    LookupConcat(under, over, a);
  }

  /** One round of the unmapping loop, at one address. */
  lemma UnmapStep(mem: seq<Mapping>, i: nat, rem: Range, a: nat)
    requires Sorted(mem) && i < |mem| && mem[i].live.range.Intersects(rem)
    requires rem.start % PAGE == 0 && rem.end % PAGE == 0
    ensures var mem' := Splice(mem, i, CutOut(mem[i], rem));
      && Sorted(mem')
      && Lookup(mem', a) == if mem[i].Has(a) && rem.Has(a) then None else Lookup(mem, a)
  {
    CutOutLookup(mem[i], rem, a);
    SpliceSorted(mem, i, CutOut(mem[i], rem));
    SpliceLookup(mem, i, CutOut(mem[i], rem), a);
    if mem[i].Has(a) { LookupAt(mem, i, a); }
  }

  /** Where the change of a mapping starts: PROT_GROWSDOWN extends it to the mapping's start. */
  function ProtectFrom(m: Mapping, rem: Range, down: bool): nat {
    if m.live.range.start < rem.start && down then m.live.range.start else rem.start
  }

  /** What `protect` makes of a mapping. */
  function Reprotect(m: Mapping, rem: Range, prot: nat, down: bool): seq<Mapping>
    requires m.Valid() && m.live.range.Has(rem.start) && rem.start < rem.end
  {
    var r, from := m.live.range, ProtectFrom(m, rem, down);
    (if r.start < from then [m.Subrange(r.start, rem.start)] else []) +
    [m.Subrange(from, Min(rem.end, r.end)).SetProt(prot)] +
    (if rem.end < r.end then [m.Subrange(rem.end, r.end)] else [])
  }

  /** A piece of a mapping shows what the mapping showed there. */
  lemma PieceLookup(m: Mapping, start: nat, end: nat, a: nat)
    requires m.Valid() && m.live.range.start <= start
    ensures Lookup([m.Subrange(start, end)], a) == if start <= a < end then Some(ViewAt(m, a)) else None
  {
    OneLookup(m.Subrange(start, end), a);
  }

  /** At most one piece, and where it may lie. */
  ghost predicate Piece(p: seq<Mapping>, start: nat, end: nat) {
    |p| <= 1 && (p != [] ==> p[0].Valid() && p[0].live.range == Range(start, end))
  }

  lemma JoinPieces(x: seq<Mapping>, y: seq<Mapping>, z: seq<Mapping>, a: nat, b: nat, c: nat, d: nat, r: Range)
    requires r.start <= a <= b <= c <= d <= r.end
    requires Piece(x, a, b) && Piece(y, b, c) && Piece(z, c, d)
    ensures PiecesOf(x + y + z, r)
  {
    var s := x + y + z;
    assert forall i :: 0 <= i < |s| ==> s[i] in x || s[i] in y || s[i] in z;
  }

  lemma ReprotectPieces(m: Mapping, rem: Range, prot: nat, down: bool)
    requires m.Valid() && m.live.range.Has(rem.start) && rem.start < rem.end
    requires rem.start % PAGE == 0 && rem.end % PAGE == 0
    ensures PiecesOf(Reprotect(m, rem, prot, down), m.live.range)
  {
    hide PiecesOf;
    var r, from := m.live.range, ProtectFrom(m, rem, down);
    var end := Min(rem.end, r.end);
    var under := if r.start < from then [m.Subrange(r.start, rem.start)] else [];
    var mid := [m.Subrange(from, end).SetProt(prot)];
    var over := if rem.end < r.end then [m.Subrange(rem.end, r.end)] else [];
    JoinPieces(under, mid, over, r.start, from, end, r.end, r);
  }

  lemma ReprotectLookup(m: Mapping, rem: Range, prot: nat, down: bool, a: nat)
    requires m.Valid() && m.live.range.Has(rem.start) && rem.start < rem.end
    ensures Lookup(Reprotect(m, rem, prot, down), a) ==
      if !m.Has(a) then None
      else if ProtectFrom(m, rem, down) <= a < rem.end then Some(WithProt(ViewAt(m, a), prot))
      else Some(ViewAt(m, a))
  {
    var r, from := m.live.range, ProtectFrom(m, rem, down);
    var under := if r.start < from then [m.Subrange(r.start, rem.start)] else [];
    var piece := m.Subrange(from, Min(rem.end, r.end));
    var over := if rem.end < r.end then [m.Subrange(rem.end, r.end)] else [];
    LookupConcat(under + [piece.SetProt(prot)], over, a);
    LookupConcat(under, [piece.SetProt(prot)], a);
    PieceLookup(m, r.start, rem.start, a);
    if rem.end < r.end { PieceLookup(m, rem.end, r.end, a); }
    assert ViewAt(piece.SetProt(prot), a) == WithProt(ViewAt(m, a), prot);
    OneLookup(piece.SetProt(prot), a);
  }

  lemma OneLookup(m: Mapping, a: nat)
    ensures Lookup([m], a) == if m.Has(a) then Some(ViewAt(m, a)) else None
  {
    assert [m][1..] == [];
  }

  /** One round of the protecting loop, at one address. */
  lemma ProtectStep(mem: seq<Mapping>, i: nat, rem: Range, prot: nat, down: bool, a: nat)
    requires Sorted(mem) && i < |mem| && mem[i].live.range.Has(rem.start) && rem.start < rem.end
    requires rem.start % PAGE == 0 && rem.end % PAGE == 0
    ensures var mem' := Splice(mem, i, Reprotect(mem[i], rem, prot, down));
      && Sorted(mem')
      && Lookup(mem', a) == Protected(mem, Range(ProtectFrom(mem[i], rem, down), Min(rem.end, mem[i].live.range.end)),
          prot, a)
  {
    var pieces := Reprotect(mem[i], rem, prot, down);
    ReprotectLookup(mem[i], rem, prot, down, a);
    ReprotectPieces(mem[i], rem, prot, down);
    SpliceSorted(mem, i, pieces);
    SpliceLookup(mem, i, pieces, a);
    if mem[i].Has(a) { LookupAt(mem, i, a); }
  }

  /** Some mapping has exactly this range. */
  ghost predicate HasRange(mem: seq<Mapping>, r: Range) {
    exists j :: 0 <= j < |mem| && mem[j].live.range == r
  }

  /** The protected part is a mapping of its own. */
  lemma ReprotectRange(mem: seq<Mapping>, i: nat, rem: Range, prot: nat, down: bool)
    requires i < |mem| && mem[i].Valid() && mem[i].live.range.Has(rem.start) && rem.start < rem.end
    ensures HasRange(Splice(mem, i, Reprotect(mem[i], rem, prot, down)),
                     Range(ProtectFrom(mem[i], rem, down), Min(rem.end, mem[i].live.range.end)))
  {
    var pieces := Reprotect(mem[i], rem, prot, down);
    var k := if mem[i].live.range.start < ProtectFrom(mem[i], rem, down) then 1 else 0;
    assert Splice(mem, i, pieces)[i + k] == pieces[k];
  }

  /** No mapping lies across address `p`. */
  ghost predicate Boundary(mem: seq<Mapping>, p: nat) {
    forall j :: 0 <= j < |mem| ==> mem[j].live.range.end <= p || p <= mem[j].live.range.start
  }

  lemma SpliceBoundary(mem: seq<Mapping>, i: nat, pieces: seq<Mapping>)
    requires Sorted(mem) && i < |mem| && PiecesOf(pieces, mem[i].live.range)
    ensures Boundary(Splice(mem, i, pieces), mem[i].live.range.end)
  {
    var mem' := Splice(mem, i, pieces);
    var p := mem[i].live.range.end;
    forall j | 0 <= j < |mem'| ensures mem'[j].live.range.end <= p || p <= mem'[j].live.range.start {
      if j < i { assert mem'[j] == mem[j]; }
      else if j < i + |pieces| { assert mem'[j] == pieces[j - i]; }
      else { assert mem'[j] == mem[j - |pieces| + 1]; }
    }
  }

  /** Nothing is mapped between the keys before position `i` and the key there. */
  lemma GapBefore(mem: seq<Mapping>, i: nat, lo: nat, a: nat)
    requires Sorted(mem) && i <= |mem| && lo <= a
    requires forall j :: 0 <= j < i ==> mem[j].live.range.end <= lo
    requires i < |mem| ==> a < mem[i].live.range.start
    ensures Lookup(mem, a) == None
  {
    LookupNone(mem, a);
  }

  /** The whole pages that a region touches. */
  function Pages(addr: nat, numBytes: nat): Range {
    Range(FloorPage(addr), CeilPage(addr + numBytes))
  }

  /** The view after the addresses in `r` are unmapped. */
  function Without(mem: seq<Mapping>, r: Range, a: nat): Option<View> {
    if r.Has(a) then None else Lookup(mem, a)
  }

  /** The view after the addresses of `m` are mapped to it. */
  function With(mem: seq<Mapping>, m: Mapping, a: nat): Option<View> {
    if m.Has(a) then Some(ViewAt(m, a)) else Lookup(mem, a)
  }

  /** The view after the protection of the addresses in `r` is changed. */
  function Protected(mem: seq<Mapping>, r: Range, prot: nat, a: nat): Option<View> {
    var v := Lookup(mem, a);
    if r.Has(a) && v.Some? then Some(WithProt(v.value, prot)) else v
  }

  ghost predicate ShowsProtected(mem: seq<Mapping>, before: seq<Mapping>, r: Range, prot: nat) {
    forall a: nat :: Lookup(mem, a) == Protected(before, r, prot, a)
  }

  /** Everything from the start of the region to `stop` is mapped; `low` is as PROT_GROWSDOWN asks. */
  ghost predicate ReachesSoFar(mem: seq<Mapping>, region: Range, down: bool, low: nat, stop: nat) {
    && region.start <= stop <= Max(region.start, region.end)
    && (forall a: nat :: region.start <= a < stop ==> Lookup(mem, a).Some?)
    && (!down || stop == region.start ==> low == region.start)
    && (down && region.start < stop ==>
          exists i :: 0 <= i < |mem| && mem[i].Has(region.start) && low == mem[i].live.range.start)
  }

  /** And `stop` is the first hole, or the end of the region. */
  ghost predicate Reaches(mem: seq<Mapping>, region: Range, down: bool, low: nat, stop: nat) {
    ReachesSoFar(mem, region, down, low, stop) && (stop < region.end ==> Lookup(mem, stop) == None)
  }

  /** One more mapping, starting at `lastEnd` or around the start of the region, joins what is reached. */
  lemma ExtendReach(first: seq<Mapping>, mem: seq<Mapping>, mem': seq<Mapping>, i: nat, region: Range, prot: nat,
                    down: bool, low: nat, lastEnd: nat)
    requires Sorted(mem) && i < |mem| && region.start <= lastEnd < region.end && mem[i].Has(lastEnd)
    requires mem[i].live.range.start < region.start || mem[i].live.range.start == lastEnd
    requires lastEnd == region.start ==> low == region.start && mem == first
    requires region.start < lastEnd ==> Boundary(mem, lastEnd)
    requires ReachesSoFar(first, region, down, low, lastEnd)
    requires ShowsProtected(mem, first, Range(low, lastEnd), prot)
    requires ShowsProtected(mem', mem,
        Range(ProtectFrom(mem[i], Range(lastEnd, region.end), down), Min(region.end, mem[i].live.range.end)), prot)
    ensures var stop' := Min(region.end, mem[i].live.range.end);
      var from := ProtectFrom(mem[i], Range(lastEnd, region.end), down);
      var low' := if lastEnd == region.start then from else low;
      && ReachesSoFar(first, region, down, low', stop')
      && ShowsProtected(mem', first, Range(low', stop'), prot)
      && Lookup(mem', from).Some?
  {
    var m := mem[i];
    var stop' := Min(region.end, m.live.range.end);
    var from := ProtectFrom(m, Range(lastEnd, region.end), down);
    var low' := if lastEnd == region.start then from else low;
    forall a: nat ensures Lookup(mem', a) == Protected(first, Range(low', stop'), prot, a) {
      assert Lookup(mem, a) == Protected(first, Range(low, lastEnd), prot, a);
    }
    forall a: nat | lastEnd <= a < stop' ensures Lookup(first, a).Some? {
      LookupAt(mem, i, a);
      assert Lookup(mem, a) == Protected(first, Range(low, lastEnd), prot, a);
    }
    LookupAt(mem, i, from);
  }

  class AddressSpace {
    var mem: seq<Mapping>

    constructor ()
      ensures Valid() && mem == []
    {
      mem := [];
    }

    ghost predicate Valid()
      reads this
    {
      Sorted(mem)
    }

    /** The mapping that comes next in `rem`: everything before it ends before `rem`. */
    method NextIn(rem: Range) returns (i: nat)
      requires Valid() && rem.start < rem.end
      ensures i <= |mem|
      ensures forall j :: 0 <= j < i ==> mem[j].live.range.end <= rem.start
      ensures i < |mem| ==> rem.start < mem[i].live.range.end
    {
      i := LowerBound(mem, rem);
      forall j | 0 <= j < |mem| ensures Less(mem[j].live.range, rem) <==> mem[j].live.range.end <= rem.start {
        assert mem[j].Valid();
        LessIsBefore(mem[j].live.range, rem);
      }
    }

    /** Exactly the pages of the region lose their mapping. */
    method UnmapInternal(addr: nat, numBytes: nat)
      requires Valid()
      modifies this
      ensures Valid()
      ensures forall a: nat :: Lookup(mem, a) == Without(old(mem), Pages(addr, numBytes), a)
    {
      var regionStart, regionEnd := FloorPage(addr), CeilPage(addr + numBytes);
      var lastEnd := regionStart;
      while lastEnd < regionEnd
        invariant Valid() && regionStart <= lastEnd && lastEnd % PAGE == 0
        invariant forall a: nat :: Lookup(mem, a) == Without(old(mem), Range(regionStart, Min(lastEnd, regionEnd)), a)
        decreases regionEnd - lastEnd
      {
        var rem := Range(lastEnd, regionEnd);
        var i := NextIn(rem);
        if i == |mem| || regionEnd <= mem[i].live.range.start {
          forall a: nat | lastEnd <= a < regionEnd ensures Lookup(mem, a) == None {
            GapBefore(mem, i, lastEnd, a);
          }
          return;
        }
        var m := mem[i];
        assert m.Valid();
        forall a: nat | lastEnd <= a < m.live.range.start ensures Lookup(mem, a) == None {
          GapBefore(mem, i, lastEnd, a);
        }
        forall a: nat
          ensures Lookup(Splice(mem, i, CutOut(m, rem)), a) == if m.Has(a) && rem.Has(a) then None else Lookup(mem, a)
        {
          UnmapStep(mem, i, rem, a);
        }
        UnmapStep(mem, i, rem, 0);
        mem := Splice(mem, i, CutOut(m, rem));
        lastEnd := m.live.range.end;
      }
    }

    /** Changes the protection of one mapping, as far as it lies in `rem`. */
    method ProtectOne(i: nat, rem: Range, prot: nat, down: bool)
      requires Valid() && i < |mem| && mem[i].live.range.Has(rem.start) && rem.start < rem.end
      requires rem.start % PAGE == 0 && rem.end % PAGE == 0
      modifies this
      ensures Valid() && Boundary(mem, old(mem)[i].live.range.end)
      ensures ShowsProtected(mem, old(mem),
        Range(ProtectFrom(old(mem)[i], rem, down), Min(rem.end, old(mem)[i].live.range.end)), prot)
      ensures HasRange(mem, Range(ProtectFrom(old(mem)[i], rem, down), Min(rem.end, old(mem)[i].live.range.end)))
    {
      var m := mem[i];
      assert m.Valid();
      ReprotectPieces(m, rem, prot, down);
      SpliceBoundary(mem, i, Reprotect(m, rem, prot, down));
      forall a: nat ensures Lookup(Splice(mem, i, Reprotect(m, rem, prot, down)), a)
        == Protected(mem, Range(ProtectFrom(m, rem, down), Min(rem.end, m.live.range.end)), prot, a) {
        ProtectStep(mem, i, rem, prot, down, a);
      }
      SpliceSorted(mem, i, Reprotect(m, rem, prot, down));
      ReprotectRange(mem, i, rem, prot, down);
      mem := Splice(mem, i, Reprotect(m, rem, prot, down));
    }

    /** The loop of `protect`: `low` and `stop` bound the change, `overlap` is the last mapping made. */
    method ProtectLoop(region: Range, prot: nat, down: bool)
      returns (ghost low: nat, ghost stop: nat, overlap: Option<Range>)
      requires Valid() && region.start % PAGE == 0 && region.end % PAGE == 0
      modifies this
      ensures Valid() && Reaches(old(mem), region, down, low, stop)
      ensures ShowsProtected(mem, old(mem), Range(low, stop), prot)
      ensures overlap.Some? <==> region.start < stop
      ensures overlap.None? ==> mem == old(mem)
      ensures overlap.Some? ==> overlap.value.end == stop && HasRange(mem, overlap.value)
    {
      hide Lookup, HasRange;
      var lastEnd := region.start;
      overlap := None;
      low, stop := region.start, region.start;
      while lastEnd < region.end
        invariant Valid() && region.start <= lastEnd && lastEnd % PAGE == 0
        invariant stop == Max(region.start, Min(lastEnd, region.end))
        invariant ReachesSoFar(old(mem), region, down, low, stop)
        invariant lastEnd == region.start ==> low == region.start && mem == old(mem)
        invariant region.start < lastEnd ==> Boundary(mem, lastEnd)
        invariant overlap.Some? <==> region.start < stop
        invariant overlap.None? ==> mem == old(mem)
        invariant overlap.Some? ==> overlap.value.end == stop && HasRange(mem, overlap.value)
        invariant ShowsProtected(mem, old(mem), Range(low, stop), prot)
        decreases region.end - lastEnd
      {
        var rem := Range(lastEnd, region.end);
        var i := NextIn(rem);
        if i == |mem| || region.end <= mem[i].live.range.start
           || !(mem[i].live.range.start < region.start || mem[i].live.range.start == lastEnd) {
          GapBefore(mem, i, lastEnd, lastEnd);
          return;
        }
        var m, from := mem[i], ProtectFrom(mem[i], rem, down);
        assert m.Valid();
        ghost var before := mem;
        ProtectOne(i, rem, prot, down);
        ExtendReach(old(mem), before, mem, i, region, prot, down, low, lastEnd);
        if lastEnd == region.start { low := from; }
        overlap := Some(Range(from, Min(region.end, m.live.range.end)));
        lastEnd := m.live.range.end;
        stop := Min(lastEnd, region.end);
      }
    }

    /**
     The protection changes on the pages of the region that are reached from its start without
     a hole, and, with PROT_GROWSDOWN, down to the start of the mapping there.
     */
    method Protect(addr: nat, numBytes: nat, prot: nat)
      returns (ghost low: nat, ghost stop: nat, ghost split: seq<Mapping>)
      requires Valid()
      modifies this
      ensures Valid()
      ensures Reaches(old(mem), Pages(addr, numBytes), prot / 0x0100_0000 % 2 == 1, low, stop)
      ensures forall a: nat :: Lookup(mem, a) == Protected(old(mem), Range(low, stop), MaskProt(prot), a)
      ensures forall a: nat :: OnlyProtChanged(Lookup(old(mem), a), Lookup(mem, a), low <= a < stop, prot)
      ensures if Pages(addr, numBytes).start < stop then Sorted(split) && Tidied(split, stop, mem) else mem == old(mem)
    {
      var overlap;
      low, stop, overlap := ProtectLoop(Pages(addr, numBytes), MaskProt(prot), GrowsDown(prot));
      split := mem;
      if overlap.Some? {
        ghost var j :| 0 <= j < |mem| && mem[j].live.range == overlap.value;
        assert mem[j].Valid();
        var i := NextIn(overlap.value);
        assert i == j;
        ghost var first, last := CoalesceAround(i);
      }
      forall a: nat ensures OnlyProtChanged(Lookup(old(mem), a), Lookup(mem, a), low <= a < stop, prot) {
        ProtectedMeans(old(mem), Range(low, stop), prot, a);
      }
    }

    method Unmap(addr: nat, numBytes: nat)
      requires Valid()
      modifies this
      ensures Valid()
      ensures numBytes == 0 ==> mem == old(mem)
      ensures numBytes > 0 ==> forall a: nat :: Lookup(mem, a) == Without(old(mem), Pages(addr, CeilPage(numBytes)), a)
    {
      var n := CeilPage(numBytes);
      if n == 0 {
        return;
      }
      UnmapInternal(addr, n);
    }

    /** The iterator of the map: an empty query range finds the first mapping starting there or later. */
    method StartingAt(p: nat) returns (i: nat)
      requires Valid()
      ensures i <= |mem|
      ensures forall j :: 0 <= j < i ==> mem[j].live.range.start < p
      ensures i < |mem| ==> p <= mem[i].live.range.start
    {
      i := LowerBound(mem, Range(p, p));
    }

    /** There is a mapping that starts at `after` or later. */
    method FindFreeMemory(required: nat, after: nat) returns (addr: nat, ghost c: nat)
      requires Valid() && exists i :: 0 <= i < |mem| && after <= mem[i].live.range.start
      ensures FirstFit(mem, required, after, c) && addr == mem[c].live.range.end
      ensures forall a: nat :: addr <= a < addr + required ==> Lookup(mem, a) == None
    {
      hide Lookup;
      var current := StartingAt(after);
      while true
        invariant current < |mem| && after <= mem[current].live.range.start
        invariant NoFitBefore(mem, required, after, current)
        decreases |mem| - current
      {
        var next := StartingAt(mem[current].live.range.end);
        NextIsFollowing(mem, current, next);
        if next == |mem| || mem[current].live.range.end + required <= mem[next].live.range.start {
          break;
        }
        current := next;
      }
      addr, c := mem[current].live.range.end, current;
      forall a: nat | addr <= a < addr + required ensures Lookup(mem, a) == None {
        FirstFitIsFree(mem, required, after, c, a);
      }
    }

    /** `mapping_of`: the mapping around an address. */
    method MappingOf(a: nat) returns (i: nat)
      requires Valid() && Lookup(mem, FloorPage(a)).Some?
      ensures i < |mem| && mem[i].Has(a) && mem[i].Has(FloorPage(a))
    {
      ghost var j := LookupSome(mem, FloorPage(a));
      i := NextIn(Range(FloorPage(a), FloorPage(a) + 1));
      assert i == j;
      assert mem[i].Valid();
    }

    /** `mapping_flags_of(a) |= flag`. */
    method SetFlag(a: nat, flag: nat)
      requires Valid() && Lookup(mem, FloorPage(a)).Some? && flag > 0
      modifies this
      ensures Valid() && |mem| == |old(mem)|
      ensures exists i :: 0 <= i < |mem| && old(mem)[i].Has(a)
                && mem == old(mem)[i := old(mem)[i].(flags := OrFlag(old(mem)[i].flags, flag))]
      ensures exists i, flags: nat :: 0 <= i < |mem| && old(mem)[i].Has(a) && FlagSet(old(mem)[i].flags, flag, flags)
                && mem == old(mem)[i := old(mem)[i].(flags := flags)]
    {
      var i := MappingOf(a);
      OrFlagMeans(mem[i].flags, flag);
      mem := mem[i := mem[i].(flags := OrFlag(mem[i].flags, flag))];
    }

    /** Merges the longest run of mappings around position `i`; nothing changes at any address. */
    method CoalesceAround(i: nat) returns (ghost first: nat, ghost last: nat)
      requires Valid() && i < |mem|
      modifies this
      ensures Valid()
      ensures MaximalRun(old(mem), i, first, last) && mem == Collapse(old(mem), first, last)
      ensures forall a: nat :: Lookup(mem, a) == Lookup(old(mem), a)
    {
      hide Coalescable, Lookup, Merged;
      var lo: nat := i;
      while lo > 0 && Coalescable(mem[lo - 1], mem[lo])
        invariant 0 <= lo <= i
        invariant forall j :: lo <= j < i ==> Coalescable(mem[j], mem[j + 1])
      {
        lo := lo - 1;
      }
      var hi: nat := i;
      while hi + 1 < |mem| && Coalescable(mem[hi], mem[hi + 1])
        invariant lo <= i <= hi < |mem|
        invariant forall j :: lo <= j < hi ==> Coalescable(mem[j], mem[j + 1])
      {
        hi := hi + 1;
      }
      first, last := lo, hi;
      if lo == hi {
        CollapseOne(mem, i);
        return;
      }
      SliceChain(mem, lo, hi);
      hide Chain, Collapse;
      forall a: nat ensures Lookup(Collapse(mem, lo, hi), a) == Lookup(mem, a) {
        MergeLookup(mem, lo, hi, a);
      }
      MergeSorted(mem, lo, hi);
      mem := Collapse(mem, lo, hi);
    }

    /** Puts a mapping where nothing is mapped. */
    method MapAndCoalesce(m: Mapping)
      requires Valid() && m.Valid()
      requires forall a: nat :: m.Has(a) ==> Lookup(mem, a) == None
      modifies this
      ensures Valid() && Inserted(old(mem), m, mem)
      ensures forall a: nat :: Lookup(mem, a) == With(old(mem), m, a)
    {
      hide Lookup, MaximalRun, Collapse;
      var i := NextIn(m.live.range);
      InsertSorted(mem, i, m);
      forall a: nat ensures Lookup(mem[..i] + [m] + mem[i..], a) == With(mem, m, a) {
        InsertLookup(mem, i, m, a);
      }
      mem := mem[..i] + [m] + mem[i..];
      ghost var first, last := CoalesceAround(i);
    }

    /** The pages of the new mapping get its attributes; all others keep theirs. */
    method Map(addr: nat, numBytes: nat, prot: nat, flags: bv32, offset: nat, fsname: string,
               device: nat, inode: nat, recorded: Option<KernelMapping>)
      returns (m: KernelMapping, ghost cut: seq<Mapping>)
      requires Valid() && addr % PAGE == 0
      requires recorded.Some? ==> recorded.value.range == Range(addr, addr + CeilPage(numBytes))
      modifies this
      ensures Valid()
      ensures m == KernelMapping(Range(addr, addr + CeilPage(numBytes)), fsname, device, inode, prot,
          flags & MAP_FLAGS_MASK, offset)
      ensures numBytes == 0 ==> mem == old(mem)
      ensures numBytes > 0 ==> forall a: nat ::
        Lookup(mem, a) == With(old(mem), Mapping(m, if recorded.Some? then recorded.value else m, 0), a)
      ensures numBytes > 0 ==>
        Sorted(cut) && Inserted(cut, Mapping(m, if recorded.Some? then recorded.value else m, 0), mem)
    {
      hide Inserted, Lookup;
      cut := mem;
      var n := CeilPage(numBytes);
      m := KernelMapping(Range(addr, addr + n), fsname, device, inode, prot, flags & MAP_FLAGS_MASK, offset);
      if n == 0 {
        return;
      }
      UnmapInternal(addr, n);
      cut := mem;
      MapAndCoalesce(Mapping(m, if recorded.Some? then recorded.value else m, 0));
    }
  }

  /** Sets the bit `flag`, a power of two. */
  function OrFlag(flags: nat, flag: nat): nat
    requires flag > 0
  {
    if flags / flag % 2 == 1 then flags else flags + flag
  }

  /** A flag of a mapping: IS_SYSCALLBUF, IS_THREAD_LOCALS, IS_PATCH_STUBS, IS_SIGBUS_REGION or IS_RR_PAGE. */
  predicate IsFlag(flag: nat) { flag == 1 || flag == 2 || flag == 4 || flag == 8 || flag == 16 }

  predicate HasFlag(flags: nat, flag: nat)
    requires flag > 0
  {
    flags / flag % 2 == 1
  }

  /** `flags'` has `flag`, and every other flag as `flags` has it. */
  ghost predicate FlagSet(flags: nat, flag: nat, flags': nat) {
    IsFlag(flag) ==>
      && HasFlag(flags', flag) && flags' / 32 == flags / 32
      && forall other: nat :: IsFlag(other) && other != flag ==> (HasFlag(flags', other) <==> HasFlag(flags, other))
  }

  lemma OrFlagMeans(flags: nat, flag: nat)
    requires flag > 0
    ensures FlagSet(flags, flag, OrFlag(flags, flag))
  {
    if IsFlag(flag) && !HasFlag(flags, flag) {
      forall other: nat | IsFlag(other) && other != flag
        ensures HasFlag(flags + flag, other) <==> HasFlag(flags, other)
      {
        OtherFlag(flags, flag, other);
      }
      AddFlag(flags, flag);
    }
  }

  lemma AddFlag(flags: nat, flag: nat)
    requires IsFlag(flag) && !HasFlag(flags, flag)
    ensures HasFlag(flags + flag, flag) && (flags + flag) / 32 == flags / 32
  {
    RoomBelow(flags, flag, 32);
    DivModUnique(flags + flag, 32, flags / 32, flags % 32 + flag);
    NextMultiple(flags, flag, flags / flag, flags % flag);
  }

  lemma NextMultiple(x: nat, f: nat, q: int, r: int)
    requires f > 0 && x == f * q + r && 0 <= r < f && q % 2 == 0
    ensures (x + f) / f % 2 == 1
  {
    assert f * (q + 1) == f * q + f;
    DivModUnique(x + f, f, q + 1, r);
  }

  lemma OtherFlag(flags: nat, flag: nat, other: nat)
    requires IsFlag(flag) && !HasFlag(flags, flag) && IsFlag(other) && other != flag
    ensures HasFlag(flags + flag, other) <==> HasFlag(flags, other)
  {
    if other < flag { LowerFlag(flags, flag, other); } else { HigherFlag(flags, flag, other); }
  }

  lemma LowerFlag(flags: nat, flag: nat, other: nat)
    requires IsFlag(flag) && IsFlag(other) && other < flag
    ensures HasFlag(flags + flag, other) <==> HasFlag(flags, other)
  {
    var m := if flag == 2 * other then 1 else if flag == 4 * other then 2 else if flag == 8 * other then 4 else 8;
    assert flag == other * (2 * m);
    DivModUnique(flags + flag, other, flags / other + 2 * m, flags % other);
    DivModUnique(flags / other + 2 * m, 2, flags / other / 2 + m, flags / other % 2);
  }

  lemma HigherFlag(flags: nat, flag: nat, other: nat)
    requires IsFlag(flag) && !HasFlag(flags, flag) && IsFlag(other) && flag < other
    ensures HasFlag(flags + flag, other) <==> HasFlag(flags, other)
  {
    RoomBelow(flags, flag, other);
    DivModUnique(flags + flag, other, flags / other, flags % other + flag);
  }

  /** Without the flag, the part below a higher flag has room for it. */
  lemma RoomBelow(flags: nat, flag: nat, other: nat)
    requires IsFlag(flag) && !HasFlag(flags, flag) && (IsFlag(other) || other == 32) && flag < other
    ensures flags % other + flag < other
  {
    var h := if other == 2 * flag then 1 else if other == 4 * flag then 2 else if other == 8 * flag then 4
      else if other == 16 * flag then 8 else 16;
    EvenDigit(flags, flag, h, flags / (2 * flag * h), flags % (2 * flag * h));
  }

  lemma EvenDigit(x: nat, f: nat, h: nat, q: int, rest: int)
    requires f > 0 && h > 0 && x / f % 2 == 0 && x == 2 * f * h * q + rest && 0 <= rest < 2 * f * h
    ensures rest + f < 2 * f * h
  {
    var d, r := rest / f, rest % f;
    Digits(x, f, h, q, d, r);
    DivModUnique(x, f, 2 * h * q + d, r);
    DivModUnique(2 * h * q + d, 2, h * q + d / 2, d % 2);
    DigitBound(f, h, d, r);
  }

  lemma Digits(x: int, f: int, h: int, q: int, d: int, r: int)
    requires x == 2 * f * h * q + (f * d + r)
    ensures x == f * (2 * h * q + d) + r && 2 * h * q + d == 2 * (h * q) + d
  {
  }

  lemma DigitBound(f: int, h: int, d: int, r: int)
    requires f > 0 && d % 2 == 0 && 0 <= r < f && f * d + r < 2 * f * h
    ensures f * d + r + f < 2 * f * h
  {
    var e := 2 * h - d;
    assert f * e == 2 * f * h - f * d;
    MulBound(f, e);
    assert e >= 2;
    MulBound(f, e - 1);
    assert f * (e - 1) == f * e - f;
  }

  // ---------------------------------------------------------------- free memory

  /** The first mapping from `after` on that is followed by a gap of `required` bytes. */
  ghost predicate FirstFit(mem: seq<Mapping>, required: nat, after: nat, c: nat) {
    && c < |mem| && after <= mem[c].live.range.start
    && (c + 1 < |mem| ==> mem[c].live.range.end + required <= mem[c + 1].live.range.start)
    && NoFitBefore(mem, required, after, c)
  }

  ghost predicate NoFitBefore(mem: seq<Mapping>, required: nat, after: nat, c: nat)
    requires c < |mem|
  {
    forall j :: 0 <= j < c && after <= mem[j].live.range.start ==>
      mem[j + 1].live.range.start < mem[j].live.range.end + required
  }

  /** Stepping the iterator visits the mappings one by one. */
  lemma NextIsFollowing(mem: seq<Mapping>, current: nat, next: nat)
    requires Sorted(mem) && current < |mem| && next <= |mem|
    requires forall j :: 0 <= j < next ==> mem[j].live.range.start < mem[current].live.range.end
    requires next < |mem| ==> mem[current].live.range.end <= mem[next].live.range.start
    ensures next == current + 1
  {
    assert forall j :: 0 <= j <= current ==> mem[j].Valid() && mem[j].live.range.start < mem[current].live.range.end;
    assert current + 1 < |mem| ==> mem[current].live.range.end <= mem[current + 1].live.range.start;
  }

  lemma FirstFitIsFree(mem: seq<Mapping>, required: nat, after: nat, c: nat, a: nat)
    requires Sorted(mem) && FirstFit(mem, required, after, c)
    requires mem[c].live.range.end <= a < mem[c].live.range.end + required
    ensures Lookup(mem, a) == None
  {
    LookupNone(mem, a);
  }

  /** PROT_READ | PROT_WRITE | PROT_EXEC is 7, and PROT_GROWSDOWN is 0x01000000. */
  function MaskProt(prot: nat): nat { prot % 8 }

  predicate GrowsDown(prot: nat) { prot / 0x0100_0000 % 2 == 1 }

  /** `p` has the read, write and execute bits exactly as `prot` has them, and no other bit. */
  predicate AccessBits(p: nat, prot: nat) {
    p < 8 && p % 2 == prot % 2 && p / 2 % 2 == prot / 2 % 2 && p / 4 % 2 == prot / 4 % 2
  }

  /** What is seen at one address before and after `protect`. */
  predicate OnlyProtChanged(v: Option<View>, v': Option<View>, reached: bool, prot: nat) {
    if v.Some? && reached then
      && v'.Some? && AccessBits(v'.value.live.prot, prot) && AccessBits(v'.value.recorded.prot, prot)
      && v'.value.live.(prot := 0) == v.value.live.(prot := 0)
      && v'.value.recorded.(prot := 0) == v.value.recorded.(prot := 0) && v'.value.flags == v.value.flags
    else v' == v
  }

  lemma MaskIsBits(prot: nat)
    ensures AccessBits(MaskProt(prot), prot)
  {
    SameBits(prot, prot / 8, prot % 8);
  }

  lemma SameBits(prot: nat, q: int, r: int)
    requires prot == 8 * q + r && 0 <= r < 8
    ensures r % 2 == prot % 2 && r / 2 % 2 == prot / 2 % 2 && r / 4 % 2 == prot / 4 % 2
  {
    DivModUnique(prot, 2, 4 * q + r / 2, r % 2);
    DivModUnique(prot / 2, 2, 2 * q + r / 4, r / 2 % 2);
    DivModUnique(prot, 4, 2 * q + r / 4, r % 4);
    DivModUnique(prot / 4, 2, q, r / 4);
  }

  lemma ProtectedMeans(mem: seq<Mapping>, r: Range, prot: nat, a: nat)
    ensures OnlyProtChanged(Lookup(mem, a), Protected(mem, r, MaskProt(prot), a), r.Has(a), prot)
  {
    hide Lookup, MaskProt, AccessBits;
    MaskIsBits(prot);
  }

  /** MAP_SHARED, MAP_PRIVATE, MAP_ANONYMOUS, MAP_GROWSDOWN, MAP_NORESERVE, MAP_STACK. */
  const MAP_FLAGS_MASK: bv32 := 0x24123

  /** The mask keeps these six flags as they are and drops everything else. */
  lemma MapFlagsKept(flags: bv32)
    ensures var kept := flags & MAP_FLAGS_MASK;
      && kept & 0x1 == flags & 0x1 && kept & 0x2 == flags & 0x2 && kept & 0x20 == flags & 0x20
      && kept & 0x100 == flags & 0x100 && kept & 0x4000 == flags & 0x4000 && kept & 0x20000 == flags & 0x20000
      && kept & 0xfffd_bedc == 0
  {
  }

  lemma SliceChain(mem: seq<Mapping>, first: nat, last: nat)
    requires Sorted(mem) && first <= last < |mem|
    requires forall j :: first <= j < last ==> Coalescable(mem[j], mem[j + 1])
    ensures Chain(mem[first..last + 1])
  {
    var run := mem[first..last + 1];
    forall i | 0 <= i < |run| - 1 ensures Coalescable(run[i], run[i + 1]) {
      assert Coalescable(mem[first + i], mem[first + i + 1]);
    }
  }

  lemma MergeLookup(mem: seq<Mapping>, first: nat, last: nat, a: nat)
    requires first <= last < |mem| && Chain(mem[first..last + 1])
    ensures Lookup(Collapse(mem, first, last), a) == Lookup(mem, a)
  {
    var pre, run, post := mem[..first], mem[first..last + 1], mem[last + 1..];
    assert mem == pre + run + post;
    MergedLookup(run, a);
    LookupConcat(pre + run, post, a);
    LookupConcat(pre, run, a);
    LookupConcat(pre + [Merged(run)], post, a);
    LookupConcat(pre, [Merged(run)], a);
  }

  lemma CollapseOne(mem: seq<Mapping>, i: nat)
    requires Sorted(mem) && i < |mem|
    ensures Collapse(mem, i, i) == mem
  {
    assert mem[i].Valid();
    assert Merged(mem[i..i + 1]) == mem[i];
  }

  lemma MergeSorted(mem: seq<Mapping>, first: nat, last: nat)
    requires Sorted(mem) && first <= last < |mem| && Chain(mem[first..last + 1])
    ensures Sorted(Collapse(mem, first, last))
  {
    MergedLookup(mem[first..last + 1], 0);
    var one := [Merged(mem[first..last + 1])];
    ConcatSorted(mem[..first], one);
    ConcatSorted(mem[..first] + one, mem[last + 1..]);
  }

  lemma InsertSorted(mem: seq<Mapping>, i: nat, m: Mapping)
    requires Sorted(mem) && m.Valid() && i <= |mem|
    requires forall j :: 0 <= j < i ==> mem[j].live.range.end <= m.live.range.start
    requires forall a: nat :: m.Has(a) ==> Lookup(mem, a) == None
    requires i < |mem| ==> m.live.range.start < mem[i].live.range.end
    ensures i < |mem| ==> m.live.range.end <= mem[i].live.range.start
    ensures Sorted(mem[..i] + [m] + mem[i..])
  {
    if i < |mem| && mem[i].live.range.start < m.live.range.end {
      var a := Max(m.live.range.start, mem[i].live.range.start);
      assert mem[i].Valid() && m.Has(a);
      LookupAt(mem, i, a);
      assert false;
    }
    hide Lookup;
    ConcatSorted(mem[..i], [m]);
    ConcatSorted(mem[..i] + [m], mem[i..]);
  }

  lemma InsertLookup(mem: seq<Mapping>, i: nat, m: Mapping, a: nat)
    requires Sorted(mem) && m.Valid() && i <= |mem|
    requires forall j :: 0 <= j < i ==> mem[j].live.range.end <= m.live.range.start
    ensures Lookup(mem[..i] + [m] + mem[i..], a) == With(mem, m, a)
  {
    var pre, post := mem[..i], mem[i..];
    assert mem == pre + post;
    LookupConcat(pre + [m], post, a);
    LookupConcat(pre, [m], a);
    LookupConcat(pre, post, a);
    if m.Has(a) { LookupNone(pre, a); }
  }
}

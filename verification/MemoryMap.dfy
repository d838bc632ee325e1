/**
 The cached memory map of a traced process: mappings over disjoint address ranges, kept in
 address order, and the plain address-to-attributes view they stand for.
 */
module MemoryMap {
  import opened Common

  const PAGE: nat := 4096

  function FloorPage(a: nat): (r: nat)
    ensures r <= a < r + PAGE && r % PAGE == 0
  {
    a / PAGE * PAGE
  }

  function CeilPage(a: nat): (r: nat)
    ensures a <= r < a + PAGE && r % PAGE == 0
  {
    (a + PAGE - 1) / PAGE * PAGE
  }

  /** The comparator of the mapping tree: ranges that overlap count as equivalent. */
  predicate Less(a: Range, b: Range) {
    !a.Intersects(b) && a.start < b.start
  }

  const NO_DEVICE: nat := 0

  datatype KernelMapping = KernelMapping(
    range: Range, fsname: string, device: nat, inode: nat, prot: nat, flags: bv32, offset: nat)
  {
    predicate RealDevice() { device > NO_DEVICE }

    function Extend(end: nat): KernelMapping { this.(range := Range(range.start, end)) }

    function Subrange(start: nat, end: nat): KernelMapping
      requires range.start <= start
    {
      this.(range := Range(start, end), offset := offset + if RealDevice() then start - range.start else 0)
    }

    function SetProt(p: nat): KernelMapping { this.(prot := p) }
  }

  /** A cached mapping: the tracee's, the one in the recording, and special flags. */
  datatype Mapping = Mapping(live: KernelMapping, recorded: KernelMapping, flags: nat) {
    predicate Has(a: nat) { live.range.Has(a) }

    function Subrange(start: nat, end: nat): Mapping
      requires live.range.start <= start && recorded.range.start <= start
    {
      Mapping(live.Subrange(start, end), recorded.Subrange(start, end), flags)
    }

    function SetProt(p: nat): Mapping {
      Mapping(live.SetProt(p), recorded.SetProt(p), flags)
    }

    /** The key is the range of both kernel mappings, not empty and made of whole pages. */
    predicate Valid() {
      && live.range == recorded.range && live.range.start < live.range.end
      && live.range.start % PAGE == 0 && live.range.end % PAGE == 0
    }
  }

  // ---------------------------------------------------------------- the view

  /** What holds for one address; the file position only where there is a file. */
  datatype Attributes = Attributes(prot: nat, flags: bv32, device: nat, inode: nat, offset: Option<int>)

  datatype View = View(live: Attributes, recorded: Attributes, flags: nat)

  function AttributesAt(m: KernelMapping, a: nat): Attributes {
    Attributes(m.prot, m.flags, m.device, m.inode,
               if m.RealDevice() then Some(m.offset + a - m.range.start) else None)
  }

  function ViewAt(m: Mapping, a: nat): View {
    View(AttributesAt(m.live, a), AttributesAt(m.recorded, a), m.flags)
  }

  function WithProt(v: View, p: nat): View {
    View(v.live.(prot := p), v.recorded.(prot := p), v.flags)
  }

  function Lookup(mem: seq<Mapping>, a: nat): Option<View> {
    if mem == [] then None
    else if mem[0].Has(a) then Some(ViewAt(mem[0], a))
    else Lookup(mem[1..], a)
  }

  function Or<T>(x: Option<T>, y: Option<T>): Option<T> { if x.Some? then x else y }

  lemma {:induction false} LookupConcat(x: seq<Mapping>, y: seq<Mapping>, a: nat)
    ensures Lookup(x + y, a) == Or(Lookup(x, a), Lookup(y, a))
  {
    if x == [] {
      assert x + y == y;
    } else {
      LookupConcat(x[1..], y, a);
      assert (x + y)[1..] == x[1..] + y;
    }
  }

  lemma {:induction false} LookupAt(mem: seq<Mapping>, i: nat, a: nat)
    requires Sorted(mem) && i < |mem| && mem[i].Has(a)
    ensures Lookup(mem, a) == Some(ViewAt(mem[i], a))
  {
    if i > 0 {
      assert mem[0].live.range.end <= mem[i].live.range.start;
      LookupAt(mem[1..], i - 1, a);
    }
  }

  /** What is seen at an address is what the mapping there says, of the tracee and of the recording. */
  lemma LookupMeans(mem: seq<Mapping>, i: nat, a: nat)
    requires Sorted(mem) && i < |mem| && mem[i].Has(a)
    ensures Lookup(mem, a).Some?
    ensures var v := Lookup(mem, a).value;
      && v.flags == mem[i].flags
      && v.live.prot == mem[i].live.prot && v.live.flags == mem[i].live.flags
      && v.live.device == mem[i].live.device && v.live.inode == mem[i].live.inode
      && v.live.offset ==
        (if mem[i].live.device > 0 then Some(mem[i].live.offset + a - mem[i].live.range.start) else None)
      && v.recorded.prot == mem[i].recorded.prot && v.recorded.flags == mem[i].recorded.flags
      && v.recorded.device == mem[i].recorded.device && v.recorded.inode == mem[i].recorded.inode
      && v.recorded.offset ==
        (if mem[i].recorded.device > 0 then Some(mem[i].recorded.offset + a - mem[i].recorded.range.start) else None)
  {
    hide Lookup;
    LookupAt(mem, i, a);
  }

  lemma {:induction false} LookupNone(mem: seq<Mapping>, a: nat)
    requires forall i :: 0 <= i < |mem| ==> !mem[i].Has(a)
    ensures Lookup(mem, a) == None
  {
    if mem != [] {
      LookupNone(mem[1..], a);
    }
  }

  lemma {:induction false} LookupSome(mem: seq<Mapping>, a: nat) returns (i: nat)
    requires Lookup(mem, a).Some?
    ensures i < |mem| && mem[i].Has(a)
  {
    if mem[0].Has(a) {
      i := 0;
    } else {
      i := LookupSome(mem[1..], a);
      i := i + 1;
    }
  }

  // ---------------------------------------------------------------- the tree as a sorted sequence

  /** Non-empty page-sized keys, disjoint and in address order. */
  ghost predicate Sorted(mem: seq<Mapping>) {
    && (forall i :: 0 <= i < |mem| ==> mem[i].Valid())
    && (forall i, j :: 0 <= i < j < |mem| ==> mem[i].live.range.end <= mem[j].live.range.start)
  }

  /** For non-empty ranges the comparator means "entirely before". */
  lemma LessIsBefore(k: Range, q: Range)
    requires k.start < k.end && q.start < q.end
    ensures Less(k, q) <==> k.end <= q.start
  {
  }

  /** std::map::lower_bound: the first key not less than the query. */
  method LowerBound(mem: seq<Mapping>, q: Range) returns (i: nat)
    ensures i <= |mem|
    ensures forall j :: 0 <= j < i ==> Less(mem[j].live.range, q)
    ensures i < |mem| ==> !Less(mem[i].live.range, q)
  {
    i := 0;
    while i < |mem| && Less(mem[i].live.range, q)
      invariant i <= |mem|
      invariant forall j :: 0 <= j < i ==> Less(mem[j].live.range, q)
    {
      i := i + 1;
    }
  }

  /** One mapping is replaced by pieces of its own range. */
  ghost predicate PiecesOf(pieces: seq<Mapping>, r: Range) {
    && Sorted(pieces)
    && forall i :: 0 <= i < |pieces| ==> r.start <= pieces[i].live.range.start && pieces[i].live.range.end <= r.end
  }

  function Splice(mem: seq<Mapping>, i: nat, pieces: seq<Mapping>): seq<Mapping>
    requires i < |mem|
  {
    mem[..i] + pieces + mem[i + 1..]
  }

  lemma SpliceSorted(mem: seq<Mapping>, i: nat, pieces: seq<Mapping>)
    requires Sorted(mem) && i < |mem| && PiecesOf(pieces, mem[i].live.range)
    ensures Sorted(Splice(mem, i, pieces))
  {
    var left, right := mem[..i] + pieces, mem[i + 1..];
    ConcatSorted(mem[..i], pieces);
    forall x, y | 0 <= x < |left| && 0 <= y < |right| ensures left[x].live.range.end <= right[y].live.range.start {
      assert right[y] == mem[i + 1 + y];
      if x >= i { assert left[x] == pieces[x - i]; }
    }
    ConcatSorted(left, right);
  }

  lemma ConcatSorted(x: seq<Mapping>, y: seq<Mapping>)
    requires Sorted(x) && Sorted(y)
    requires forall i, j :: 0 <= i < |x| && 0 <= j < |y| ==> x[i].live.range.end <= y[j].live.range.start
    ensures Sorted(x + y)
  {
  }

  /** Outside the replaced mapping nothing changes; inside, the pieces decide. */
  lemma SpliceLookup(mem: seq<Mapping>, i: nat, pieces: seq<Mapping>, a: nat)
    requires Sorted(mem) && i < |mem| && PiecesOf(pieces, mem[i].live.range)
    ensures Lookup(Splice(mem, i, pieces), a) == if mem[i].Has(a) then Lookup(pieces, a) else Lookup(mem, a)
  {
    var pre, post := mem[..i], mem[i + 1..];
    assert mem == pre + [mem[i]] + post;
    LookupConcat(pre + pieces, post, a);
    LookupConcat(pre, pieces, a);
    LookupConcat(pre + [mem[i]], post, a);
    LookupConcat(pre, [mem[i]], a);
    if mem[i].Has(a) {
      LookupNone(pre, a);
      LookupNone(post, a);
    } else {
      LookupNone(pieces, a);
    }
  }
}

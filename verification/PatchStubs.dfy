/** Allocation of patch stubs in pages close to the code being patched, and the lookup of stubs by address. */
module PatchStubs {
  import opened Common
  import opened RingArithmetic
  import opened MemoryMap
  import opened AddressSpace

  const TWO_31: int := 0x8000_0000

  /** The difference fits a signed 32-bit displacement. */
  predicate Near(target: int, from: int) {
    -TWO_31 <= target - from < TWO_31
  }

  /** Conversion to int32_t. */
  function Int32(d: int): int { (d + TWO_31) % 0x1_0000_0000 - TWO_31 }

  /** Near means that the conversion of the difference to 32 bits does not change it. */
  lemma NearMeans(target: int, from: int)
    ensures Near(target, from) <==> Int32(target - from) == target - from
  {
    var d := target - from;
    if Near(target, from) { DivModUnique(d + TWO_31, 0x1_0000_0000, 0, d + TWO_31); }
  }

  datatype JumpPage = JumpPage(addr: nat, used: nat) {
    function Pages(): Range { Range(addr, addr + PAGE) }
  }

  datatype Stub = Stub(start: nat, size: nat) {
    predicate Has(a: nat) { start <= a < start + size }
  }

  /** PROT_READ | PROT_EXEC, and MAP_PRIVATE | MAP_FIXED | MAP_ANONYMOUS. */
  const STUB_PROT: nat := 5
  const STUB_MAP_FLAGS: bv32 := 0x32
  const IS_PATCH_STUBS: nat := 0x4

  ghost predicate MappedPage(mem: seq<Mapping>, p: JumpPage) {
    forall a: nat :: p.Pages().Has(a) ==> Lookup(mem, a).Some?
  }

  ghost predicate PagesApart(pages: seq<JumpPage>) {
    && (forall i :: 0 <= i < |pages| ==> pages[i].addr % PAGE == 0 && pages[i].used <= PAGE)
    && forall i, j :: 0 <= i < |pages| && 0 <= j < |pages| && i != j ==> pages[i].addr != pages[j].addr
  }

  /** The stub lies in the used part of some page. */
  ghost predicate Housed(pages: seq<JumpPage>, s: Stub) {
    exists i :: 0 <= i < |pages| && pages[i].addr <= s.start && s.start + s.size <= pages[i].addr + pages[i].used
  }

  /** Stubs in address order, disjoint, and inside the used parts of the pages. */
  ghost predicate StubsOk(pages: seq<JumpPage>, stubs: seq<Stub>) {
    && (forall i :: 0 <= i < |stubs| ==> stubs[i].size > 0 && Housed(pages, stubs[i]))
    && forall i, j :: 0 <= i < j < |stubs| ==> stubs[i].start + stubs[i].size <= stubs[j].start
  }

  /** Pages start at multiples of the page size, so different pages do not overlap. */
  lemma AlignedApart(x: nat, y: nat)
    requires x % PAGE == 0 && y % PAGE == 0 && x < y
    ensures x + PAGE <= y
  {
  }

  /** A stub taken from the unused part of a page is disjoint from all stubs so far. */
  lemma NewStubApart(pages: seq<JumpPage>, stubs: seq<Stub>, k: nat, size: nat, i: nat)
    requires PagesApart(pages) && StubsOk(pages, stubs) && k < |pages| && i < |stubs|
    requires size > 0 && pages[k].used + size <= PAGE
    ensures var start := pages[k].addr + pages[k].used;
      stubs[i].start + stubs[i].size <= start || start + size <= stubs[i].start
  {
    assert Housed(pages, stubs[i]);
    var j :| 0 <= j < |pages| && pages[j].addr <= stubs[i].start
        && stubs[i].start + stubs[i].size <= pages[j].addr + pages[j].used;
    if pages[j].addr < pages[k].addr {
      AlignedApart(pages[j].addr, pages[k].addr);
    } else if pages[k].addr < pages[j].addr {
      AlignedApart(pages[k].addr, pages[j].addr);
    } else {
      assert j == k;
    }
  }

  lemma HousedGrows(pages: seq<JumpPage>, s: Stub, k: nat, p: JumpPage)
    requires Housed(pages, s) && k < |pages| && p.addr == pages[k].addr && pages[k].used <= p.used
    ensures Housed(pages[k := p], s)
  {
    var j :| 0 <= j < |pages| && pages[j].addr <= s.start && s.start + s.size <= pages[j].addr + pages[j].used;
    assert pages[k := p][j].addr == pages[j].addr;
  }

  lemma HousedMore(pages: seq<JumpPage>, s: Stub, p: JumpPage)
    requires Housed(pages, s)
    ensures Housed(pages + [p], s)
  {
    var j :| 0 <= j < |pages| && pages[j].addr <= s.start && s.start + s.size <= pages[j].addr + pages[j].used;
    assert (pages + [p])[j] == pages[j];
  }

  lemma WholePages(addr: nat)
    requires addr % PAGE == 0
    ensures FloorPage(addr) == addr && CeilPage(PAGE) == PAGE
  {
  }

  lemma InsertStub(pages: seq<JumpPage>, stubs: seq<Stub>, i: nat, s: Stub)
    requires StubsOk(pages, stubs) && i <= |stubs| && s.size > 0 && Housed(pages, s)
    requires forall j :: 0 <= j < |stubs| ==>
               stubs[j].start + stubs[j].size <= s.start || s.start + s.size <= stubs[j].start
    requires forall j :: 0 <= j < i ==> stubs[j].start <= s.start
    requires i < |stubs| ==> s.start < stubs[i].start
    ensures StubsOk(pages, stubs[..i] + [s] + stubs[i..])
  {
    var all := stubs[..i] + [s] + stubs[i..];
    forall x | 0 <= x < |all| ensures all[x].size > 0 && Housed(pages, all[x]) {
      assert all[x] == if x < i then stubs[x] else if x == i then s else stubs[x - 1];
    }
    forall x, y | 0 <= x < y < |all| ensures all[x].start + all[x].size <= all[y].start {
      assert all[x] == if x < i then stubs[x] else if x == i then s else stubs[x - 1];
      assert all[y] == if y < i then stubs[y] else if y == i then s else stubs[y - 1];
      assert x == i && i < y - 1 ==> stubs[i].start + stubs[i].size <= stubs[y - 1].start;
    }
  }

  /** A fresh page is apart from every page that is mapped. */
  lemma NewPageApart(mem: seq<Mapping>, pages: seq<JumpPage>, addr: nat)
    requires PagesApart(pages) && addr % PAGE == 0
    requires forall i :: 0 <= i < |pages| ==> MappedPage(mem, pages[i])
    requires Lookup(mem, addr) == None
    ensures PagesApart(pages + [JumpPage(addr, 0)])
  {
    forall i | 0 <= i < |pages| ensures pages[i].addr != addr {
      assert MappedPage(mem, pages[i]);
      assert pages[i].Pages().Has(pages[i].addr);
    }
  }

  // ---------------------------------------------------------------- lookup

  /** std::map::upper_bound: the first stub that starts after `ip`. */
  method UpperBound(stubs: seq<Stub>, ip: nat) returns (i: nat)
    ensures i <= |stubs|
    ensures forall j :: 0 <= j < i ==> stubs[j].start <= ip
    ensures i < |stubs| ==> ip < stubs[i].start
  {
    i := 0;
    while i < |stubs| && stubs[i].start <= ip
      invariant i <= |stubs|
      invariant forall j :: 0 <= j < i ==> stubs[j].start <= ip
    {
      i := i + 1;
    }
  }

  // ---------------------------------------------------------------- allocation

  /** A page that is near enough and has room. */
  predicate Fits(p: JumpPage, fromEnd: nat, size: nat) {
    Near(p.addr + p.used, fromEnd) && p.used + size <= PAGE
  }

  /** The first page that fits, or the number of pages if none does. */
  ghost predicate FirstFitting(pages: seq<JumpPage>, fromEnd: nat, size: nat, k: nat) {
    && k <= |pages|
    && (k < |pages| ==> Near(pages[k].addr + pages[k].used, fromEnd) && pages[k].used + size <= PAGE)
    && forall i :: 0 <= i < k ==> !Near(pages[i].addr + pages[i].used, fromEnd) || pages[i].used + size > PAGE
  }

  /** The stub is taken from the unused part of page `k`, and only that page changes. */
  ghost predicate Taken(pages: seq<JumpPage>, k: nat, size: nat, pages': seq<JumpPage>, start: nat) {
    && k < |pages| && start == pages[k].addr + pages[k].used
    && pages' == pages[k := JumpPage(pages[k].addr, pages[k].used + size)]
  }

  class Monkeypatcher {
    var pages: seq<JumpPage>
    var stubs: seq<Stub>

    constructor ()
      ensures pages == [] && stubs == []
    {
      pages, stubs := [], [];
    }

    ghost predicate Valid()
      reads this
    {
      PagesApart(pages) && StubsOk(pages, stubs)
    }

    /** The pages handed out so far are still mapped. */
    ghost predicate PagesMapped(vm: AddressSpace)
      reads this, vm
    {
      forall i :: 0 <= i < |pages| ==> MappedPage(vm.mem, pages[i])
    }

    /** The predecessor lookup finds a stub exactly when a scan of all of them would. */
    method IsJumpStubInstruction(ip: nat) returns (b: bool)
      requires Valid()
      ensures b <==> exists i :: 0 <= i < |stubs| && stubs[i].Has(ip)
    {
      var i := UpperBound(stubs, ip);
      if i == 0 {
        assert forall j :: 0 <= j < |stubs| ==> stubs[0].start <= stubs[j].start;
        return false;
      }
      b := stubs[i - 1].Has(ip);
      if !b {
        forall j | 0 <= j < |stubs| ensures !stubs[j].Has(ip) {
          assert j < i - 1 ==> stubs[j].start + stubs[j].size <= stubs[i - 1].start;
          assert i < j ==> stubs[i].start + stubs[i].size <= stubs[j].start;
        }
      }
    }

    /** The first page that fits. */
    method FindPage(fromEnd: nat, size: nat) returns (k: nat)
      ensures FirstFitting(pages, fromEnd, size, k)
    {
      k := 0;
      while k < |pages| && !Fits(pages[k], fromEnd, size)
        invariant k <= |pages|
        invariant forall i :: 0 <= i < k ==> !Fits(pages[i], fromEnd, size)
      {
        k := k + 1;
      }
    }

    /** Maps a new page in the first gap of three pages behind the code, unless that is too far away. */
    method NewPage(vm: AddressSpace, fromEnd: nat) returns (ok: bool, ghost addr: nat)
      requires Valid() && vm.Valid() && PagesMapped(vm) && Lookup(vm.mem, FloorPage(fromEnd)).Some?
      modifies this`pages, vm
      ensures Valid() && vm.Valid() && PagesMapped(vm)
      ensures !ok ==> pages == old(pages) && vm.mem == old(vm.mem)
      ensures FirstGapBehind(old(vm.mem), fromEnd, addr) && (ok <==> Near(addr, fromEnd))
      ensures ok ==> pages == old(pages) + [JumpPage(addr, 0)] && StubPage(vm.mem, old(vm.mem), addr)
    {
      hide FirstGapBehind, StubPage, Lookup, MappedPage, PagesApart, StubsOk;
      var page := FindGap(vm, fromEnd);
      addr := page;
      if !Near(page, fromEnd) {
        return false, addr;
      }
      ghost var before := vm.mem;
      GapIsFree(before, fromEnd, addr);
      var recorded := KernelMapping(Range(page, page + PAGE), "", NO_DEVICE, 0, STUB_PROT,
          STUB_MAP_FLAGS & MAP_FLAGS_MASK, 0);
      MapStubPage(vm, page, recorded);
      AddPage(before, vm.mem, pages, stubs, page);
      pages := pages + [JumpPage(page, 0)];
      ok := true;
    }

    /** The middle page of the first gap of three pages behind the code. */
    method FindGap(vm: AddressSpace, fromEnd: nat) returns (addr: nat)
      requires vm.Valid() && Lookup(vm.mem, FloorPage(fromEnd)).Some?
      ensures addr >= PAGE && addr % PAGE == 0 && FirstGapBehind(vm.mem, fromEnd, addr)
    {
      hide Lookup, NoFitBefore, FloorPage;
      var i := vm.MappingOf(fromEnd);
      var free, c := vm.FindFreeMemory(3 * PAGE, vm.mem[i].live.range.start);
      assert vm.mem[c].Valid();
      addr := free + PAGE;
      assert vm.mem[i].Has(fromEnd) && addr == Gap(vm.mem, c) + PAGE;
    }

    /**
     A stub in the first page that is near enough and has room, or else in a new page; unused until
     now, and not overlapping any other. There is none only if the first gap is too far away.
     */
    method AllocateExtendedJump(vm: AddressSpace, fromEnd: nat, size: nat)
      returns (r: Option<nat>, ghost k: nat, ghost gap: nat)
      requires Valid() && vm.Valid() && PagesMapped(vm) && Lookup(vm.mem, FloorPage(fromEnd)).Some?
      requires 0 < size <= PAGE
      modifies this`pages, vm
      ensures Valid() && vm.Valid() && PagesMapped(vm)
      ensures FirstFitting(old(pages), fromEnd, size, k)
      ensures k < |old(pages)| ==> r.Some? && vm.mem == old(vm.mem) && Taken(old(pages), k, size, pages, r.value)
      ensures k == |old(pages)| ==> FirstGapBehind(old(vm.mem), fromEnd, gap) && (r.Some? <==> Near(gap, fromEnd))
      ensures k == |old(pages)| && r.Some? ==>
        StubPage(vm.mem, old(vm.mem), gap) && Taken(old(pages) + [JumpPage(gap, 0)], k, size, pages, r.value)
      ensures r.None? ==> pages == old(pages) && vm.mem == old(vm.mem)
      ensures r.Some? ==> Near(r.value, fromEnd) && Housed(pages, Stub(r.value, size))
      ensures r.Some? ==> forall i :: 0 <= i < |stubs| ==>
        stubs[i].start + stubs[i].size <= r.value || r.value + size <= stubs[i].start
    {
      hide StubPage, FirstGapBehind, StubsOk, Housed, Lookup;
      var i := FindPage(fromEnd, size);
      k, gap := i, 0;
      if i == |pages| {
        var ok;
        ok, gap := NewPage(vm, fromEnd);
        if !ok {
          return None, k, gap;
        }
      }
      var start := TakeFrom(i, size);
      r := Some(start);
    }

    /** Bumps the used part of a page. */
    method TakeFrom(k: nat, size: nat) returns (start: nat)
      requires Valid() && k < |pages| && 0 < size && pages[k].used + size <= PAGE
      modifies this`pages
      ensures Valid() && Taken(old(pages), k, size, pages, start) && Housed(pages, Stub(start, size))
      ensures forall i :: 0 <= i < |stubs| ==> stubs[i].start + stubs[i].size <= start || start + size <= stubs[i].start
    {
      var p := pages[k];
      start := p.addr + p.used;
      forall i | 0 <= i < |stubs| ensures stubs[i].start + stubs[i].size <= start || start + size <= stubs[i].start {
        NewStubApart(pages, stubs, k, size, i);
      }
      forall i | 0 <= i < |stubs| ensures Housed(pages[k := JumpPage(p.addr, p.used + size)], stubs[i]) {
        HousedGrows(pages, stubs[i], k, JumpPage(p.addr, p.used + size));
      }
      pages := pages[k := JumpPage(p.addr, p.used + size)];
      assert pages[k].addr <= start;
    }

    /** Allocates a stub and registers it; the registered stubs stay disjoint and in address order. */
    method Patch(vm: AddressSpace, jumpPatchEnd: nat, size: nat) returns (ok: bool)
      requires Valid() && vm.Valid() && PagesMapped(vm) && Lookup(vm.mem, FloorPage(jumpPatchEnd)).Some?
      requires 0 < size <= PAGE
      modifies this, vm
      ensures Valid() && vm.Valid() && PagesMapped(vm)
      ensures !ok ==> stubs == old(stubs)
      ensures !ok ==> exists gap: nat :: FirstGapBehind(old(vm.mem), jumpPatchEnd, gap) && !Near(gap, jumpPatchEnd)
      ensures ok ==> exists s: nat ::
                       Near(s, jumpPatchEnd) && multiset(stubs) == multiset(old(stubs)) + multiset{Stub(s, size)}
    {
      var r, k, gap := AllocateExtendedJump(vm, jumpPatchEnd, size);
      if r.None? {
        return false;
      }
      Register(Stub(r.value, size));
      ok := true;
    }

    method Register(s: Stub)
      requires Valid() && s.size > 0 && Housed(pages, s)
      requires forall i :: 0 <= i < |stubs| ==>
                 stubs[i].start + stubs[i].size <= s.start || s.start + s.size <= stubs[i].start
      modifies this`stubs
      ensures Valid() && multiset(stubs) == multiset(old(stubs)) + multiset{s}
    {
      var i := UpperBound(stubs, s.start);
      assert stubs == stubs[..i] + stubs[i..];
      InsertStub(pages, stubs, i, s);
      stubs := stubs[..i] + [s] + stubs[i..];
    }

    /** The mapping of a stub page: it does not merge with anything, and only it gets the flag. */
    method MapStubPage(vm: AddressSpace, addr: nat, recorded: KernelMapping)
      requires vm.Valid() && addr >= PAGE && addr % PAGE == 0 && recorded.range == Range(addr, addr + PAGE)
      requires recorded == KernelMapping(Range(addr, addr + PAGE), "", NO_DEVICE, 0, STUB_PROT,
          STUB_MAP_FLAGS & MAP_FLAGS_MASK, 0)
      requires forall a: nat :: addr - PAGE <= a < addr + 2 * PAGE ==> Lookup(vm.mem, a) == None
      modifies vm
      ensures vm.Valid() && StubPage(vm.mem, old(vm.mem), addr)
    {
      hide OrFlag, StubPage, CeilPage;
      var m, _ := vm.Map(addr, PAGE, STUB_PROT, STUB_MAP_FLAGS, 0, "", NO_DEVICE, 0, Some(recorded));
      ghost var mapped := vm.mem;
      WholePages(addr);
      assert Lookup(mapped, addr) == With(old(vm.mem), Mapping(m, recorded, 0), addr);
      vm.SetFlag(addr, IS_PATCH_STUBS);
      ghost var i :| 0 <= i < |mapped| && mapped[i].Has(addr)
        && vm.mem == mapped[i := mapped[i].(flags := OrFlag(mapped[i].flags, IS_PATCH_STUBS))];
      StubMapped(old(vm.mem), mapped, i, Mapping(m, recorded, 0), addr);
    }
  }

  lemma StubMapped(before: seq<Mapping>, mapped: seq<Mapping>, i: nat, m: Mapping, addr: nat)
    requires Sorted(mapped) && i < |mapped| && mapped[i].Has(addr) && addr >= PAGE && addr % PAGE == 0
    requires m == Mapping(m.live, m.live, 0)
    requires m.live == KernelMapping(Range(addr, addr + PAGE), "", NO_DEVICE, 0, STUB_PROT,
        STUB_MAP_FLAGS & MAP_FLAGS_MASK, 0)
    requires forall x: nat :: Lookup(mapped, x) == With(before, m, x)
    requires forall x: nat :: addr - PAGE <= x < addr + 2 * PAGE ==> Lookup(before, x) == None
    ensures StubPage(mapped[i := mapped[i].(flags := OrFlag(mapped[i].flags, IS_PATCH_STUBS))], before, addr)
  {
    hide OrFlag;
    var flagged := mapped[i].(flags := OrFlag(mapped[i].flags, IS_PATCH_STUBS));
    assert mapped[i := flagged] == Splice(mapped, i, [flagged]);
    forall a: nat
      ensures Lookup(mapped[i := flagged], a) ==
        if addr <= a < addr + PAGE then Some(StubView()) else Lookup(before, a)
    {
      FlagLookup(before, mapped, i, m, addr, a);
    }
    hide Lookup;
    assert StubPage(mapped[i := flagged], before, addr);
  }

  lemma GapIsFree(mem: seq<Mapping>, code: nat, addr: nat)
    requires addr >= PAGE && FirstGapBehind(mem, code, addr)
    ensures forall a: nat :: addr - PAGE <= a < addr + 2 * PAGE ==> Lookup(mem, a) == None
  {
    hide Lookup;
  }

  /** A new page is apart from the others, which stay mapped with their stubs. */
  lemma AddPage(before: seq<Mapping>, after: seq<Mapping>, pages: seq<JumpPage>, stubs: seq<Stub>, addr: nat)
    requires PagesApart(pages) && StubsOk(pages, stubs) && addr >= PAGE && addr % PAGE == 0
    requires forall i :: 0 <= i < |pages| ==> MappedPage(before, pages[i])
    requires forall a: nat :: addr - PAGE <= a < addr + 2 * PAGE ==> Lookup(before, a) == None
    requires StubPage(after, before, addr)
    ensures var pages' := pages + [JumpPage(addr, 0)];
      && PagesApart(pages') && StubsOk(pages', stubs)
      && forall i :: 0 <= i < |pages'| ==> MappedPage(after, pages'[i])
  {
    hide Lookup;
    NewPageApart(before, pages, addr);
    forall k | 0 <= k < |stubs| ensures Housed(pages + [JumpPage(addr, 0)], stubs[k]) {
      HousedMore(pages, stubs[k], JumpPage(addr, 0));
    }
  }

  /** What is seen at an address of a stub page. */
  function StubView(): View {
    var a := Attributes(STUB_PROT, STUB_MAP_FLAGS & MAP_FLAGS_MASK, NO_DEVICE, 0, None);
    View(a, a, IS_PATCH_STUBS)
  }

  /** Readable and executable, private and anonymous, without a file, and flagged as a page of stubs. */
  lemma StubViewMeans()
    ensures var v := StubView();
      && v.live == v.recorded && AccessBits(v.live.prot, 1 + 4) && v.live.flags == 0x2 | 0x20
      && v.live.device == 0 && v.live.inode == 0 && v.live.offset.None? && v.flags == 4
  {
  }

  /** One more page is mapped, for stubs, and nothing else changes. */
  ghost predicate StubPage(mem: seq<Mapping>, before: seq<Mapping>, addr: nat) {
    forall a: nat :: Lookup(mem, a) == if addr <= a < addr + PAGE then Some(StubView()) else Lookup(before, a)
  }

  /**
   The page is the middle one of the first three free pages behind the mapping of the code, so its
   neighbours are unmapped.
   */
  ghost predicate FirstGapBehind(mem: seq<Mapping>, code: nat, addr: nat) {
    && (exists i: nat, c: nat :: i < |mem| && mem[i].Has(code) && addr == Gap(mem, c) + PAGE
          && FirstFit(mem, 3 * PAGE, mem[i].live.range.start, c))
    && forall a: nat :: addr - PAGE <= a < addr + 2 * PAGE ==> Lookup(mem, a) == None
  }

  function Gap(mem: seq<Mapping>, c: nat): nat {
    if c < |mem| then mem[c].live.range.end else 0
  }

  lemma FlagLookup(before: seq<Mapping>, mapped: seq<Mapping>, i: nat, m: Mapping, addr: nat, a: nat)
    requires Sorted(mapped) && i < |mapped| && mapped[i].Has(addr) && addr >= PAGE
        && m.live.range == Range(addr, addr + PAGE)
    requires m.Valid() && ViewAt(m, a) == StubView().(flags := 0)
    requires forall x: nat :: Lookup(mapped, x) == With(before, m, x)
    requires forall x: nat :: addr - PAGE <= x < addr + 2 * PAGE ==> Lookup(before, x) == None
    ensures var flagged := mapped[i].(flags := OrFlag(mapped[i].flags, IS_PATCH_STUBS));
      Lookup(Splice(mapped, i, [flagged]), a) == if addr <= a < addr + PAGE then Some(StubView()) else Lookup(before, a)
  {
    OnlyThePage(before, mapped, i, m, addr);
    var flagged := mapped[i].(flags := OrFlag(mapped[i].flags, IS_PATCH_STUBS));
    SpliceLookup(mapped, i, [flagged], a);
    OneLookup(flagged, a);
    assert Lookup(mapped, a) == With(before, m, a);
    if mapped[i].Has(a) { LookupAt(mapped, i, a); }
  }

  /** With unmapped pages on both sides, the mapping around the new page is the new page. */
  lemma OnlyThePage(before: seq<Mapping>, mapped: seq<Mapping>, i: nat, m: Mapping, addr: nat)
    requires Sorted(mapped) && i < |mapped| && mapped[i].Has(addr) && addr >= PAGE
        && m.live.range == Range(addr, addr + PAGE)
    requires forall x: nat :: Lookup(mapped, x) == With(before, m, x)
    requires forall x: nat :: addr - PAGE <= x < addr + 2 * PAGE ==> Lookup(before, x) == None
    ensures mapped[i].live.range == Range(addr, addr + PAGE)
  {
    assert mapped[i].Valid();
    assert Lookup(mapped, addr - 1) == None && Lookup(mapped, addr + PAGE) == None;
    if mapped[i].Has(addr - 1) { LookupAt(mapped, i, addr - 1); assert false; }
    if mapped[i].Has(addr + PAGE) { LookupAt(mapped, i, addr + PAGE); assert false; }
    hide Lookup;
    OnePageOn(addr, mapped[i].live.range.end);
  }

  lemma OnePageOn(a: nat, end: nat)
    requires a % PAGE == 0 && end % PAGE == 0 && a < end <= a + PAGE
    ensures end == a + PAGE
  {
  }
}

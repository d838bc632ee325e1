/** Planning the use of x86 debug registers for watchpoints. */
module WatchRegisters {
  import opened Common
  import opened RingArithmetic

  /** `a & (n - 1)` is zero, for the widths in use. */
  predicate Aligned(a: nat, n: int) {
    if n == 8 then a % 8 == 0 else if n == 4 then a % 4 == 0 else if n == 2 then a % 2 == 0 else n == 1
  }

  /** What one debug register can watch: 1, 2 or 4 bytes, and 8 with 64-bit pointers, naturally aligned. */
  predicate Chunk(r: Range, wide: bool) {
    Aligned(r.start, r.Size()) && (r.Size() == 8 ==> wide)
  }

  /** The chunks follow each other from `start` to `end`. */
  ghost predicate Tiles(chunks: seq<Range>, start: nat, end: nat, wide: bool)
    decreases |chunks|
  {
    if chunks == [] then start == end else
      && chunks[0].start == start && Chunk(chunks[0], wide) && chunks[0].end <= end
      && Tiles(chunks[1..], chunks[0].end, end, wide)
  }

  /** The largest chunk that starts here and fits. */
  function Step(start: nat, end: nat, wide: bool): (n: nat)
    requires start < end
    ensures 0 < n <= end - start && Chunk(Range(start, start + n), wide)
  {
    if wide && Aligned(start, 8) && end - start >= 8 then 8
    else if Aligned(start, 4) && end - start >= 4 then 4
    else if Aligned(start, 2) && end - start >= 2 then 2
    else 1
  }

  lemma StepIsLargest(c: Range, end: nat, wide: bool)
    requires c.end <= end && Chunk(c, wide)
    ensures c.start < end && c.Size() <= Step(c.start, end, wide)
  {
  }

  function Greedy(start: nat, end: nat, wide: bool): (chunks: seq<Range>)
    requires start <= end
    decreases end - start
  {
    if start == end then [] else
      var n := Step(start, end, wide);
      [Range(start, start + n)] + Greedy(start + n, end, wide)
  }

  method TrySplit(r: Range, bytes: nat, result: seq<Range>) returns (ok: bool, r': Range, result': seq<Range>)
    requires bytes > 0 && r.start <= r.end
    ensures ok <==> Aligned(r.start, bytes) && r.Size() >= bytes
    ensures ok ==> r' == Range(r.start + bytes, r.end) && result' == result + [Range(r.start, r.start + bytes)]
    ensures !ok ==> r' == r && result' == result
  {
    if !Aligned(r.start, bytes) || r.Size() < bytes {
      return false, r, result;
    }
    return true, Range(r.start + bytes, r.end), result + [Range(r.start, r.start + bytes)];
  }

  /** One round of the splitting loop. */
  method SplitOne(r: Range, wide: bool, result: seq<Range>) returns (r': Range, result': seq<Range>)
    requires r.start < r.end
    ensures r.start < r'.start <= r'.end == r.end
    ensures result' + Greedy(r'.start, r'.end, wide) == result + Greedy(r.start, r.end, wide)
  {
    GreedyUnfold(result, r.start, r.end, wide);
    var ok := false;
    r', result' := r, result;
    if wide {
      ok, r', result' := TrySplit(r, 8, result);
    }
    if !ok {
      ok, r', result' := TrySplit(r, 4, result);
    }
    if !ok {
      ok, r', result' := TrySplit(r, 2, result);
    }
    if !ok {
      ok, r', result' := TrySplit(r, 1, result);
    }
  }

  lemma GreedyUnfold(done: seq<Range>, start: nat, end: nat, wide: bool)
    requires start < end
    ensures var n := Step(start, end, wide);
      done + Greedy(start, end, wide) == done + [Range(start, start + n)] + Greedy(start + n, end, wide)
  {
  }

  method SplitRange(range: Range, wide: bool) returns (result: seq<Range>)
    requires range.start <= range.end
    ensures result == Greedy(range.start, range.end, wide)
  {
    result := [];
    var r := range;
    while r.Size() > 0
      invariant r.start <= r.end == range.end
      invariant result + Greedy(r.start, r.end, wide) == Greedy(range.start, range.end, wide)
      decreases r.Size()
    {
      r, result := SplitOne(r, wide, result);
    }
  }

  // ---------------------------------------------------------------- exact and optimal

  lemma {:induction false} GreedyTiles(start: nat, end: nat, wide: bool)
    requires start <= end
    ensures Tiles(Greedy(start, end, wide), start, end, wide)
    decreases end - start
  {
    if start < end {
      var g := Greedy(start, end, wide);
      var n := Step(start, end, wide);
      GreedyTiles(start + n, end, wide);
      assert g[1..] == Greedy(start + n, end, wide);
    }
  }

  /** A tiling covers its range and nothing else. */
  lemma {:induction false} TilesCover(chunks: seq<Range>, start: nat, end: nat, wide: bool, a: nat)
    requires Tiles(chunks, start, end, wide)
    ensures start <= end
    ensures (exists i :: 0 <= i < |chunks| && chunks[i].Has(a)) <==> start <= a < end
  {
    if chunks != [] {
      var rest := chunks[1..];
      TilesCover(rest, chunks[0].end, end, wide, a);
      if i :| 0 <= i < |rest| && rest[i].Has(a) {
        assert chunks[i + 1].Has(a);
      }
      if i :| 0 <= i < |chunks| && chunks[i].Has(a) {
        assert i > 0 ==> rest[i - 1].Has(a);
      }
    }
  }

  lemma HalfAligned(start: nat, h: nat)
    requires (h == 1 || h == 2 || h == 4) && Aligned(start, 2 * h)
    ensures Aligned(start, h) && Aligned(start + h, h)
    ensures !Aligned(start + h, 2 * h)
  {
    if h == 1 { HalfOfPair(start / 2); } else if h == 2 { HalfOfQuad(start / 4); } else { HalfOfOctet(start / 8); }
  }

  lemma HalfOfPair(q: nat)
    ensures (2 * q + 1) % 2 == 1
  {
    DivModUnique(2 * q + 1, 2, q, 1);
  }

  lemma HalfOfQuad(q: nat)
    ensures 4 * q % 2 == 0 && (4 * q + 2) % 2 == 0 && (4 * q + 2) % 4 == 2
  {
    DivModUnique(4 * q, 2, 2 * q, 0);
    DivModUnique(4 * q + 2, 2, 2 * q + 1, 0);
    DivModUnique(4 * q + 2, 4, q, 2);
  }

  lemma HalfOfOctet(q: nat)
    ensures 8 * q % 4 == 0 && (8 * q + 4) % 4 == 0 && (8 * q + 4) % 8 == 4
  {
    DivModUnique(8 * q, 4, 2 * q, 0);
    DivModUnique(8 * q + 4, 4, 2 * q + 1, 0);
    DivModUnique(8 * q + 4, 8, q, 4);
  }

  lemma AlignedDown(a: nat)
    ensures Aligned(a, 8) ==> Aligned(a, 4)
    ensures Aligned(a, 4) ==> Aligned(a, 2)
  {
    if a % 8 == 0 { assert a == 4 * (2 * (a / 8)); }
    if a % 4 == 0 { assert a == 2 * (2 * (a / 4)); }
  }

  lemma HalfStep(start: nat, end: nat, wide: bool, h: nat)
    requires h == 1 || h == 2 || (wide && h == 4)
    requires Aligned(start, 2 * h) && start + 2 * h <= end
    ensures Step(start + h, end, wide) == h
  {
    HalfAligned(start, h);
    AlignedDown(start + h);
    hide Aligned;
  }

  /** In the middle of an aligned pair of chunks, the greedy choice is the second half. */
  lemma SecondHalf(start: nat, end: nat, wide: bool, h: nat)
    requires h == 1 || h == 2 || (wide && h == 4)
    requires Aligned(start, 2 * h) && start + 2 * h <= end
    ensures |Greedy(start + h, end, wide)| == 1 + |Greedy(start + 2 * h, end, wide)|
  {
    HalfStep(start, end, wide, h);
    assert Greedy(start + h, end, wide) == [Range(start + h, start + 2 * h)] + Greedy(start + 2 * h, end, wide);
  }

  /** A smaller chunk at the start of an aligned cell leaves at least as much to do as the whole cell. */
  lemma PartOfCell(start: nat, end: nat, wide: bool, s: nat, t: nat)
    requires (s == 1 || s == 2 || s == 4) && (t == 2 || t == 4 || (t == 8 && wide)) && s < t
    requires Aligned(start, t) && start + t <= end
    ensures |Greedy(start + t, end, wide)| <= |Greedy(start + s, end, wide)|
  {
    hide Greedy, Aligned;
    HalfAligned(start, t / 2);
    if s < t / 2 {
      PartOfCell(start, end, wide, s, t / 2);
    }
    SecondHalf(start, end, wide, t / 2);
  }

  /** Starting with a smaller chunk than the greedy one never helps. */
  lemma SmallerIsNoBetter(start: nat, end: nat, wide: bool, s: nat)
    requires start + s <= end && Chunk(Range(start, start + s), wide)
    ensures start < end && |Greedy(start + Step(start, end, wide), end, wide)| <= |Greedy(start + s, end, wide)|
  {
    StepIsLargest(Range(start, start + s), end, wide);
    var t := Step(start, end, wide);
    if s < t {
      PartOfCell(start, end, wide, s, t);
    }
  }

  /** No tiling with register-sized chunks is shorter. */
  lemma {:induction false} GreedyOptimal(chunks: seq<Range>, start: nat, end: nat, wide: bool)
    requires Tiles(chunks, start, end, wide)
    ensures start <= end && |Greedy(start, end, wide)| <= |chunks|
    decreases |chunks|
  {
    if chunks != [] {
      GreedyOptimal(chunks[1..], chunks[0].end, end, wide);
      SmallerIsNoBetter(start, end, wide, chunks[0].Size());
    }
  }

  // ---------------------------------------------------------------- the plan for one watchpoint

  datatype WatchType = Exec | Write | ReadWrite

  datatype WatchConfig = WatchConfig(addr: nat, numBytes: nat, kind: WatchType)

  function Alignment(size: int, wide: bool): (n: nat)
    ensures n == 2 || n == 4 || (wide && n == 8)
  {
    if size <= 2 then 2 else if size <= 4 || !wide then 4 else 8
  }

  /** `a & ~(n - 1)`. */
  function RoundDown(a: nat, n: nat): (r: nat)
    requires n == 2 || n == 4 || n == 8
    ensures r <= a < r + n && Aligned(r, n)
  {
    MultipleAligned(a / 8, a / 4, a / 2);
    if n == 8 then a / 8 * 8 else if n == 4 then a / 4 * 4 else a / 2 * 2
  }

  lemma MultipleAligned(x: nat, y: nat, z: nat)
    ensures Aligned(x * 8, 8) && Aligned(y * 4, 4) && Aligned(z * 2, 2)
  {
  }

  /** `(a + (n - 1)) & ~(n - 1)`. */
  function RoundUp(a: nat, n: nat): (r: nat)
    requires n == 2 || n == 4 || n == 8
    ensures a <= r < a + n && Aligned(r, n)
  {
    RoundDown(a + n - 1, n)
  }

  /** The range rounded out to the alignment. */
  function Widened(r: Range, wide: bool): (w: Range)
    requires r.start <= r.end
    ensures w.start <= r.start && r.end <= w.end
  {
    var n := Alignment(r.Size(), wide);
    Range(RoundDown(r.start, n), RoundUp(r.end, n))
  }

  /** The chunks chosen for a range: for write watchpoints, a shorter cover by a wider range. */
  function Plan(r: Range, kind: WatchType, wide: bool): seq<Range>
    requires r.start <= r.end
  {
    var exact := Greedy(r.start, r.end, wide);
    if kind == Write && r.Size() > 1 then
      var w := Widened(r, wide);
      var cover := Greedy(w.start, w.end, wide);
      if |cover| < |exact| then cover else exact
    else exact
  }

  /**
   Every watched byte is covered, an exec or read-write plan covers nothing else, and a write plan
   never needs more registers than the exact split, and is exact unless it needs fewer.
   */
  lemma PlanCovers(r: Range, kind: WatchType, wide: bool, a: nat)
    requires r.start <= r.end
    ensures r.Has(a) ==> exists i :: 0 <= i < |Plan(r, kind, wide)| && Plan(r, kind, wide)[i].Has(a)
    ensures kind != Write ==> Tiles(Plan(r, kind, wide), r.start, r.end, wide)
    ensures kind != Write && !r.Has(a) ==> !exists i :: 0 <= i < |Plan(r, kind, wide)| && Plan(r, kind, wide)[i].Has(a)
    ensures |Plan(r, kind, wide)| <= |Greedy(r.start, r.end, wide)|
    ensures |Plan(r, kind, wide)| == |Greedy(r.start, r.end, wide)| ==> Tiles(Plan(r, kind, wide), r.start, r.end, wide)
    ensures forall i :: 0 <= i < |Plan(r, kind, wide)| ==> Chunk(Plan(r, kind, wide)[i], wide)
  {
    var exact, plan, w := Greedy(r.start, r.end, wide), Plan(r, kind, wide), Widened(r, wide);
    var cover := Greedy(w.start, w.end, wide);
    TilingFacts(r, wide, a);
    TilingFacts(w, wide, a);
    hide Greedy, Tiles, Widened, Chunk;
    assert plan == exact || (kind == Write && plan == cover && |cover| < |exact|);
    if r.Has(a) {
      if plan == exact {
        var i :| 0 <= i < |exact| && exact[i].Has(a);
        assert plan[i].Has(a);
      } else {
        var i :| 0 <= i < |cover| && cover[i].Has(a);
        assert plan[i].Has(a);
      }
    }
  }

  /** The greedy split of a range, at one address. */
  lemma TilingFacts(r: Range, wide: bool, a: nat)
    requires r.start <= r.end
    ensures var g := Greedy(r.start, r.end, wide);
      && Tiles(g, r.start, r.end, wide)
      && ((exists i :: 0 <= i < |g| && g[i].Has(a)) <==> r.Has(a))
      && (forall i :: 0 <= i < |g| ==> Chunk(g[i], wide))
  {
    hide Greedy, Tiles, Chunk;
    GreedyTiles(r.start, r.end, wide);
    TilesCover(Greedy(r.start, r.end, wide), r.start, r.end, wide, a);
    TilesChunks(Greedy(r.start, r.end, wide), r.start, r.end, wide);
  }

  lemma {:induction false} TilesChunks(chunks: seq<Range>, start: nat, end: nat, wide: bool)
    requires Tiles(chunks, start, end, wide)
    ensures forall i :: 0 <= i < |chunks| ==> Chunk(chunks[i], wide)
  {
    if chunks != [] {
      TilesChunks(chunks[1..], chunks[0].end, end, wide);
      assert forall i :: 1 <= i < |chunks| ==> chunks[i] == chunks[1..][i - 1];
    }
  }

  /** On a 64-bit build, two registers are enough to watch writes to up to eight bytes. */
  lemma WriteTakesTwo(r: Range)
    requires r.start <= r.end && r.Size() <= 8
    ensures |Plan(r, Write, true)| <= 2
  {
    if r.Size() > 1 {
      var n := Alignment(r.Size(), true);
      var w := Widened(r, true);
      TwoCells(r.start, r.end, n);
      CellsTile(w.start, w.end, n);
    } else if r.Size() == 1 {
      assert [r][1..] == [];
      GreedyOptimal([r], r.start, r.end, true);
    }
  }

  lemma CellsTile(start: nat, end: nat, n: nat)
    requires (n == 2 || n == 4 || n == 8) && Aligned(start, n) && (end == start + n || end == start + 2 * n)
    ensures |Greedy(start, end, true)| <= 2
  {
    NextCell(start, n);
    hide Aligned, Greedy;
    var first, second := Range(start, start + n), Range(start + n, end);
    assert [first][1..] == [] && [first, second][1..] == [second] && [second][1..] == [];
    if end == start + n {
      GreedyOptimal([first], start, end, true);
    } else {
      assert Tiles([second], start + n, end, true);
      GreedyOptimal([first, second], start, end, true);
    }
  }

  lemma NextCell(start: nat, n: nat)
    requires (n == 2 || n == 4 || n == 8) && Aligned(start, n)
    ensures Aligned(start + n, n)
  {
  }

  /** A range no longer than the alignment lies in one or two aligned cells. */
  lemma TwoCells(start: nat, end: nat, n: nat)
    requires (n == 2 || n == 4 || n == 8) && start < end <= start + n
    ensures RoundUp(end, n) == RoundDown(start, n) + n || RoundUp(end, n) == RoundDown(start, n) + 2 * n
  {
    if n == 2 { TwoPairs(start, end); } else if n == 4 { TwoQuads(start, end); } else { TwoOctets(start, end); }
  }

  lemma TwoPairs(start: nat, end: nat)
    requires start < end <= start + 2
    ensures var (q, r) := (start / 2, (end + 1) / 2); r == q + 1 || r == q + 2
  {
  }

  lemma TwoQuads(start: nat, end: nat)
    requires start < end <= start + 4
    ensures var (q, r) := (start / 4, (end + 3) / 4); r == q + 1 || r == q + 2
  {
  }

  lemma TwoOctets(start: nat, end: nat)
    requires start < end <= start + 8
    ensures var (q, r) := (start / 8, (end + 7) / 8); r == q + 1 || r == q + 2
  {
  }

  /** The choice between the exact split and the wider cover. */
  method ChoosePlan(r: Range, kind: WatchType, wide: bool) returns (split: seq<Range>)
    requires r.start <= r.end
    ensures split == Plan(r, kind, wide)
  {
    split := SplitRange(r, wide);
    if kind == Write && r.Size() > 1 {
      var cover := SplitRange(Widened(r, wide), wide);
      if |cover| < |split| {
        split := cover;
      }
    }
  }

  /** Appends configurations for the chunks, and their register numbers. */
  method AppendPlan(regs: seq<WatchConfig>, split: seq<Range>, kind: WatchType, noted: seq<int>)
    returns (regs': seq<WatchConfig>, noted': seq<int>)
    ensures regs' == regs + Configs(split, kind)
    ensures noted' == noted + Numbers(|regs|, |split|)
  {
    regs', noted' := regs, noted;
    var i := 0;
    while i < |split|
      invariant 0 <= i <= |split|
      invariant regs' == regs + Configs(split[..i], kind)
      invariant noted' == noted + Numbers(|regs|, i)
    {
      ConfigsSnoc(split, i, kind);
      NumbersJoin(|regs|, i, 1);
      noted' := noted' + [Int8(|regs'|)];
      regs' := regs' + [ConfigOf(split[i], kind)];
      i := i + 1;
    }
    assert split[..|split|] == split;
  }

  lemma ConfigsSnoc(chunks: seq<Range>, i: nat, kind: WatchType)
    requires i < |chunks|
    ensures Configs(chunks[..i + 1], kind) == Configs(chunks[..i], kind) + [ConfigOf(chunks[i], kind)]
  {
  }

  /** Appends the plan for one range, and notes the register numbers if asked to. */
  method ConfigureWatchRegisters(regs: seq<WatchConfig>, r: Range, kind: WatchType, wide: bool, noted: seq<int>)
    returns (regs': seq<WatchConfig>, noted': seq<int>)
    requires r.start <= r.end
    ensures regs' == regs + Configs(Plan(r, kind, wide), kind)
    ensures noted' == noted + Numbers(|regs|, |Plan(r, kind, wide)|)
  {
    var split := ChoosePlan(r, kind, wide);
    regs', noted' := AppendPlan(regs, split, kind, noted);
  }

  /** Conversion to int8_t. */
  function Int8(n: nat): int { if n < 128 then n else (n + 128) % 256 - 128 }

  function ConfigOf(r: Range, kind: WatchType): WatchConfig {
    WatchConfig(r.start, if r.start <= r.end then r.end - r.start else 0, kind)
  }

  function Configs(chunks: seq<Range>, kind: WatchType): (c: seq<WatchConfig>)
    ensures |c| == |chunks|
  {
    seq(|chunks|, i requires 0 <= i < |chunks| => ConfigOf(chunks[i], kind))
  }

  /** The `n` register numbers from `base` on. */
  function Numbers(base: nat, n: nat): (r: seq<int>)
    ensures |r| == n
  {
    seq(n, i requires 0 <= i < n => Int8(base + i))
  }

  // ---------------------------------------------------------------- all watchpoints

  /** A watchpoint: its range, what it watches for, and the registers noted for exec and read. */
  datatype Watchpoint = Watchpoint(range: Range, exec: bool, read: bool, write: bool, regs: seq<int>) {
    predicate Valid() { range.start <= range.end }
  }

  ghost predicate AllValid(ps: seq<Watchpoint>) {
    forall i :: 0 <= i < |ps| ==> ps[i].Valid()
  }

  function PlanFor(w: Watchpoint, wanted: bool, kind: WatchType, wide: bool): seq<WatchConfig>
    requires w.Valid()
  {
    if wanted then Configs(Plan(w.range, kind, wide), kind) else []
  }

  /** The configurations whose firing a register number has to identify. */
  function Tracked(w: Watchpoint, wide: bool): seq<WatchConfig>
    requires w.Valid()
  {
    PlanFor(w, w.exec, Exec, wide) + PlanFor(w, w.read, ReadWrite, wide)
  }

  function ConfigsOf(w: Watchpoint, wide: bool): seq<WatchConfig>
    requires w.Valid()
  {
    Tracked(w, wide) + PlanFor(w, !w.read && w.write, Write, wide)
  }

  function AllConfigs(ps: seq<Watchpoint>, wide: bool): seq<WatchConfig>
    requires AllValid(ps)
  {
    if ps == [] then [] else AllConfigs(ps[..|ps| - 1], wide) + ConfigsOf(ps[|ps| - 1], wide)
  }

  /** The first register number of watchpoint `i`. */
  function Base(ps: seq<Watchpoint>, i: nat, wide: bool): nat
    requires AllValid(ps) && i <= |ps|
  {
    |AllConfigs(ps[..i], wide)|
  }

  lemma {:induction false} ConfigsAt(ps: seq<Watchpoint>, i: nat, wide: bool)
    requires AllValid(ps) && i < |ps|
    ensures Base(ps, i, wide) + |ConfigsOf(ps[i], wide)| == Base(ps, i + 1, wide) <= |AllConfigs(ps, wide)|
    ensures AllConfigs(ps, wide)[Base(ps, i, wide)..Base(ps, i + 1, wide)] == ConfigsOf(ps[i], wide)
  {
    hide ConfigsOf;
    assert ps[..i + 1][..i] == ps[..i];
    var n := |ps| - 1;
    if i == n {
      assert ps[..n + 1] == ps;
    } else {
      var init := ps[..n];
      ConfigsAt(init, i, wide);
      assert init[..i] == ps[..i] && init[..i + 1] == ps[..i + 1];
      PrefixSlice(AllConfigs(init, wide), ConfigsOf(ps[n], wide), Base(ps, i, wide), Base(ps, i + 1, wide));
    }
  }

  lemma PrefixSlice<T>(x: seq<T>, y: seq<T>, i: nat, j: nat)
    requires i <= j <= |x|
    ensures (x + y)[i..j] == x[i..j]
  {
  }

  lemma {:induction false} BaseMonotone(ps: seq<Watchpoint>, i: nat, j: nat, wide: bool)
    requires AllValid(ps) && i <= j <= |ps|
    ensures Base(ps, i, wide) <= Base(ps, j, wide)
    decreases j - i
  {
    if i < j {
      ConfigsAt(ps, i, wide);
      BaseMonotone(ps, i + 1, j, wide);
    }
  }

  lemma NumberIs(base: nat, n: nat, m: nat)
    requires m < n && base + n <= 127
    ensures Numbers(base, n)[m] == base + m
  {
    assert Numbers(base, n)[m] == Int8(base + m);
  }

  lemma TrackedKind(w: Watchpoint, wide: bool, m: nat)
    requires w.Valid() && m < |Tracked(w, wide)|
    ensures |Tracked(w, wide)| <= |ConfigsOf(w, wide)|
    ensures ConfigsOf(w, wide)[m] == Tracked(w, wide)[m] && Tracked(w, wide)[m].kind != Write
  {
  }

  /**
   With at most 127 configurations, the noted numbers of a watchpoint are exactly the positions of
   its own exec and read configurations.
   */
  lemma NumbersIdentify(ps: seq<Watchpoint>, i: nat, m: nat, wide: bool)
    requires AllValid(ps) && i < |ps| && |AllConfigs(ps, wide)| <= 127 && m < |Tracked(ps[i], wide)|
    ensures var number := Numbers(Base(ps, i, wide), |Tracked(ps[i], wide)|)[m];
      && 0 <= number < |AllConfigs(ps, wide)|
      && AllConfigs(ps, wide)[number] == Tracked(ps[i], wide)[m]
      && AllConfigs(ps, wide)[number].kind != Write
  {
    hide ConfigsOf, Tracked, Numbers, AllConfigs, Base;
    ConfigsAt(ps, i, wide);
    TrackedKind(ps[i], wide, m);
    var all, base, own := AllConfigs(ps, wide), Base(ps, i, wide), ConfigsOf(ps[i], wide);
    NumberIs(base, |Tracked(ps[i], wide)|, m);
    assert all[base..base + |own|][m] == all[base + m];
  }

  /** Different watchpoints never share a register number. */
  lemma NumbersDisjoint(ps: seq<Watchpoint>, i: nat, j: nat, m: nat, n: nat, wide: bool)
    requires AllValid(ps) && i < j < |ps| && |AllConfigs(ps, wide)| <= 127
    requires m < |Tracked(ps[i], wide)| && n < |Tracked(ps[j], wide)|
    ensures Numbers(Base(ps, i, wide), |Tracked(ps[i], wide)|)[m]
            < Numbers(Base(ps, j, wide), |Tracked(ps[j], wide)|)[n]
  {
    hide ConfigsOf, Tracked, Numbers, AllConfigs, Base;
    ConfigsAt(ps, i, wide);
    ConfigsAt(ps, j, wide);
    TrackedKind(ps[i], wide, m);
    TrackedKind(ps[j], wide, n);
    BaseMonotone(ps, i + 1, j, wide);
    NumberIs(Base(ps, i, wide), |Tracked(ps[i], wide)|, m);
    NumberIs(Base(ps, j, wide), |Tracked(ps[j], wide)|, n);
  }

  /** Only the noted numbers of a watchpoint change, and only when they are about to be used. */
  ghost predicate Noted(ps: seq<Watchpoint>, i: nat, setting: bool, wide: bool, w: Watchpoint)
    requires AllValid(ps) && i < |ps|
  {
    w == ps[i].(regs := if setting then Numbers(Base(ps, i, wide), |Tracked(ps[i], wide)|) else ps[i].regs)
  }

  class WatchTable {
    var points: seq<Watchpoint>

    constructor ()
      ensures points == []
    {
      points := [];
    }

    /** The configurations of one watchpoint, and the numbers to note for it. */
    method ConfigureOne(result: seq<WatchConfig>, w: Watchpoint, wide: bool)
      returns (result': seq<WatchConfig>, noted: seq<int>)
      requires w.Valid()
      ensures result' == result + ConfigsOf(w, wide)
      ensures noted == Numbers(|result|, |Tracked(w, wide)|)
    {
      hide Plan, Configs;
      result', noted := result, [];
      if w.exec {
        result', noted := ConfigureWatchRegisters(result', w.range, Exec, wide, noted);
      }
      ghost var first := |noted|;
      if w.read {
        result', noted := ConfigureWatchRegisters(result', w.range, ReadWrite, wide, noted);
        NumbersJoin(|result|, first, |noted| - first);
      } else if w.write {
        var unused;
        result', unused := ConfigureWatchRegisters(result', w.range, Write, wide, []);
      }
    }

    /** All configurations in order; when they are about to be used, every watchpoint notes its numbers. */
    method GetWatchConfigs(setting: bool, wide: bool) returns (result: seq<WatchConfig>)
      requires AllValid(points)
      modifies this
      ensures |points| == |old(points)| && AllValid(points)
      ensures result == AllConfigs(old(points), wide)
      ensures forall i :: 0 <= i < |points| ==> Noted(old(points), i, setting, wide, points[i])
      ensures forall i, a: nat :: 0 <= i < |points| && points[i].range.Has(a) ==>
        && (points[i].exec ==> Watched(result, a, Exec))
        && (points[i].read ==> Watched(result, a, ReadWrite))
        && (points[i].write && !points[i].read ==> Watched(result, a, Write))
      ensures forall c :: 0 <= c < |result| ==> AskedFor(points, result[c], wide)
      ensures forall i :: 0 <= i < |points| ==> SameWatch(old(points)[i], points[i])
      ensures !setting ==> points == old(points)
      ensures setting && |result| <= 127 ==> forall i :: 0 <= i < |points| ==> NumbersTell(points[i], result)
    {
      hide ConfigsOf, Tracked, Numbers;
      result := [];
      var i := 0;
      while i < |points|
        invariant 0 <= i <= |points| == |old(points)|
        invariant result == AllConfigs(old(points)[..i], wide)
        invariant forall j :: i <= j < |points| ==> points[j] == old(points)[j]
        invariant forall j :: 0 <= j < i ==> Noted(old(points), j, setting, wide, points[j])
      {
        var noted;
        result, noted := ConfigureOne(result, points[i], wide);
        assert old(points)[..i + 1][..i] == old(points)[..i];
        if setting {
          points := points[i := points[i].(regs := noted)];
        }
        i := i + 1;
      }
      assert old(points)[..|points|] == old(points);
      ConfigsTell(old(points), points, setting, wide);
    }
  }

  // ---------------------------------------------------------------- what the configurations watch

  predicate Covers(c: WatchConfig, a: nat) { c.addr <= a < c.addr + c.numBytes }

  /** Some register watches the byte in this way. */
  ghost predicate Watched(configs: seq<WatchConfig>, a: nat, kind: WatchType) {
    exists c :: 0 <= c < |configs| && configs[c].kind == kind && Covers(configs[c], a)
  }

  /** The cell of `n` bytes around an address. */
  predicate SameCell(a: nat, b: nat, n: nat)
    requires n > 0
  {
    a / n == b / n
  }

  /** A byte that a write watchpoint may watch without need: in an aligned cell that the range touches. */
  predicate NearRange(r: Range, wide: bool, a: nat) {
    var n := if r.Size() <= 2 then 2 else if r.Size() <= 4 || !wide then 4 else 8;
    r.start < r.end && (r.Has(a) || SameCell(a, r.start, n) || SameCell(a, r.end - 1, n))
  }

  /** A register that this watchpoint asks for: what it watches for, and where. */
  ghost predicate Justifies(w: Watchpoint, c: WatchConfig, wide: bool) {
    && (match c.kind case Exec => w.exec case ReadWrite => w.read case Write => w.write && !w.read)
    && (c.numBytes == 1 || c.numBytes == 2 || c.numBytes == 4 || (wide && c.numBytes == 8))
    && c.addr % c.numBytes == 0
    && forall a: nat :: Covers(c, a) ==> if c.kind == Write then NearRange(w.range, wide, a) else w.range.Has(a)
  }

  ghost predicate AskedFor(ps: seq<Watchpoint>, c: WatchConfig, wide: bool) {
    exists i :: 0 <= i < |ps| && Justifies(ps[i], c, wide)
  }

  predicate SameWatch(w: Watchpoint, w': Watchpoint) {
    w'.range == w.range && w'.exec == w.exec && w'.read == w.read && w'.write == w.write
  }

  /** The noted numbers are those of the registers that watch for execution or reading here, and cover all of it. */
  ghost predicate NumbersTell(w: Watchpoint, configs: seq<WatchConfig>) {
    && (forall m :: 0 <= m < |w.regs| ==> NumberTells(w, configs, w.regs[m]))
    && (forall a: nat :: w.range.Has(a) && w.exec ==> NotedFor(w, configs, a, Exec))
    && (forall a: nat :: w.range.Has(a) && w.read ==> NotedFor(w, configs, a, ReadWrite))
  }

  ghost predicate NumberTells(w: Watchpoint, configs: seq<WatchConfig>, number: int) {
    && 0 <= number < |configs|
    && ((configs[number].kind == Exec && w.exec) || (configs[number].kind == ReadWrite && w.read))
    && forall a: nat :: Covers(configs[number], a) ==> w.range.Has(a)
  }

  ghost predicate NotedFor(w: Watchpoint, configs: seq<WatchConfig>, a: nat, kind: WatchType) {
    exists m :: 0 <= m < |w.regs| && 0 <= w.regs[m] < |configs|
      && configs[w.regs[m]].kind == kind && Covers(configs[w.regs[m]], a)
  }

  lemma CellOf(a: nat, start: nat, end: nat, n: nat)
    requires (n == 2 || n == 4 || n == 8) && start < end && RoundDown(start, n) <= a < RoundUp(end, n)
    ensures start <= a < end || SameCell(a, start, n) || SameCell(a, end - 1, n)
  {
    if a < start { BelowInCell(a, start, n); } else if end <= a { AboveInCell(a, end, n); }
  }

  lemma BelowInCell(a: nat, start: nat, n: nat)
    requires (n == 2 || n == 4 || n == 8) && RoundDown(start, n) <= a < start
    ensures SameCell(a, start, n)
  {
    var q := start / n;
    DivModUnique(a, n, q, a - n * q);
  }

  lemma AboveInCell(a: nat, end: nat, n: nat)
    requires (n == 2 || n == 4 || n == 8) && 0 < end <= a < RoundUp(end, n)
    ensures SameCell(a, end - 1, n)
  {
    var q := (end - 1) / n;
    DivModUnique(end + n - 1, n, q + 1, (end - 1) % n);
    DivModUnique(a, n, q, a - n * q);
  }

  /** A chosen chunk lies in the range, or for a write watchpoint in the aligned cells that it touches. */
  lemma PlanStaysNear(r: Range, kind: WatchType, wide: bool, i: nat, a: nat)
    requires r.start <= r.end && i < |Plan(r, kind, wide)| && Plan(r, kind, wide)[i].Has(a)
    ensures if kind == Write then NearRange(r, wide, a) else r.Has(a)
  {
    var w := Widened(r, wide);
    TilingFacts(r, wide, a);
    TilingFacts(w, wide, a);
    hide Greedy, Tiles, Chunk;
    if !r.Has(a) {
      assert kind == Write && r.Size() > 1 && w.Has(a);
      CellOf(a, r.start, r.end, Alignment(r.Size(), wide));
    }
  }

  lemma ChunkSize(r: Range, wide: bool)
    requires Chunk(r, wide)
    ensures var n := r.end - r.start;
      (n == 1 || n == 2 || n == 4 || (wide && n == 8)) && r.start % n == 0
  {
  }

  // ---------------------------------------------------------------- the configurations of one watchpoint

  /** What a register for this range and this way of watching may be. */
  ghost predicate Fits(c: WatchConfig, r: Range, kind: WatchType, wide: bool) {
    && c.kind == kind
    && (c.numBytes == 1 || c.numBytes == 2 || c.numBytes == 4 || (wide && c.numBytes == 8))
    && c.addr % c.numBytes == 0
    && forall a: nat :: Covers(c, a) ==> if kind == Write then NearRange(r, wide, a) else r.Has(a)
  }

  lemma PlanForFits(w: Watchpoint, wanted: bool, kind: WatchType, wide: bool, m: nat)
    requires w.Valid() && m < |PlanFor(w, wanted, kind, wide)|
    ensures wanted && Fits(PlanFor(w, wanted, kind, wide)[m], w.range, kind, wide)
  {
    hide Plan, NearRange;
    var c, chunk := PlanFor(w, wanted, kind, wide)[m], Plan(w.range, kind, wide)[m];
    PlanCovers(w.range, kind, wide, 0);
    ChunkSize(chunk, wide);
    forall a: nat | Covers(c, a) ensures if kind == Write then NearRange(w.range, wide, a) else w.range.Has(a) {
      PlanStaysNear(w.range, kind, wide, m, a);
    }
  }

  lemma PlanForCovers(w: Watchpoint, kind: WatchType, wide: bool, a: nat)
    requires w.Valid() && w.range.Has(a)
    ensures Watched(PlanFor(w, true, kind, wide), a, kind)
  {
    hide Plan, Tiles, Greedy, Chunk;
    PlanCovers(w.range, kind, wide, a);
    var i :| 0 <= i < |Plan(w.range, kind, wide)| && Plan(w.range, kind, wide)[i].Has(a);
    assert Covers(PlanFor(w, true, kind, wide)[i], a);
  }

  lemma WatchedConcat(x: seq<WatchConfig>, y: seq<WatchConfig>, a: nat, kind: WatchType)
    ensures Watched(x, a, kind) || Watched(y, a, kind) ==> Watched(x + y, a, kind)
  {
    if Watched(x, a, kind) {
      var c :| 0 <= c < |x| && x[c].kind == kind && Covers(x[c], a);
      assert (x + y)[c] == x[c];
    }
    if Watched(y, a, kind) {
      var c :| 0 <= c < |y| && y[c].kind == kind && Covers(y[c], a);
      assert (x + y)[|x| + c] == y[c];
    }
  }

  lemma TrackedWatch(w: Watchpoint, wide: bool, a: nat)
    requires w.Valid() && w.range.Has(a)
    ensures w.exec ==> Watched(Tracked(w, wide), a, Exec)
    ensures w.read ==> Watched(Tracked(w, wide), a, ReadWrite)
  {
    hide PlanFor, Watched;
    var x, y := PlanFor(w, w.exec, Exec, wide), PlanFor(w, w.read, ReadWrite, wide);
    if w.exec { PlanForCovers(w, Exec, wide, a); }
    if w.read { PlanForCovers(w, ReadWrite, wide, a); }
    WatchedConcat(x, y, a, Exec);
    WatchedConcat(x, y, a, ReadWrite);
  }

  lemma OwnWatch(w: Watchpoint, wide: bool, a: nat)
    requires w.Valid() && w.range.Has(a)
    ensures w.exec ==> Watched(ConfigsOf(w, wide), a, Exec)
    ensures w.read ==> Watched(ConfigsOf(w, wide), a, ReadWrite)
    ensures w.write && !w.read ==> Watched(ConfigsOf(w, wide), a, Write)
  {
    hide PlanFor, Watched, Tracked;
    var x, y := Tracked(w, wide), PlanFor(w, !w.read && w.write, Write, wide);
    TrackedWatch(w, wide, a);
    if w.write && !w.read { PlanForCovers(w, Write, wide, a); }
    WatchedConcat(x, y, a, Exec);
    WatchedConcat(x, y, a, ReadWrite);
    WatchedConcat(x, y, a, Write);
  }

  lemma TrackedFits(w: Watchpoint, wide: bool, m: nat)
    requires w.Valid() && m < |Tracked(w, wide)|
    ensures var c := Tracked(w, wide)[m];
      (w.exec && Fits(c, w.range, Exec, wide)) || (w.read && Fits(c, w.range, ReadWrite, wide))
  {
    hide PlanFor, Fits;
    var n := |PlanFor(w, w.exec, Exec, wide)|;
    if m < n { PlanForFits(w, w.exec, Exec, wide, m); } else { PlanForFits(w, w.read, ReadWrite, wide, m - n); }
  }

  lemma OwnFits(w: Watchpoint, wide: bool, m: nat)
    requires w.Valid() && m < |ConfigsOf(w, wide)|
    ensures Justifies(w, ConfigsOf(w, wide)[m], wide)
  {
    hide PlanFor, Tracked, NearRange;
    var n := |Tracked(w, wide)|;
    if m < n { TrackedFits(w, wide, m); } else { PlanForFits(w, !w.read && w.write, Write, wide, m - n); }
  }

  // ---------------------------------------------------------------- all watchpoints

  lemma AllWatch(ps: seq<Watchpoint>, i: nat, wide: bool, a: nat, kind: WatchType)
    requires AllValid(ps) && i < |ps| && Watched(ConfigsOf(ps[i], wide), a, kind)
    ensures Watched(AllConfigs(ps, wide), a, kind)
  {
    hide ConfigsOf, AllConfigs, Base;
    ConfigsAt(ps, i, wide);
    var own, all, base := ConfigsOf(ps[i], wide), AllConfigs(ps, wide), Base(ps, i, wide);
    var c :| 0 <= c < |own| && own[c].kind == kind && Covers(own[c], a);
    assert all[base + c] == all[base..base + |own|][c];
  }

  /** Every configuration belongs to some watchpoint. */
  lemma {:induction false} OwnerOf(ps: seq<Watchpoint>, c: nat, wide: bool) returns (i: nat)
    requires AllValid(ps) && c < |AllConfigs(ps, wide)|
    ensures i < |ps| && Justifies(ps[i], AllConfigs(ps, wide)[c], wide)
  {
    hide ConfigsOf, Justifies;
    var n := |ps| - 1;
    var before := |AllConfigs(ps[..n], wide)|;
    if c < before {
      i := OwnerOf(ps[..n], c, wide);
    } else {
      i := n;
      OwnFits(ps[n], wide, c - before);
    }
  }

  lemma TellNumbers(ps: seq<Watchpoint>, i: nat, wide: bool, w: Watchpoint)
    requires AllValid(ps) && i < |ps| && |AllConfigs(ps, wide)| <= 127 && Noted(ps, i, true, wide, w)
    ensures NumbersTell(w, AllConfigs(ps, wide))
  {
    hide Tracked, Numbers, AllConfigs, Base;
    var all := AllConfigs(ps, wide);
    forall m | 0 <= m < |w.regs| ensures NumberTells(w, all, w.regs[m]) {
      NumbersIdentify(ps, i, m, wide);
      TrackedFits(ps[i], wide, m);
    }
    hide NumberTells;
    forall a: nat | w.range.Has(a) && w.exec ensures NotedFor(w, all, a, Exec) { TellWatch(ps, i, wide, w, a, Exec); }
    forall a: nat | w.range.Has(a) && w.read ensures NotedFor(w, all, a, ReadWrite) {
      TellWatch(ps, i, wide, w, a, ReadWrite);
    }
  }

  lemma TellWatch(ps: seq<Watchpoint>, i: nat, wide: bool, w: Watchpoint, a: nat, kind: WatchType)
    requires AllValid(ps) && i < |ps| && |AllConfigs(ps, wide)| <= 127 && Noted(ps, i, true, wide, w)
    requires w.range.Has(a) && ((kind == Exec && w.exec) || (kind == ReadWrite && w.read))
    ensures NotedFor(w, AllConfigs(ps, wide), a, kind)
  {
    hide Tracked, Numbers, AllConfigs, Base;
    TrackedWatch(ps[i], wide, a);
    var own := Tracked(ps[i], wide);
    var m :| 0 <= m < |own| && own[m].kind == kind && Covers(own[m], a);
    NumbersIdentify(ps, i, m, wide);
  }

  /** Everything watched has its registers, every register is asked for, and the noted numbers tell which are whose. */
  lemma ConfigsTell(ps: seq<Watchpoint>, ps': seq<Watchpoint>, setting: bool, wide: bool)
    requires AllValid(ps) && |ps'| == |ps|
    requires forall i :: 0 <= i < |ps| ==> Noted(ps, i, setting, wide, ps'[i])
    ensures forall i, a: nat :: 0 <= i < |ps'| && ps'[i].range.Has(a) ==>
      && (ps'[i].exec ==> Watched(AllConfigs(ps, wide), a, Exec))
      && (ps'[i].read ==> Watched(AllConfigs(ps, wide), a, ReadWrite))
      && (ps'[i].write && !ps'[i].read ==> Watched(AllConfigs(ps, wide), a, Write))
    ensures var result := AllConfigs(ps, wide);
      forall c :: 0 <= c < |result| ==> AskedFor(ps', result[c], wide)
    ensures forall i :: 0 <= i < |ps'| ==> SameWatch(ps[i], ps'[i])
    ensures !setting ==> ps' == ps
    ensures setting && |AllConfigs(ps, wide)| <= 127 ==>
      forall i :: 0 <= i < |ps'| ==> NumbersTell(ps'[i], AllConfigs(ps, wide))
  {
    hide Tracked, ConfigsOf, Numbers, AllConfigs, Base, Watched, NumbersTell;
    var result := AllConfigs(ps, wide);
    forall i, a: nat | 0 <= i < |ps'| && ps'[i].range.Has(a)
      ensures ps'[i].exec ==> Watched(result, a, Exec)
      ensures ps'[i].read ==> Watched(result, a, ReadWrite)
      ensures ps'[i].write && !ps'[i].read ==> Watched(result, a, Write)
    {
      OwnWatch(ps[i], wide, a);
      if ps[i].exec { AllWatch(ps, i, wide, a, Exec); }
      if ps[i].read { AllWatch(ps, i, wide, a, ReadWrite); }
      if ps[i].write && !ps[i].read { AllWatch(ps, i, wide, a, Write); }
    }
    forall c | 0 <= c < |result| ensures AskedFor(ps', result[c], wide) {
      var i := OwnerOf(ps, c, wide);
      assert Justifies(ps'[i], result[c], wide);
    }
    if !setting {
      forall i | 0 <= i < |ps| ensures ps'[i] == ps[i] { assert Noted(ps, i, setting, wide, ps'[i]); }
    }
    if setting && |result| <= 127 {
      forall i | 0 <= i < |ps'| ensures NumbersTell(ps'[i], result) { TellNumbers(ps, i, wide, ps'[i]); }
    }
  }

  lemma NumbersJoin(base: nat, m: nat, n: nat)
    ensures Numbers(base, m) + Numbers(base + m, n) == Numbers(base, m + n)
  {
  }
}

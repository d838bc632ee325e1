/**
 The alternative programs for an expression whose extension widths cannot be trusted: which
 instructions can be reached, which programs result, and when they agree.
 */
module GdbVariants {
  import opened Common
  import opened GdbMachine
  import opened GdbEvaluate

  const MAX_VARIANTS: nat := 64

  // ---------------------------------------------------------------- reachable instructions

  predicate IsExtension(opcode: byte) { opcode == 0x16 || opcode == 0x2a }

  /** A two-byte operand; all ones when it is cut off. */
  function Offset(data: seq<byte>, pc: nat): nat {
    var x := Operand(data, pc, 2);
    if x.None? then 0xffff else x.value
  }

  /** Where the analysis goes from an instruction, in the order in which it is pushed. */
  function Succ(data: seq<byte>, pc: nat): seq<nat>
    requires pc < |data|
  {
    match data[pc]
    case 0x16 => [pc + 2] case 0x2a => [pc + 2]
    case 0x32 => [pc + 2] case 0x22 => [pc + 2]
    case 0x20 => [Offset(data, pc + 1), pc + 3]
    case 0x21 => [Offset(data, pc + 1)]
    case 0x23 => [pc + 3] case 0x26 => [pc + 3]
    case 0x24 => [pc + 5]
    case 0x25 => [pc + 9]
    case 0x27 => []
    case _ => [pc + 1]
  }

  ghost predicate IsPath(data: seq<byte>, p: seq<nat>) {
    && p != [] && p[0] == 0
    && (forall i :: 0 <= i < |p| ==> p[i] < |data|)
    && (forall i :: 0 < i < |p| ==> p[i] in Succ(data, p[i - 1]))
  }

  ghost predicate Reachable(data: seq<byte>, pc: nat) {
    exists p :: IsPath(data, p) && p[|p| - 1] == pc
  }

  lemma ReachStart(data: seq<byte>)
    requires data != []
    ensures Reachable(data, 0)
  {
    assert IsPath(data, [0]) && [0][|[0]| - 1] == 0;
  }

  lemma ReachStep(data: seq<byte>, pc: nat, next: nat)
    requires pc < |data| && Reachable(data, pc) && next in Succ(data, pc) && next < |data|
    ensures Reachable(data, next)
  {
    var p :| IsPath(data, p) && p[|p| - 1] == pc;
    var q := p + [next];
    assert IsPath(data, q) && q[|q| - 1] == next;
  }

  /** A set of marks that holds the start and is closed under successors. */
  ghost predicate Closed(data: seq<byte>, starts: seq<bool>)
    requires |starts| == |data|
  {
    && (data != [] ==> starts[0])
    && (forall pc, next :: 0 <= pc < |data| && starts[pc] && next in Succ(data, pc) && next < |data| ==> starts[next])
  }

  lemma {:induction false} ClosedCoversPath(data: seq<byte>, starts: seq<bool>, p: seq<nat>)
    requires |starts| == |data| && Closed(data, starts) && IsPath(data, p)
    ensures starts[p[|p| - 1]]
    decreases |p|
  {
    if |p| > 1 {
      var q := p[..|p| - 1];
      assert IsPath(data, q);
      ClosedCoversPath(data, starts, q);
      assert p[|p| - 1] in Succ(data, p[|p| - 2]);
    }
  }

  /** Where the machine goes, the analysis goes. */
  lemma StepFollows(t: Target, data: seq<byte>, s: State)
    requires !s.error && !s.end
    ensures var r := Step(t, data, s);
      !r.error && !r.end ==> s.pc < |data| && r.pc in Succ(data, s.pc)
  {
    hide Binary, Extend, Signed, Unsigned;
  }

  /** Every instruction that a run fetches before any error is reachable. */
  lemma {:induction false} FetchedIsReachable(t: Target, data: seq<byte>, n: nat)
    ensures var s := After(t, data, n);
      !s.error && !s.end && s.pc < |data| ==> Reachable(data, s.pc)
  {
    hide Step, Succ;
    var s := After(t, data, n);
    if n == 0 {
      if data != [] { ReachStart(data); }
    } else if !s.error && !s.end && s.pc < |data| {
      var before := After(t, data, n - 1);
      FetchedIsReachable(t, data, n - 1);
      StepFollows(t, data, before);
      ReachStep(data, before.pc, s.pc);
    }
  }

  // ---------------------------------------------------------------- counting variants

  method CountVariants(bits: byte) returns (result: nat)
    ensures result == |Widths(bits)|
  {
    result := 1;
    if bits > 8 {
      result := result + 1;
    }
    if bits > 16 {
      result := result + 1;
    }
    if bits > 32 {
      result := result + 1;
    }
  }

  /** The narrower widths gdb may have meant, then the width itself. */
  function Widths(bits: byte): (r: seq<byte>)
    ensures 1 <= |r| <= 4 && r[|r| - 1] == bits
    ensures forall i, j :: 0 <= i < j < |r| ==> r[i] < r[j]
  {
    (if bits > 8 then [8] else []) + (if bits > 16 then [16] else []) + (if bits > 32 then [32] else []) + [bits]
  }

  /** An extension instruction with its operand in bounds. */
  predicate Site(data: seq<byte>, starts: seq<bool>, i: nat)
    requires |starts| == |data|
  {
    i + 1 < |data| && starts[i] && IsExtension(data[i])
  }

  function Factor(data: seq<byte>, starts: seq<bool>, i: nat): (r: nat)
    requires |starts| == |data|
    ensures r >= 1
  {
    if Site(data, starts, i) then |Widths(data[i + 1])| else 1
  }

  function Product(data: seq<byte>, starts: seq<bool>, n: nat): (r: nat)
    requires |starts| == |data|
    ensures r >= 1
  {
    if n == 0 then 1 else Times(Product(data, starts, n - 1), Factor(data, starts, n - 1))
  }

  function Times(x: nat, y: nat): (r: nat)
    ensures x >= 1 && y >= 1 ==> r >= x && r >= y
  {
    x * y
  }

  lemma TimesNext(x: nat, y: nat)
    ensures Times(0, y) == 0 && Times(x + 1, y) == Times(x, y) + y
  {
  }

  lemma TimesMonotone(x: nat, y: nat, x': nat, y': nat)
    requires x <= x' && y <= y'
    ensures Times(x, y) <= Times(x', y')
  {
    assert x * y <= x' * y <= x' * y';
  }

  lemma {:induction false} ProductMonotone(data: seq<byte>, starts: seq<bool>, more: seq<bool>, n: nat)
    requires |starts| == |data| == |more|
    requires forall i :: 0 <= i < |data| && starts[i] ==> more[i]
    ensures Product(data, starts, n) <= Product(data, more, n)
  {
    if n > 0 {
      ProductMonotone(data, starts, more, n - 1);
      TimesMonotone(Product(data, starts, n - 1), Factor(data, starts, n - 1), Product(data, more, n - 1),
          Factor(data, more, n - 1));
    }
  }

  lemma {:induction false} ProductMark(data: seq<byte>, starts: seq<bool>, pc: nat, n: nat)
    requires |starts| == |data| && pc < |data| && !starts[pc]
    ensures var starts' := starts[pc := true];
      Product(data, starts', n) ==
        if pc < n then Times(Product(data, starts, n), Factor(data, starts', pc)) else Product(data, starts, n)
  {
    var starts' := starts[pc := true];
    if n > 0 {
      ProductMark(data, starts, pc, n - 1);
      if n - 1 != pc {
        assert Factor(data, starts', n - 1) == Factor(data, starts, n - 1);
        TimesSwap(Product(data, starts, n - 1), Factor(data, starts', pc), Factor(data, starts, n - 1));
      } else {
        assert Factor(data, starts, pc) == 1;
      }
    }
  }

  lemma TimesSwap(x: nat, y: nat, z: nat)
    ensures Times(Times(x, y), z) == Times(Times(x, z), y)
  {
    assert x * y * z == x * z * y;
  }

  ghost function Reach(data: seq<byte>): (r: seq<bool>)
    ensures |r| == |data| && forall i :: 0 <= i < |data| ==> (r[i] <==> Reachable(data, i))
  {
    seq(|data|, i requires 0 <= i => Reachable(data, i))
  }

  /** What is marked holds the start, is closed under successors, and is the least such set. */
  lemma ReachIsLeast(data: seq<byte>, starts: seq<bool>)
    requires |starts| == |data|
    ensures Closed(data, Reach(data))
    ensures Closed(data, starts) ==> forall i :: 0 <= i < |data| && Reach(data)[i] ==> starts[i]
  {
    hide Succ, Reachable;
    var r := Reach(data);
    if data != [] { ReachStart(data); }
    forall pc, next | 0 <= pc < |data| && r[pc] && next in Succ(data, pc) && next < |data| ensures r[next] {
      ReachStep(data, pc, next);
    }
    if Closed(data, starts) {
      forall i | 0 <= i < |data| && r[i] ensures starts[i] { ReachableIsMarked(data, starts, i); }
    }
  }

  // ---------------------------------------------------------------- the worklist

  /** Out-of-bounds entries are dropped; the others are reachable. */
  ghost predicate Pending(data: seq<byte>, unvisited: seq<nat>) {
    forall x :: x in unvisited && x < |data| ==> Reachable(data, x)
  }

  /** A successor is marked or waits to be visited. */
  ghost predicate Covered(data: seq<byte>, starts: seq<bool>, unvisited: seq<nat>)
    requires |starts| == |data|
  {
    && (data != [] ==> starts[0] || 0 in unvisited)
    && (forall pc, next :: 0 <= pc < |data| && starts[pc] && next in Succ(data, pc) && next < |data| ==>
          starts[next] || next in unvisited)
  }

  function Unmarked(starts: seq<bool>): nat {
    if starts == [] then 0 else (if starts[0] then 0 else 1) + Unmarked(starts[1..])
  }

  lemma {:induction false} UnmarkedDrops(starts: seq<bool>, pc: nat)
    requires pc < |starts| && !starts[pc]
    ensures Unmarked(starts[pc := true]) == Unmarked(starts) - 1
  {
    if pc == 0 {
      assert starts[0 := true][1..] == starts[1..];
    } else {
      UnmarkedDrops(starts[1..], pc - 1);
      assert starts[pc := true][1..] == starts[1..][pc - 1 := true];
    }
  }

  lemma VisitKeeps(data: seq<byte>, starts: seq<bool>, rest: seq<nat>, pc: nat)
    requires |starts| == |data| && pc < |data|
    requires Pending(data, rest + [pc]) && Covered(data, starts, rest + [pc])
    ensures var unvisited := rest + Succ(data, pc);
      Pending(data, unvisited) && Covered(data, starts[pc := true], unvisited)
  {
    hide Succ, Reachable;
    assert Reachable(data, pc);
    var unvisited := rest + Succ(data, pc);
    forall x | x in unvisited && x < |data| ensures Reachable(data, x) {
      if x in Succ(data, pc) { ReachStep(data, pc, x); } else { assert x in rest + [pc]; }
    }
  }

  /** Mark what can be reached and count the variants; give up once there are too many. */
  method Mark(data: seq<byte>) returns (starts: seq<bool>, variants: nat, abandoned: bool)
    ensures abandoned <==> Product(data, Reach(data), |data|) > MAX_VARIANTS
    ensures !abandoned ==> starts == Reach(data) && variants == Product(data, starts, |data|)
  {
    hide Succ, Reachable, Site;
    starts, variants, abandoned := seq(|data|, _ => false), 1, false;
    var unvisited: seq<nat> := [0];
    NoMarks(data, starts, |data|);
    if data != [] { ReachStart(data); }
    while unvisited != []
      invariant |starts| == |data|
      invariant Pending(data, unvisited) && Covered(data, starts, unvisited)
      invariant forall i :: 0 <= i < |data| && starts[i] ==> Reachable(data, i)
      invariant variants == Product(data, starts, |data|) <= MAX_VARIANTS
      decreases Unmarked(starts), |unvisited|
    {
      var pc, rest := unvisited[|unvisited| - 1], unvisited[..|unvisited| - 1];
      assert unvisited == rest + [pc];
      if pc >= |data| || starts[pc] {
        unvisited := rest;
        continue;
      }
      UnmarkedDrops(starts, pc);
      ProductMark(data, starts, pc, |data|);
      VisitKeeps(data, starts, rest, pc);
      starts := starts[pc := true];
      variants := NewCount(data, starts, pc, variants);
      if variants > MAX_VARIANTS {
        ProductMonotone(data, starts, Reach(data), |data|);
        abandoned := true;
        return;
      }
      unvisited := rest + Succ(data, pc);
    }
    assert Closed(data, starts);
    forall i | 0 <= i < |data| && Reachable(data, i) ensures starts[i] {
      ReachableIsMarked(data, starts, i);
    }
    assert starts == Reach(data);
  }

  method NewCount(data: seq<byte>, starts: seq<bool>, pc: nat, variants: nat) returns (r: nat)
    requires |starts| == |data| && pc < |data| && starts[pc]
    ensures r == Times(variants, Factor(data, starts, pc))
  {
    r := variants;
    if IsExtension(data[pc]) {
      if pc + 1 < |data| {
        var n := CountVariants(data[pc + 1]);
        r := Times(r, n);
      }
    }
  }

  lemma {:induction false} NoMarks(data: seq<byte>, starts: seq<bool>, n: nat)
    requires |starts| == |data| && forall i :: 0 <= i < |data| ==> !starts[i]
    ensures Product(data, starts, n) == 1
  {
    if n > 0 { NoMarks(data, starts, n - 1); }
  }

  lemma ReachableIsMarked(data: seq<byte>, starts: seq<bool>, pc: nat)
    requires |starts| == |data| && Closed(data, starts) && pc < |data| && Reachable(data, pc)
    ensures starts[pc]
  {
    var p :| IsPath(data, p) && p[|p| - 1] == pc;
    ClosedCoversPath(data, starts, p);
  }

  // ---------------------------------------------------------------- the variants

  /** What may stand at position `j` once the instructions before `n` have been treated. */
  function Choices(data: seq<byte>, starts: seq<bool>, n: nat, j: nat): seq<byte>
    requires |starts| == |data| && j < |data|
  {
    if 0 < j <= n && Site(data, starts, j - 1) then Widths(data[j]) else [data[j]]
  }

  /** A program that takes some choice at every position. */
  ghost predicate IsVariant(data: seq<byte>, starts: seq<bool>, n: nat, v: seq<byte>)
    requires |starts| == |data|
  {
    |v| == |data| && forall j :: 0 <= j < |data| ==> v[j] in Choices(data, starts, n, j)
  }

  ghost predicate Distinct<T(!new)>(s: seq<T>) {
    forall i, j :: 0 <= i < j < |s| ==> s[i] != s[j]
  }

  /** All programs that take a choice, each once, the original last. */
  ghost predicate AllVariants(data: seq<byte>, starts: seq<bool>, n: nat, vs: seq<seq<byte>>)
    requires |starts| == |data|
  {
    && |vs| == Product(data, starts, n)
    && vs[|vs| - 1] == data
    && Distinct(vs)
    && (forall v :: v in vs <==> IsVariant(data, starts, n, v))
  }

  /** The programs that differ from `b` at most at `at`, with these widths in turn. */
  function Row(b: seq<byte>, at: nat, ws: seq<byte>): (r: seq<seq<byte>>)
    requires at < |b|
    ensures |r| == |ws| && forall j :: 0 <= j < |ws| ==> r[j] == b[at := ws[j]]
  {
    seq(|ws|, j requires 0 <= j < |ws| => b[at := ws[j]])
  }

  function Rows(vs: seq<seq<byte>>, at: nat, ws: seq<byte>): (r: seq<seq<byte>>)
    requires forall b :: b in vs ==> at < |b|
  {
    if vs == [] then [] else Rows(vs[..|vs| - 1], at, ws) + Row(vs[|vs| - 1], at, ws)
  }

  lemma {:induction false} RowsLength(vs: seq<seq<byte>>, at: nat, ws: seq<byte>)
    requires forall b :: b in vs ==> at < |b|
    ensures |Rows(vs, at, ws)| == Times(|vs|, |ws|)
  {
    if vs != [] {
      RowsLength(vs[..|vs| - 1], at, ws);
      TimesNext(|vs| - 1, |ws|);
      hide Times;
    }
  }

  lemma {:induction false} RowsHolds(vs: seq<seq<byte>>, at: nat, ws: seq<byte>, b: seq<byte>, w: byte)
    requires (forall b :: b in vs ==> at < |b|) && b in vs && w in ws
    ensures b[at := w] in Rows(vs, at, ws)
  {
    var n := |vs| - 1;
    if b == vs[n] {
      var j :| 0 <= j < |ws| && ws[j] == w;
      assert Row(vs[n], at, ws)[j] in Row(vs[n], at, ws);
    } else {
      RowsHolds(vs[..n], at, ws, b, w);
    }
  }

  lemma {:induction false} RowsOnly(vs: seq<seq<byte>>, at: nat, ws: seq<byte>, v: seq<byte>)
    returns (b: seq<byte>, w: byte)
    requires (forall b :: b in vs ==> at < |b|) && v in Rows(vs, at, ws)
    ensures b in vs && w in ws && v == b[at := w]
  {
    var n := |vs| - 1;
    if v in Row(vs[n], at, ws) {
      var j :| 0 <= j < |ws| && v == Row(vs[n], at, ws)[j];
      b, w := vs[n], ws[j];
    } else {
      b, w := RowsOnly(vs[..n], at, ws, v);
    }
  }

  lemma DistinctConcat<T(!new)>(a: seq<T>, b: seq<T>)
    requires Distinct(a) && Distinct(b) && forall x :: x in a ==> x !in b
    ensures Distinct(a + b)
  {
    var s := a + b;
    forall i, j | 0 <= i < j < |s| ensures s[i] != s[j] {
      if i < |a| <= j { assert a[i] in a && b[j - |a|] in b; }
    }
  }

  /** Distinct programs that agree at `at` stay distinct. */
  lemma {:induction false} RowsDistinct(vs: seq<seq<byte>>, at: nat, ws: seq<byte>, x: byte)
    requires Distinct(vs) && Distinct(ws) && forall b :: b in vs ==> at < |b| && b[at] == x
    ensures Distinct(Rows(vs, at, ws))
  {
    if vs != [] {
      var n := |vs| - 1;
      var last := vs[n];
      RowsDistinct(vs[..n], at, ws, x);
      forall i, j | 0 <= i < j < |ws| ensures Row(last, at, ws)[i] != Row(last, at, ws)[j] {
        assert last[at := ws[i]][at] != last[at := ws[j]][at];
      }
      forall v | v in Rows(vs[..n], at, ws) ensures v !in Row(last, at, ws) {
        var b, w := RowsOnly(vs[..n], at, ws, v);
        assert b == v[at := x];
        forall j | 0 <= j < |ws| ensures v != Row(last, at, ws)[j] {
          assert Row(last, at, ws)[j][at := x] == last;
        }
      }
      DistinctConcat(Rows(vs[..n], at, ws), Row(last, at, ws));
    }
  }

  lemma SkipSite(data: seq<byte>, starts: seq<bool>, i: nat, vs: seq<seq<byte>>)
    requires |starts| == |data| && i < |data| && !Site(data, starts, i) && AllVariants(data, starts, i, vs)
    ensures AllVariants(data, starts, i + 1, vs)
  {
    hide Site, Choices, Widths;
    var n := i + 1;
    forall v: seq<byte> ensures IsVariant(data, starts, i, v) <==> IsVariant(data, starts, n, v) {
      forall j: nat | j < |data| ensures Choices(data, starts, i, j) == Choices(data, starts, n, j) {
        ChoicesSkip(data, starts, i, j);
      }
    }
    ProductSkip(data, starts, i);
  }

  lemma ChoicesSkip(data: seq<byte>, starts: seq<bool>, i: nat, j: nat)
    requires |starts| == |data| && i < |data| && !Site(data, starts, i) && j < |data|
    ensures Choices(data, starts, i, j) == Choices(data, starts, i + 1, j)
  {
  }

  lemma ProductSkip(data: seq<byte>, starts: seq<bool>, i: nat)
    requires |starts| == |data| && i < |data| && !Site(data, starts, i)
    ensures Product(data, starts, i + 1) == Product(data, starts, i)
  {
  }

  lemma ChoicesAt(data: seq<byte>, starts: seq<bool>, i: nat)
    requires |starts| == |data| && i < |data| && Site(data, starts, i)
    ensures Choices(data, starts, i, i + 1) == [data[i + 1]]
    ensures Choices(data, starts, i + 1, i + 1) == Widths(data[i + 1])
    ensures forall j: nat :: j < |data| && j != i + 1 ==> Choices(data, starts, i, j) == Choices(data, starts, i + 1, j)
  {
  }

  lemma WidenVariant(data: seq<byte>, starts: seq<bool>, i: nat, b: seq<byte>, w: byte)
    requires |starts| == |data| && i + 1 < |data| && Site(data, starts, i)
    requires IsVariant(data, starts, i, b) && w in Widths(data[i + 1])
    ensures IsVariant(data, starts, i + 1, b[i + 1 := w])
  {
    hide Choices, Site, Widths;
    ChoicesAt(data, starts, i);
  }

  lemma NarrowVariant(data: seq<byte>, starts: seq<bool>, i: nat, v: seq<byte>)
    requires |starts| == |data| && i + 1 < |data| && Site(data, starts, i)
    requires IsVariant(data, starts, i + 1, v)
    ensures v[i + 1] in Widths(data[i + 1]) && IsVariant(data, starts, i, v[i + 1 := data[i + 1]])
  {
    hide Choices, Site, Widths;
    ChoicesAt(data, starts, i);
  }

  lemma RowsAreVariants(data: seq<byte>, starts: seq<bool>, i: nat, vs: seq<seq<byte>>, v: seq<byte>)
    requires |starts| == |data| && i + 1 < |data| && Site(data, starts, i)
    requires forall b :: b in vs <==> IsVariant(data, starts, i, b)
    requires forall b :: b in vs ==> i + 1 < |b|
    ensures v in Rows(vs, i + 1, Widths(data[i + 1])) <==> IsVariant(data, starts, i + 1, v)
  {
    hide Site, Widths, Rows, Choices;
    var ws := Widths(data[i + 1]);
    if v in Rows(vs, i + 1, ws) {
      var b, w := RowsOnly(vs, i + 1, ws, v);
      WidenVariant(data, starts, i, b, w);
    }
    if IsVariant(data, starts, i + 1, v) {
      NarrowVariant(data, starts, i, v);
      var b := v[i + 1 := data[i + 1]];
      RowsHolds(vs, i + 1, ws, b, v[i + 1]);
      assert b[i + 1 := v[i + 1]] == v;
    }
  }

  lemma {:induction false} RowsLast(vs: seq<seq<byte>>, at: nat, ws: seq<byte>)
    requires vs != [] && ws != [] && forall b :: b in vs ==> at < |b|
    ensures var r := Rows(vs, at, ws);
      r != [] && r[|r| - 1] == vs[|vs| - 1][at := ws[|ws| - 1]]
  {
  }

  lemma ExpandSite(data: seq<byte>, starts: seq<bool>, i: nat, vs: seq<seq<byte>>)
    requires |starts| == |data| && i + 1 < |data| && Site(data, starts, i) && AllVariants(data, starts, i, vs)
    requires forall b :: b in vs ==> |b| == |data| && b[i + 1] == data[i + 1]
    ensures AllVariants(data, starts, i + 1, Rows(vs, i + 1, Widths(data[i + 1])))
  {
    hide Site, Widths, IsVariant, Rows;
    var ws := Widths(data[i + 1]);
    RowsLength(vs, i + 1, ws);
    RowsLast(vs, i + 1, ws);
    assert data[i + 1 := data[i + 1]] == data;
    RowsDistinct(vs, i + 1, ws, data[i + 1]);
    var n, rows := i + 1, Rows(vs, i + 1, ws);
    forall v ensures v in rows <==> IsVariant(data, starts, n, v) {
      RowsAreVariants(data, starts, i, vs, v);
    }
  }

  /** The programs to put in the place of one program. */
  method Alternatives(b: seq<byte>, at: nat, bits: byte) returns (r: seq<seq<byte>>)
    requires at < |b| && b[at] == bits
    ensures r == Row(b, at, Widths(bits))
  {
    r := [];
    if bits > 8 {
      r := r + [b[at := 8]];
    }
    if bits > 16 {
      r := r + [b[at := 16]];
    }
    if bits > 32 {
      r := r + [b[at := 32]];
    }
    r := r + [b];
    assert b == b[at := bits];
  }

  method Expand(vs: seq<seq<byte>>, at: nat, bits: byte) returns (r: seq<seq<byte>>)
    requires forall b :: b in vs ==> at < |b| && b[at] == bits
    ensures r == Rows(vs, at, Widths(bits))
  {
    hide Widths, Row;
    r := [];
    var k := 0;
    while k < |vs|
      invariant 0 <= k <= |vs|
      invariant r == Rows(vs[..k], at, Widths(bits))
    {
      var row := Alternatives(vs[k], at, bits);
      assert vs[..k + 1][..k] == vs[..k];
      r := r + row;
      k := k + 1;
    }
    assert vs[..k] == vs;
  }

  /** All programs gdb may have meant. */
  method Generate(data: seq<byte>, starts: seq<bool>) returns (vs: seq<seq<byte>>)
    requires |starts| == |data|
    ensures AllVariants(data, starts, |data|, vs)
  {
    hide Rows, AllVariants;
    vs := [data];
    OnlyTheOriginal(data, starts);
    var i := 0;
    while i < |data|
      invariant 0 <= i <= |data|
      invariant AllVariants(data, starts, i, vs)
    {
      if Site(data, starts, i) {
        Untouched(data, starts, i, vs);
        ExpandSite(data, starts, i, vs);
        vs := Expand(vs, i + 1, data[i + 1]);
      } else {
        SkipSite(data, starts, i, vs);
      }
      i := i + 1;
    }
  }

  lemma OnlyTheOriginal(data: seq<byte>, starts: seq<bool>)
    requires |starts| == |data|
    ensures AllVariants(data, starts, 0, [data])
  {
    forall v ensures v in [data] <==> IsVariant(data, starts, 0, v) {
      if IsVariant(data, starts, 0, v) {
        assert forall j :: 0 <= j < |data| ==> v[j] in Choices(data, starts, 0, j);
        assert v == data;
      }
    }
  }

  /** An operand is still the original one until its instruction is treated. */
  lemma Untouched(data: seq<byte>, starts: seq<bool>, i: nat, vs: seq<seq<byte>>)
    requires |starts| == |data| && i < |data| && Site(data, starts, i) && AllVariants(data, starts, i, vs)
    ensures forall b :: b in vs ==> |b| == |data| && b[i + 1] == data[i + 1]
  {
    ChoicesAt(data, starts, i);
    forall b | b in vs ensures |b| == |data| && b[i + 1] == data[i + 1] {
      assert IsVariant(data, starts, i, b);
      assert b[i + 1] in Choices(data, starts, i, i + 1);
    }
  }

  // ---------------------------------------------------------------- the expression

  /** There is a program, and all of them yield `v`. */
  ghost predicate Agree(t: Target, vs: seq<seq<byte>>, limit: nat, v: int) {
    vs != [] && forall k :: 0 <= k < |vs| ==> Yields(t, vs[k], limit, v)
  }

  /** An expression sent by gdb; no programs at all when there would be too many. */
  class GdbExpression {
    var variants: seq<seq<byte>>

    constructor (data: seq<byte>)
      ensures variants == [] <==> Product(data, Reach(data), |data|) > 64
      ensures variants != [] ==> AllVariants(data, Reach(data), |data|, variants) && |variants| <= 64
    {
      var starts, count, abandoned := Mark(data);
      var vs := [];
      if !abandoned {
        vs := Generate(data, starts);
      }
      variants := vs;
    }

    /** The value on which all programs agree. */
    method Evaluate(t: Target) returns (r: Option<int>)
      ensures forall v :: Agree(t, variants, 10000, v) <==> r == Some(v)
    {
      hide Yields;
      r := None;
      if variants == [] {
        return;
      }
      var k := 0;
      while k < |variants|
        invariant 0 <= k <= |variants|
        invariant r.None? <==> k == 0
        invariant r.Some? ==> forall j :: 0 <= j < k ==> Yields(t, variants[j], MAX_STEPS, r.value)
        invariant forall v :: k > 0 && Yields(t, variants[0], MAX_STEPS, v) ==> r == Some(v)
      {
        var v := RunVariant(t, variants[k], MAX_STEPS);
        if v.None? || (r.Some? && r != v) {
          r := None;
          return;
        }
        r := v;
        k := k + 1;
      }
    }
  }
}

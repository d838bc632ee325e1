/** What the runs of the alternative programs fetch, against the marks made for the original. */
module GdbVariantRuns {
  import opened Common
  import opened GdbMachine
  import opened GdbArithmetic
  import opened GdbInstructions
  import opened GdbEvaluate
  import opened GdbVariants

  // ---------------------------------------------------------------- which programs and which ways

  /** A variant has another byte only as a narrower width of 8, 16 or 32 bits behind a reachable extension. */
  ghost predicate Narrows(data: seq<byte>, v: seq<byte>, j: nat)
    requires j < |data| == |v|
  {
    && j > 0 && Reachable(data, j - 1) && (data[j - 1] == 0x16 || data[j - 1] == 0x2a)
    && v[j] < data[j] && (v[j] == 8 || v[j] == 16 || v[j] == 32)
  }

  lemma WidthsMean(bits: byte, w: byte)
    ensures w in Widths(bits) <==> w == bits || (w < bits && (w == 8 || w == 16 || w == 32))
  {
  }

  /** The variants are exactly the programs that differ from the original in this way. */
  lemma VariantMeans(data: seq<byte>, v: seq<byte>)
    ensures IsVariant(data, Reach(data), |data|, v) <==>
      |v| == |data| && forall j: nat :: j < |data| ==> v[j] == data[j] || Narrows(data, v, j)
  {
    hide Widths, Reachable;
    if |v| == |data| {
      forall j: nat | j < |data|
        ensures v[j] in Choices(data, Reach(data), |data|, j) <==> v[j] == data[j] || Narrows(data, v, j)
      {
        WidthsMean(data[j], v[j]);
      }
      hide Choices, Narrows;
    }
  }

  /** From a state at `pc` the program goes on at `next`. */
  predicate GoesTo(t: Target, data: seq<byte>, s: State, pc: nat, next: nat) {
    && s.pc == pc && !s.error && !s.end
    && var r := Step(t, data, s);
       !r.error && !r.end && r.pc == next
  }

  /** A tracee that can always be read, and a stack that is deep enough for everything. */
  function Readable(): Target { Target((_, _) => Some(0), _ => Some(0), (_, _, _) => 0) }

  function Deep(v: int, pc: nat): State { State(seq(256, _ => v), pc, false, false) }

  /** Wherever the analysis goes from an instruction, some run goes as well; only ext of no bits always fails. */
  lemma SuccPossible(data: seq<byte>, pc: nat, next: nat) returns (t: Target, s: State)
    requires pc < |data| && Decode(data, pc).Some? && next in Succ(data, pc)
    requires !(data[pc] == 0x16 && data[pc + 1] == 0)
    ensures GoesTo(t, data, s, pc, next)
  {
    t, s := Readable(), Deep(if data[pc] == 0x20 && next == pc + 3 then 0 else 1, pc);
    if IsArithmetic(data[pc]) { ArithmeticGoes(data, pc, next); } else { OtherGoes(data, pc, next, s); }
  }

  lemma ArithmeticGoes(data: seq<byte>, pc: nat, next: nat)
    requires pc < |data| && IsArithmetic(data[pc]) && next in Succ(data, pc)
    ensures GoesTo(Readable(), data, Deep(1, pc), pc, next)
  {
    assert next == pc + 1;
    hide Execute, Decode, Succ;
    BinaryMeans(Readable(), data[pc], 1, 1);
    PlainDecode(data, pc, data[pc]);
    DeepArithmetic(data[pc], pc);
  }

  lemma OtherGoes(data: seq<byte>, pc: nat, next: nat, s: State)
    requires pc < |data| && Decode(data, pc).Some? && next in Succ(data, pc) && !IsArithmetic(data[pc])
    requires !(data[pc] == 0x16 && data[pc + 1] == 0)
    requires s == Deep(if data[pc] == 0x20 && next == pc + 3 then 0 else 1, pc)
    ensures GoesTo(Readable(), data, s, pc, next)
  {
    hide Execute, BigEndian;
    if pc + 2 <= |data| { OneByteOperand(data, pc + 1); }
    var d := Decode(data, pc).value;
    NotArithmetic(data, pc);
    DeepOther(d.instr, d.next, s);
  }

  lemma NotArithmetic(data: seq<byte>, pc: nat)
    requires pc < |data| && Decode(data, pc).Some? && !IsArithmetic(data[pc])
    ensures !Decode(data, pc).value.instr.Arith?
  {
  }

  lemma DeepOther(i: Instruction, after: nat, s: State)
    requires |s.stack| == 256 && !s.error && !s.end && !i.Arith?
    requires (i.Ext? ==> !(i.signed && i.bits == 0)) && (i.Pick? ==> i.depth < 256)
    ensures var r := Execute(Readable(), s, i, after);
      && !r.error && (r.end <==> i.End?)
      && r.pc == (match i case Goto(target) => target
                          case IfGoto(target) => if Top(s, 0) != 0 then target else after
                          case _ => after)
  {
    hide Binary, Extend, Signed, Unsigned;
  }

  lemma DeepArithmetic(op: byte, pc: nat)
    requires ArithOf(op).Some?
    ensures Execute(Readable(), Deep(1, pc), Arith(ArithOf(op).value), pc + 1).pc == pc + 1
    ensures !Execute(Readable(), Deep(1, pc), Arith(ArithOf(op).value), pc + 1).error
    ensures !Execute(Readable(), Deep(1, pc), Arith(ArithOf(op).value), pc + 1).end
  {
    hide Binary;
    BinaryMeans(Readable(), op, 1, 1);
  }

  /** Behind an instruction that cannot be decoded: the next byte, or for a cut-off operand nothing of the program. */
  lemma SuccUndecoded(data: seq<byte>, pc: nat, next: nat)
    requires pc < |data| && Decode(data, pc).None? && next in Succ(data, pc)
    ensures next == pc + 1 || next >= |data| || next == 0xffff
  {
  }

  // ---------------------------------------------------------------- what the runs fetch

  predicate IsJump(opcode: byte) { opcode == 0x20 || opcode == 0x21 }

  /**
   Narrowing one operand does not lead a marked instruction elsewhere: an operand that may become 32,
   which is if_goto, is not itself marked as an instruction, and one that may change is not the low
   byte of a marked jump's target.
   */
  ghost predicate Apart(data: seq<byte>, starts: seq<bool>)
    requires |starts| == |data|
  {
    forall i: nat :: Site(data, starts, i) ==>
      && (data[i + 1] > 32 ==> !starts[i + 1])
      && (data[i + 1] > 8 && i > 0 ==> !(starts[i - 1] && IsJump(data[i - 1])))
  }

  /** No operand of a marked extension is a byte of another marked instruction. */
  ghost predicate NoOverlap(data: seq<byte>, starts: seq<bool>)
    requires |starts| == |data|
  {
    forall i: nat, j: nat :: Site(data, starts, i) && j < |data| && j != i && starts[j] ==>
      !(j <= i + 1 <= j + OperandWidth(data[j]))
  }

  lemma NoOverlapSuffices(data: seq<byte>, starts: seq<bool>)
    requires |starts| == |data| && NoOverlap(data, starts)
    ensures Apart(data, starts)
  {
    forall i: nat | Site(data, starts, i)
      ensures !starts[i + 1] && (i > 0 && starts[i - 1] ==> OperandWidth(data[i - 1]) != 2)
    {
      var next: nat, before := i + 1, i - 1;
      assert starts[next] ==> !(next <= i + 1 <= next + OperandWidth(data[next]));
      assert i > 0 && starts[before] ==> !(before <= i + 1 <= before + OperandWidth(data[before]));
    }
  }

  /** A byte that is no operand of a marked extension is the same in every variant. */
  lemma Fixed(data: seq<byte>, starts: seq<bool>, v: seq<byte>, j: nat)
    requires |starts| == |data| && IsVariant(data, starts, |data|, v) && j < |data|
    requires !(j > 0 && Site(data, starts, j - 1) && data[j] > 8)
    ensures v[j] == data[j]
  {
    assert v[j] in Choices(data, starts, |data|, j);
  }

  /** A changed opcode is one of three. */
  lemma Changed(data: seq<byte>, starts: seq<bool>, v: seq<byte>, j: nat)
    requires |starts| == |data| && IsVariant(data, starts, |data|, v) && j < |data| && v[j] != data[j]
    ensures j > 0 && Site(data, starts, j - 1) && v[j] < data[j] && (v[j] == 8 || v[j] == 16 || v[j] == 32)
  {
    assert v[j] in Choices(data, starts, |data|, j);
  }

  lemma SameTarget(data: seq<byte>, starts: seq<bool>, v: seq<byte>, pc: nat)
    requires |starts| == |data| && IsVariant(data, starts, |data|, v) && Apart(data, starts)
    requires pc < |data| && starts[pc] && IsJump(data[pc])
    ensures Offset(v, pc + 1) == Offset(data, pc + 1)
  {
    hide IsVariant, Offset;
    VariantLength(data, starts, v);
    if pc + 3 <= |data| {
      Fixed(data, starts, v, pc + 1);
      Fixed(data, starts, v, pc + 2);
    }
    OffsetOfBytes(data, v, pc + 1);
  }

  lemma OffsetOfBytes(data: seq<byte>, v: seq<byte>, pc: nat)
    requires |v| == |data| && (pc + 2 <= |data| ==> v[pc] == data[pc] && v[pc + 1] == data[pc + 1])
    ensures Offset(v, pc) == Offset(data, pc)
  {
    if pc + 2 <= |data| { assert v[pc..pc + 2] == data[pc..pc + 2]; }
  }

  lemma SuccOfOpcode(data: seq<byte>, v: seq<byte>, pc: nat)
    requires |v| == |data| && pc < |data| && v[pc] == data[pc]
    requires IsJump(data[pc]) ==> Offset(v, pc + 1) == Offset(data, pc + 1)
    ensures Succ(v, pc) == Succ(data, pc)
  {
    hide Offset;
  }

  /** From a marked instruction a variant goes to marked instructions only. */
  lemma VariantClosed(data: seq<byte>, starts: seq<bool>, v: seq<byte>)
    requires |starts| == |data| && Closed(data, starts) && Apart(data, starts) && IsVariant(data, starts, |data|, v)
    ensures Closed(v, starts)
  {
    hide Succ, Offset, IsVariant, Apart, Site;
    assert |v| == |data| by { VariantLength(data, starts, v); }
    forall pc, next | 0 <= pc < |v| && starts[pc] && next in Succ(v, pc) && next < |v| ensures starts[next] {
      if v[pc] == data[pc] {
        if IsJump(data[pc]) { SameTarget(data, starts, v, pc); }
        SuccOfOpcode(data, v, pc);
      } else {
        NarrowedOpcode(data, starts, v, pc);
        assert pc + 1 in Succ(data, pc - 1);
      }
    }
  }

  lemma VariantLength(data: seq<byte>, starts: seq<bool>, v: seq<byte>)
    requires |starts| == |data| && IsVariant(data, starts, |data|, v)
    ensures |v| == |data|
  {
  }

  /** An operand that is also an instruction becomes one that goes on to the next byte, as the extension does. */
  lemma NarrowedOpcode(data: seq<byte>, starts: seq<bool>, v: seq<byte>, pc: nat)
    requires |starts| == |data| && Apart(data, starts) && IsVariant(data, starts, |data|, v)
    requires pc < |data| && starts[pc] && v[pc] != data[pc]
    ensures Succ(v, pc) == [pc + 1] && pc > 0 && starts[pc - 1] && Succ(data, pc - 1) == [pc + 1]
  {
    Changed(data, starts, v, pc);
    assert Site(data, starts, pc - 1);
  }

  /** Every instruction that a run of any variant fetches before an error is marked. */
  lemma VariantFetchesMarked(t: Target, data: seq<byte>, v: seq<byte>, n: nat)
    requires Apart(data, Reach(data)) && IsVariant(data, Reach(data), |data|, v)
    ensures var s := After(t, v, n);
      !s.error && !s.end && s.pc < |v| ==> s.pc < |data| && Reach(data)[s.pc]
  {
    hide After, Reachable, IsVariant, Apart, Closed;
    var starts, s := Reach(data), After(t, v, n);
    VariantLength(data, starts, v);
    ReachIsLeast(data, starts);
    VariantClosed(data, starts, v);
    FetchedIsReachable(t, v, n);
    if !s.error && !s.end && s.pc < |v| { ReachableIsMarked(v, starts, s.pc); }
  }

  // ---------------------------------------------------------------- overlapping instructions

  /**
   0: const8 0; 2: const8 1; 4: if_goto 8; 7: ext 39; 9: end; 10: end; 11: end.
   The operand of ext, at 8, is the jump's target, and there 39 is end.
   */
  const OVERLAPPING: seq<byte> := [0x22, 0, 0x22, 1, 0x20, 0, 8, 0x16, 0x27, 0x27, 0x27, 0x27]

  /** With width 32, the operand is if_goto. */
  const NARROWED: seq<byte> := OVERLAPPING[8 := 32]

  const OVERLAPPING_MARKS: seq<bool> :=
    [true, false, true, false, true, false, false, true, true, true, false, false]

  lemma OverlappingSucc()
    ensures var p := OVERLAPPING;
      && Succ(p, 0) == [2] && Succ(p, 2) == [4] && Succ(p, 4) == [8, 7] && Succ(p, 7) == [9]
      && Succ(p, 8) == [] && Succ(p, 9) == []
  {
    hide Operand;
    TwoByteOperand(OVERLAPPING, 5);
  }

  lemma OverlappingClosed()
    ensures Closed(OVERLAPPING, OVERLAPPING_MARKS)
  {
    hide Succ;
    OverlappingSucc();
  }

  lemma OverlappingReached()
    ensures var p := OVERLAPPING;
      Reachable(p, 0) && Reachable(p, 2) && Reachable(p, 4) && Reachable(p, 7) && Reachable(p, 8) && Reachable(p, 9)
  {
    hide Succ, Reachable;
    OverlappingSucc();
    ReachStart(OVERLAPPING);
    ReachStep(OVERLAPPING, 0, 2);
    ReachStep(OVERLAPPING, 2, 4);
    ReachStep(OVERLAPPING, 4, 7);
    ReachStep(OVERLAPPING, 4, 8);
    ReachStep(OVERLAPPING, 7, 9);
  }

  lemma OverlappingMarks()
    ensures Reach(OVERLAPPING) == OVERLAPPING_MARKS
  {
    hide Closed, Reachable;
    OverlappingClosed();
    OverlappingReached();
    ReachIsLeast(OVERLAPPING, OVERLAPPING_MARKS);
  }

  lemma NarrowedIsVariant()
    ensures IsVariant(OVERLAPPING, OVERLAPPING_MARKS, |OVERLAPPING|, NARROWED)
  {
    assert Site(OVERLAPPING, OVERLAPPING_MARKS, 7);
    assert Widths(0x27) == [8, 16, 32, 0x27];
  }

  lemma NarrowedDecodes()
    ensures var v := NARROWED;
      && Decode(v, 0) == Some(Decoded(Const(0), 2)) && Decode(v, 2) == Some(Decoded(Const(1), 4))
      && Decode(v, 4) == Some(Decoded(IfGoto(8), 7)) && Decode(v, 8) == Some(Decoded(IfGoto(0x2727), 11))
  {
    hide Operand;
    OneByteOperand(NARROWED, 1);
    OneByteOperand(NARROWED, 3);
    TwoByteOperand(NARROWED, 5);
    TwoByteOperand(NARROWED, 9);
  }

  lemma NarrowedRun(t: Target)
    ensures After(t, NARROWED, 4) == State([], 11, false, false)
  {
    hide Decode, Binary, Extend, Signed, Unsigned;
    NarrowedDecodes();
    assert After(t, NARROWED, 0) == INITIAL;
    assert After(t, NARROWED, 1) == State([0], 2, false, false);
    assert After(t, NARROWED, 2) == State([0, 1], 4, false, false);
    assert After(t, NARROWED, 3) == State([0], 8, false, false);
  }

  /** A program whose variant fetches an instruction that is not marked. */
  lemma OverlapEscapes(t: Target)
    ensures IsVariant(OVERLAPPING, Reach(OVERLAPPING), |OVERLAPPING|, NARROWED)
    ensures var s := After(t, NARROWED, 4);
      !s.error && !s.end && s.pc < |OVERLAPPING| && !Reach(OVERLAPPING)[s.pc]
  {
    hide After, IsVariant;
    OverlappingMarks();
    NarrowedIsVariant();
    NarrowedRun(t);
  }
}

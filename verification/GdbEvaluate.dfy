/** rr's interpreter for agent expressions, instruction by instruction, against the machine. */
module GdbEvaluate {
  import opened Common
  import opened GdbMachine
  import opened GdbExtension

  const MAX_STEPS: nat := 10000

  /** The machine after `n` steps; an error or the end stops it. */
  function After(t: Target, code: seq<byte>, n: nat): State {
    if n == 0 then INITIAL else
    var s := After(t, code, n - 1);
    if s.error || s.end then s else Step(t, code, s)
  }

  /** Within `limit` steps the program ends without an error, with `v` on top. */
  predicate Yields(t: Target, code: seq<byte>, limit: nat, v: int) {
    var s := After(t, code, limit);
    s.end && !s.error && s.stack != [] && Top(s, 0) == v
  }

  lemma {:induction false} Settled(t: Target, code: seq<byte>, m: nat, n: nat)
    requires m <= n && (After(t, code, m).error || After(t, code, m).end)
    ensures After(t, code, n) == After(t, code, m)
  {
    hide Step;
    if m < n { Settled(t, code, m, n - 1); }
  }

  /** The interpreter's object agrees with a machine state; after an error only the error counts. */
  class ExpressionState {
    const code: seq<byte>
    var stack: seq<int>
    var pc: nat
    var error: bool
    var end: bool

    constructor (code: seq<byte>)
      ensures this.code == code && stack == [] && pc == 0 && !error && !end
    {
      this.code := code;
      stack, pc, error, end := [], 0, false, false;
    }

    ghost function Now(): State
      reads this
    {
      State(stack, pc, error, end)
    }

    ghost predicate Is(s: State)
      reads this
    {
      error == s.error && (!error ==> Now() == s)
    }

    method PopValue() returns (v: int)
      modifies this`stack, this`error
      ensures old(stack) == [] ==> error && v == -1 && stack == []
      ensures old(stack) != [] ==>
        error == old(error) && v == old(stack)[|old(stack)| - 1] && stack == old(stack)[..|old(stack)| - 1]
    {
      if stack == [] {
        error := true;
        return -1;
      }
      v := stack[|stack| - 1];
      stack := stack[..|stack| - 1];
    }

    method Push(v: int)
      modifies this`stack
      ensures stack == old(stack) + [v]
    {
      stack := stack + [v];
    }

    /** Operands are big-endian; a missing one reads as all ones and is an error. */
    method Fetch(width: nat) returns (v: nat)
      modifies this`pc, this`error
      ensures pc == old(pc) || pc == old(pc) + width
      ensures old(pc) + width <= |code| ==>
          error == old(error) && pc == old(pc) + width && v == BigEndian(code[old(pc)..old(pc) + width])
      ensures old(pc) + width > |code| ==> error && pc == old(pc) && v == Pow2(8 * width) - 1
    {
      if pc + width > |code| {
        error := true;
        return Pow2(8 * width) - 1;
      }
      v := 0;
      var i := 0;
      while i < width
        invariant 0 <= i <= width
        invariant v == BigEndian(code[pc..pc + i])
      {
        assert code[pc..pc + i + 1][..i] == code[pc..pc + i];
        v := 256 * v + code[pc + i];
        i := i + 1;
      }
      pc := pc + width;
    }

    method PickStep(t: Target, offset: nat)
      requires !error
      modifies this`stack, this`error
      ensures Is(Execute(t, old(Now()), Pick(offset), old(pc)))
    {
      hide Binary, Extend, Signed, Unsigned;
      if offset >= |stack| {
        error := true;
        return;
      }
      Push(stack[|stack| - 1 - offset]);
    }

    method ConstStep(t: Target, v: int)
      requires !error
      modifies this`stack
      ensures Is(Execute(t, old(Now()), Const(v), old(pc)))
    {
      hide Binary, Extend, Signed, Unsigned;
      Push(v);
    }

    method BinaryStep(t: Target, op: BinaryOp)
      requires !error
      modifies this`stack, this`error
      ensures |old(stack)| < 2 ==> error
      ensures |old(stack)| >= 2 ==>
        var r := Binary(t, op, old(stack)[|old(stack)| - 2], old(stack)[|old(stack)| - 1]);
        && (r.None? <==> error)
        && (r.Some? ==> stack == old(stack)[..|old(stack)| - 2] + [r.value])
    {
      var b := PopValue();
      var a := PopValue();
      var r := Binary(t, op, a, b);
      if r.None? {
        error := true;
        Push(a);
      } else {
        Push(r.value);
      }
    }

    method ExtStep(t: Target, signed: bool)
      requires !error
      modifies this`stack, this`error, this`pc
      ensures old(pc) + 1 > |code| ==> error
      ensures old(pc) + 1 <= |code| ==>
        Is(Execute(t, old(Now()), Ext(BigEndian(code[old(pc)..old(pc) + 1]), signed), old(pc) + 1))
    {
      hide Extend, Masked;
      var n := Fetch(1);
      if signed && n == 0 {
        error := true;
        n := 1;
      }
      if n >= 64 {
        return;
      }
      var a := PopValue();
      MaskedIsExtend(a, n, signed);
      Push(Masked(a, n, signed));
    }

    method NotStep(t: Target, i: Instruction)
      requires !error && (i.LogNot? || i.BitNot?)
      modifies this`stack, this`error
      ensures Is(Execute(t, old(Now()), i, old(pc)))
    {
      hide Binary, Extend, Signed, Unsigned;
      var a := PopValue();
      Push(if i.LogNot? then Bool(a == 0) else -1 - a);
    }

    method PopStep(t: Target)
      requires !error
      modifies this`stack, this`error
      ensures Is(Execute(t, old(Now()), Pop, old(pc)))
    {
      hide Binary, Extend, Signed, Unsigned;
      var a := PopValue();
    }

    method SwapStep(t: Target)
      requires !error
      modifies this`stack, this`error
      ensures Is(Execute(t, old(Now()), Swap, old(pc)))
    {
      hide Execute;
      SwapMeans(t, Now());
      ghost var s, n := stack, |stack|;
      var b := PopValue();
      var a := PopValue();
      Push(b);
      Push(a);
      assert n >= 2 ==> stack == s[..n - 2] + [s[n - 1], s[n - 2]];
    }

    method RotStep(t: Target)
      requires !error
      modifies this`stack, this`error
      ensures Is(Execute(t, old(Now()), Rot, old(pc)))
    {
      hide Execute;
      RotMeans(t, Now());
      ghost var s, n := stack, |stack|;
      var c := PopValue();
      var b := PopValue();
      var a := PopValue();
      Push(c);
      Push(b);
      Push(a);
      assert n >= 3 ==> stack == s[..n - 3] + [s[n - 1], s[n - 2], s[n - 3]];
    }

    method RefStep(t: Target, width: nat)
      requires !error
      modifies this`stack, this`error
      ensures Is(Execute(t, old(Now()), Ref(width), old(pc)))
    {
      hide Binary, Extend, Signed, Unsigned;
      var addr := PopValue();
      if error {
        return;
      }
      var v := t.readMem(Unsigned(addr), width);
      if v.None? {
        error := true;
        return;
      }
      Push(Signed(v.value));
    }

    method RegStep(t: Target, n: nat)
      requires !error
      modifies this`stack, this`error
      ensures Is(Execute(t, old(Now()), Reg(n), old(pc)))
    {
      hide Binary, Extend, Signed, Unsigned;
      var v := t.register(n);
      if v.None? {
        error := true;
        return;
      }
      Push(Signed(v.value));
    }

    method JumpStep(t: Target, target: nat, conditional: bool)
      requires !error
      modifies this`stack, this`error, this`pc
      ensures Is(Execute(t, old(Now()), if conditional then IfGoto(target) else Goto(target), old(pc)))
    {
      hide Binary, Extend, Signed, Unsigned;
      if conditional {
        var a := PopValue();
        if a != 0 {
          pc := target;
        }
      } else {
        pc := target;
      }
    }

    /** The instructions without operand bytes. */
    method PlainStep(t: Target, opcode: byte)
      requires !error && OperandWidth(opcode) == 0
      modifies this
      ensures var i := Instr(opcode, 0);
        if i.None? then error else Is(Execute(t, old(Now()), i.value, old(pc)))
    {
      var op := ArithOf(opcode);
      if op.Some? {
        BinaryStep(t, op.value);
        return;
      }
      match opcode
      case 0x0e => NotStep(t, LogNot);
      case 0x12 => NotStep(t, BitNot);
      case 0x2b => SwapStep(t);
      case 0x29 => PopStep(t);
      case 0x33 => RotStep(t);
      case 0x17 => RefStep(t, 1);
      case 0x18 => RefStep(t, 2);
      case 0x19 => RefStep(t, 4);
      case 0x1a => RefStep(t, 8);
      case 0x28 => PickStep(t, 0);
      case 0x27 => end := true;
      case _ => error := true;
    }

    /** The instructions with operand bytes. */
    method OperandStep(t: Target, opcode: byte)
      requires !error && OperandWidth(opcode) > 0
      modifies this`stack, this`error, this`pc
      ensures var w := OperandWidth(opcode);
        if old(pc) + w > |code| then error
        else
          var i := Instr(opcode, BigEndian(code[old(pc)..old(pc) + w]));
          i.Some? && Is(Execute(t, old(Now()), i.value, old(pc) + w))
    {
      hide Execute, BigEndian;
      if opcode == 0x16 || opcode == 0x2a {
        ExtStep(t, opcode == 0x16);
        return;
      }
      var x := Fetch(OperandWidth(opcode));
      if error {
        return;
      }
      ExecuteFrom(t, old(Now()), pc, Instr(opcode, x).value, pc);
      match opcode
      case 0x32 => PickStep(t, x);
      case 0x20 => JumpStep(t, x, true);
      case 0x21 => JumpStep(t, x, false);
      case 0x22 => ConstStep(t, x);
      case 0x23 => ConstStep(t, x);
      case 0x24 => ConstStep(t, x);
      case 0x25 => ConstStep(t, Signed(x));
      case 0x26 => RegStep(t, x);
      case _ =>
    }

    /** Fetch an opcode and do what it says. */
    method StepOnce(t: Target)
      requires !error
      modifies this
      ensures Is(Step(t, code, old(Now())))
    {
      var opcode := Fetch(1);
      if error {
        return;
      }
      ghost var before, start := old(Now()), Now();
      if OperandWidth(opcode) == 0 {
        PlainStep(t, opcode);
      } else {
        OperandStep(t, opcode);
      }
      StepFromOperand(t, code, before, start);
    }
  }

  /** Evaluate one program: no result on an error, or when it takes more than `limit` steps. */
  method RunVariant(t: Target, code: seq<byte>, limit: nat) returns (r: Option<int>)
    ensures forall v :: Yields(t, code, limit, v) <==> r == Some(v)
  {
    hide Step;
    var state := new ExpressionState(code);
    var steps: nat := 0;
    while !state.end
      invariant steps <= limit && state.code == code
      invariant state.Is(After(t, code, steps))
      decreases limit - steps, !state.error
    {
      if steps >= limit || state.error {
        if state.error { Settled(t, code, steps, limit); }
        return None;
      }
      state.StepOnce(t);
      steps := steps + 1;
    }
    Settled(t, code, steps, limit);
    var v := state.PopValue();
    return if state.error then None else Some(v);
  }

  /** Where the program counter was does not matter once the instruction is decoded. */
  lemma ExecuteFrom(t: Target, s: State, pc: nat, i: Instruction, next: nat)
    ensures var r, r' := Execute(t, s, i, next), Execute(t, s.(pc := pc), i, next);
      r.error == r'.error && (!r.error ==> r == r')
  {
  }

  lemma StepFromOperand(t: Target, code: seq<byte>, before: State, start: State)
    requires before.pc < |code| && start == before.(pc := before.pc + 1)
    ensures var opcode := code[before.pc];
      var w := OperandWidth(opcode);
      var r := Step(t, code, before);
      if start.pc + w > |code| then r == Fail(before) else
      var i := Instr(opcode, BigEndian(code[start.pc..start.pc + w]));
      if i.None? then r == Fail(before) else
      var e := Execute(t, start, i.value, start.pc + w);
      r.error == e.error && (!r.error ==> r == e)
  {
    hide Execute, BigEndian, ArithOf;
    var opcode := code[before.pc];
    var w := OperandWidth(opcode);
    if start.pc + w <= |code| {
      var i := Instr(opcode, BigEndian(code[start.pc..start.pc + w]));
      if i.Some? { ExecuteFrom(t, before, start.pc, i.value, start.pc + w); }
    }
  }

  lemma SwapMeans(t: Target, s: State)
    ensures var r, n := Execute(t, s, Swap, s.pc), |s.stack|;
      if n < 2 then r.error else r == s.(stack := s.stack[..n - 2] + [s.stack[n - 1], s.stack[n - 2]])
  {
    hide Binary, Extend, Signed, Unsigned;
  }

  lemma RotMeans(t: Target, s: State)
    ensures var r, n := Execute(t, s, Rot, s.pc), |s.stack|;
      if n < 3 then r.error else r == s.(stack := s.stack[..n - 3] + [s.stack[n - 1], s.stack[n - 2], s.stack[n - 3]])
  {
    hide Binary, Extend, Signed, Unsigned;
  }
}

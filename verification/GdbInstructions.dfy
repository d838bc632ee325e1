/** What every instruction of an agent expression does, read off its bytes. */
module GdbInstructions {
  import opened Common
  import opened GdbMachine
  import opened GdbExtension
  import opened GdbArithmetic

  // ---------------------------------------------------------------- operands

  lemma OneByteOperand(code: seq<byte>, pc: nat)
    requires pc + 1 <= |code|
    ensures Operand(code, pc, 1) == Some(code[pc])
  {
    var b := code[pc..pc + 1];
    assert b[..0] == [] && BigEndian(b[..0]) == 0;
  }

  lemma TwoByteOperand(code: seq<byte>, pc: nat)
    requires pc + 2 <= |code|
    ensures Operand(code, pc, 2) == Some(256 * (code[pc] as int) + code[pc + 1])
  {
    var b := code[pc..pc + 2];
    OneByteOperand(code, pc);
    assert b[..1] == code[pc..pc + 1];
  }

  function Two(code: seq<byte>, pc: nat): nat
    requires pc + 2 <= |code|
  {
    256 * (code[pc] as int) + code[pc + 1]
  }

  function Four(code: seq<byte>, pc: nat): nat
    requires pc + 4 <= |code|
  {
    0x1_0000 * Two(code, pc) + Two(code, pc + 2)
  }

  function Eight(code: seq<byte>, pc: nat): nat
    requires pc + 8 <= |code|
  {
    0x1_0000_0000 * Four(code, pc) + Four(code, pc + 4)
  }

  lemma TwoMore(code: seq<byte>, pc: nat, w: nat)
    requires pc + w + 2 <= |code|
    ensures BigEndian(code[pc..pc + w + 2]) == 0x1_0000 * BigEndian(code[pc..pc + w]) + Two(code, pc + w)
  {
    var b := code[pc..pc + w + 2];
    assert b[..w + 1] == code[pc..pc + w + 1];
    assert code[pc..pc + w + 1][..w] == code[pc..pc + w];
  }

  lemma FourByteOperand(code: seq<byte>, pc: nat)
    requires pc + 4 <= |code|
    ensures Operand(code, pc, 4) == Some(Four(code, pc))
  {
    hide BigEndian;
    TwoByteOperand(code, pc);
    TwoMore(code, pc, 2);
  }

  lemma EightByteOperand(code: seq<byte>, pc: nat)
    requires pc + 8 <= |code|
    ensures Operand(code, pc, 8) == Some(Eight(code, pc))
  {
    hide BigEndian;
    FourByteOperand(code, pc);
    TwoMore(code, pc, 4);
    TwoMore(code, pc, 6);
  }

  // ---------------------------------------------------------------- instructions

  /** The top `n` values are replaced by `vs`, and the program goes on at `next`. */
  predicate Leaves(s: State, s': State, n: nat, vs: seq<int>, next: nat) {
    n <= |s.stack| && s' == State(s.stack[..|s.stack| - n] + vs, next, s.error, s.end)
  }

  /** One value on top comes from memory or a register, as a signed word. */
  ghost predicate Fetches(s: State, s': State, n: nat, v: Option<nat>, next: nat) {
    if v.None? then s'.error else exists x :: IsSigned(x, v.value) && Leaves(s, s', n, [x], next)
  }

  /** Fewer than `n` values on the stack, or fewer than `w` operand bytes, are an error. */
  predicate Lacks(code: seq<byte>, s: State, n: nat, w: nat) { |s.stack| < n || s.pc + 1 + w > |code| }

  ghost predicate ReadsMemory(t: Target, s: State, s': State, width: nat)
    requires s.stack != []
  {
    forall u: nat :: IsUnsigned(u, Top(s, 0)) ==> Fetches(s, s', 1, t.readMem(u, width), s.pc + 1)
  }

  ghost predicate Extends(code: seq<byte>, s: State, s': State, signed: bool) {
    if s.pc + 2 > |code| then s'.error else
    var n := code[s.pc + 1];
    if signed && n == 0 then s'.error
    else if n >= 64 then Leaves(s, s', 0, [], s.pc + 2)
    else if s.stack == [] then s'.error
    else exists x :: Represents(Top(s, 0), n, signed, x) && Leaves(s, s', 1, [x], s.pc + 2)
  }

  ghost predicate Calculates(op: byte, s: State, s': State)
    requires |s.stack| >= 2
  {
    var a, b := Top(s, 1), Top(s, 0);
    exists r :: Leaves(s, s', 2, [r], s.pc + 1) && (LeftOpen(op, a, b) || Computes(op, a, b, r))
  }

  /** The step that the bytes at the program counter ask for. */
  ghost predicate Does(t: Target, code: seq<byte>, s: State, s': State)
    requires s.pc < |code|
  {
    var op, next := code[s.pc], s.pc + 1;
    if IsArithmetic(op) then
      if Lacks(code, s, 2, 0) || DividesByZero(op, Top(s, 0)) then s'.error
      else Calculates(op, s, s')
    else if op == 0x0e then if Lacks(code, s, 1, 0) then s'.error else
      Leaves(s, s', 1, [if Top(s, 0) == 0 then 1 else 0], next)
    else if op == 0x12 then if Lacks(code, s, 1, 0) then s'.error else Leaves(s, s', 1, [-1 - Top(s, 0)], next)
    else if op == 0x16 then Extends(code, s, s', true)
    else if op == 0x2a then Extends(code, s, s', false)
    else if op == 0x17 then if Lacks(code, s, 1, 0) then s'.error else ReadsMemory(t, s, s', 1)
    else if op == 0x18 then if Lacks(code, s, 1, 0) then s'.error else ReadsMemory(t, s, s', 2)
    else if op == 0x19 then if Lacks(code, s, 1, 0) then s'.error else ReadsMemory(t, s, s', 4)
    else if op == 0x1a then if Lacks(code, s, 1, 0) then s'.error else ReadsMemory(t, s, s', 8)
    else if op == 0x20 then if Lacks(code, s, 1, 2) then s'.error else
      Leaves(s, s', 1, [], if Top(s, 0) != 0 then Two(code, next) else next + 2)
    else if op == 0x21 then if Lacks(code, s, 0, 2) then s'.error else Leaves(s, s', 0, [], Two(code, next))
    else if op == 0x22 then if Lacks(code, s, 0, 1) then s'.error else Leaves(s, s', 0, [code[next]], next + 1)
    else if op == 0x23 then if Lacks(code, s, 0, 2) then s'.error else Leaves(s, s', 0, [Two(code, next)], next + 2)
    else if op == 0x24 then if Lacks(code, s, 0, 4) then s'.error else Leaves(s, s', 0, [Four(code, next)], next + 4)
    else if op == 0x25 then if Lacks(code, s, 0, 8) then s'.error else
      Fetches(s, s', 0, Some(Eight(code, next)), next + 8)
    else if op == 0x26 then if Lacks(code, s, 0, 2) then s'.error else
      Fetches(s, s', 0, t.register(Two(code, next)), next + 2)
    else if op == 0x27 then s' == s.(pc := next, end := true)
    else if op == 0x28 then if Lacks(code, s, 1, 0) then s'.error else Leaves(s, s', 0, [Top(s, 0)], next)
    else if op == 0x29 then if Lacks(code, s, 1, 0) then s'.error else Leaves(s, s', 1, [], next)
    else if op == 0x2b then if Lacks(code, s, 2, 0) then s'.error else Leaves(s, s', 2, [Top(s, 0), Top(s, 1)], next)
    else if op == 0x32 then if Lacks(code, s, 0, 1) || |s.stack| <= code[next] then s'.error else
      Leaves(s, s', 0, [Top(s, code[next])], next + 1)
    else if op == 0x33 then if Lacks(code, s, 3, 0) then s'.error else
      Leaves(s, s', 3, [Top(s, 0), Top(s, 1), Top(s, 2)], next)
    else s'.error
  }

  lemma ArithmeticStep(t: Target, code: seq<byte>, s: State)
    requires s.pc < |code| && IsArithmetic(code[s.pc])
    ensures Does(t, code, s, Step(t, code, s))
  {
    hide Computes, LeftOpen, DividesByZero, Binary;
    var op := code[s.pc];
    assert Decode(code, s.pc) == Some(Decoded(Arith(ArithOf(op).value), s.pc + 1)) by {
      BinaryMeans(t, op, 0, 0);
      PlainDecode(code, s.pc, op);
    }
    if |s.stack| >= 2 {
      BinaryMeans(t, op, Top(s, 1), Top(s, 0));
      ArithmeticExecute(t, s, ArithOf(op).value, s.pc + 1);
    }
  }

  lemma PlainDecode(code: seq<byte>, pc: nat, op: byte)
    requires pc < |code| && code[pc] == op && IsArithmetic(op) && ArithOf(op).Some?
    ensures Decode(code, pc) == Some(Decoded(Arith(ArithOf(op).value), pc + 1))
  {
  }

  lemma ArithmeticExecute(t: Target, s: State, op: BinaryOp, next: nat)
    requires |s.stack| >= 2
    ensures var r, e := Binary(t, op, Top(s, 1), Top(s, 0)), Execute(t, s, Arith(op), next);
      if r.None? then e.error else Leaves(s, e, 2, [r.value], next)
  {
    hide Binary;
  }

  lemma ExtensionStep(t: Target, code: seq<byte>, s: State, signed: bool)
    requires s.pc < |code| && code[s.pc] == if signed then 0x16 else 0x2a
    ensures Extends(code, s, Step(t, code, s), signed)
  {
    hide Extend, Represents, Binary, Signed, Unsigned;
    if s.pc + 2 <= |code| {
      OneByteOperand(code, s.pc + 1);
      var n := code[s.pc + 1];
      if s.stack != [] && n < 64 && (signed ==> n > 0) { ExtendMeans(Top(s, 0), n, signed); }
    }
  }

  lemma MemoryStep(t: Target, code: seq<byte>, s: State, width: nat)
    requires s.pc < |code| && s.stack != []
    requires (code[s.pc] == 0x17 && width == 1) || (code[s.pc] == 0x18 && width == 2)
      || (code[s.pc] == 0x19 && width == 4) || (code[s.pc] == 0x1a && width == 8)
    ensures ReadsMemory(t, s, Step(t, code, s), width)
  {
    hide IsSigned, Binary, Extend, Signed, Unsigned;
    var v := t.readMem(Unsigned(Top(s, 0)), width);
    if v.Some? { SignedIs(v.value); }
    forall u: nat | IsUnsigned(u, Top(s, 0)) ensures u == Unsigned(Top(s, 0)) { UnsignedOnly(u, Top(s, 0)); }
  }

  predicate HasOperand(op: byte) {
    op == 0x20 || op == 0x21 || op == 0x22 || op == 0x23 || op == 0x24 || op == 0x25 || op == 0x26 || op == 0x32
  }

  lemma OperandStep(t: Target, code: seq<byte>, s: State)
    requires s.pc < |code| && HasOperand(code[s.pc])
    ensures Does(t, code, s, Step(t, code, s))
  {
    hide Computes, LeftOpen, DividesByZero, Binary, Extend, Signed, Unsigned, IsSigned, BigEndian, Two, Four, Eight,
      Represents;
    var at := s.pc + 1;
    if at + 1 <= |code| { OneByteOperand(code, at); }
    if at + 2 <= |code| { TwoByteOperand(code, at); TwoIs(code, at); }
    if at + 4 <= |code| { FourByteOperand(code, at); }
    if at + 8 <= |code| { EightByteOperand(code, at); SignedIs(Eight(code, at)); }
    if code[s.pc] == 0x26 && at + 2 <= |code| {
      var v := t.register(Two(code, at));
      if v.Some? { SignedIs(v.value); }
    }
  }

  lemma TwoIs(code: seq<byte>, pc: nat)
    requires pc + 2 <= |code|
    ensures Two(code, pc) == 256 * (code[pc] as int) + code[pc + 1]
  {
  }

  lemma PlainStep(t: Target, code: seq<byte>, s: State)
    requires s.pc < |code| && !IsArithmetic(code[s.pc]) && !HasOperand(code[s.pc])
    requires code[s.pc] != 0x16 && code[s.pc] != 0x2a && !(0x17 <= code[s.pc] <= 0x1a)
    ensures Does(t, code, s, Step(t, code, s))
  {
    hide Computes, LeftOpen, DividesByZero, Binary, Extend, Signed, Unsigned, IsSigned, Represents;
  }

  /** Every step does what the bytes say; past the end of the program it is an error. */
  lemma StepMeans(t: Target, code: seq<byte>, s: State)
    ensures if s.pc < |code| then Does(t, code, s, Step(t, code, s)) else Step(t, code, s).error
  {
    hide Computes, LeftOpen, DividesByZero, Execute, Extends, ReadsMemory, Fetches, Leaves;
    if s.pc < |code| {
      var op := code[s.pc];
      if IsArithmetic(op) {
        ArithmeticStep(t, code, s);
      } else if op == 0x16 || op == 0x2a {
        ExtensionStep(t, code, s, op == 0x16);
      } else if 0x17 <= op <= 0x1a {
        if s.stack != [] {
          MemoryStep(t, code, s, if op == 0x17 then 1 else if op == 0x18 then 2 else if op == 0x19 then 4 else 8);
        } else {
          NoAddress(t, code, s);
        }
      } else if HasOperand(op) {
        OperandStep(t, code, s);
      } else {
        PlainStep(t, code, s);
      }
    }
  }

  lemma NoAddress(t: Target, code: seq<byte>, s: State)
    requires s.pc < |code| && 0x17 <= code[s.pc] <= 0x1a && s.stack == []
    ensures Step(t, code, s).error
  {
    hide Binary, Extend, Signed, Unsigned;
  }
}

/**
 The machine for gdb's agent expressions: bytecode as described in section F.2, "Bytecode
 Descriptions", of the GDB manual, as far as rr executes it.
 */
module GdbMachine {
  import opened Common

  const TWO_63: int := 0x8000_0000_0000_0000
  const TWO_64: int := 0x1_0000_0000_0000_0000

  /** Conversion to int64_t and to uint64_t. */
  function Signed(x: int): int { (x + TWO_63) % TWO_64 - TWO_63 }
  function Unsigned(x: int): nat { x % TWO_64 }

  function Pow2(n: nat): (r: nat)
    ensures r > 0
  {
    if n == 0 then 1 else 2 * Pow2(n - 1)
  }

  function BitAnd(x: nat, y: nat): nat {
    if x == 0 || y == 0 then 0 else x % 2 * (y % 2) + 2 * BitAnd(x / 2, y / 2)
  }

  function BitOr(x: nat, y: nat): nat
    decreases x + y
  {
    if x == 0 then y else if y == 0 then x else
      (if x % 2 + y % 2 > 0 then 1 else 0) + 2 * BitOr(x / 2, y / 2)
  }

  function BitXor(x: nat, y: nat): nat
    decreases x + y
  {
    if x == 0 then y else if y == 0 then x else
      (x % 2 + y % 2) % 2 + 2 * BitXor(x / 2, y / 2)
  }

  /** Division and remainder that truncate towards zero. */
  function TruncDiv(a: int, b: int): int
    requires b != 0
  {
    if a >= 0 then (if b > 0 then a / b else -(a / -b)) else (if b > 0 then -(-a / b) else -a / -b)
  }

  function TruncRem(a: int, b: int): int
    requires b != 0
  {
    a - b * TruncDiv(a, b)
  }

  datatype BinaryOp =
    | Add | Sub | Mul | DivSigned | DivUnsigned | RemSigned | RemUnsigned
    | Lsh | RshSigned | RshUnsigned | And | Or | Xor | Equal | LessSigned | LessUnsigned

  /** A tracee: its readable memory and registers, and what the host does where C++ leaves it open. */
  datatype Target = Target(
    readMem: (nat, nat) -> Option<nat>,        // address and width in bytes
    register: nat -> Option<nat>,              // none if undefined or of an unusual width
    unspecified: (BinaryOp, int, int) -> int)  // shifts out of range, and the one overflowing division

  function Bool(b: bool): int { if b then 1 else 0 }

  /** No result when the operation is an error. */
  function Binary(t: Target, op: BinaryOp, a: int, b: int): Option<int> {
    match op
    case Add => Some(Signed(a + b))
    case Sub => Some(Signed(a - b))
    case Mul => Some(Signed(a * b))
    case DivSigned =>
      if b == 0 then None
      else if b == -1 && a == -TWO_63 then Some(t.unspecified(op, a, b))
      else Some(TruncDiv(a, b))
    case DivUnsigned => if Unsigned(b) == 0 then None else Some(Signed(Unsigned(a) / Unsigned(b)))
    case RemSigned =>
      if b == 0 then None
      else if b == -1 && a == -TWO_63 then Some(t.unspecified(op, a, b))
      else Some(TruncRem(a, b))
    case RemUnsigned => if Unsigned(b) == 0 then None else Some(Signed(Unsigned(a) % Unsigned(b)))
    case Lsh => if 0 <= b < 64 then Some(Signed(a * Pow2(b))) else Some(t.unspecified(op, a, b))
    case RshSigned => if 0 <= b < 64 then Some(a / Pow2(b)) else Some(t.unspecified(op, a, b))
    case RshUnsigned => if 0 <= b < 64 then Some(Signed(Unsigned(a) / Pow2(b))) else Some(t.unspecified(op, a, b))
    case And => Some(Signed(BitAnd(Unsigned(a), Unsigned(b))))
    case Or => Some(Signed(BitOr(Unsigned(a), Unsigned(b))))
    case Xor => Some(Signed(BitXor(Unsigned(a), Unsigned(b))))
    case Equal => Some(Bool(a == b))
    case LessSigned => Some(Bool(a < b))
    case LessUnsigned => Some(Bool(Unsigned(a) < Unsigned(b)))
  }

  /** The low `n` bits, as a signed number or not. */
  function Extend(a: int, n: nat, signed: bool): int
  {
    var low := Unsigned(a) % Pow2(n);
    if signed && n > 0 && a / Pow2(n - 1) % 2 == 1 then low - Pow2(n) else low
  }

  // ---------------------------------------------------------------- instructions

  datatype Instruction =
    | Arith(op: BinaryOp)
    | LogNot
    | BitNot
    | Ext(bits: nat, signed: bool)
    | Ref(width: nat)
    | Pick(depth: nat)
    | Swap
    | Pop
    | Rot
    | IfGoto(target: nat)
    | Goto(target: nat)
    | Const(value: int)
    | Reg(number: nat)
    | End

  /** A big-endian operand. */
  function Operand(code: seq<byte>, pc: nat, width: nat): Option<nat> {
    if pc + width > |code| then None else Some(BigEndian(code[pc..pc + width]))
  }

  function BigEndian(b: seq<byte>): nat {
    if b == [] then 0 else 256 * BigEndian(b[..|b| - 1]) + b[|b| - 1]
  }

  function ArithOf(opcode: byte): Option<BinaryOp> {
    match opcode
    case 0x02 => Some(Add) case 0x03 => Some(Sub) case 0x04 => Some(Mul)
    case 0x05 => Some(DivSigned) case 0x06 => Some(DivUnsigned)
    case 0x07 => Some(RemSigned) case 0x08 => Some(RemUnsigned)
    case 0x09 => Some(Lsh) case 0x0a => Some(RshSigned) case 0x0b => Some(RshUnsigned)
    case 0x0f => Some(And) case 0x10 => Some(Or) case 0x11 => Some(Xor)
    case 0x13 => Some(Equal) case 0x14 => Some(LessSigned) case 0x15 => Some(LessUnsigned)
    case _ => None
  }

  /** How many operand bytes follow an opcode. */
  function OperandWidth(opcode: byte): (w: nat)
    ensures w == 0 || w == 1 || w == 2 || w == 4 || w == 8
  {
    match opcode
    case 0x16 => 1 case 0x2a => 1 case 0x32 => 1 case 0x22 => 1   // ext, zero_ext, pick, const8
    case 0x20 => 2 case 0x21 => 2 case 0x23 => 2 case 0x26 => 2   // if_goto, goto, const16, reg
    case 0x24 => 4 case 0x25 => 8                                 // const32, const64
    case _ => 0
  }

  /** The instruction with this opcode and operand, if rr knows it. */
  function Instr(opcode: byte, x: nat): Option<Instruction> {
    match opcode
    case 0x0e => Some(LogNot) case 0x12 => Some(BitNot)
    case 0x16 => Some(Ext(x, true)) case 0x2a => Some(Ext(x, false))
    case 0x17 => Some(Ref(1)) case 0x18 => Some(Ref(2)) case 0x19 => Some(Ref(4)) case 0x1a => Some(Ref(8))
    case 0x28 => Some(Pick(0)) case 0x32 => Some(Pick(x))
    case 0x2b => Some(Swap) case 0x29 => Some(Pop) case 0x33 => Some(Rot)
    case 0x20 => Some(IfGoto(x)) case 0x21 => Some(Goto(x))
    case 0x22 => Some(Const(x)) case 0x23 => Some(Const(x)) case 0x24 => Some(Const(x))
    case 0x25 => Some(Const(Signed(x)))
    case 0x26 => Some(Reg(x))
    case 0x27 => Some(End)
    case _ => var op := ArithOf(opcode); if op.Some? then Some(Arith(op.value)) else None
  }

  datatype Decoded = Decoded(instr: Instruction, next: nat)

  function Decode(code: seq<byte>, pc: nat): Option<Decoded> {
    if pc >= |code| then None else
    var w := OperandWidth(code[pc]);
    var x := Operand(code, pc + 1, w);
    if x.None? then None else
    var i := Instr(code[pc], x.value);
    if i.None? then None else Some(Decoded(i.value, pc + 1 + w))
  }

  // ---------------------------------------------------------------- execution

  datatype State = State(stack: seq<int>, pc: nat, error: bool, end: bool)

  const INITIAL := State([], 0, false, false)

  function Fail(s: State): State { s.(error := true) }

  /** The stack without its top `n` values, and `v` on top. */
  function Replace(s: State, n: nat, v: int, next: nat): State
    requires n <= |s.stack|
  {
    s.(stack := s.stack[..|s.stack| - n] + [v], pc := next)
  }

  /** The value `i` places below the top. */
  function Top(s: State, i: nat): int
    requires i < |s.stack|
  {
    s.stack[|s.stack| - 1 - i]
  }

  function Execute(t: Target, s: State, i: Instruction, next: nat): State {
    var depth := |s.stack|;
    match i
    case Arith(op) =>
      if depth < 2 then Fail(s) else
      var r := Binary(t, op, Top(s, 1), Top(s, 0));
      if r.None? then Fail(s) else Replace(s, 2, r.value, next)
    case LogNot => if depth < 1 then Fail(s) else Replace(s, 1, Bool(Top(s, 0) == 0), next)
    case BitNot => if depth < 1 then Fail(s) else Replace(s, 1, -1 - Top(s, 0), next)
    case Ext(n, signed) =>
      if signed && n == 0 then Fail(s)
      else if n >= 64 then s.(pc := next)
      else if depth < 1 then Fail(s)
      else Replace(s, 1, Extend(Top(s, 0), n, signed), next)
    case Ref(w) =>
      if depth < 1 then Fail(s) else
      var v := t.readMem(Unsigned(Top(s, 0)), w);
      if v.None? then Fail(s) else Replace(s, 1, Signed(v.value), next)
    case Pick(n) => if depth <= n then Fail(s) else Replace(s, 0, Top(s, n), next)
    case Swap => if depth < 2 then Fail(s) else s.(stack := s.stack[..depth - 2] + [Top(s, 0), Top(s, 1)], pc := next)
    case Pop => if depth < 1 then Fail(s) else s.(stack := s.stack[..depth - 1], pc := next)
    case Rot =>
      if depth < 3 then Fail(s)
      else s.(stack := s.stack[..depth - 3] + [Top(s, 0), Top(s, 1), Top(s, 2)], pc := next)
    case IfGoto(target) =>
      if depth < 1 then Fail(s) else s.(stack := s.stack[..depth - 1], pc := if Top(s, 0) != 0 then target else next)
    case Goto(target) => s.(pc := target)
    case Const(v) => Replace(s, 0, v, next)
    case Reg(n) =>
      var v := t.register(n);
      if v.None? then Fail(s) else Replace(s, 0, Signed(v.value), next)
    case End => s.(pc := next, end := true)
  }

  /** One step; an instruction that cannot be decoded is an error. */
  function Step(t: Target, code: seq<byte>, s: State): State {
    var d := Decode(code, s.pc);
    if d.None? then Fail(s) else Execute(t, s, d.value.instr, d.value.next)
  }

  // ---------------------------------------------------------------- rot

  /**
   What section F.2, "Bytecode Descriptions", of the GDB manual asks of rot: the top value becomes
   the third, the second the top, and the third the second.
   */
  function Rotated(s: State, next: nat): State
    requires |s.stack| >= 3
  {
    s.(stack := s.stack[..|s.stack| - 3] + [Top(s, 0), Top(s, 2), Top(s, 1)], pc := next)
  }

  /** rr's rot is the manual's exactly if the second and the third value are the same. */
  lemma RotExact(t: Target, s: State, next: nat)
    requires |s.stack| >= 3
    ensures Execute(t, s, Rot, next) == Rotated(s, next) <==> Top(s, 1) == Top(s, 2)
  {
    hide Binary, Extend, Signed, Unsigned;
    var n := |s.stack| - 3;
    var r, m := Execute(t, s, Rot, next), Rotated(s, next);
    assert r.stack[n + 1] == Top(s, 1) && m.stack[n + 1] == Top(s, 2);
    if Top(s, 1) == Top(s, 2) { assert r.stack == m.stack; }
  }

  /** On the values 1, 2, 3, with 3 on top, rr's rot leaves 1 on top, and the manual's leaves 2. */
  lemma RotDiffers(t: Target, next: nat)
    ensures var s := State([1, 2, 3], 0, false, false);
      && Execute(t, s, Rot, next).stack == [3, 2, 1] && Rotated(s, next).stack == [3, 1, 2]
      && Execute(t, s, Rot, next) != Rotated(s, next)
  {
    hide Binary, Extend, Signed, Unsigned;
    RotExact(t, State([1, 2, 3], 0, false, false), next);
  }
}

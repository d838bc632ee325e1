/** What the arithmetic of agent expressions computes: 64-bit words, truncating division, shifts and bits. */
module GdbArithmetic {
  import opened Common
  import opened RingArithmetic
  import opened GdbMachine
  import opened GdbExtension

  /** `r` is the signed 64-bit number that is congruent to `x`. */
  predicate IsSigned(r: int, x: int) { -TWO_63 <= r < TWO_63 && (r - x) % TWO_64 == 0 }

  /** `u` is the unsigned 64-bit number that is congruent to `x`. */
  predicate IsUnsigned(u: int, x: int) { 0 <= u < TWO_64 && (u - x) % TWO_64 == 0 }

  predicate Bit(x: int, k: nat) { x / Pow2(k) % 2 == 1 }

  function Abs(x: int): nat { if x < 0 then -x else x }

  /** Quotient and remainder of a division that rounds towards zero. */
  predicate Truncates(a: int, b: int, q: int, r: int) {
    a == q * b + r && Abs(r) < Abs(b) && (r == 0 || (r < 0 <==> a < 0))
  }

  /** `q` is the quotient by `m`, rounded down. */
  predicate Floors(x: int, m: nat, q: int) { q * m <= x < (q + 1) * m }

  // ---------------------------------------------------------------- words

  lemma SignedIs(x: int)
    ensures IsSigned(Signed(x), x)
  {
    var q, r := (x + TWO_63) / TWO_64, (x + TWO_63) % TWO_64;
    assert Signed(x) - x == TWO_64 * -q;
    MultipleOf(TWO_64, Signed(x) - x, -q);
  }

  lemma UnsignedIs(x: int)
    ensures IsUnsigned(Unsigned(x), x)
  {
    MultipleOf(TWO_64, Unsigned(x) - x, -(x / TWO_64));
  }

  lemma UnsignedOnly(u: int, x: int)
    requires IsUnsigned(u, x)
    ensures u == Unsigned(x)
  {
    var d := (u - x) / TWO_64;
    DivModUnique(x, TWO_64, -d, u);
  }

  // ---------------------------------------------------------------- division

  lemma Euclid(x: int, y: int)
    requires y > 0
    ensures x == x / y * y + x % y && 0 <= x % y < y
  {
  }

  lemma TruncMeans(a: int, b: int)
    requires b != 0
    ensures Truncates(a, b, TruncDiv(a, b), TruncRem(a, b))
  {
    hide Truncates, TruncDiv, Abs;
    Euclid(Abs(a), PositiveAbs(b));
    TruncIs(a, b, Abs(a) / PositiveAbs(b));
    Signs(a, b, Abs(a) / PositiveAbs(b), Abs(a) % PositiveAbs(b));
  }

  function PositiveAbs(b: int): (r: int)
    requires b != 0
    ensures r == Abs(b) > 0
  {
    Abs(b)
  }

  lemma TruncIs(a: int, b: int, d: int)
    requires b != 0 && d == Abs(a) / PositiveAbs(b)
    ensures TruncDiv(a, b) == if (a >= 0) == (b > 0) then d else -d
  {
  }

  lemma Signs(a: int, b: int, d: int, r: int)
    requires b != 0 && Abs(a) == d * Abs(b) + r && 0 <= r < Abs(b)
    ensures var q := if (a >= 0) == (b > 0) then d else -d;
      Truncates(a, b, q, a - b * q)
  {
    var q := if (a >= 0) == (b > 0) then d else -d;
    if a >= 0 {
      assert b * q == d * Abs(b);
    } else {
      assert b * q == -(d * Abs(b));
    }
  }

  lemma FloorMeans(x: int, m: nat)
    requires m > 0
    ensures Floors(x, m, x / m)
  {
    Euclid(x, m);
    assert (x / m + 1) * m == x / m * m + m;
  }

  // ---------------------------------------------------------------- bits

  lemma HalfDiv(x: int, m: nat)
    requires m > 0
    ensures x / (2 * m) == x / 2 / m
  {
    var h := x / 2;
    var q, r := h / m, h % m;
    assert x == 2 * m * q + (2 * r + x % 2) by { assert h == m * q + r; assert 2 * (m * q) == 2 * m * q; }
    DivModUnique(x, 2 * m, q, 2 * r + x % 2);
  }

  lemma BitUp(x: int, k: nat)
    requires k > 0
    ensures Bit(x, k) <==> Bit(x / 2, k - 1)
  {
    HalfDiv(x, Pow2(k - 1));
  }

  lemma AndHalf(x: nat, y: nat)
    ensures BitAnd(x, y) % 2 == (if x % 2 == 1 && y % 2 == 1 then 1 else 0) && BitAnd(x, y) / 2 == BitAnd(x / 2, y / 2)
  {
    if x != 0 && y != 0 {
      BitProduct(x % 2, y % 2);
      OddEven(if x % 2 == 1 && y % 2 == 1 then 1 else 0, BitAnd(x / 2, y / 2));
    }
  }

  lemma BitProduct(x: int, y: int)
    requires 0 <= x <= 1 && 0 <= y <= 1
    ensures x * y == if x == 1 && y == 1 then 1 else 0
  {
    if x == 0 { assert x * y == 0; } else { assert x * y == y; }
  }

  lemma OrHalf(x: nat, y: nat)
    ensures BitOr(x, y) % 2 == (if x % 2 + y % 2 > 0 then 1 else 0) && BitOr(x, y) / 2 == BitOr(x / 2, y / 2)
  {
    if x != 0 && y != 0 {
      OddEven(if x % 2 + y % 2 > 0 then 1 else 0, BitOr(x / 2, y / 2));
    }
  }

  lemma XorHalf(x: nat, y: nat)
    ensures BitXor(x, y) % 2 == (x % 2 + y % 2) % 2 && BitXor(x, y) / 2 == BitXor(x / 2, y / 2)
  {
    if x != 0 && y != 0 {
      OddEven((x % 2 + y % 2) % 2, BitXor(x / 2, y / 2));
    }
  }

  lemma OddEven(b: int, h: int)
    requires b == 0 || b == 1
    ensures (b + 2 * h) % 2 == b && (b + 2 * h) / 2 == h
  {
    DivModUnique(b + 2 * h, 2, h, b);
  }

  lemma BitZero(x: int)
    ensures Bit(x, 0) <==> x % 2 == 1
  {
    assert Pow2(0) == 1 && x / 1 == x;
  }

  lemma {:induction false} AndBits(x: nat, y: nat, k: nat)
    ensures Bit(BitAnd(x, y), k) <==> Bit(x, k) && Bit(y, k)
    decreases k
  {
    hide BitAnd, Bit;
    AndHalf(x, y);
    if k == 0 {
      BitZero(x);
      BitZero(y);
      BitZero(BitAnd(x, y));
    } else {
      AndBits(x / 2, y / 2, k - 1);
      BitUp(x, k);
      BitUp(y, k);
      BitUp(BitAnd(x, y), k);
    }
  }

  lemma {:induction false} OrBits(x: nat, y: nat, k: nat)
    ensures Bit(BitOr(x, y), k) <==> Bit(x, k) || Bit(y, k)
    decreases k
  {
    hide BitOr, Bit;
    OrHalf(x, y);
    if k == 0 {
      BitZero(x);
      BitZero(y);
      BitZero(BitOr(x, y));
    } else {
      OrBits(x / 2, y / 2, k - 1);
      BitUp(x, k);
      BitUp(y, k);
      BitUp(BitOr(x, y), k);
    }
  }

  lemma {:induction false} XorBits(x: nat, y: nat, k: nat)
    ensures Bit(BitXor(x, y), k) <==> Bit(x, k) != Bit(y, k)
    decreases k
  {
    hide BitXor, Bit;
    XorHalf(x, y);
    if k == 0 {
      BitZero(x);
      BitZero(y);
      BitZero(BitXor(x, y));
    } else {
      XorBits(x / 2, y / 2, k - 1);
      BitUp(x, k);
      BitUp(y, k);
      BitUp(BitXor(x, y), k);
    }
  }

  /** Congruent numbers have the same low 64 bits. */
  lemma SameBits(x: int, y: int, k: nat)
    requires (x - y) % TWO_64 == 0 && k < 64
    ensures Bit(x, k) <==> Bit(y, k)
  {
    var q := (x - y) / TWO_64;
    SplitWord(k);
    assert Pow2(64 - k) == 2 * Pow2(63 - k);
    ShiftedParity(x, y, Pow2(k), Pow2(63 - k), q);
  }

  lemma ShiftedParity(x: int, y: int, m: nat, h: nat, q: int)
    requires m > 0 && x - y == 2 * h * m * q
    ensures x / m % 2 == y / m % 2
  {
    var d, r := y / m, y % m;
    assert y == m * d + r;
    assert 2 * h * m * q == m * (2 * h * q);
    assert x == m * (2 * h * q + d) + r;
    DivModUnique(x, m, 2 * h * q + d, r);
    assert 2 * h * q == 2 * (h * q);
    DivModUnique(2 * h * q + d, 2, h * q + d / 2, d % 2);
  }

  /** The bits of an operation on unsigned words, taken as a signed word. */
  lemma WordBits(r: nat, a: int, k: nat)
    requires k < 64
    ensures Bit(Signed(r), k) <==> Bit(r, k)
    ensures Bit(Unsigned(a), k) <==> Bit(a, k)
  {
    hide Signed, Unsigned, Bit;
    SignedIs(r);
    UnsignedIs(a);
    SameBits(Signed(r), r, k);
    SameBits(Unsigned(a), a, k);
  }

  // ---------------------------------------------------------------- each operation, by its opcode

  predicate IsArithmetic(opcode: byte) {
    0x02 <= opcode <= 0x0b || 0x0f <= opcode <= 0x11 || 0x13 <= opcode <= 0x15
  }

  /** A division by zero; the unsigned ones look at the low 64 bits only. */
  predicate DividesByZero(opcode: byte, b: int) {
    || ((opcode == 0x05 || opcode == 0x07) && b == 0)
    || ((opcode == 0x06 || opcode == 0x08) && b % TWO_64 == 0)
  }

  /** What C++ leaves open: shifts out of range, and the one division that overflows. */
  predicate LeftOpen(opcode: byte, a: int, b: int) {
    || (0x09 <= opcode <= 0x0b && !(0 <= b < 64))
    || ((opcode == 0x05 || opcode == 0x07) && b == -1 && a == -TWO_63)
  }

  /** What an arithmetic instruction makes of the second value `a` and the top value `b`. */
  ghost predicate Computes(opcode: byte, a: int, b: int, r: int) {
    match opcode
    case 0x02 => IsSigned(r, a + b)
    case 0x03 => IsSigned(r, a - b)
    case 0x04 => IsSigned(r, a * b)
    case 0x05 => exists rem :: Truncates(a, b, r, rem)
    case 0x06 => UnsignedDivision(a, b, r, true)
    case 0x07 => exists q :: Truncates(a, b, q, r)
    case 0x08 => UnsignedDivision(a, b, r, false)
    case 0x09 => b >= 0 && IsSigned(r, a * Pow2(b))
    case 0x0a => b >= 0 && Floors(a, Pow2(b), r)
    case 0x0b => b >= 0 && forall u :: IsUnsigned(u, a) ==> exists q :: Floors(u, Pow2(b), q) && IsSigned(r, q)
    case 0x0f => -TWO_63 <= r < TWO_63 && forall k: nat :: k < 64 ==> (Bit(r, k) <==> Bit(a, k) && Bit(b, k))
    case 0x10 => -TWO_63 <= r < TWO_63 && forall k: nat :: k < 64 ==> (Bit(r, k) <==> Bit(a, k) || Bit(b, k))
    case 0x11 => -TWO_63 <= r < TWO_63 && forall k: nat :: k < 64 ==> (Bit(r, k) <==> Bit(a, k) != Bit(b, k))
    case 0x13 => r == if a == b then 1 else 0
    case 0x14 => r == if a < b then 1 else 0
    case 0x15 => forall u, v :: IsUnsigned(u, a) && IsUnsigned(v, b) ==> r == if u < v then 1 else 0
    case _ => false
  }

  /** Quotient or remainder of the unsigned words. */
  ghost predicate UnsignedDivision(a: int, b: int, r: int, quotient: bool) {
    forall u, v :: IsUnsigned(u, a) && IsUnsigned(v, b) ==>
      exists q, rem :: Divides(u, v, q, rem) && IsSigned(r, if quotient then q else rem)
  }

  predicate Divides(u: int, v: int, q: int, rem: int) { u == q * v + rem && 0 <= rem < v }

  lemma UnsignedMeans(a: int, b: int)
    requires Unsigned(b) != 0
    ensures UnsignedDivision(a, b, Signed(Unsigned(a) / Unsigned(b)), true)
    ensures UnsignedDivision(a, b, Signed(Unsigned(a) % Unsigned(b)), false)
  {
    hide IsSigned, Signed, Unsigned;
    var x, y := Unsigned(a), Unsigned(b);
    Euclid(x, y);
    assert Divides(x, y, x / y, x % y);
    hide Divides;
    SignedIs(x / y);
    SignedIs(x % y);
    forall u, v | IsUnsigned(u, a) && IsUnsigned(v, b) ensures u == x && v == y {
      UnsignedOnly(u, a);
      UnsignedOnly(v, b);
    }
  }

  lemma RightShiftMeans(a: int, b: nat)
    ensures Computes(0x0b, a, b, Signed(Unsigned(a) / Pow2(b)))
  {
    hide IsSigned, Signed, Unsigned, Pow2, Floors;
    var m := Pow2(b);
    SignedIs(Unsigned(a) / m);
    FloorMeans(Unsigned(a), m);
    forall u | IsUnsigned(u, a) ensures u == Unsigned(a) { UnsignedOnly(u, a); }
  }

  lemma CompareMeans(a: int, b: int)
    ensures Computes(0x15, a, b, Bool(Unsigned(a) < Unsigned(b)))
  {
    hide Unsigned;
    forall u, v | IsUnsigned(u, a) && IsUnsigned(v, b) ensures u == Unsigned(a) && v == Unsigned(b) {
      UnsignedOnly(u, a);
      UnsignedOnly(v, b);
    }
  }

  lemma BitsMean(a: int, b: int)
    ensures Computes(0x0f, a, b, Signed(BitAnd(Unsigned(a), Unsigned(b))))
    ensures Computes(0x10, a, b, Signed(BitOr(Unsigned(a), Unsigned(b))))
    ensures Computes(0x11, a, b, Signed(BitXor(Unsigned(a), Unsigned(b))))
  {
    hide Signed, Unsigned, Bit, BitAnd, BitOr, BitXor;
    var x, y := Unsigned(a), Unsigned(b);
    var i, o, e := BitAnd(x, y), BitOr(x, y), BitXor(x, y);
    SignedIs(i);
    SignedIs(o);
    SignedIs(e);
    forall k: nat | k < 64
      ensures Bit(Signed(i), k) <==> Bit(a, k) && Bit(b, k)
      ensures Bit(Signed(o), k) <==> Bit(a, k) || Bit(b, k)
      ensures Bit(Signed(e), k) <==> Bit(a, k) != Bit(b, k)
    {
      AndBits(x, y, k);
      OrBits(x, y, k);
      XorBits(x, y, k);
      WordBits(i, a, k);
      WordBits(o, b, k);
      WordBits(e, a, k);
    }
  }

  lemma ByZero(b: int)
    ensures Unsigned(b) == 0 <==> b % TWO_64 == 0
  {
  }

  /** The operation of an opcode, on any two values. */
  lemma BinaryMeans(t: Target, opcode: byte, a: int, b: int)
    requires IsArithmetic(opcode)
    ensures ArithOf(opcode).Some?
    ensures var r := Binary(t, ArithOf(opcode).value, a, b);
      && (r.None? <==> DividesByZero(opcode, b))
      && (r.Some? && !LeftOpen(opcode, a, b) ==> Computes(opcode, a, b, r.value))
  {
    hide IsSigned, Signed, Unsigned, Pow2, Floors, Truncates, TruncDiv, TruncRem, UnsignedDivision, Bit, BitAnd, BitOr,
      BitXor;
    SignedIs(a + b);
    SignedIs(a - b);
    SignedIs(a * b);
    ByZero(b);
    match opcode
    case 0x05 => if b != 0 { TruncMeans(a, b); }
    case 0x06 => if Unsigned(b) != 0 { UnsignedMeans(a, b); }
    case 0x07 => if b != 0 { TruncMeans(a, b); }
    case 0x08 => if Unsigned(b) != 0 { UnsignedMeans(a, b); }
    case 0x09 => if 0 <= b < 64 { SignedIs(a * Pow2(b)); }
    case 0x0a => if 0 <= b < 64 { FloorMeans(a, Pow2(b)); }
    case 0x0b => if 0 <= b < 64 { RightShiftMeans(a, b); }
    case 0x0f => BitsMean(a, b);
    case 0x10 => BitsMean(a, b);
    case 0x11 => BitsMean(a, b);
    case 0x15 => CompareMeans(a, b);
    case _ =>
  }
}

/** Sign and zero extension: rr's arithmetic with masks, what the machine does, and what it means. */
module GdbExtension {
  import opened RingArithmetic
  import opened GdbMachine

  /** The low `n` bits by a mask, and the bits above them set if bit `n - 1` is; all in 64-bit arithmetic. */
  function Masked(a: int, n: nat, signed: bool): int
    requires signed ==> n > 0
  {
    var mask := Signed(Signed(Pow2(n)) - 1);
    var low := Signed(BitAnd(Unsigned(a), Unsigned(mask)));
    if !signed then low else
    var signBit := BitAnd(Unsigned(a / Pow2(n - 1)), 1);
    Signed(BitOr(Unsigned(Signed(signBit * (-1 - mask))), Unsigned(low)))
  }

  lemma {:induction false} Pow2Grows(m: nat, n: nat)
    requires m <= n
    ensures Pow2(m) <= Pow2(n)
  {
    if m < n { Pow2Grows(m, n - 1); }
  }

  lemma Pow2Byte(n: nat)
    ensures Pow2(n + 8) == 256 * Pow2(n)
  {
    assert Pow2(n + 2) == 4 * Pow2(n);
    assert Pow2(n + 4) == 16 * Pow2(n);
    assert Pow2(n + 6) == 64 * Pow2(n);
  }

  lemma Pow2Of7()
    ensures Pow2(7) == 128
  {
    assert Pow2(3) == 8;
    assert Pow2(5) == 32;
  }

  lemma Pow2Of63()
    ensures Pow2(63) == TWO_63
  {
    hide Pow2;
    Pow2Of7();
    Pow2Byte(7);
    Pow2Byte(15);
    Pow2Byte(23);
    Pow2Byte(31);
    Pow2Byte(39);
    Pow2Byte(47);
    Pow2Byte(55);
  }

  lemma SignedSmall(x: int)
    requires -TWO_63 <= x < TWO_63
    ensures Signed(x) == x
  {
    DivModUnique(x + TWO_63, TWO_64, 0, x + TWO_63);
  }

  lemma UnsignedSmall(x: nat)
    requires x < TWO_64
    ensures Unsigned(x) == x
  {
    DivModUnique(x, TWO_64, 0, x);
  }

  lemma UnsignedNegative(x: int)
    requires -TWO_64 <= x < 0
    ensures Unsigned(x) == x + TWO_64
  {
    DivModUnique(x, TWO_64, -1, x + TWO_64);
  }

  lemma SignedWraps(x: nat)
    requires TWO_63 <= x < TWO_64
    ensures Signed(x) == x - TWO_64
  {
    DivModUnique(x + TWO_63, TWO_64, 1, x - TWO_63);
  }

  /** A number halves together with a power of two that divides part of it. */
  lemma HalfRemainder(x: nat, m: nat)
    requires m > 0
    ensures x % (2 * m) == 2 * (x / 2 % m) + x % 2
  {
    var q, r := x / 2 / m, x / 2 % m;
    assert x == 2 * (m * q + r) + x % 2;
    assert x == 2 * m * q + (2 * r + x % 2);
    DivModUnique(x, 2 * m, q, 2 * r + x % 2);
  }

  lemma AndOdd(x: nat, m: nat)
    requires x > 0 && m > 0
    ensures BitAnd(x, 2 * m - 1) == x % 2 + 2 * BitAnd(x / 2, m - 1)
  {
    assert (2 * m - 1) / 2 == m - 1 && (2 * m - 1) % 2 == 1;
  }

  lemma {:induction false} AndMask(x: nat, n: nat)
    ensures BitAnd(x, Pow2(n) - 1) == x % Pow2(n)
  {
    if n == 0 {
    } else if x == 0 {
      DivModUnique(0, Pow2(n), 0, 0);
    } else {
      AndMask(x / 2, n - 1);
      HalfRemainder(x, Pow2(n - 1));
      AndOdd(x, Pow2(n - 1));
    }
  }

  /** Bits above `n` and bits below it. */
  lemma {:induction false} OrDisjoint(high: nat, low: nat, n: nat)
    requires low < Pow2(n)
    ensures BitOr(high * Pow2(n), low) == high * Pow2(n) + low
  {
    if n > 0 && high > 0 && low > 0 {
      var h := high * Pow2(n - 1);
      assert high * Pow2(n) == 2 * h;
      OrDisjoint(high, low / 2, n - 1);
      assert 2 * h / 2 == h && 2 * h % 2 == 0;
      assert h > 0;
    }
  }

  lemma {:induction false} SplitWord(n: nat)
    requires n <= 64
    ensures TWO_64 == Pow2(64 - n) * Pow2(n)
  {
    if n == 0 {
      Pow2Of63();
    } else {
      SplitWord(n - 1);
      assert Pow2(64 - (n - 1)) == 2 * Pow2(64 - n);
      assert 2 * Pow2(64 - n) * Pow2(n - 1) == Pow2(64 - n) * (2 * Pow2(n - 1));
    }
  }

  lemma OneLess(x: nat, y: nat)
    requires x > 0
    ensures (x - 1) * y == x * y - y >= 0
  {
    assert x * y == (x - 1) * y + y;
  }

  lemma OrHigh(low: nat, n: nat)
    requires n <= 64 && low < Pow2(n)
    ensures Pow2(n) <= TWO_64 && BitOr(TWO_64 - Pow2(n), low) == TWO_64 - Pow2(n) + low
  {
    hide BitOr, Pow2;
    SplitWord(n);
    OneLess(Pow2(64 - n), Pow2(n));
    OrDisjoint(Pow2(64 - n) - 1, low, n);
  }

  lemma MaskOf(n: nat)
    requires n < 64
    ensures Signed(Signed(Pow2(n)) - 1) == Pow2(n) - 1 && 0 < Pow2(n) <= TWO_63
  {
    Pow2Of63();
    Pow2Grows(n, 63);
    if n < 63 {
      Pow2Grows(n, 62);
      SignedSmall(Pow2(n));
    } else {
      SignedWraps(TWO_63);
      DivModUnique(-TWO_63 - 1 + TWO_63, TWO_64, -1, TWO_64 - 1);
    }
    SignedSmall(Pow2(n) - 1);
  }

  lemma LowBits(a: int, n: nat)
    requires n < 64
    ensures var mask := Signed(Signed(Pow2(n)) - 1);
      0 <= Signed(BitAnd(Unsigned(a), Unsigned(mask))) == Unsigned(a) % Pow2(n) < Pow2(n)
  {
    hide Signed, Unsigned, Pow2, BitAnd;
    MaskOf(n);
    UnsignedSmall(Pow2(n) - 1);
    AndMask(Unsigned(a), n);
    SignedSmall(Unsigned(a) % Pow2(n));
  }

  lemma EvenPart(x: int, q: int, u: nat)
    requires x == TWO_64 * q + u
    ensures x % 2 == u % 2
  {
    DivModUnique(x, 2, TWO_63 * q + u / 2, u % 2);
  }

  lemma LowBit(x: int)
    ensures BitAnd(Unsigned(x), 1) == x % 2
  {
    hide BitAnd;
    EvenPart(x, x / TWO_64, Unsigned(x));
    assert Pow2(1) == 2;
    AndMask(Unsigned(x), 1);
  }

  /** The formula with masks is extension, for all widths for which it is used. */
  lemma MaskedIsExtend(a: int, n: nat, signed: bool)
    requires n < 64 && (signed ==> n > 0)
    ensures Masked(a, n, signed) == Extend(a, n, signed)
  {
    hide Signed, Unsigned, Pow2, BitAnd, BitOr;
    LowBits(a, n);
    if signed {
      MaskOf(n);
      var low := Unsigned(a) % Pow2(n);
      var bit := a / Pow2(n - 1) % 2;
      LowBit(a / Pow2(n - 1));
      UnsignedSmall(low);
      if bit == 1 {
        var m: int := Pow2(n);
        SignedSmall(-m);
        UnsignedNegative(-m);
        OrHigh(low, n);
        SignedWraps(TWO_64 - m + low);
      } else {
        SignedSmall(0);
        UnsignedSmall(0);
        OrZero(low);
        SignedSmall(low);
      }
    }
  }

  lemma OrZero(x: nat)
    ensures BitOr(0, x) == x
  {
  }

  /** `r` is `a` modulo a power of two, in the range of the width. */
  predicate Represents(a: int, n: nat, signed: bool, r: int)
    requires signed ==> n > 0
  {
    && (r - a) % Pow2(n) == 0
    && (if signed then 0 <= r + Pow2(n - 1) < Pow2(n) else 0 <= r < Pow2(n))
  }

  /** `a` with its low `n` bits split off. */
  lemma SplitLow(a: int, n: nat) returns (q: int)
    requires n <= 64
    ensures a == Pow2(n) * q + Unsigned(a) % Pow2(n)
  {
    hide Pow2;
    SplitWord(n);
    var m, h, u := Pow2(n), Pow2(64 - n), Unsigned(a);
    q := h * (a / TWO_64) + u / m;
    Regroup(m, h, a / TWO_64, u / m);
    assert u == m * (u / m) + u % m;
  }

  lemma Regroup(m: int, h: int, w: int, d: int)
    ensures h * m * w + m * d == m * (h * w + d)
  {
  }

  lemma TopBit(a: int, h: int, q: int, low: int)
    requires h > 0 && a == 2 * h * q + low && 0 <= low < 2 * h
    ensures a / h % 2 == 1 <==> low >= h
  {
    if low < h {
      DivModUnique(a, h, 2 * q, low);
    } else {
      DivModUnique(a, h, 2 * q + 1, low - h);
    }
  }

  lemma MultipleOf(m: int, x: int, e: int)
    requires m > 0 && x == m * e
    ensures x % m == 0
  {
    DivModUnique(x, m, e, 0);
  }

  /** Extension keeps the number modulo a power of two and brings it into the range of the width. */
  lemma ExtendMeans(a: int, n: nat, signed: bool)
    requires n < 64 && (signed ==> n > 0)
    ensures Represents(a, n, signed, Extend(a, n, signed))
  {
    hide Unsigned;
    var q := SplitLow(a, n);
    var m, low, r := Pow2(n), Unsigned(a) % Pow2(n), Extend(a, n, signed);
    if signed {
      assert m == 2 * Pow2(n - 1);
      TopBit(a, Pow2(n - 1), q, low);
    }
    if r == low { MultipleOf(m, r - a, -q); } else { MultipleOf(m, r - a, -q - 1); }
  }

  /** There is only one such number. */
  lemma ExtensionUnique(a: int, n: nat, signed: bool, r: int, r': int)
    requires (signed ==> n > 0) && Represents(a, n, signed, r) && Represents(a, n, signed, r')
    ensures r == r'
  {
    var m := Pow2(n);
    var d := (r - a) / m - (r' - a) / m;
    assert r - r' == m * d;
    MulBound(m, d);
  }
}

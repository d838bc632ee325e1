/** Positions in a stream and their places in a ring buffer of fixed size. */
module RingArithmetic {
  lemma MulBound(m: int, d: int)
    requires m > 0
    ensures d >= 1 ==> m * d >= m
    ensures d <= -1 ==> m * d <= -m
  {
  }

  /** Quotient and remainder are determined by the equation they satisfy. */
  lemma DivModUnique(x: int, m: int, q: int, r: int)
    requires m > 0 && x == m * q + r && 0 <= r < m
    ensures x / m == q && x % m == r
  {
    MulBound(m, x / m - q);
    assert m * (x / m - q) == r - x % m;
  }

  /** The place of stream position `p` in a ring of `m` bytes: `p % m`. */
  function Place(p: nat, m: nat): (r: nat)
    requires m > 0
    ensures r < m
  {
    if p < m then p else Place(p - m, m)
  }

  lemma PlaceIsMod(p: nat, m: nat)
    requires m > 0
    ensures Place(p, m) == p % m
  {
    if p < m {
      DivModUnique(p, m, 0, p);
    } else {
      PlaceIsMod(p - m, m);
      DivModUnique(p, m, (p - m) / m + 1, (p - m) % m);
    }
  }

  /** Stepping forward without reaching the end of the ring. */
  lemma PlaceStep(p: nat, j: nat, m: nat)
    requires m > 0 && Place(p, m) + j < m
    ensures Place(p + j, m) == Place(p, m) + j
  {
    PlaceIsMod(p, m);
    PlaceIsMod(p + j, m);
    DivModUnique(p + j, m, p / m, p % m + j);
  }

  /** Two positions less than one ring apart have different places. */
  lemma PlaceDistinct(p: nat, q: nat, m: nat)
    requires m > 0 && p < q < p + m
    ensures Place(p, m) != Place(q, m)
  {
    hide Place;
    PlaceIsMod(p, m);
    PlaceIsMod(q, m);
    Remainders(p, q, m, p / m, q / m);
  }

  /** Numbers with the same remainder are at least one divisor apart. */
  lemma Remainders(p: nat, q: nat, m: nat, x: int, y: int)
    requires m > 0 && p < q < p + m
    ensures p - m * x != q - m * y
  {
    MulBound(m, y - x);
    assert m * (y - x) == m * y - m * x;
  }

  /** A live position before `len` is not at any of the places that follow it. */
  lemma PlaceApart(len: nat, j: int, n: nat, m: nat, p: nat)
    requires m > 0 && Place(len, m) + n <= m && len + n - m <= p < len
    ensures 0 <= j < n ==> Place(p, m) != Place(len, m) + j
  {
    if 0 <= j < n {
      PlaceStep(len, j, m);
      PlaceDistinct(p, len + j, m);
    }
  }

  /** Copying the `n` positions from `len` on lands on their own places and on no other live one. */
  lemma PlaceOfCopy(len: nat, n: nat, m: nat, p: nat)
    requires m > 0 && Place(len, m) + n <= m && len + n - m <= p < len + n
    ensures p >= len ==> Place(p, m) == Place(len, m) + (p - len)
    ensures p < len ==> !(Place(len, m) <= Place(p, m) < Place(len, m) + n)
  {
    if p >= len {
      PlaceStep(len, p - len, m);
    } else {
      PlaceApart(len, Place(p, m) - Place(len, m), n, m, p);
    }
  }
}

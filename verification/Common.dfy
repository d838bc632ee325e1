/** What all parts share. */
module Common {
  type byte = x: int | 0 <= x < 256

  datatype Option<+T> = None | Some(value: T)

  function Min(a: int, b: int): int { if a <= b then a else b }
  function Max(a: int, b: int): int { if a >= b then a else b }

  /** The addresses from `start` up to `end`. */
  datatype Range = Range(start: nat, end: nat) {
    predicate Has(a: nat) { start <= a < end }

    predicate Intersects(o: Range) { Max(start, o.start) < Min(end, o.end) }

    function Size(): int { end - start }
  }
}

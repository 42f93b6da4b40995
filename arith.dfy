/** Facts about Euclidean division that the solver does not find by itself. */
module Arith {

  lemma MulAtLeast(k: int, size: int)
    requires k >= 1 && size > 0
    ensures k * size >= size
  {
  }

  /** Quotient and remainder are determined by `x == q * size + r` with `0 <= r < size`. */
  lemma DivUnique(x: int, size: int, q: int, r: int)
    requires size > 0 && 0 <= r < size && x == q * size + r
    ensures x / size == q && x % size == r
  {
    var q0, r0 := x / size, x % size;
    assert x == q0 * size + r0 && 0 <= r0 < size;
    var d := q - q0;
    assert d * size == q * size - q0 * size;
    assert d * size == r0 - r;
    if d >= 1 {
      MulAtLeast(d, size);
    } else if d <= -1 {
      MulAtLeast(-d, size);
    }
    assert d == 0;
  }

  /** Adding one `size` adds one to the quotient and leaves the remainder. */
  lemma DivShift(y: int, size: int)
    requires size > 0
    ensures (y + size) / size == y / size + 1 && (y + size) % size == y % size
  {
    DivUnique(y + size, size, y / size + 1, y % size);
  }
}

/** Two facts about multiples that the index and counting arguments share. */
module Arithmetic {
  lemma Multiples(n: int, step: int)
    requires 0 <= step
    ensures 1 <= n ==> step <= n * step
    ensures n <= -1 ==> n * step <= -step
  {
  }

  lemma QuotientAtLeast(n: int, step: int, total: int)
    requires 0 < step && n * step <= total
    ensures n <= total / step
  {
    Multiples(total / step - n, step);
    assert (total / step - n) * step == total / step * step - n * step;
    assert total == total / step * step + total % step;
  }
}

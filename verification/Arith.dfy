/** Integer arithmetic facts shared by the other modules. */
module Arith {
  type byte = x: int | 0 <= x < 256

  const U64 := 0x1_0000_0000_0000_0000

  function Min(a: int, b: int): int { if a < b then a else b }

  function Max(a: int, b: int): int { if a < b then b else a }

  lemma MulSign(a: int, m: int)
    requires m > 0
    ensures a >= 1 ==> a * m >= m
    ensures a <= -1 ==> a * m <= -m
    ensures a == 0 ==> a * m == 0
  {
    if a >= 1 {
      assert a * m == (a - 1) * m + m;
      MulNonNegative(a - 1, m);
    } else if a <= -1 {
      assert a * m == -((-a - 1) * m) - m;
      MulNonNegative(-a - 1, m);
    }
  }

  lemma MulNonNegative(a: int, m: int)
    requires a >= 0 && m >= 0
    ensures a * m >= 0
  {
  }

  lemma MulStep(n: int, m: int)
    ensures n * m == (n - 1) * m + m
  {
  }

  lemma MulAssociates(a: int, b: int, c: int)
    ensures a * (b * c) == (a * b) * c
  {
  }

  lemma MulMonotone(a: int, b: int, m: nat)
    requires a <= b
    ensures a * m <= b * m
  {
    MulNonNegative(b - a, m);
    assert (b - a) * m == b * m - a * m;
  }

  lemma MulAdds(a: nat, b: nat, m: nat)
    ensures (a + b) * m == a * m + b * m && a * m >= 0 && b * m >= 0
  {
    MulNonNegative(a, m);
    MulNonNegative(b, m);
  }

  lemma MulOrder(i: int, j: int, m: int)
    requires m > 0
    ensures i * m < j * m <==> i < j
    ensures i * m == j * m <==> i == j
  {
    assert (j - i) * m == j * m - i * m;
    MulSign(j - i, m);
  }

  /** Quotient and remainder are determined by the division identity. */
  lemma DivModUnique(x: int, m: int, q: int, r: int)
    requires m > 0 && 0 <= r < m && x == q * m + r
    ensures x / m == q && x % m == r
  {
    DivModIdentity(x, m);
    assert (q - x / m) * m == q * m - (x / m) * m;
    MulSign(q - x / m, m);
  }

  lemma DivModIdentity(x: int, m: int)
    requires m > 0
    ensures x == (x / m) * m + x % m && 0 <= x % m < m
  {
  }
}

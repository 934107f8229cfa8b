/** Integer helpers shared by the list endpoints and the contact endpoint. */
module Numbers {

  function Min(a: int, b: int): int { if a <= b then a else b }

  function Max(a: int, b: int): int { if a >= b then a else b }

  /** `Math.ceil(n / d)` for a non-negative numerator and a positive divisor:
      the least number of blocks of size `d` that hold `n` items. */
  function CeilDiv(n: nat, d: nat): (q: nat)
    requires d >= 1
    ensures n <= q * d
    ensures n > 0 ==> (q - 1) * d < n
    ensures n == 0 <==> q == 0
  {
    var q := (n + d - 1) / d;
    assert n + d - 1 == q * d + (n + d - 1) % d;
    q
  }

  /** The ceiling is the unique block count with the two bounds above. */
  lemma CeilDivUnique(n: nat, d: nat, q: nat)
    requires d >= 1 && n > 0
    requires n <= q * d && (q - 1) * d < n
    ensures q == CeilDiv(n, d)
  {
    var c := CeilDiv(n, d);
    MulCancelStrict(c - 1, q, d);
    MulCancelStrict(q - 1, c, d);
  }

  /** Cancelling a positive factor keeps a strict inequality. */
  lemma MulCancelStrict(a: int, b: int, d: int)
    requires d > 0 && a * d < b * d
    ensures a < b
  {
    assert (b - a) * d == b * d - a * d;
  }

  /** Multiplying by a non-negative factor keeps a weak inequality. */
  lemma MulMono(a: int, b: int, d: int)
    requires a <= b && d >= 0
    ensures a * d <= b * d
  {
    assert b * d - a * d == (b - a) * d;
  }
}

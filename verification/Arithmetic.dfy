/** Multiplication and division facts that the proofs need. */
module Arithmetic {

  lemma MulMono(x: int, y: int, b: int)
    requires x <= y && 0 <= b
    ensures x * b <= y * b
  {
  }

  lemma OneMore(x: int, b: int)
    ensures (x + 1) * b == x * b + b
  {
  }

  lemma Commutes(x: int, y: int)
    ensures x * y == y * x
  {
  }

  lemma MultipleIsFar(m: int, d: int)
    requires m > 0
    ensures d >= 1 ==> m * d >= m
    ensures d <= -1 ==> m * d <= -m
  {
  }

  lemma DivModUnique(x: int, m: int, q: int, r: int)
    requires m > 0 && x == m * q + r && 0 <= r < m
    ensures x / m == q && x % m == r
  {
    MultipleIsFar(m, x / m - q);
    assert m * (x / m - q) == r - x % m;
  }

  lemma DivModStep(n: nat, m: nat)
    requires m > 0
    ensures if n % m + 1 == m then (n + 1) / m == n / m + 1 && (n + 1) % m == 0
            else (n + 1) / m == n / m && (n + 1) % m == n % m + 1
  {
    var q, r := n / m, n % m;
    if r + 1 == m {
      DivModUnique(n + 1, m, q + 1, 0);
    } else {
      DivModUnique(n + 1, m, q, r + 1);
    }
  }
}

/** Small integer functions and facts about division. */
module Arithmetic {

  function Max(a: int, b: int): int {
    if a < b then b else a
  }

  function Pow256(w: nat): nat {
    if w == 0 then 1 else 256 * Pow256(w - 1)
  }

  lemma DivIs(n: int, d: int, k: int)
    requires d > 0 && k * d <= n < k * d + d
    ensures n / d == k
  {
    var q := n / d;
    assert n == q * d + n % d;
    MulSign(q - k, d);
    assert (q - k) * d == q * d - k * d;
  }

  lemma MulSign(x: int, d: int)
    requires d > 0
    ensures x >= 1 ==> x * d >= d
    ensures x <= -1 ==> x * d <= -d
  {
  }

  lemma SameRemainder(q: int, a: int, d: int)
    requires d > 0
    ensures (q * d + a) % d == a % d
  {
    assert a == (a / d) * d + a % d;
    assert (q + a / d) * d == q * d + (a / d) * d;
    DivIs(q * d + a, d, q + a / d);
    assert q * d + a == ((q * d + a) / d) * d + (q * d + a) % d;
  }

  lemma DivideTwice(n: nat, p: nat)
    requires p > 0
    ensures n / 256 / p == n / (256 * p)
  {
    var q := n / 256 / p;
    assert n / 256 == q * p + n / 256 % p;
    assert 256 * (q * p) == q * (256 * p);
    DivIs(n, 256 * p, q);
  }

  lemma {:induction false} Pow256Positive(w: nat)
    ensures Pow256(w) > 0
  {
    if w > 0 {
      Pow256Positive(w - 1);
    }
  }

  /** The base-256 digit of `n` with weight 256^k. */
  function Digit(n: nat, k: nat): nat {
    Pow256Positive(k);
    n / Pow256(k) % 256
  }
}

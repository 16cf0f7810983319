/** Bytes, optional values, and the facts about products, quotients and remainders that the frame layouts rest on. */
module Basics {

  type Byte = x: int | 0 <= x < 256

  datatype Option<+T> = None | Some(value: T)

  lemma MulMono(a: nat, b: nat, k: nat)
    requires a <= b
    ensures a * k <= b * k
  {
  }

  lemma DivMod(n: int, d: int)
    requires d > 0
    ensures n == n / d * d + n % d && 0 <= n % d < d
  {
  }

  lemma MulSign(e: int, d: int)
    requires d > 0
    ensures e >= 1 ==> e * d >= d
    ensures e <= -1 ==> e * d <= -d
  {
  }

  /** A quotient and a remainder are unique. */
  lemma DivModUnique(n: int, d: int, q: int, r: int)
    requires d > 0 && n == q * d + r && 0 <= r < d
    ensures n / d == q && n % d == r
  {
    DivMod(n, d);
    assert (n / d - q) * d == r - n % d;
    MulSign(n / d - q, d);
  }

  lemma MulMonoLeft(k: nat, a: int, b: int)
    requires a <= b
    ensures k * a <= k * b
  {
  }

  lemma Factor4(k: int, a: int, b: int, c: int, d: int)
    ensures k * a + k * b + k * c + k * d == k * (a + b + c + d)
  {
  }

  /** A quotient compares with `q` as the dividend compares with `q * d`. */
  lemma DivAtLeast(n: int, d: int, q: int)
    requires d > 0
    ensures n / d >= q <==> n >= q * d
  {
    DivMod(n, d);
    assert (n / d - q) * d == n / d * d - q * d;
    MulSign(n / d - q, d);
  }
}

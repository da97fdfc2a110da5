/** Facts about natural-number division and powers shared by the arithmetic modules. */
module Arith {
  function Pow(b: nat, n: nat): nat { if n == 0 then 1 else b * Pow(b, n - 1) }

  lemma MulMonotone(a: int, b: int, c: int)
    requires a <= b && 0 <= c
    ensures a * c <= b * c
  {
  }

  /** Quotient and remainder are determined by the division identity. */
  lemma DivModUnique(x: int, n: int, q: int, r: int)
    requires 0 < n && 0 <= r < n && x == n * q + r
    ensures x / n == q && x % n == r
  {
    var q', r' := x / n, x % n;
    assert x == n * q' + r' && 0 <= r' < n;
    assert n * (q - q') == r' - r;
    if q > q' { MulMonotone(1, q - q', n); }
    if q < q' { MulMonotone(1, q' - q, n); }
  }

  /** Adding a multiple of the modulus does not change the remainder. */
  lemma ModOfSum(x: int, n: int, k: int)
    requires 0 < n
    ensures (x + n * k) % n == x % n
  {
    DivModUnique(x + n * k, n, x / n + k, x % n);
  }

  /** Congruence is kept by multiplication and addition. */
  lemma ModMul(x: int, y: int, n: int)
    requires 0 < n
    ensures ((x % n) * y) % n == (x * y) % n
  {
    var q := x / n;
    assert x * y == (x % n) * y + n * (q * y);
    ModOfSum((x % n) * y, n, q * y);
  }

  lemma ModAdd(x: int, y: int, n: int)
    requires 0 < n
    ensures (x % n + y) % n == (x + y) % n
  {
    ModOfSum(x % n + y, n, x / n);
  }

  /** Shifting left by m in a word of m * k values keeps the low digits. */
  lemma ShiftLeft(w: nat, m: nat, k: nat)
    requires 0 < m && 0 < k
    ensures (w * m) % (m * k) == m * (w % k)
    ensures (m * (w % k)) % m == 0
  {
    var q, r := w / k, w % k;
    assert w * m == (m * k) * q + m * r;
    MulMonotone(0, r, m);
    MulMonotone(r, k - 1, m);
    DivModUnique(w * m, m * k, q, m * r);
    DivModUnique(m * r, m, r, 0);
  }

  lemma DivDiv(w: nat, a: nat, b: nat)
    requires 0 < a && 0 < b
    ensures w / a / b == w / (a * b)
  {
    var q, r := w / a, w % a;
    var q', r' := q / b, q % b;
    assert w == (a * b) * q' + (a * r' + r);
    MulMonotone(r', b - 1, a);
    DivModUnique(w, a * b, q', a * r' + r);
  }
}

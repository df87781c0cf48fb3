/** Products and quotients of integers: the facts about multiplication and division the other
    modules need, each proved once. */
module Arithmetic {

  lemma MulMono(a: int, b: int, m: int)
    requires a <= b && 0 <= m
    ensures a * m <= b * m
  {
  }

  lemma MulSucc(n: int, d: int)
    ensures (n + 1) * d == n * d + d
  {
  }

  lemma DivUnique(n: int, d: int, q: int, r: int)
    requires d > 0 && n == q * d + r && 0 <= r < d
    ensures n / d == q
  {
    var p := n / d;
    assert n == p * d + n % d;
    MulSucc(p, d);
    MulSucc(q, d);
    if p < q { MulMono(p + 1, q, d); }
    if q < p { MulMono(q + 1, p, d); }
  }

  lemma DivAtMost(a: int, y: int, k: int)
    requires y > 0 && a < (k + 1) * y
    ensures a / y <= k
  {
    var q := a / y;
    assert a == q * y + a % y;
    if q > k { MulMono(k + 1, q, y); }
  }

  // x * x / y when y is at least x, or at least twice x.
  lemma SquareOver(x: int, y: int)
    requires x > 0 && y >= x
    ensures 0 <= x * x / y <= x
  {
    MulMono(x, y, x + 1);
    DivAtMost(x * x, y, x);
  }

  lemma SquareOverDouble(x: int, y: int)
    requires x > 0 && y >= 2 * x
    ensures x * x / y <= x / 2
  {
    var h := x / 2;
    MulMono(2 * x, y, h + 1);
    MulMono(x - 1, 2 * h, x);
    assert (h + 1) * (2 * x) == (2 * h) * x + 2 * x;
    assert (x - 1) * x == x * x - x;
    DivAtMost(x * x, y, h);
  }

  // Rounding up: the least multiple of m not below i.
  lemma CeilMul(i: int, m: int, c: int)
    requires m > 0 && c == (i + m - 1) / m
    ensures 0 <= c * m - i < m
  {
    assert i + m - 1 == c * m + (i + m - 1) % m;
  }

  lemma CeilAtMost(i: int, m: int, k: int)
    requires m > 0 && i <= k * m
    ensures (i + m - 1) / m <= k
  {
    var c := (i + m - 1) / m;
    CeilMul(i, m, c);
    if c > k { MulMono(k + 1, c, m); }
  }

  lemma CeilAtLeast(i: int, m: int, k: int)
    requires m > 0 && k * m <= i
    ensures k <= (i + m - 1) / m
  {
    var c := (i + m - 1) / m;
    CeilMul(i, m, c);
    if c < k { MulMono(c + 1, k, m); }
  }

  function Ceil(i: int, m: int): int
    requires m > 0
  {
    (i + m - 1) / m
  }

  lemma CeilStep(n: int, d: int)
    requires d > 0
    ensures (n + d - 1) / d == (n - d + d - 1) / d + 1
  {
    var q, r := (n - 1) / d, (n - 1) % d;
    assert n - 1 == q * d + r;
    assert (n + d - 1) == (q + 1) * d + r;
    DivUnique(n + d - 1, d, q + 1, r);
  }

  lemma CeilOne(n: int, d: int)
    requires 0 < n <= d
    ensures (n + d - 1) / d == 1
  {
    DivUnique(n + d - 1, d, 1, n - 1);
  }
}

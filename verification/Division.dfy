/** Remainders of products, by which the filters cut hashes into fields. */
module Division {

  /** The low digit of a number in base n and the next digits modulo p make the number modulo n * p. */
  lemma SplitModulus(h: nat, n: nat, p: nat)
    requires n > 0 && p > 0
    ensures n * p > 0 && h % n + n * ((h / n) % p) == h % (n * p)
  {
    var q, w := h / n, h / n / p;
    var low := h % n + n * (q % p);
    assert q == p * w + q % p;
    assert h == n * q + h % n;
    assert n * q == n * p * w + n * (q % p) by { Distribute(n, p * w, q % p); assert n * (p * w) == n * p * w; }
    assert low < n * p by {
      assert n * (q % p) <= n * (p - 1) by { Scale(n, q % p, p - 1); }
      Distribute(n, p - 1, 1);
    }
    Remainder(h, n * p, w, low);
  }

  lemma Whole(h: nat, n: nat) returns (times: nat)
    requires n > 0
    ensures h == n * times + h % n && 0 <= h % n < n
  {
    times := h / n;
  }

  lemma Distribute(n: int, a: int, b: int)
    ensures n * (a + b) == n * a + n * b
  {
  }

  lemma Scale(n: nat, a: int, b: int)
    requires a <= b
    ensures n * a <= n * b
  {
  }

  lemma SmallMultiple(m: int, d: int)
    requires m > 0 && -m < m * d < m
    ensures d == 0
  {
    if d >= 1 { Scale(m, 1, d); } else if d <= -1 { Scale(m, d, -1); }
  }

  lemma Remainder(h: int, m: int, w: int, low: int)
    requires m > 0 && h == m * w + low && 0 <= low < m
    ensures h % m == low
  {
    var q, r := h / m, h % m;
    assert h == m * q + r && 0 <= r < m;
    Distribute(m, q - w, w);
    SmallMultiple(m, q - w);
  }
}

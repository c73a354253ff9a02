/** Facts about integer division that the solver does not find on its own. */
module Arith {

  lemma DivSign(x: int, p: int)
    requires x >= 0 && p > 0
    ensures x / p >= 0
  {}

  lemma DivUnique(x: int, p: int, q: int, m: int)
    requires p > 0 && x == p * q + m && 0 <= m < p
    ensures x / p == q && x % p == m
  {
    var q', m' := x / p, x % p;
    assert p * (q - q') == m' - m by { assert x == p * q' + m'; assert p * (q - q') == p * q - p * q'; }
    assert q - q' >= 1 ==> p * (q - q') >= p;
    assert q - q' <= -1 ==> p * (q - q') <= -p;
  }

  lemma DivShift(x: int, p: int)
    requires p > 0
    ensures (x - p) / p == x / p - 1
    ensures (x - p) % p == x % p
  {
    var q, m := x / p, x % p;
    assert x - p == p * (q - 1) + m by { assert x == p * q + m; assert p * (q - 1) == p * q - p; }
    DivUnique(x - p, p, q - 1, m);
  }

  lemma MulMono(a: int, b: int, x: nat)
    requires a <= b
    ensures a * x <= b * x
  {}

  lemma DivLower(n: nat, m: int, x: nat)
    requires m >= 1 && n * m <= x
    ensures n <= x / m
  {
    var q := x / m;
    assert x < m * q + m by { assert x == m * q + x % m; }
    assert n >= q + 1 ==> n * m >= (q + 1) * m;
    assert (q + 1) * m == m * q + m;
  }

  lemma DivAntitone(x: nat, a: int, b: int)
    requires 0 < b <= a
    ensures x / a <= x / b
  {
    var q := x / a;
    DivSign(x, a);
    assert q * b <= q * a by { assert q * (a - b) >= 0; }
    assert q * a <= x by { assert x == a * q + x % a; }
    DivLower(q, b, x);
  }
}

/** Facts about products and quotients that the proofs of the components call by name. */
module Arithmetic {

  lemma MulAtLeast(a: int, b: int, c: int)
    requires a >= b && c >= 0
    ensures a * c >= b * c && c * a >= c * b
  {
    assert a * c == b * c + (a - b) * c;
  }

  lemma Cancel(m: nat, a: int, b: int)
    requires m * a > m * b
    ensures a > b
  {
    assert m * (a - b) > 0;
  }

  lemma Reassociate(a: nat, b: nat, c: nat)
    ensures a * (b * c) == a * b * c
  {
  }

  lemma ZeroProduct(a: nat, b: nat)
    requires b >= 1
    ensures a * b >= 0 && (a * b == 0 <==> a == 0)
  {
    MulAtLeast(b, 1, a);
  }

  lemma FloorDiv(x: nat, n: nat)
    requires n >= 1
    ensures x - (n - 1) <= n * (x / n) <= x
  {
  }

  lemma DivAtLeast(x: nat, m: nat, k: nat)
    requires m >= 1 && x >= k * m
    ensures x / m >= k
  {
    var q := x / m;
    FloorDiv(x, m);
    assert m * (q + 1) == m * q + m;
    assert m * k == k * m;
    Cancel(m, q + 1, k);
  }

  lemma ExactQuotient(k: nat, n: nat)
    requires n >= 1
    ensures (k * n) / n == k
  {
    var q := (k * n) / n;
    FloorDiv(k * n, n);
    assert n * k == k * n;
    assert n * (q + 1) == n * q + n;
    Cancel(n, q + 1, k);
    assert n * (k + 1) == n * k + n;
    Cancel(n, k + 1, q);
  }

  lemma AtMostQuotient(x: real, y: real, z: real)
    requires y > 0.0 && z * y <= x
    ensures z <= x / y
  {
  }

  lemma AtLeastQuotient(x: real, y: real, z: real)
    requires y > 0.0 && x <= z * y
    ensures x / y <= z
  {
    assert (z - x / y) * y >= 0.0;
  }

  lemma RealProduct(a: nat, b: nat)
    ensures (a * b) as real == a as real * b as real
  {
  }

  lemma Distribute(a: real, b: real, c: real)
    ensures (a + b) * c == a * c + b * c
  {
  }
}

/** Arithmetic modulo any positive number. */
module Modular {

  lemma SameModIff(a: int, b: int, m: nat)
    requires m > 0
    ensures (a + b) % m == a % m <==> b % m == 0
  {
    if b % m == 0 {
      ModShift(a, b / m, m);
    }
    if (a + b) % m == a % m {
      MulDistribute(m, (a + b) / m, a / m);
      ModUnique(b, (a + b) / m - a / m, 0, m);
    }
  }

  lemma ModTwice(a: int, b: int, m: nat)
    requires m > 0
    ensures (a % m + b) % m == (a + b) % m
  {
    var q := a / m;
    assert a == m * q + a % m;
    ModShift(a % m + b, q, m);
  }

  lemma ModShift(a: int, q: int, m: nat)
    requires m > 0
    ensures (m * q + a) % m == a % m
  {
    var k, r := a / m, a % m;
    assert a == m * k + r;
    assert m * q + a == m * (q + k) + r;
    ModUnique(m * q + a, q + k, r, m);
  }

  lemma ModUnique(a: int, q: int, r: int, m: nat)
    requires m > 0 && a == m * q + r && 0 <= r < m
    ensures a % m == r
  {
    var q' := a / m;
    assert a == m * q' + a % m;
    MulDistribute(m, q', q);
    NoSmallMultiple(m, q' - q, r - a % m);
  }

  lemma ModSmall(a: nat, m: nat)
    requires a < m
    ensures a % m == a
  {
    ModUnique(a, 0, a, m);
  }

  lemma MulDistribute(m: int, a: int, b: int)
    ensures m * (a - b) == m * a - m * b
  {
  }

  lemma NoSmallMultiple(m: int, k: int, d: int)
    requires m >= 0 && m * k == d && -m < d < m
    ensures d == 0
  {
    AtLeastOnce(m, k);
    AtLeastOnce(m, -k);
  }

  lemma AtLeastOnce(m: int, k: int)
    requires m >= 0
    ensures k >= 1 ==> m * k >= m
  {
  }
}

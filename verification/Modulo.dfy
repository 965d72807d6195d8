/** Remainders by a divisor that is not a constant. */
module Modulo {

  lemma ModUnique(k: int, n: int, q: int, r: int)
    requires 0 <= r < n && k == n * q + r
    ensures k % n == r
  {
    var d := k / n - q;
    assert k % n - r == 0 - n * d;
    assert d > 0 ==> n <= n * d;
    assert d < 0 ==> n * d <= 0 - n;
  }

  /** The n numbers from i on have different remainders. */
  lemma ModDistinct(i: nat, k: nat, n: nat)
    requires 0 < n && i < k < i + n
    ensures i % n != k % n
  {
    var q, r, d := i / n, i % n, k - i;
    assert k == n * q + r + d;
    if r + d < n {
      ModUnique(k, n, q, r + d);
    } else {
      assert n * (q + 1) == n * q + n;
      ModUnique(k, n, q + 1, r + d - n);
    }
  }

  lemma ModNext(k: nat, n: nat)
    requires 0 < n
    ensures (k % n + 1) % n == (k + 1) % n
  {
    var q, r := k / n, k % n;
    assert k == n * q + r;
    if r + 1 < n {
      ModUnique(k + 1, n, q, r + 1);
      ModUnique(r + 1, n, 0, r + 1);
    } else {
      assert k + 1 == n * (q + 1);
      ModUnique(k + 1, n, q + 1, 0);
      ModUnique(n, n, 1, 0);
    }
  }

  lemma ModPeriod(k: nat, n: nat)
    requires 0 < n
    ensures (k + n) % n == k % n
  {
    var q, r := k / n, k % n;
    assert k + n == n * (q + 1) + r;
    ModUnique(k + n, n, q + 1, r);
  }
}

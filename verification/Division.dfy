/** Quotient and remainder of a division by a positive number. */
module Division {
  lemma ModSplit(a: int, n: nat)
    requires n > 0
    ensures a == a / n * n + a % n && 0 <= a % n < n
  {
  }

  lemma ModUnique(a: int, q: int, r: int, n: nat)
    requires n > 0 && 0 <= r < n && a == q * n + r
    ensures a % n == r
  {
    ModSplit(a, n);
    var k := a / n - q;
    assert k * n == r - a % n by {
      assert (a / n - q) * n == a / n * n - q * n;
    }
    Times(k, n);
  }

  lemma Times(k: int, n: nat)
    ensures (k >= 1 ==> k * n >= n) && (k <= 0 ==> k * n <= 0) && (k <= -1 ==> k * n <= -(n as int))
  {
  }
}

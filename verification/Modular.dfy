/** Division and remainder by a positive number, from the uniqueness of quotient and remainder. */
module Modular {

  /** The number of values of a 32-bit word. */
  const WORD := 0x1_0000_0000

  lemma Multiple(d: int, n: int)
    requires n > 0
    ensures d >= 1 ==> d * n >= n
    ensures d <= -1 ==> d * n <= -n
  {
    if d >= 1 {
      assert (d - 1) * n >= 0;
    } else if d <= -1 {
      assert (-1 - d) * n >= 0;
    }
  }

  lemma Unique(x: int, n: int, q: int, r: int)
    requires n > 0 && 0 <= r < n && x == q * n + r
    ensures x / n == q && x % n == r
  {
    var d := x / n - q;
    assert x == (x / n) * n + x % n;
    assert d * n == (x / n) * n - q * n;
    Multiple(d, n);
  }

  /** (k mod n) + 1 mod n is (k + 1) mod n. */
  lemma NextSlot(k: nat, n: nat)
    requires n > 0
    ensures (k % n + 1) % n == (k + 1) % n
  {
    var q, r := k / n, k % n;
    assert k == q * n + r;
    if r + 1 < n {
      Unique(k + 1, n, q, r + 1);
      Unique(r + 1, n, 0, r + 1);
    } else {
      assert (q + 1) * n + 0 == k + 1;
      Unique(k + 1, n, q + 1, 0);
      Unique(r + 1, n, 1, 0);
    }
  }

  /** Two numbers less than `n` apart have different remainders. */
  lemma SlotsDiffer(j: nat, k: nat, n: nat)
    requires n > 0 && j < k < j + n
    ensures j % n != k % n
  {
    var d := k / n - j / n;
    assert k - j == (k / n) * n - (j / n) * n + (k % n - j % n);
    assert d * n == (k / n) * n - (j / n) * n;
    Multiple(d, n);
  }
}

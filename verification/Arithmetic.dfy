/** Products and quotients, kept away from the solver's nonlinear arithmetic. */
module Arithmetic {
  lemma ProductMonotone(n: nat, q: nat, d: nat)
    requires n <= q
    ensures n * d <= q * d
  {
    assert q * d == n * d + (q - n) * d;
  }

  /** `words` words of four bytes behind the address of a flash word. */
  lemma WordAligned(base: nat, words: nat)
    requires base % 32 == 0
    ensures (base + 4 * words) % 4 == 0 && (base + 4 * words - base) / 4 == words
  {
  }

  lemma QuotientBelow(i: nat, n: nat, d: nat)
    requires 0 < d && i < n * d
    ensures i / d < n
  {
    var q := i / d;
    assert i == d * q + i % d;
    if n <= q {
      ProductMonotone(n, q, d);
    }
  }

  /** A multiple of `n` that lies strictly between 0 and `2 * n` is `n`. */
  lemma Multiples(n: nat, k: int)
    ensures k >= 2 ==> n * k >= 2 * n
    ensures k <= -1 ==> n * k <= 0 - n
  {
    if k >= 2 {
      assert n * k == n * (k - 2) + 2 * n;
    } else if k <= -1 {
      assert n * k == n * (k + 1) - n;
    }
  }

  /** One more moves to the next of `n` places, or back to the first. */
  lemma NextTurn(i: nat, n: nat)
    requires 1 <= n
    ensures if i % n + 1 < n then (i + 1) % n == i % n + 1 && (i + 1) / n == i / n
            else i % n + 1 == n && (i + 1) % n == 0 && (i + 1) / n == i / n + 1
  {
    var q, r := i / n, i % n;
    var t, u := (i + 1) / n, (i + 1) % n;
    assert n * (t - q) == r + 1 - u;
    Multiples(n, t - q);
  }

  lemma OneMore(t: nat, size: nat)
    requires 0 < size
    ensures (t + size) / size == t / size + 1
  {
    var k := (t + size) / size - t / size;
    assert size * k == size + t % size - (t + size) % size;
    Multiples(size, k);
  }
}

/** Slots of a ring: positions count up without bound and are reduced modulo the ring's size. */
module RingIndex {

  lemma MulAtLeast(k: int, n: nat)
    requires k >= 1
    ensures k * n >= n
  {
    assert k * n == (k - 1) * n + n;
  }

  lemma Distribute(q: int, p: int, n: int)
    ensures (q - p) * n == q * n - p * n
  {
  }

  lemma DivMod(x: int, n: nat)
    requires n > 0
    ensures x == x / n * n + x % n && 0 <= x % n < n
  {
  }

  /** Division with remainder is unique. */
  lemma ModUnique(x: int, q: int, r: int, n: nat)
    requires 0 <= r < n && x == q * n + r
    ensures x % n == r
  {
    DivMod(x, n);
    Squeeze(q, x / n, r, x % n, n);
  }

  lemma Squeeze(q: int, p: int, r: int, s: int, n: nat)
    requires 0 <= r < n && 0 <= s < n && q * n + r == p * n + s
    ensures r == s
  {
    Distribute(q, p, n); Distribute(p, q, n);
    if q > p { MulAtLeast(q - p, n); }
    if q < p { MulAtLeast(p - q, n); }
  }

  /** Reducing first does not matter. */
  lemma ModShift(a: nat, k: nat, n: nat)
    requires n > 0
    ensures (a % n + k) % n == (a + k) % n
  {
    var b := a % n + k;
    DivMod(a, n);
    DivMod(b, n);
    Distribute(a / n, -(b / n), n);
    ModUnique(a + k, a / n + b / n, b % n, n);
  }

  /** Two positions less than one turn apart lie in different slots. */
  lemma ModDistinct(i: nat, j: nat, n: nat)
    requires n > 0 && i < j < i + n
    ensures i % n != j % n
  {
    var q, r, d := i / n, i % n, j - i;
    DivMod(i, n);
    if r + d < n {
      ModUnique(j, q, r + d, n);
    } else {
      Distribute(q, -1, n);
      ModUnique(j, q + 1, r + d - n, n);
    }
  }

  /** `if (++x >= n) x = 0`. */
  function Bump(x: nat, n: nat): (r: nat)
    requires x < n
    ensures r < n
  {
    if x + 1 >= n then 0 else x + 1
  }

  lemma BumpIsNext(a: nat, n: nat)
    requires n > 0
    ensures Bump(a % n, n) == (a + 1) % n
  {
    ModShift(a, 1, n);
    if a % n + 1 < n {
      ModUnique(a % n + 1, 0, a % n + 1, n);
    } else {
      ModUnique(a % n + 1, 1, 0, n);
    }
  }

  /** Indices agree exactly when the positions behind them do. */
  lemma SameSlot(a: nat, b: nat, n: nat)
    requires n > 0 && a <= b < a + n
    ensures a % n == b % n <==> a == b
  {
    if a < b { ModDistinct(a, b, n); }
  }

  lemma FullTurn(a: nat, n: nat)
    requires n > 0
    ensures (a + n) % n == a % n
  {
    DivMod(a, n);
    Distribute(a / n, -1, n);
    ModUnique(a + n, a / n + 1, a % n, n);
  }
}

/** Remainder facts used by the turn rotation `(i + 1) % n`, and the index a random draw picks. */
module Modular {

  /** `a * n >= n` for positive `a` and `n`. */
  lemma MulPos(a: int, n: int)
    requires a >= 1 && n > 0
    ensures a * n >= n
  {
    assert a * n == (a - 1) * n + n;
    assert (a - 1) * n >= 0;
  }

  /** The remainder is determined by any quotient-remainder decomposition. */
  lemma ModUnique(x: int, q: int, r: int, n: int)
    requires n > 0 && 0 <= r < n && x == q * n + r
    ensures x % n == r
  {
    var q', r' := x / n, x % n;
    assert x == q' * n + r';
    assert (q - q') * n == q * n - q' * n;
    if q > q' {
      MulPos(q - q', n);
    } else if q < q' {
      MulPos(q' - q, n);
    }
  }

  /** Adding `n` does not change the remainder. */
  lemma ModAddN(y: nat, n: nat)
    requires n > 0
    ensures (y + n) % n == y % n
  {
    assert y == (y / n) * n + y % n;
    assert (y / n + 1) * n == (y / n) * n + n;
    ModUnique(y + n, y / n + 1, y % n, n);
  }

  /** One step round the circle, then `k` more, is `k + 1` steps. */
  lemma ModSum(i: nat, k: nat, n: nat)
    requires i < n
    ensures ((i + 1) % n + k) % n == (i + 1 + k) % n
  {
    if i + 1 < n {
      ModUnique(i + 1, 0, i + 1, n);
    } else {
      ModUnique(i + 1, 1, 0, n);
      ModAddN(k, n);
    }
  }

  /** A full turn round the circle lands where it started. */
  lemma ModFullTurn(i: nat, n: nat)
    requires i < n
    ensures (i + n) % n == i
  {
    ModUnique(i + n, 1, i, n);
  }

  /** `Math.floor(random * n)` for a draw `0 <= random < 1`. */
  function PickIndex(random: real, n: nat): (i: nat)
    requires 0.0 <= random < 1.0 && n > 0
    ensures i < n
  {
    var x := random * (n as real);
    assert 0.0 <= x < n as real;
    x.Floor
  }
}

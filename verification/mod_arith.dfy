/** Facts about `%` with a positive divisor that the solver does not find
    on its own. */
module ModArith {

  lemma MulAtLeast(d: int, n: int)
    requires d >= 1 && n > 0
    ensures d * n >= n
  {
  }

  lemma Distribute(a: int, b: int, n: int)
    ensures a * n - b * n == (a - b) * n
  {
  }

  /** The remainder is the unique `r` in [0, n) with `x == q * n + r`. */
  lemma ModUnique(x: int, n: int, q: int, r: int)
    requires n > 0 && 0 <= r < n && x == q * n + r
    ensures x % n == r
  {
    var q' := x / n;
    var r' := x % n;
    assert x == q' * n + r';
    Distribute(q, q', n);
    if q > q' {
      MulAtLeast(q - q', n);
    } else if q < q' {
      Distribute(q', q, n);
      MulAtLeast(q' - q, n);
    }
  }

  /** Adding the divisor does not change the remainder. */
  lemma ShiftMod(x: int, n: int)
    requires n > 0
    ensures (x + n) % n == x % n
  {
    var q := x / n;
    var r := x % n;
    assert x == q * n + r;
    Distribute(q + 1, q, n);
    ModUnique(x + n, n, q + 1, r);
  }

  /** Counting up by one modulo `n` wraps from `n - 1` to 0. */
  lemma ModSuccessor(a: nat, n: nat)
    requires n > 0
    ensures (a + 1) % n == if a % n == n - 1 then 0 else a % n + 1
  {
    var q := a / n;
    var r := a % n;
    assert a == q * n + r;
    if r == n - 1 {
      ModUnique(a + 1, n, q + 1, 0);
    } else {
      ModUnique(a + 1, n, q, r + 1);
    }
  }
}

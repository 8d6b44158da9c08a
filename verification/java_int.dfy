/** The two pieces of Java `int` arithmetic the cursor depends on, written
    with linear arithmetic only. */
module JavaInt {
  import ModArith

  const MinInt: int := -0x8000_0000
  const MaxInt: int := 0x7FFF_FFFF
  const Modulus: int := 0x1_0000_0000

  predicate IsInt(x: int) {
    MinInt <= x <= MaxInt
  }

  /** `a + b` on Java `int` values: the exact sum, wrapped around by 2^32
      when it leaves the `int` range. */
  function Add(a: int, b: int): (r: int)
    requires IsInt(a) && IsInt(b)
    ensures IsInt(r)
    ensures r == a + b || r == a + b - Modulus || r == a + b + Modulus
    ensures IsInt(a + b) ==> r == a + b
  {
    var sum := a + b;
    if sum > MaxInt then sum - Modulus
    else if sum < MinInt then sum + Modulus
    else sum
  }

  /** `Math.floorMod(x, m)` for a positive divisor: the `r` in [0, m) that
      differs from `x` by a multiple of `m`, found by stepping `x` by `m`. */
  function FloorMod(x: int, m: int): (r: int)
    requires m > 0
    ensures 0 <= r < m
    ensures r == x % m
    ensures 0 <= x < m ==> r == x
    ensures -m <= x < 0 ==> r == x + m
    ensures m <= x < 2 * m ==> r == x - m
    decreases if x < 0 then m - x else x
  {
    if x < 0 then
      ModArith.ShiftMod(x, m);
      FloorMod(x + m, m)
    else if x < m then
      ModArith.ModUnique(x, m, 0, x);
      x
    else
      ModArith.ShiftMod(x - m, m);
      FloorMod(x - m, m)
  }
}

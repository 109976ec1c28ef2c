/** Go's `uint` (64 bits on the platforms the editor targets) and the
    `Pow` helper that both piece-table files define identically. */
module UintMath {

  const UintModulus: int := 0x1_0000_0000_0000_0000

  /** A Go `uint`: arithmetic on it wraps around modulo 2^64. */
  type uint = n: int | 0 <= n < UintModulus

  /** x to the power y, over the unbounded naturals. */
  function Power(x: nat, y: nat): nat {
    if y == 0 then 1 else Power(x, y - 1) * x
  }

  /** Multiplying a reduced value is the same as reducing the product. */
  lemma {:induction false} MulMod(a: nat, x: nat)
    ensures (a % UintModulus) * x % UintModulus == a * x % UintModulus
  {
    var q, r := a / UintModulus, a % UintModulus;
    assert a == q * UintModulus + r;
    assert a * x == (q * x) * UintModulus + r * x;
  }

  /** Repeated multiplication with `result *= x`, wrapping like Go's `uint`:
      the result is x^y reduced modulo 2^64. With y the largest `uint` the
      counter `i <= y` never fails (i wraps to 0), so y must be below it. */
  method Pow(x: uint, y: uint) returns (r: uint)
    requires y < UintModulus - 1
    ensures r == Power(x, y) % UintModulus
  {
    if y == 0 {
      return 1;
    }
    if y == 1 {
      return x;
    }
    var result: uint := x;
    var i: int := 2;
    while i <= y
      invariant 2 <= i <= y + 1
      invariant result == Power(x, i - 1) % UintModulus
    {
      MulMod(Power(x, i - 1), x);
      result := result * x % UintModulus;
      i := i + 1;
    }
    return result;
  }
}

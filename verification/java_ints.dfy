/**
 * Java's integer operations that the visitors rely on, written out over
 * unbounded integers: the truncating remainder `%`, the `(int)` cast and
 * `Math.abs`.
 */
module JavaInts {
  import opened Aggregates

  /** The modulus of the red-product visitor, 10^9 + 7. */
  const Modulo: int := 1_000_000_007

  /**
   * Java's `%` on integers with a positive divisor: it truncates toward zero,
   * so the remainder takes the sign of the dividend.
   */
  function JavaRem(x: int, m: int): (r: int)
    requires m > 0
    ensures -m < r < m
    ensures x >= 0 ==> 0 <= r
    ensures x <= 0 ==> r <= 0
  {
    if x >= 0 then x % m else -((-x) % m)
  }

  /** Java's remainder differs from the dividend by a multiple of the divisor. */
  lemma JavaRemCongruent(x: int, m: int)
    requires m > 0
    ensures (x - JavaRem(x, m)) % m == 0
  {
    if x >= 0 {
      DivMod(x, m);
      ModShift(x / m, 0, m);
    } else {
      var q := (-x) / m;
      DivMod(-x, m);
      assert x - JavaRem(x, m) == (-q) * m + 0;
      ModShift(-q, 0, m);
    }
  }

  /** Java's remainder is an odd function of the dividend. */
  lemma JavaRemNegate(x: int, m: int)
    requires m > 0
    ensures JavaRem(-x, m) == -JavaRem(x, m)
  {
    if x == 0 {
      assert JavaRem(0, m) == 0;
    }
  }

  /** Java's `(int)` cast: keeps the low 32 bits as a two's-complement number. */
  function ToInt32(x: int): (r: int)
    ensures -0x8000_0000 <= r < 0x8000_0000
    ensures (x - r) % 0x1_0000_0000 == 0
    ensures -0x8000_0000 <= x < 0x8000_0000 ==> r == x
  {
    var y := x + 0x8000_0000;
    ModShift(y / 0x1_0000_0000, 0, 0x1_0000_0000);
    assert 0 <= y < 0x1_0000_0000 ==> y % 0x1_0000_0000 == y by {
      if 0 <= y < 0x1_0000_0000 { DivModUnique(y, 0x1_0000_0000, 0, y); }
    }
    y % 0x1_0000_0000 - 0x8000_0000
  }

  function Abs(x: int): (r: int)
    ensures r >= 0 && (r == x || r == -x)
  {
    if x < 0 then -x else x
  }

  lemma MulSign(a: int, m: int)
    requires m > 0
    ensures a >= 1 ==> a * m >= m
    ensures a <= -1 ==> a * m <= -m
  {
  }

  lemma MulComm(a: int, b: int)
    ensures a * b == b * a
  {
  }

  lemma DivMod(x: int, m: int)
    requires m > 0
    ensures x == (x / m) * m + x % m
  {
  }

  /** Division with a remainder in [0, m) is unique. */
  lemma DivModUnique(x: int, m: int, q: int, r: int)
    requires m > 0 && 0 <= r < m && x == q * m + r
    ensures x % m == r && x / m == q
  {
    var q', r' := x / m, x % m;
    assert (q - q') * m == r' - r;
    MulSign(q - q', m);
  }

  lemma ModShift(k: int, r: int, m: int)
    requires m > 0
    ensures (k * m + r) % m == r % m
  {
    var q, s := r / m, r % m;
    assert k * m + r == (k + q) * m + s;
    DivModUnique(k * m + r, m, k + q, s);
  }

  /** Reducing a factor modulo `m` first does not change the remainder of a product. */
  lemma {:induction false} ModMulLeft(a: nat, b: nat, m: int)
    requires m > 0
    ensures ((a % m) * b) % m == (a * b) % m
  {
    var q, s := a / m, a % m;
    assert a == q * m + s;
    assert a * b == (q * b) * m + s * b;
    ModShift(q * b, s * b, m);
  }

  /**
   * Taking Java's remainder after every multiplication gives Java's remainder
   * of the whole product, whatever the signs of the operands.
   */
  lemma {:induction false} JavaRemMul(x: int, v: int, m: int)
    requires m > 0
    ensures JavaRem(JavaRem(x, m) * v, m) == JavaRem(x * v, m)
  {
    var a, b := Abs(x), Abs(v);
    var r := a % m;
    ModMulLeft(a, b, m);
    MulNonNegative(r, b);
    MulNonNegative(a, b);
    assert JavaRem(r * b, m) == JavaRem(a * b, m);
    assert JavaRem(x, m) == if x >= 0 then r else -r;
    if x >= 0 && v >= 0 {
    } else if x >= 0 {
      MulNegRight(r, b);
      MulNegRight(a, b);
      JavaRemNegate(r * b, m);
      JavaRemNegate(a * b, m);
    } else if v >= 0 {
      MulNegLeft(r, b);
      MulNegLeft(a, b);
      JavaRemNegate(r * b, m);
      JavaRemNegate(a * b, m);
    } else {
      MulNegBoth(r, b);
      MulNegBoth(a, b);
    }
  }

  lemma MulNegRight(a: int, b: int)
    ensures a * -b == -(a * b)
  {
  }

  lemma MulNegLeft(a: int, b: int)
    ensures -a * b == -(a * b)
  {
  }

  lemma MulNegBoth(a: int, b: int)
    ensures -a * -b == a * b
  {
  }

  /**
   * `result * value` in the red-product visitor cannot overflow a Java
   * `long`: the accumulator stays below the modulus and a value is a Java
   * `int`.
   */
  lemma ProductFitsInLong(acc: int, value: int)
    requires -Modulo < acc < Modulo
    requires -0x8000_0000 <= value < 0x8000_0000
    ensures -0x8000_0000_0000_0000 <= acc * value < 0x8000_0000_0000_0000
  {
    var a, b := Abs(acc), Abs(value);
    assert a * b <= Modulo * b <= Modulo * 0x8000_0000;
    assert Abs(acc * value) == a * b;
  }

}

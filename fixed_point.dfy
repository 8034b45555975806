/**
 The 18-decimal fixed-point arithmetic the fee formulas are written in.
 A value `x` stands for the real number x / 10^18; the underlying 256-bit
 integer is modelled as an unbounded `nat`.
 */
module FixedPointMath {

  /** The fixed-point representation of 1.0 (the literal `fixed!(1e18)`). */
  const ONE: nat := 1_000_000_000_000_000_000

  /** Fixed-point subtraction; the underlying integer subtraction fails on underflow,
      so the right operand may not exceed the left one. */
  function Sub(a: nat, b: nat): (r: nat)
    requires b <= a
    ensures r + b == a
  {
    a - b
  }

  /** Fixed-point multiplication rounding down: the largest `r` with r * 1e18 <= a * b. */
  function MulDown(a: nat, b: nat): (r: nat)
    ensures r * ONE <= a * b < r * ONE + ONE
  {
    a * b / ONE
  }

  /** `a * b / c` with the integer quotient rounded down: the largest `r` with r * c <= a * b. */
  function MulDivDown(a: nat, b: nat, c: nat): (r: nat)
    requires c > 0
    ensures r * c <= a * b < r * c + c
  {
    DivFloor(a * b, c);
    a * b / c
  }

  /** The floor characterisation of natural-number division. */
  lemma DivFloor(x: nat, c: nat)
    requires c > 0
    ensures (x / c) * c <= x < (x / c) * c + c
  {
    assert x == (x / c) * c + x % c;
  }

  /** Multiplication of naturals is monotone in both arguments. */
  lemma MulMonotone(a: nat, a': nat, b: nat, b': nat)
    requires a <= a' && b <= b'
    ensures a * b <= a' * b'
  {
    assert a' * b - a * b == (a' - a) * b;
    assert a' * b' - a' * b == a' * (b' - b);
  }

  /** Rounded-down division is monotone in the dividend and antitone in the divisor. */
  lemma DivMonotone(x: nat, x': nat, c: nat, c': nat)
    requires x <= x' && 0 < c' <= c
    ensures x / c <= x' / c'
  {
    var q, q' := x / c, x' / c';
    DivFloor(x, c);
    DivFloor(x', c');
    if q > q' {
      MulMonotone(q' + 1, q, c', c);
      assert false;
    }
  }

  /** MulDown never decreases when either operand grows. */
  lemma MulDownMonotone(a: nat, a': nat, b: nat, b': nat)
    requires a <= a' && b <= b'
    ensures MulDown(a, b) <= MulDown(a', b')
  {
    MulMonotone(a, a', b, b');
    DivMonotone(a * b, a' * b', ONE, ONE);
  }

  /** MulDivDown never decreases when a factor grows or the divisor shrinks. */
  lemma MulDivDownMonotone(a: nat, a': nat, b: nat, b': nat, c: nat, c': nat)
    requires a <= a' && b <= b' && 0 < c' <= c
    ensures MulDivDown(a, b, c) <= MulDivDown(a', b', c')
  {
    MulMonotone(a, a', b, b');
    DivMonotone(a * b, a' * b', c, c');
  }

  /** Multiplying by a fixed-point fraction no larger than one never increases a value. */
  lemma MulDownByFraction(f: nat, x: nat)
    ensures f <= ONE ==> MulDown(f, x) <= x
  {
    if f <= ONE {
      MulMonotone(f, ONE, x, x);
      DivMonotone(f * x, ONE * x, ONE, ONE);
    }
  }

  /** Rounding down makes a product by a fixed factor superadditive, and it
      loses less than one unit when two products are added before rounding. */
  lemma MulDownSplit(m: nat, a: nat, b: nat)
    ensures MulDown(m, a) + MulDown(m, b) <= MulDown(m, a + b) <= MulDown(m, a) + MulDown(m, b) + 1
  {
    assert m * (a + b) == m * a + m * b;
  }
}

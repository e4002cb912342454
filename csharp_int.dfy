/**
  The C# `int`: a 32-bit two's-complement integer whose arithmetic wraps
  around silently (the code is compiled without `checked`).  `Wrap` maps a
  mathematical integer to the `int` the hardware would hold, and `Quot` is
  C#'s integer division, which truncates toward zero.
 */
module CSharpInt {

  const Modulus: int := 0x1_0000_0000
  const MinInt: int := -0x8000_0000
  const MaxInt: int := 0x7FFF_FFFF

  type Int32 = x: int | MinInt <= x <= MaxInt

  /** The 32-bit value an unchecked C# computation with exact result `x` yields. */
  function Wrap(x: int): Int32 {
    (x - MinInt) % Modulus + MinInt
  }

  /** C# `/` on ints: the quotient truncated toward zero (Dafny's `/` is Euclidean). */
  function Quot(a: int, b: int): (q: int)
    requires b > 0
    ensures var rem := a - q * b; -b < rem < b && (a >= 0 ==> rem >= 0) && (a < 0 ==> rem <= 0)
    ensures MinInt <= a <= MaxInt ==> MinInt <= q <= MaxInt
  {
    if a >= 0 then a / b else -((-a) / b)
  }

  /** Unary minus on an int: `-int.MinValue` wraps back to `int.MinValue`. */
  function Neg(a: int): Int32 {
    Wrap(-a)
  }

  lemma WrapInRange(x: int)
    requires MinInt <= x <= MaxInt
    ensures Wrap(x) == x
  {
  }

  /** Two integers congruent modulo 2^32 wrap to the same value. */
  lemma WrapIsCongruent(x: int)
    ensures (Wrap(x) - x) % Modulus == 0
  {
  }

  lemma WrapCongruent(x: int, y: int)
    requires (x - y) % Modulus == 0
    ensures Wrap(x) == Wrap(y)
  {
    var k := (x - y) / Modulus;
    assert x - y == k * Modulus;
    assert x - MinInt == (y - MinInt) + k * Modulus;
  }

  /** Wrapping an intermediate result does not change the final wrapped sum. */
  lemma WrapAdd(a: int, b: int)
    ensures Wrap(Wrap(a) + b) == Wrap(a + b)
    ensures Wrap(a + Wrap(b)) == Wrap(a + b)
  {
    WrapIsCongruent(a);
    WrapIsCongruent(b);
    WrapCongruent(Wrap(a) + b, a + b);
    WrapCongruent(a + Wrap(b), a + b);
  }

  lemma WrapSub(a: int, b: int)
    ensures Wrap(Wrap(a) - b) == Wrap(a - b)
    ensures Wrap(a - Wrap(b)) == Wrap(a - b)
  {
    WrapIsCongruent(a);
    WrapIsCongruent(b);
    WrapCongruent(Wrap(a) - b, a - b);
    WrapCongruent(a - Wrap(b), a - b);
  }

  lemma WrapMul(a: int, k: int)
    ensures Wrap(Wrap(a) * k) == Wrap(a * k)
  {
    WrapIsCongruent(a);
    var d := (Wrap(a) - a) / Modulus;
    assert Wrap(a) == a + d * Modulus;
    assert Wrap(a) * k == a * k + (d * k) * Modulus;
    WrapCongruent(Wrap(a) * k, a * k);
  }

  /** Wrapped addition is associative. */
  lemma WrapAddAssoc(a: int, b: int, c: int)
    ensures Wrap(Wrap(a + b) + c) == Wrap(a + Wrap(b + c))
  {
    WrapAdd(a + b, c);
    WrapAdd(a, b + c);
    assert a + b + c == a + (b + c);
  }

  lemma MulAtLeast(k: int, m: int)
    requires k >= 1 && m > 0
    ensures k * m >= m
  {
    var j := k - 1;
    assert k * m == j * m + m;
    assert j * m >= 0;
  }

  /** Quotient and remainder are determined by `x == q * m + r` with `0 <= r < m`. */
  lemma DivModUnique(x: int, m: int, q: int, r: int)
    requires m > 0 && 0 <= r < m && x == q * m + r
    ensures x / m == q && x % m == r
  {
    var q', r' := x / m, x % m;
    assert x == q' * m + r';
    if q' > q {
      assert q' * m - q * m == (q' - q) * m;
      MulAtLeast(q' - q, m);
    } else if q' < q {
      assert q * m - q' * m == (q - q') * m;
      MulAtLeast(q - q', m);
    }
  }
}

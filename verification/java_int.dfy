/** Java's 32-bit `int`: its range and the two's-complement wrap-around of its
    arithmetic, which the identifier's hash relies on. */
module JavaInt {

  const MinInt: int := -0x8000_0000
  const MaxInt: int := 0x7fff_ffff
  const Modulus: int := 0x1_0000_0000

  /** A value of Java type `int`. */
  type Int = x: int | MinInt <= x <= MaxInt

  /** The `int` that 32-bit arithmetic (or a narrowing `(int)` cast) yields for
      the mathematical value `x`: the one member of the `int` range that is
      congruent to `x` modulo 2^32. */
  function Wrap(x: int): (r: Int)
    ensures (r - x) % Modulus == 0
    ensures MinInt <= x <= MaxInt ==> r == x
  {
    var m := (x - MinInt) % Modulus;
    assert x - MinInt == ((x - MinInt) / Modulus) * Modulus + m;
    m + MinInt
  }

  /** Adding a multiple of the modulus does not change a remainder. */
  lemma {:induction false} ModAddMultiple(a: int, k: int)
    ensures (a + k * Modulus) % Modulus == a % Modulus
  {
    var q := a / Modulus;
    var m := a % Modulus;
    assert a == q * Modulus + m;
    assert a + k * Modulus == (q + k) * Modulus + m;
  }

  /** Values congruent modulo 2^32 wrap to the same `int`. */
  lemma {:induction false} WrapCongruent(x: int, y: int)
    requires (x - y) % Modulus == 0
    ensures Wrap(x) == Wrap(y)
  {
    var k := (x - y) / Modulus;
    assert x - y == k * Modulus;
    ModAddMultiple(y - MinInt, k);
    assert x - MinInt == (y - MinInt) + k * Modulus;
  }

  /** The Java statement `result = 31 * result + h` with `result` already
      wrapped gives the same `int` as wrapping once at the end. */
  lemma {:induction false} WrapMulAdd(x: int, y: int)
    ensures Wrap(31 * Wrap(x) + y) == Wrap(31 * x + y)
  {
    var w := Wrap(x);
    var k := (w - x) / Modulus;
    assert w - x == k * Modulus;
    assert (31 * w + y) - (31 * x + y) == (31 * k) * Modulus;
    ModAddMultiple(0, 31 * k);
    WrapCongruent(31 * w + y, 31 * x + y);
  }
}

/** Java's 32-bit two's-complement `int`, as used by the gesture counters.
    Dafny integers are unbounded, so the wrap-around of `++` is written out. */
module JavaInt {

  const Modulus: int := 0x1_0000_0000
  const MinInt: int := -0x8000_0000
  const MaxInt: int := 0x7fff_ffff

  /** The values a Java `int` can hold. */
  type Int32 = x: int | -0x8000_0000 <= x <= 0x7fff_ffff

  /** Reduces an unbounded integer to the Java `int` it is congruent to:
      the value a Java `int` counter started at 0 holds after `n` increments. */
  function Wrap(n: int): (r: Int32)
    ensures MinInt <= n <= MaxInt ==> r == n
    ensures (n - r) % Modulus == 0
  {
    var r := (n - MinInt) % Modulus + MinInt;
    ModOfMultiple(n - r, (n - MinInt) / Modulus);
    r
  }

  /** `x++` on a Java `int`: one more, except that the largest value wraps to the smallest. */
  function Inc(x: Int32): (r: Int32)
    ensures r == Wrap(x + 1)
    ensures x < MaxInt ==> r == x + 1
  {
    if x == MaxInt then MinInt else x + 1
  }

  lemma ModOfMultiple(a: int, q: int)
    requires a == Modulus * q
    ensures a % Modulus == 0
  {
    ModUnique(a, q, 0);
  }

  /** Division with remainder by `Modulus` has only one answer. */
  lemma ModUnique(a: int, q: int, rem: int)
    requires a == Modulus * q + rem
    requires 0 <= rem < Modulus
    ensures a % Modulus == rem
  {
    var d := a / Modulus;
    assert a == Modulus * d + a % Modulus;
    assert Modulus * (q - d) == a % Modulus - rem;
  }

  /** Any Java `int` congruent to `n` is `Wrap(n)`. */
  lemma WrapUnique(n: int, r: Int32)
    requires (n - r) % Modulus == 0
    ensures Wrap(n) == r
  {
    var q := (n - r) / Modulus;
    assert n - r == Modulus * q + (n - r) % Modulus;
    assert n - MinInt == Modulus * q + (r - MinInt);
    ModUnique(n - MinInt, q, r - MinInt);
  }

  /** Wrapping early or late gives the same Java `int`: increments may be counted
      with unbounded integers and wrapped once at the end. */
  lemma WrapAdd(a: int, b: int)
    ensures Wrap(Wrap(a) + b) == Wrap(a + b)
  {
    var w := Wrap(a);
    var q := (a - w) / Modulus;
    assert a - w == Modulus * q + (a - w) % Modulus;
    var v := Wrap(w + b);
    var p := (w + b - v) / Modulus;
    assert w + b - v == Modulus * p + (w + b - v) % Modulus;
    assert a + b - v == Modulus * (q + p);
    ModOfMultiple(a + b - v, q + p);
    WrapUnique(a + b, v);
  }
}

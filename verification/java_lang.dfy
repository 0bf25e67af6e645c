/**
 The slice of the Java platform that the Event entity relies on: nullable
 references, the unchecked runtime exceptions its methods can throw, and 32-bit two's
 complement `int` arithmetic as used by `hashCode`.
 */
module JavaLang {

  /** A nullable reference: `None` is Java's `null`. */
  datatype Option<+T> = None | Some(value: T)

  /** A `java.lang.String` reference, which may be `null`. */
  type JString = Option<string>

  /** The runtime exceptions the modelled operations can throw. */
  datatype Exception = NullPointerException | UnsupportedOperationException

  /** A `java.util.List<String>` as a value: its elements, and whether its
      `add` appends. An `ArrayList` does; an unmodifiable or fixed-size list
      (`Collections.emptyList()`, `Arrays.asList(..)`) throws
      `UnsupportedOperationException` instead. */
  datatype JList = JList(elements: seq<JString>, supportsAdd: bool)

  /** The outcome of a Java call: a value, or the exception it threw. */
  datatype Result<+T> = Ok(value: T) | Err(error: Exception)

  /** A plain `java.util.Date` as a value: `Date.equals` compares the
      millisecond instant returned by `getTime()` and nothing else. Subclasses
      with their own `equals`, such as `java.sql.Timestamp`, are not covered. */
  datatype Date = Date(epochMillis: int)

  const TwoTo32: int := 0x1_0000_0000
  const MinInt: int := -0x8000_0000
  const MaxInt: int := 0x7fff_ffff

  /** The values of a Java `int`. */
  type int32 = x: int | MinInt <= x <= MaxInt

  /** Two's complement narrowing of an unbounded integer to a Java `int`. */
  function Wrap(x: int): (r: int32)
    ensures MinInt <= x <= MaxInt ==> r == x
  {
    ((x - MinInt) % TwoTo32) + MinInt
  }

  /** Java `int` multiplication: the exact product, wrapped. */
  function Mul32(a: int32, b: int32): (r: int32)
    ensures MinInt <= a * b <= MaxInt ==> r == a * b
  {
    Wrap(a * b)
  }

  /** Java `int` addition: the exact sum, wrapped. */
  function Add32(a: int32, b: int32): (r: int32)
    ensures MinInt <= a + b <= MaxInt ==> r == a + b
  {
    Wrap(a + b)
  }

  /** The wrapped value differs from its argument by a whole number of
      2^32 steps, and that number is `WrapSteps(x)`. */
  function WrapSteps(x: int): int
  {
    (x - MinInt) / TwoTo32
  }

  lemma WrapOffset(x: int)
    ensures Wrap(x) == x - WrapSteps(x) * TwoTo32
  {
  }

  /** Adding whole 2^32 steps does not change the wrapped value. */
  lemma WrapShift(x: int, k: int)
    ensures Wrap(x + k * TwoTo32) == Wrap(x)
  {
  }

  /** Narrowing keeps the low-order 32 bits: the result is congruent to
      the argument modulo 2^32. */
  lemma WrapCongruent(x: int)
    ensures (Wrap(x) - x) % TwoTo32 == 0
  {
  }

  /** The narrowing is the only `int` congruent to its argument modulo
      2^32, so `Wrap` is two's complement truncation and nothing else. */
  lemma WrapUnique(x: int, y: int32)
    requires (y - x) % TwoTo32 == 0
    ensures y == Wrap(x)
  {
  }

  /** An overflowing `int` product keeps the low-order 32 bits of the exact
      product, as the Java language requires. */
  lemma Mul32Wraps(a: int32, b: int32)
    ensures (Mul32(a, b) - a * b) % TwoTo32 == 0
  {
  }

  /** An overflowing `int` sum keeps the low-order 32 bits of the exact
      sum, as the Java language requires. */
  lemma Add32Wraps(a: int32, b: int32)
    ensures (Add32(a, b) - (a + b)) % TwoTo32 == 0
  {
  }

  /** The step `31 * result + h` of a Java hash, performed with wrapping
      `int` operations, agrees with the exact step wrapped once at the end:
      intermediate wrap-around never changes a polynomial hash. */
  lemma WrapLinear(c: int32, a: int, b: int32)
    ensures Add32(Mul32(c, Wrap(a)), b) == Wrap(c * a + b)
  {
    var p := c * Wrap(a);
    WrapOffset(a);
    WrapOffset(p);
    assert p == c * a - c * WrapSteps(a) * TwoTo32;
    var m := Mul32(c, Wrap(a));
    assert m == c * a - (c * WrapSteps(a) + WrapSteps(p)) * TwoTo32;
    WrapShift(c * a + b, -(c * WrapSteps(a) + WrapSteps(p)));
  }
}

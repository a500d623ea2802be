/**
 * The parts of `java.lang.Object` equality and `java.util.Objects` hashing
 * that the entity classes rely on, over unbounded integers with the 32-bit
 * and 64-bit wrap-around written out.
 */
module JavaLang {
  import opened Wrappers

  /**
   * What can be passed as the `Object o` argument of an `equals` override:
   * `null`, an instance of the same runtime class, or an instance of another class.
   */
  datatype EqualsArg<T> = NullRef | Instance(obj: T) | OtherClass

  const TWO_32: int := 0x1_0000_0000
  const TWO_64: int := 0x1_0000_0000_0000_0000

  predicate IsInt32(x: int) {
    -0x8000_0000 <= x < 0x8000_0000
  }

  /** Java `int` arithmetic: the two's-complement value of the low 32 bits of `x`. */
  function Wrap32(x: int): (r: int)
    ensures IsInt32(r)
    ensures (x - r) % TWO_32 == 0
  {
    var m := x % TWO_32;
    if m >= 0x8000_0000 then m - TWO_32 else m
  }

  /** `Objects.equals` on two `Long` references: null-safe, equal when both are null. */
  function ObjectsEquals(a: Option<int>, b: Option<int>): (r: bool)
    ensures r <==> a == b
  {
    match a
    case None => b.None?
    case Some(x) => b.Some? && x == b.value
  }

  /** `Long.hashCode(v)`: the 64-bit pattern of `v` folded as `(int)(v ^ (v >>> 32))`. */
  function LongHashCode(v: int): (h: int)
    ensures IsInt32(h)
  {
    var bits := (v % TWO_64) as bv64;
    Wrap32((bits ^ (bits >> 32)) as int)
  }

  /** The hash contributed by one `Long` element of `Objects.hash`: 0 for null. */
  function ElementHash(a: Option<int>): (h: int)
    ensures IsInt32(h)
    ensures a.None? ==> h == 0
  {
    match a
    case None => 0
    case Some(v) => LongHashCode(v)
  }

  /** `Objects.hash(a)`, i.e. `31 * 1 + hash(a)` in `int` arithmetic. */
  function ObjectsHash1(a: Option<int>): (h: int)
    ensures IsInt32(h)
    ensures a.None? ==> h == 31
  {
    Wrap32(31 * 1 + ElementHash(a))
  }

  /** `Objects.hash(a, b)`: `31 * (31 * 1 + hash(a)) + hash(b)`, wrapping after every step. */
  function ObjectsHash2(a: Option<int>, b: Option<int>): (h: int)
    ensures IsInt32(h)
    ensures a.None? && b.None? ==> h == 961
  {
    Wrap32(31 * Wrap32(31 * 1 + ElementHash(a)) + ElementHash(b))
  }
}

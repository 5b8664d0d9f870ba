/**
 * Java's 32-bit int: the range of its values and the wrap-around of its
 * arithmetic, which hash codes rely on.
 */
module JavaInt {
  const TwoTo32: int := 0x1_0000_0000
  const MinInt: int := -0x8000_0000
  const MaxInt: int := 0x7fff_ffff

  newtype int32 = x: int | -0x8000_0000 <= x <= 0x7fff_ffff

  /** The int that Java's arithmetic leaves in place of the exact value x:
      the one value of the int range congruent to x modulo 2^32. */
  function Wrap(x: int): (r: int32)
    ensures (x - r as int) % TwoTo32 == 0
  {
    ((x - MinInt) % TwoTo32 + MinInt) as int32
  }

  /** A value already in range is left alone. */
  lemma WrapInRange(x: int)
    requires MinInt <= x <= MaxInt
    ensures Wrap(x) as int == x
  {
  }

  /** Wrapping loses nothing on values closer together than 2^32. */
  lemma WrapInjective(x: int, y: int)
    requires -TwoTo32 < x - y < TwoTo32
    requires Wrap(x) == Wrap(y)
    ensures x == y
  {
    var r := Wrap(x) as int;
    var k := (x - r) / TwoTo32;
    var l := (y - r) / TwoTo32;
    assert x == r + k * TwoTo32;
    assert y == r + l * TwoTo32;
    assert x - y == (k - l) * TwoTo32;
  }
}

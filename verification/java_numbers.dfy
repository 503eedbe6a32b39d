/** Java's 64-bit `long` and its integer operators, written out over Dafny's unbounded `int`. */
module JavaNumbers {

  const LongMin: int := -0x8000_0000_0000_0000
  const LongMax: int := 0x7fff_ffff_ffff_ffff
  const LongModulus: int := 0x1_0000_0000_0000_0000

  /** The values a Java `long` can hold. */
  type Long = x: int | LongMin <= x <= LongMax

  /** `a - b` on `long`: two's-complement wrap-around on overflow. */
  function LongSub(a: Long, b: Long): (r: Long)
    ensures LongMin <= a - b <= LongMax ==> r == a - b
    ensures (a - b - r) % LongModulus == 0
  {
    (a - b - LongMin) % LongModulus + LongMin
  }

  /** Java's `/` for a positive divisor: the quotient truncated toward zero. */
  function Quot(a: int, b: int): int
    requires b > 0
  {
    if a >= 0 then a / b else -((-a) / b)
  }

  /** Java's `%` for a positive divisor: the remainder that goes with `Quot`. */
  function Rem(a: int, b: int): int
    requires b > 0
  {
    a - b * Quot(a, b)
  }

  /** The identity of section 15.17.3 of the Java Language Specification: `(a/b)*b + a%b == a`,
      with a remainder smaller than the divisor that takes the sign of the dividend. */
  lemma QuotRemIdentity(a: int, b: int)
    requires b > 0
    ensures b * Quot(a, b) + Rem(a, b) == a
    ensures -b < Rem(a, b) < b
    ensures a >= 0 ==> 0 <= Rem(a, b) && Quot(a, b) == a / b && Rem(a, b) == a % b
    ensures a < 0 ==> Rem(a, b) <= 0 && Quot(a, b) <= 0
  {
    if a < 0 {
      var q := (-a) / b;
      assert b * q + (-a) % b == -a;
      assert Rem(a, b) == a + b * q;
    }
  }
}

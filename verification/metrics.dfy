/** What the two health components share: the host readings they start from, the values that fill
    their detail maps, the unit exponent behind byte formatting and the exact percent comparison. */
module Metrics {
  import opened JavaNumbers

  /** The figures the JVM, the operating system and the root file system report; reading them is
      outside the model, so they arrive as one record. */
  datatype HostReadings = HostReadings(
    maxMemory: Long, totalMemory: Long, freeMemory: Long,
    vmName: string, vmVendor: string, javaVersion: string, uptimeMillis: Long,
    osName: string, osVersion: string, osArch: string, loadAverage: real,
    availableProcessors: int,
    diskTotal: Long, diskFree: Long, diskUsable: Long)

  /** The number part of a formatted byte count: exact digits below 1024 bytes, otherwise
      `bytes / 1024^exponent` printed with two decimals (the decimal rendering is not modelled). */
  datatype Amount = Whole(digits: string) | Scaled(bytes: int, exponent: nat)

  /** A formatted byte count: the number part followed by `suffix`, such as `" B"` or `" MB"`. */
  datatype ByteText = ByteText(amount: Amount, suffix: string)

  /** A value in one of the detail maps. */
  datatype Value =
    | Text(text: string)              // a plain string
    | Size(size: ByteText)            // a `formatBytes` result
    | Percent(used: int, total: int)  // `String.format("%.2f%%", used * 100.0 / total)`
    | TwoDecimals(x: real)            // `String.format("%.2f", x)`
    | Count(n: int)                   // an `int`

  type Details = map<string, Value>

  /** The `system` block: one detail map per section. */
  datatype SystemInfo = SystemInfo(memory: Details, jvm: Details, os: Details, cpu: Details, disk: Details)

  const UnitLetters: string := "KMGTPE"

  function Pow1024(e: nat): (p: nat)
    ensures p >= 1
  {
    if e == 0 then 1 else 1024 * Pow1024(e - 1)
  }

  lemma {:induction false} Pow1024Monotone(a: nat, b: nat)
    requires a <= b
    ensures Pow1024(a) <= Pow1024(b)
    decreases b
  {
    if a < b {
      Pow1024Monotone(a, b - 1);
    }
  }

  lemma ExponentStep(b: nat, e: nat)
    requires b >= 1024
    requires Pow1024(e) <= b / 1024 < Pow1024(e + 1)
    ensures Pow1024(e + 1) <= b < Pow1024(e + 2)
  {
    var q := b / 1024;
    assert 1024 * q <= b < 1024 * q + 1024;
    assert q + 1 <= Pow1024(e + 1);
    assert 1024 * (q + 1) <= 1024 * Pow1024(e + 1);
  }

  /** `(int) (Math.log(b) / Math.log(1024))` in exact arithmetic: the number of whole 1024 steps in `b`. */
  function UnitExponent(b: nat): (e: nat)
    requires b >= 1
    ensures Pow1024(e) <= b < Pow1024(e + 1)
    decreases b
  {
    if b < 1024 then 0
    else
      var e := UnitExponent(b / 1024);
      ExponentStep(b, e);
      e + 1
  }

  /** The unit exponent is the largest `e` with `1024^e <= b`. */
  lemma UnitExponentIsLargest(b: nat, f: nat)
    requires b >= 1 && Pow1024(f) <= b
    ensures f <= UnitExponent(b)
  {
    var e := UnitExponent(b);
    if f > e {
      Pow1024Monotone(e + 1, f);
    }
  }

  /** The exponent is determined by the power-of-1024 interval `b` falls in. */
  lemma UnitExponentUnique(b: nat, e: nat)
    requires b >= 1 && Pow1024(e) <= b < Pow1024(e + 1)
    ensures UnitExponent(b) == e
  {
    UnitExponentIsLargest(b, e);
    var u := UnitExponent(b);
    if u > e {
      Pow1024Monotone(e + 1, u);
    }
  }

  /** For a `long` of at least 1024 the exponent is between 1 and 6, so `"KMGTPE".charAt(exp - 1)` is
      always in range. */
  lemma LongUnitExponentInRange(b: Long)
    requires b >= 1024
    ensures 1 <= UnitExponent(b) <= 6
  {
    var e := UnitExponent(b);
    assert Pow1024(7) == 0x40_0000_0000_0000_0000;
    if e >= 7 {
      Pow1024Monotone(7, e);
    }
  }

  /** `used * 100.0 / total < threshold` evaluated exactly, IEEE division by zero included: for a zero
      total the quotient is -Infinity (below any threshold) when `used` is negative, and +Infinity or
      NaN (not below) otherwise. */
  predicate BelowPercent(used: int, total: int, threshold: int) {
    if total > 0 then used * 100 < threshold * total
    else if total < 0 then used * 100 > threshold * total
    else used < 0
  }

  /** For a non-zero total the integer comparison is the quotient comparison of the source. */
  lemma BelowPercentIsQuotientTest(used: int, total: int, threshold: int)
    requires total != 0
    ensures BelowPercent(used, total, threshold) <==>
            (used as real) * 100.0 / (total as real) < threshold as real
  {
    var q := (used as real) * 100.0 / (total as real);
    var t := total as real;
    assert q * t == (used * 100) as real;
    if total > 0 {
      assert q < threshold as real <==> q * t < (threshold as real) * t;
    } else {
      assert q < threshold as real <==> q * t > (threshold as real) * t;
    }
  }
}

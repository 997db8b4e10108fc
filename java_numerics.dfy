/** Java's fixed-width integer types, as the two modelled source files use them. */
module JavaNumerics {

  const LONG_MIN: int := -0x8000_0000_0000_0000
  const LONG_MAX: int := 0x7FFF_FFFF_FFFF_FFFF
  const INT_MIN: int := -0x8000_0000
  const INT_MAX: int := 0x7FFF_FFFF

  /** A Java `long`: a 64-bit two's-complement integer. */
  newtype Long = x: int | -0x8000_0000_0000_0000 <= x < 0x8000_0000_0000_0000

  /** A Java `int`, by value: a 32-bit two's-complement integer. */
  newtype Int = x: int | -0x8000_0000 <= x < 0x8000_0000

  /** Java `long` arithmetic keeps the low 64 bits: `v` reduced into the `long` range. */
  function Wrap64(v: int): (r: Long)
    ensures LONG_MIN <= v <= LONG_MAX ==> r as int == v
    ensures LONG_MAX < v < 0x1_0000_0000_0000_0000 ==> r as int == v - 0x1_0000_0000_0000_0000
    ensures -0x1_0000_0000_0000_0000 <= v < LONG_MIN ==> r as int == v + 0x1_0000_0000_0000_0000
  {
    var m := v % 0x1_0000_0000_0000_0000;
    if m < 0x8000_0000_0000_0000 then m as Long else (m - 0x1_0000_0000_0000_0000) as Long
  }

  /** Java `int` arithmetic keeps the low 32 bits: `v` reduced into the `int` range. */
  function Wrap32(v: int): (r: Int)
    ensures INT_MIN <= v <= INT_MAX ==> r as int == v
    ensures INT_MAX < v < 0x1_0000_0000 ==> r as int == v - 0x1_0000_0000
  {
    var m := v % 0x1_0000_0000;
    if m < 0x8000_0000 then m as Int else (m - 0x1_0000_0000) as Int
  }

  /** The 32 bits of a Java `int` read as an unsigned number, which is what `>>>` shifts. */
  function Unsigned32(x: Int): (u: nat)
    ensures u < 0x1_0000_0000
    ensures x >= 0 ==> u == x as int
    ensures x < 0 ==> u == x as int + 0x1_0000_0000
  {
    x as int % 0x1_0000_0000
  }

  /** Wrapping keeps the value modulo `2^32`. */
  lemma Wrap32Congruent(v: int)
    ensures (Wrap32(v) as int - v) % 0x1_0000_0000 == 0
  {
  }

  /** Wrapping keeps the value modulo `2^64`. */
  lemma Wrap64Congruent(v: int)
    ensures (Wrap64(v) as int - v) % 0x1_0000_0000_0000_0000 == 0
  {
  }

  /** A value that fits in 32 bits, wrapped to an `int` and read back unsigned, is unchanged. */
  lemma UnsignedWrap(v: int)
    requires 0 <= v < 0x1_0000_0000
    ensures Unsigned32(Wrap32(v)) == v
  {
    if v > INT_MAX {
      assert Wrap32(v) as int == v - 0x1_0000_0000;
    }
  }

  /**
   * Java's `/` on `int` by a positive divisor: division truncated toward zero
   * (Dafny's `/` rounds a negative quotient down instead).
   */
  function Quot(a: int, m: nat): int
    requires m > 0
  {
    if a >= 0 then a / m else -((-a) / m)
  }

  /**
   * Java's `%` on `int` by a positive divisor: what truncated division leaves
   * over, `a == (a / m) * m + a % m`, which takes the sign of the dividend
   * (Dafny's `%` never returns a negative number).
   */
  function Rem(a: int, m: nat): (r: int)
    requires m > 0
    ensures a == Quot(a, m) * m + r
    ensures a >= 0 ==> 0 <= r < m
    ensures a < 0 ==> -(m as int) < r <= 0
  {
    if a >= 0 then a % m else -((-a) % m as int)
  }

  /** The decimal digit character for `d`. */
  function DigitChar(d: nat): char
    requires d < 10
  {
    "0123456789"[d]
  }

  /** The value of a decimal digit character. */
  function DigitValue(c: char): nat
    requires '0' <= c <= '9'
  {
    c as int - '0' as int
  }

  /** The decimal digits of `m`, most significant first and without leading zeros. */
  function Digits(m: nat): (s: string)
    ensures |s| >= 1 && forall i :: 0 <= i < |s| ==> '0' <= s[i] <= '9'
    ensures m > 0 ==> s[0] != '0'
  {
    if m < 10 then [DigitChar(m)] else Digits(m / 10) + [DigitChar(m % 10)]
  }

  /** `Long.toString(n)`: an optional minus sign and the decimal digits of `|n|`. */
  function LongToString(n: Long): (s: string)
    ensures |s| >= 1 && (s[0] == '-' <==> n < 0)
    ensures forall i :: (if n < 0 then 1 else 0) <= i < |s| ==> '0' <= s[i] <= '9'
  {
    if n < 0 then "-" + Digits(-(n as int)) else Digits(n as int)
  }

  /** The number a string of decimal digits stands for. */
  function DigitsValue(s: string): nat
    requires forall i :: 0 <= i < |s| ==> '0' <= s[i] <= '9'
  {
    if s == [] then 0 else 10 * DigitsValue(s[..|s| - 1]) + DigitValue(s[|s| - 1])
  }

  /** Reading the digits of `m` back gives `m`. */
  lemma {:induction false} DigitsRoundTrip(m: nat)
    ensures DigitsValue(Digits(m)) == m
  {
    if m >= 10 {
      DigitsRoundTrip(m / 10);
      var s := Digits(m);
      assert s[..|s| - 1] == Digits(m / 10);
    }
  }

  /** `Long.toString` loses nothing: its digits give back `|n|`, and the sign tells which. */
  lemma LongToStringRoundTrip(n: Long)
    ensures n >= 0 ==> DigitsValue(LongToString(n)) == n as int
    ensures n < 0 ==> DigitsValue(LongToString(n)[1..]) == -(n as int)
  {
    var m := if n < 0 then -(n as int) else n as int;
    DigitsRoundTrip(m);
    if n < 0 {
      SignedDigits(m);
    }
  }

  /** Dropping the minus sign leaves the digits. */
  lemma SignedDigits(m: nat)
    ensures ("-" + Digits(m))[1..] == Digits(m)
  {
  }

  /** `m` has at most `k` digits exactly when it is below `10^k`. */
  lemma {:induction false} DigitsLength(m: nat, k: nat, bound: nat)
    requires k >= 1 && bound == Power10(k)
    ensures |Digits(m)| <= k <==> m < bound
    decreases k
  {
    if k > 1 {
      DigitsLength(m / 10, k - 1, Power10(k - 1));
    }
  }

  /** `10^k`. */
  function Power10(k: nat): (p: nat)
    ensures p >= 1
  {
    if k == 0 then 1 else 10 * Power10(k - 1)
  }
}

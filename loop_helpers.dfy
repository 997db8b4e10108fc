/**
 * The small helpers the concurrency benchmarks call between synchronisations:
 * two pieces of "mindless computation" on Java `int`s, right-justification of
 * a number in a nine-character field, and a timer that a barrier runs at its
 * start and at its end.
 *
 * Java `int` values are `Int`s; the bit operations of the source are written
 * out on the 32-bit unsigned reading of a value (`Unsigned32`): a mask of the
 * low `k` bits is `% 2^k`, an unsigned right shift by `k` is `/ 2^k`, a set
 * sign bit is a negative value, and every `int` sum or product is wrapped
 * with `Wrap32`.
 */
module LoopHelpers {
  import opened JavaNumerics

  /** The modulus `2^31 - 1` of the Park–Miller "minimal standard" generator. */
  const MODULUS: int := 0x7FFF_FFFF

  /** Its multiplier, `7^5`. */
  const MULTIPLIER: int := 16807

  /**
   * `compute1`: one step of the Park–Miller generator, computed with 32-bit
   * `int` arithmetic only (Carta's method). The product `16807 * x` (of the
   * unsigned reading of `x`) is split at bit 31, and `2^31 == 1` modulo
   * `2^31 - 1` folds the high part back in. The result is never 0 (nor
   * negative); it is the product modulo `2^31 - 1` whenever that is not 0, and
   * the three inputs whose product is a multiple of the modulus give 1 (for 0)
   * or the modulus itself.
   */
  method Compute1(x: Int) returns (r: Int)
    ensures 0 < r as int <= MODULUS
    ensures Unsigned32(x) % MODULUS != 0 ==> r as int == MULTIPLIER * Unsigned32(x) % MODULUS
    ensures Unsigned32(x) % MODULUS == 0 ==> r == 1 || r as int == MODULUS
    ensures x == 0 ==> r == 1
  {
    var u := Unsigned32(x);
    // the low 16 bits of x, and x shifted right by 16 without sign, each times 16807
    var lo := Wrap32(16807 * (u % 0x1_0000));
    var hi := Wrap32(16807 * (u / 0x1_0000));
    ghost var high := hi as int / 0x8000;
    CarrySplit(u, lo as int, hi as int);
    // add the low 15 bits of hi, shifted left by 16
    lo := Wrap32(lo as int + Wrap32(Unsigned32(hi) % 0x8000 * 0x1_0000) as int);
    ghost var folded := 0;
    if lo < 0 {
      // sign bit set: clear it and add one
      SignCleared(lo);
      lo := Wrap32(Unsigned32(lo) % 0x8000_0000 + 1);
      folded := 1;
    }
    assert MULTIPLIER * u == (high + folded) * MODULUS + high + lo as int && 0 <= lo as int < 0x8000_0000;
    // add hi shifted right by 15 without sign
    ghost var sum := lo as int + Unsigned32(hi) / 0x8000;
    lo := Wrap32(lo as int + Unsigned32(hi) / 0x8000);
    UnsignedWrap(sum);
    if lo == 0 || lo < 0 {
      SignCleared(lo);
      lo := Wrap32(Unsigned32(lo) % 0x8000_0000 + 1);
    }
    r := lo;
    Reduced(u, high + folded, sum, r as int);
  }

  /**
   * Clearing the sign bit of a negative `int` and adding one subtracts
   * `2^31 - 1` from its unsigned reading, unless it is -1 (whose increment
   * overflows); on 0 it gives 1.
   */
  lemma SignCleared(v: Int)
    requires v <= 0 && v != -1
    ensures Wrap32(Unsigned32(v) % 0x8000_0000 + 1) as int == if v == 0 then 1 else Unsigned32(v) - MODULUS
  {
  }

  /**
   * The product `16807 * u` split as Carta's method splits it: `hi` is 16807
   * times the upper 16 bits of `u` and `lo` 16807 times the lower 16, and
   * `hi` is cut again at bit 15.
   */
  lemma CarrySplit(u: nat, lo: int, hi: int)
    requires u < 0x1_0000_0000 && lo == 16807 * (u % 0x1_0000) && hi == 16807 * (u / 0x1_0000)
    ensures 0 <= lo < 0x8000_0000 && 0 <= hi < 0x8000_0000
    ensures MULTIPLIER * u == hi / 0x8000 * MODULUS + hi / 0x8000 + hi % 0x8000 * 0x1_0000 + lo
  {
  }

  /**
   * The last fold of `Compute1`: from `16807 * u == k * (2^31 - 1) + sum`
   * with `sum` below `2^31 + 2^16`, the result `r` is the residue of the
   * product unless the product is a multiple of the modulus.
   */
  lemma Reduced(u: nat, k: nat, sum: nat, r: int)
    requires MULTIPLIER * u == k * MODULUS + sum && sum < 0x8001_0000
    requires r == if sum == 0 then 1 else if sum >= 0x8000_0000 then sum - MODULUS else sum
    ensures 0 < r <= MODULUS
    ensures u % MODULUS != 0 ==> r == MULTIPLIER * u % MODULUS
    ensures u % MODULUS == 0 ==> r == 1 || r == MODULUS
    ensures u == 0 ==> r == 1
  {
    if sum == 0 || sum == MODULUS {
      Invertible(u, if sum == 0 then k else k + 1);
    } else {
      var q := if sum >= 0x8000_0000 then k + 1 else k;
      Residue(MULTIPLIER * u, q, r);
      if u % MODULUS == 0 {
        Residue(MULTIPLIER * u, MULTIPLIER * (u / MODULUS), 0);
      }
    }
  }

  /** `t == q * (2^31 - 1) + r` with `r` in range makes `r` the residue of `t`. */
  lemma Residue(t: int, q: int, r: int)
    requires t == q * MODULUS + r && 0 <= r < MODULUS
    ensures t % MODULUS == r
  {
  }

  /**
   * 16807 has an inverse modulo `2^31 - 1` (1407677000, since
   * `16807 * 1407677000 == 1 + 11017 * (2^31 - 1)`), so a product
   * `16807 * u` is a multiple of the modulus only if `u` is.
   */
  lemma Invertible(u: nat, k: int)
    requires MULTIPLIER * u == k * MODULUS
    ensures u % MODULUS == 0
  {
    var y := 1407677000 * k - 11017 * u;
    assert u == MODULUS * y;
  }

  /** `(x >>> 4) & 7`: bits 4 to 6 of `x`, the number of rounds `compute2` runs. */
  function Rounds(x: Int): (k: nat)
    ensures k <= 7
  {
    Unsigned32(x) / 0x10 % 8
  }

  /**
   * One round of `compute2`: multiply by `2^31 - 1` with `int` wrap-around,
   * then take Java's remainder by 16807, which keeps the sign of the product
   * and is smaller than 16807 in magnitude.
   */
  function Round(x: Int): (y: Int)
    ensures -MULTIPLIER < y as int < MULTIPLIER
  {
    Rem(Wrap32(x as int * 0x7FFF_FFFF) as int, 16807) as Int
  }

  /** `k` rounds starting from `x`. */
  function Iterate(x: Int, k: nat): Int {
    if k == 0 then x else Round(Iterate(x, k - 1))
  }

  /**
   * `compute2`: a linear congruential step repeated a pseudo-random number of
   * times, read from bits 4 to 6 of the input. It runs exactly `Rounds(x)`
   * rounds, between 0 and 7; with none it returns `x` unchanged, and after at
   * least one the result is below 16807 in magnitude.
   */
  method Compute2(x: Int) returns (r: Int)
    ensures r == Iterate(x, Rounds(x))
    ensures Rounds(x) == 0 ==> r == x
    ensures Rounds(x) > 0 ==> -MULTIPLIER < r as int < MULTIPLIER
  {
    var loops: int := Unsigned32(x) / 0x10 % 8;
    r := x;
    while loops > 0
      invariant 0 <= loops <= Rounds(x)
      invariant r == Iterate(x, Rounds(x) - loops)
    {
      loops := loops - 1;
      r := Rem(Wrap32(r as int * 0x7FFF_FFFF) as int, 16807) as Int;
    }
  }

  /** Java's `StringBuilder`, as far as `rightJustify` uses it. */
  class StringBuilder {
    var chars: string

    constructor (s: string)
      ensures chars == s
    {
      chars := s;
    }

    /** `length()`. */
    function Length(): nat
      reads this
    {
      |chars|
    }

    /**
     * `replace(start, end, str)`: the characters from `start` up to `end` (or
     * up to the end, when `end` is past it) are replaced by `str`. Java throws
     * unless `0 <= start <= length()` and `start <= end`.
     */
    method Replace(start: int, end: int, str: string)
      requires 0 <= start <= |chars| && start <= end
      modifies this
      ensures chars == old(chars[..start]) + str + old(chars[if end < |chars| then end else |chars|..])
    {
      var stop := if end < |chars| then end else |chars|;
      chars := chars[..start] + str + chars[stop..];
    }

    /** `toString()`. */
    function ToString(): string
      reads this
    {
      chars
    }
  }

  /** The blank field `rightJustify` writes a number into. */
  const FIELD: string := "         "

  /**
   * `rightJustify`: the decimal form of `n` right-aligned in a field of nine
   * spaces. A number of nine or more characters comes back as it is; a
   * shorter one ends the nine-character result and spaces fill the rest.
   */
  method RightJustify(n: Long) returns (s: string)
    ensures |LongToString(n)| >= |FIELD| ==> s == LongToString(n)
    ensures |LongToString(n)| < |FIELD| ==> |s| == |FIELD| && s[|FIELD| - |LongToString(n)|..] == LongToString(n)
    ensures |LongToString(n)| < |FIELD| ==> forall i :: 0 <= i < |FIELD| - |LongToString(n)| ==> s[i] == ' '
  {
    var field := FIELD;
    var num := LongToString(n);
    if |num| >= |field| {
      return num;
    }
    var b := new StringBuilder(field);
    b.Replace(b.Length() - |num|, b.Length(), num);
    s := b.ToString();
  }

  /**
   * Which numbers fill the field: `Long.toString(n)` has nine or more
   * characters exactly when `n >= 10^8` or `n <= -10^7`.
   */
  lemma FillsField(n: Long)
    ensures |LongToString(n)| >= |FIELD| <==> n >= 100_000_000 || n <= -10_000_000
  {
    if n >= 0 {
      DigitsLength(n as int, 8, Power10(8));
    } else {
      DigitsLength(-(n as int), 7, Power10(7));
    }
  }

  /**
   * A timer a cyclic barrier runs as its action: the first run after a clear
   * records the start, every later one the end. The clock reading `t`
   * (`System.nanoTime()` in the source) is a parameter.
   */
  class BarrierTimer {
    var startTime: Long
    var endTime: Long

    constructor ()
      ensures startTime == 0 && endTime == 0
    {
      startTime, endTime := 0, 0;
    }

    /** `run()`: record `t` as the start when none is recorded, otherwise as the end. */
    method Run(t: Long)
      modifies this
      ensures old(startTime) == 0 ==> startTime == t && endTime == old(endTime)
      ensures old(startTime) != 0 ==> startTime == old(startTime) && endTime == t
    {
      if startTime == 0 {
        startTime := t;
      } else {
        endTime := t;
      }
    }

    /** `clear()`: forget both readings. */
    method Clear()
      modifies this
      ensures startTime == 0 && endTime == 0
    {
      startTime := 0;
      endTime := 0;
    }

    /**
     * `getTime()`: the end reading minus the start reading, with `long`
     * wrap-around. It is 0 on a cleared timer, and the true difference
     * whenever that fits in a `long`.
     */
    method GetTime() returns (elapsed: Long)
      ensures startTime == 0 && endTime == 0 ==> elapsed == 0
      ensures LONG_MIN <= endTime as int - startTime as int <= LONG_MAX ==> elapsed as int == endTime as int - startTime as int
      ensures (elapsed as int - (endTime as int - startTime as int)) % 0x1_0000_0000_0000_0000 == 0
    {
      elapsed := Wrap64(endTime as int - startTime as int);
      Wrap64Congruent(endTime as int - startTime as int);
    }
  }
}

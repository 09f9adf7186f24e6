/** Division of 64-bit numbers by an estimate and one correction (`div64_u64_rem`). */
module Div64 {
  import opened PowerOfTwo

  const U32: nat := 0x1_0000_0000
  const U64: nat := 0x1_0000_0000_0000_0000

  /** `fls`: the position of the highest bit, counted from 1. */
  function Fls(x: nat): nat { if x == 0 then 0 else Log2(x) + 1 }

  /** How far a divisor of more than 32 bits is shifted down. */
  function ShiftOf(d: nat): nat { 1 + Fls(d / U32) }

  /** The unit the shift rounds to. */
  function Unit(d: nat): nat { Pow2(ShiftOf(d)) }

  /** What the shift drops of the divisor. */
  function Dropped(d: nat): nat { d % Unit(d) }

  /** The quotient of numbers shifted down by the unit `m`. */
  function Estimate(a: nat, d: nat, m: nat): nat
    requires m > 0 && d / m > 0
  {
    var x: nat := a / m;
    x / (d / m)
  }

  function Coarse(dividend: nat, d: nat): nat
    requires d / Unit(d) > 0
  {
    Estimate(dividend, d, Unit(d))
  }

  // ----- multiplication and division -----

  lemma DivIsGreatest(a: nat, b: nat, q: nat)
    requires b > 0
    ensures q <= a / b <==> q * b <= a
  {
    DivMod(a, b);
    if q <= a / b { MulOrder(b, q, a / b); } else { MulOrder(b, a / b + 1, q); }
  }

  lemma DivUnique(a: nat, b: nat, q: nat, r: nat)
    requires b > 0 && a == q * b + r && r < b
    ensures a / b == q && a % b == r
  {
    Recompose(r, q, b);
    assert b * q == q * b;
  }

  /** A divisor of more than 32 bits has 31 bits left after the shift, the top one set. */
  lemma ShiftedDivisor(d: nat)
    requires U32 <= d < U64
    ensures 0x4000_0000 <= d / Unit(d) < U32
    ensures Unit(d) * 0x4000_0000 <= d
  {
    var high := d / U32;
    DivIsGreatest(d, U32, 1);
    Log2Bounds(high);
    var p := Pow2(Log2(high));
    assert Unit(d) == 4 * p;
    DivMod(d, U32);
    MulOrder(U32, p, high);
    MulOrder(U32, high + 1, 2 * p);
    DivIsGreatest(d, Unit(d), 0x4000_0000);
    DivIsGreatest(d, Unit(d), U32);
  }

  // ----- the estimate -----

  /** The quotient one less than an estimate, which the correction starts from. */
  function Start(c: nat): nat { if c == 0 then 0 else c - 1 }

  /** One less than the estimate is no more than the quotient. */
  predicate Close(dividend: nat, d: nat)
    requires d / Unit(d) > 0
  {
    Start(Coarse(dividend, d)) * d <= dividend
  }

  /** The quotient of the shifted numbers is never below the quotient. */
  lemma EstimateAbove(a: nat, d: nat, m: nat)
    requires m > 0 && d / m > 0
    ensures a / d <= Estimate(a, d, m)
  {
    var e, q: nat := d / m, a / d;
    DivIsGreatest(d, m, e);
    DivIsGreatest(a, d, q);
    MulOrder(q, e * m, d);
    assert q * (e * m) == (q * e) * m;
    DivIsGreatest(a, m, q * e);
    DivIsGreatest(a / m, e, q);
  }

  /** And the part of the divisor that is kept fits into the dividend that often. */
  lemma EstimateFits(a: nat, d: nat, m: nat)
    requires m > 0 && d / m > 0
    ensures d % m <= d && Estimate(a, d, m) * (d - d % m) <= a
  {
    var e: nat := d / m;
    var c := Estimate(a, d, m);
    DivMod(d, m);
    DivIsGreatest(a / m, e, c);
    DivIsGreatest(a, m, c * e);
    assert (c * e) * m == c * (m * e);
  }

  lemma MulMinusOne(c: nat, d: nat)
    requires c > 0
    ensures (c - 1) * d == c * d - d
  {
  }

  lemma MulSplit(c: nat, d: nat, r: nat)
    requires r <= d
    ensures c * d == c * (d - r) + c * r
  {
  }

  /** It is close as soon as the dropped part does not add up to a divisor. */
  lemma CloseIfSmall(dividend: nat, d: nat)
    requires U32 <= d < U64 && d / Unit(d) > 0 && Coarse(dividend, d) * Dropped(d) <= d
    ensures Close(dividend, d)
  {
    var c := Coarse(dividend, d);
    if c > 0 {
      EstimateFits(dividend, d, Unit(d));
      MulSplit(c, d, Dropped(d));
      MulMinusOne(c, d);
    }
  }

  // ----- the correction -----

  function Remainder(a: nat, d: nat, q: nat): nat { (a - q * d) % U64 }

  lemma RightIfClose(a: nat, d: nat, c: nat)
    requires a < U64 && 0 < d && a / d <= c && Start(c) * d <= a
    ensures Remainder(a, d, Start(c)) == a - Start(c) * d
    ensures if Remainder(a, d, Start(c)) >= d
            then a / d == Start(c) + 1 && a % d == Remainder(a, d, Start(c)) - d
            else a / d == Start(c) && a % d == Remainder(a, d, Start(c))
  {
    var q := Start(c);
    var r: nat := a - q * d;
    DivIsGreatest(a, d, q);
    if a / d == q {
      DivMod(a, d);
      assert d * q == q * d;
    } else {
      assert a / d == q + 1;
      DivMod(a, d);
      assert d * (q + 1) == q * d + d;
    }
  }

  lemma WrongIfNot(a: nat, d: nat, c: nat)
    requires 0 < d && Start(c) * d > a
    ensures a / d < Start(c)
  {
    DivIsGreatest(a, d, Start(c));
  }

  lemma EstimateSmall(a: nat, d: nat, m: nat)
    requires m > 0 && d / m > 0
    ensures Estimate(a, d, m) <= a
  {
    DivSmaller(a, m);
    DivSmaller(a / m, d / m);
  }

  lemma DivSmaller(a: nat, b: nat)
    requires b > 0
    ensures a / b <= a
  {
    DivMod(a, b);
    MulOrder(a / b, 1, b);
  }

  // ----- the code -----

  /** The quotient and remainder are right exactly when the estimate is close. */
  method Div64U64Rem(dividend: nat, divisor: nat) returns (quot: nat, remainder: nat)
    requires dividend < U64 && 0 < divisor < U64
    ensures divisor < U32 ==> quot == dividend / divisor && remainder == dividend % divisor
    ensures U32 <= divisor ==> divisor / Unit(divisor) > 0
    ensures U32 <= divisor ==>
              (quot == dividend / divisor && remainder == dividend % divisor <==> Close(dividend, divisor))
  {
    var high := divisor / U32;
    if high == 0 {
      quot, remainder := dividend / divisor, dividend % divisor;
    } else {
      ShiftedDivisor(divisor);
      var m := Pow2(1 + Fls(high));
      quot, remainder := Correct(dividend, divisor, Estimate(dividend, divisor, m), m);
    }
  }

  method Correct(dividend: nat, divisor: nat, coarse: nat, ghost m: nat) returns (quot: nat, remainder: nat)
    requires dividend < U64 && 0 < divisor < U64 && m > 0 && divisor / m > 0 && coarse == Estimate(dividend, divisor, m)
    ensures (quot == dividend / divisor && remainder == dividend % divisor) <==> Start(coarse) * divisor <= dividend
  {
    EstimateAbove(dividend, divisor, m);
    EstimateSmall(dividend, divisor, m);
    if Start(coarse) * divisor <= dividend {
      RightIfClose(dividend, divisor, coarse);
    } else {
      WrongIfNot(dividend, divisor, coarse);
    }
    quot := coarse;
    if quot != 0 { quot := quot - 1; }
    remainder := (dividend - quot * divisor) % U64;
    if remainder >= divisor {
      quot := quot + 1;
      remainder := remainder - divisor;
    }
  }

  // ----- which divisors are safe -----

  /** The largest estimate a dividend can lead to. */
  function MaxCoarse(d: nat): nat
    requires d / Unit(d) > 0
  {
    Coarse(U64 - 1, d)
  }

  lemma DivMonotone(a: nat, b: nat, m: nat)
    requires a <= b && m > 0
    ensures a / m <= b / m
  {
    DivIsGreatest(a, m, a / m);
    DivIsGreatest(b, m, a / m);
  }

  lemma CoarseMonotone(a: nat, b: nat, d: nat)
    requires a <= b && d / Unit(d) > 0
    ensures Coarse(a, d) <= Coarse(b, d)
  {
    DivMonotone(a, b, Unit(d));
    DivMonotone(a / Unit(d), b / Unit(d), d / Unit(d));
  }

  /** The smallest dividend with the estimate `c`. */
  lemma Smallest(c: nat, d: nat, m: nat)
    requires m > 0 && d / m > 0
    ensures d % m <= d && Estimate(c * (d - d % m), d, m) == c
  {
    var e: nat := d / m;
    DivMod(d, m);
    assert c * (m * e) == (c * e) * m;
    DivUnique(c * (d - d % m), m, c * e, 0);
    DivUnique(c * e, e, c, 0);
  }

  lemma SmallIsSafe(a: nat, d: nat)
    requires U32 <= d < U64 && d / Unit(d) > 0 && MaxCoarse(d) * Dropped(d) <= d && a < U64
    ensures Close(a, d)
  {
    CoarseMonotone(a, U64 - 1, d);
    MulOrder(Dropped(d), Coarse(a, d), MaxCoarse(d));
    CloseIfSmall(a, d);
  }

  /** The smallest dividend with the largest estimate. */
  lemma LargeFails(d: nat) returns (a: nat)
    requires U32 <= d < U64 && d / Unit(d) > 0 && MaxCoarse(d) * Dropped(d) > d
    ensures a < U64 && !Close(a, d)
  {
    var c := MaxCoarse(d);
    EstimateFits(U64 - 1, d, Unit(d));
    a := c * (d - Dropped(d));
    Smallest(c, d, Unit(d));
    MulSplit(c, d, Dropped(d));
    if c > 0 { MulMinusOne(c, d); }
  }

  /** A divisor of more than 32 bits is divided by correctly, whatever the dividend, exactly when the
      part its shift drops does not add up to it under the largest estimate. */
  lemma SafeDivisorExact(d: nat)
    requires U32 <= d < U64 && d / Unit(d) > 0
    ensures MaxCoarse(d) * Dropped(d) <= d <==> forall a: nat :: a < U64 ==> Close(a, d)
  {
    if MaxCoarse(d) * Dropped(d) <= d {
      forall a: nat | a < U64 ensures Close(a, d) { SmallIsSafe(a, d); }
    } else {
      var a := LargeFails(d);
    }
  }

  /** All divisors from 2^34 on are. */
  lemma LargeDivisorSafe(d: nat)
    requires 4 * U32 <= d < U64
    ensures d / Unit(d) > 0 && MaxCoarse(d) * Dropped(d) <= d
  {
    ShiftedDivisor(d);
    var m, e: nat := Unit(d), d / Unit(d);
    var c := MaxCoarse(d);
    EstimateFits(U64 - 1, d, m);
    DivMod(d, m);
    // c * (m * e) < 2^64 with e at least 2^30, so c * m < 2^34
    MulOrder(c * m, 0x4000_0000, e);
    assert c * (m * e) == (c * m) * e;
    assert (c * m) * 0x4000_0000 < U64;
    MulOrder(c, d % m, m);
  }

  /** Below that there are some that are not: 2^32 + 3 is one. */
  lemma SmallDivisorFails()
    ensures (U32 + 3) / Unit(U32 + 3) > 0 && !Close(U64 - 1, U32 + 3)
  {
    assert (U32 + 3) / U32 == 1;
    assert Log2(1) == 0 && Fls(1) == 1;
    assert Pow2(2) == 2 * Pow2(1) && Pow2(1) == 2 * Pow2(0);
    assert Unit(U32 + 3) == 4;
  }
}

/**
 The last step of exact decimal reading (rapidjson/internal/strtod.h): is a decimal number
 within half a unit in the last place of a double? The double is its bit pattern, read as
 rapidjson/internal/ieee754.h reads it.
 */
module HalfUlp {
  import opened Sax
  import opened Scan
  import opened Powers
  import opened Limbs
  import opened BigIntegers
  import I = Itoa

  // ---------------------------------------------------------------- powers with any exponent

  ghost function NatPower(b: nat, n: nat): (r: real)
    requires b > 0
    ensures r > 0.0
  {
    PowPositive(b, n);
    Pow(b, n) as real
  }

  /** b to the e, also for e < 0. */
  ghost function Power(b: nat, e: int): (r: real)
    requires b > 0
    ensures r > 0.0
  {
    if e >= 0 then NatPower(b, e) else 1.0 / NatPower(b, 0 - e)
  }

  lemma Cancel(x: real, y: real)
    requires x > 0.0 && y > 0.0
    ensures 1.0 / (x * y) == 1.0 / x * (1.0 / y)
    ensures 1.0 / x * (x * y) == y
    ensures 1.0 / (x * y) * x == 1.0 / y
  {
    var i, j := 1.0 / x, 1.0 / y;
    assert i * x == 1.0 && j * y == 1.0;
    var k := 1.0 / (x * y);
    assert k * (x * y) == 1.0;
    assert i * j * (x * y) == (i * x) * (j * y);
    SameInverse(k, i * j, x * y);
    assert i * (x * y) == i * x * y;
    assert i * j * x == (i * x) * j;
  }

  lemma SameInverse(a: real, b: real, c: real)
    requires c != 0.0 && a * c == b * c
    ensures a == b
  {
    assert (a - b) * c == 0.0;
  }

  lemma NatPowerAdd(b: nat, m: nat, n: nat)
    requires b > 0
    ensures NatPower(b, m + n) == NatPower(b, m) * NatPower(b, n)
  {
    hide Pow;
    PowAdd(b, m, n);
    ProductReal(Pow(b, m), Pow(b, n));
  }

  lemma PowerAdd(b: nat, m: int, n: int)
    requires b > 0
    ensures Power(b, m + n) == Power(b, m) * Power(b, n)
  {
    hide NatPower;
    if m >= 0 && n >= 0 {
      NatPowerAdd(b, m, n);
    } else if m < 0 && n < 0 {
      NatPowerAdd(b, 0 - m, 0 - n);
      Cancel(NatPower(b, 0 - m), NatPower(b, 0 - n));
    } else if m < 0 {
      MixedAdd(b, 0 - m, n);
    } else {
      MixedAdd(b, 0 - n, m);
    }
  }

  lemma MixedAdd(b: nat, m: nat, n: nat)
    requires b > 0 && m > 0
    ensures Power(b, n - m) == Power(b, 0 - m) * Power(b, n)
  {
    hide NatPower;
    if m <= n {
      NatPowerAdd(b, m, n - m);
      Cancel(NatPower(b, m), NatPower(b, n - m));
    } else {
      NatPowerAdd(b, n, m - n);
      Cancel(NatPower(b, n), NatPower(b, m - n));
    }
  }

  lemma PowerTen(e: int)
    ensures Power(10, e) == Power(2, e) * Power(5, e)
  {
    var n := if e >= 0 then e else 0 - e;
    TenIsTwoFives(n);
    hide NatPower;
    Cancel(NatPower(2, n), NatPower(5, n));
  }

  lemma TenIsTwoFives(n: nat)
    ensures NatPower(10, n) == NatPower(2, n) * NatPower(5, n)
  {
    hide Pow;
    PowMul(2, 5, n);
    ProductReal(Pow(2, n), Pow(5, n));
  }

  // ---------------------------------------------------------------- doubles as bit patterns

  const HIDDEN := 0x10_0000_0000_0000

  /** The pattern of infinity: the patterns below are the finite doubles that are not negative. */
  const INFINITY := 0x7FF * HIDDEN

  type Bits = u: int | 0 <= u <= INFINITY

  function Significand(u: Bits): int { u % HIDDEN }

  function Biased(u: Bits): int { u / HIDDEN }

  predicate IsNormal(u: Bits) { Biased(u) != 0 || Significand(u) == 0 }

  function IntegerSignificand(u: Bits): (r: uint64) {
    if IsNormal(u) then Significand(u) + HIDDEN else Significand(u)
  }

  function IntegerExponent(u: Bits): int {
    (if IsNormal(u) then Biased(u) - 0x3FF else 1 - 0x3FF) - 52
  }

  /** The double that a pattern stands for, by IEEE 754. */
  ghost function DoubleValue(u: Bits): real {
    if Biased(u) == 0 then Significand(u) as real * Power(2, -1074)
    else (HIDDEN + Significand(u)) as real * Power(2, Biased(u) - 1075)
  }

  /** The decimal number d * 10^e. */
  ghost function Decimal(d: nat, e: int): (r: real)
    ensures r >= 0.0
  {
    d as real * Power(10, e)
  }

  /** The number b * 2^e. */
  ghost function Dyadic(b: nat, e: int): real { b as real * Power(2, e) }

  function Sign(x: real, y: real): int { if x < y then -1 else if x > y then 1 else 0 }

  function Abs(x: real): real { if x < 0.0 then -x else x }

  // ---------------------------------------------------------------- the common scale

  /** The exponents of 2 and 5 by which the number, the double and half its unit are scaled. */
  datatype Scales = Scales(d2: int, d5: int, b2: int, b5: int, h2: int, h5: int)

  /**
   The three numbers d * 10^dExp, b * 2^bExp and 2^(bExp - 1) are multiplied by the least
   factor 2^k * 5^m that leaves no negative exponent: k and m are the same in all three.
   */
  function ScalesOf(dExp: int, bExp: int): (s: Scales)
    ensures s.d2 >= 0 && s.d5 >= 0 && s.b2 >= 0 && s.b5 >= 0 && s.h2 >= 0 && s.h5 >= 0
    ensures s.d2 == 0 || s.h2 == 0
    ensures s.d2 - dExp == s.b2 - bExp == s.h2 - (bExp - 1) && s.d5 - dExp == s.b5 == s.h5
  {
    var k := if dExp < bExp - 1 then -dExp else 1 - bExp;
    var m := if dExp < 0 then -dExp else 0;
    Scales(dExp + k, dExp + m, bExp + k, m, bExp - 1 + k, m)
  }

  /** The adjustments of CheckWithinHalfULP, one after the other. */
  method Adjust(dExp: int, bExp: int) returns (s: Scales)
    ensures s == ScalesOf(dExp, bExp)
  {
    var hExp := bExp - 1;
    var d2, d5, b2, b5, h2, h5 := 0, 0, 0, 0, 0, 0;
    if dExp >= 0 {
      d2 := d2 + dExp;
      d5 := d5 + dExp;
    } else {
      b2 := b2 - dExp;
      b5 := b5 - dExp;
      h2 := h2 - dExp;
      h5 := h5 - dExp;
    }
    if bExp >= 0 {
      b2 := b2 + bExp;
    } else {
      d2 := d2 - bExp;
      h2 := h2 - bExp;
    }
    if hExp >= 0 {
      h2 := h2 + hExp;
    } else {
      d2 := d2 - hExp;
      b2 := b2 - hExp;
    }
    var common := d2;
    if common > b2 {
      common := b2;
    }
    if common > h2 {
      common := h2;
    }
    s := Scales(d2 - common, d5, b2 - common, b5, h2 - common, h5);
  }

  /** v * 2^e2 * 5^e5, also for negative exponents. */
  ghost function Times(v: nat, e2: int, e5: int): real {
    v as real * (Power(2, e2) * Power(5, e5))
  }

  /** The same product for exponents that are not negative, as BigInteger computes it. */
  function Scaled(v: nat, e2: nat, e5: nat): nat { v * Pow(5, e5) * Pow(2, e2) }

  ghost function Factor(k: int, m: int): real { Power(2, k) * Power(5, m) }

  /** A scaled number is the number times the common factor. */
  lemma ScaledBy(v: nat, e2: int, e5: int, k: int, m: int)
    requires e2 + k >= 0 && e5 + m >= 0
    ensures Scaled(v, e2 + k, e5 + m) as real == Times(v, e2, e5) * Factor(k, m)
  {
    hide Power, Pow;
    var a, b := Pow(2, e2 + k), Pow(5, e5 + m);
    var x, y, z, w := Power(2, e2), Power(5, e5), Power(2, k), Power(5, m);
    assert a as real == x * z by {
      PowerAdd(2, e2, k);
      PowerNat(2, e2 + k);
    }
    assert b as real == y * w by {
      PowerAdd(5, e5, m);
      PowerNat(5, e5 + m);
    }
    ScaleArith(v, a, b, x, y, z, w);
  }

  lemma PowerNat(b: nat, n: nat)
    requires b > 0
    ensures Power(b, n) == Pow(b, n) as real
  {
  }

  lemma ScaleArith(v: int, a: int, b: int, x: real, y: real, z: real, w: real)
    requires a as real == x * z && b as real == y * w
    ensures (v * b * a) as real == v as real * (x * y) * (z * w)
  {
    ProductReal(v * b, a);
    ProductReal(v, b);
    Regroup(v as real, x, y, z, w);
  }

  lemma ProductReal(a: int, b: int)
    ensures (a * b) as real == a as real * b as real
  {
  }

  lemma Regroup(v: real, a: real, b: real, c: real, d: real)
    ensures v * (b * d) * (a * c) == v * (a * b) * (c * d)
  {
    Assoc(v, b * d, a * c);
    Assoc(v, a * b, c * d);
    Assoc(b, d, a * c);
    Assoc(d, a, c);
    Assoc(a, d, c);
    Assoc(b, a, d * c);
  }

  lemma Assoc(x: real, y: real, z: real)
    ensures x * y * z == x * (y * z)
  {
  }

  lemma {:induction false} ScalesBounded(dExp: int, bExp: int)
    requires -2500 <= dExp <= 2500 && -1075 <= bExp <= 971
    ensures var s := ScalesOf(dExp, bExp);
            && s.d2 <= 3576 && s.b2 <= 3576 && s.h2 <= 3576
            && s.d5 <= 2500 && s.b5 <= 2500 && s.h5 <= 2500
  {
  }

  /** Comparing the scaled numbers is comparing the numbers. */
  lemma ScalingKeepsSign(d: nat, dExp: int, b: nat, bExp: int)
    ensures var s := ScalesOf(dExp, bExp);
            var dS, bS, hS := Scaled(d, s.d2, s.d5), Scaled(b, s.b2, s.b5), Scaled(1, s.h2, s.h5);
            && (dS == bS <==> Decimal(d, dExp) == Dyadic(b, bExp))
            && (dS < bS <==> Decimal(d, dExp) < Dyadic(b, bExp))
            && Order(Distance(dS, bS), hS) == Sign(Abs(Decimal(d, dExp) - Dyadic(b, bExp)), Dyadic(1, bExp - 1))
  {
    hide Power, Pow, Times, Factor, Scaled, Decimal, Dyadic;
    var s := ScalesOf(dExp, bExp);
    var k, m := s.d2 - dExp, s.b5;
    var f := Factor(k, m);
    ScaledBy(d, dExp, dExp, k, m);
    ScaledBy(b, bExp, 0, k, m);
    ScaledBy(1, bExp - 1, 0, k, m);
    DecimalTimes(d, dExp);
    DyadicTimes(b, bExp);
    DyadicTimes(1, bExp - 1);
    FactorPositive(k, m);
    SignArith(Scaled(d, s.d2, s.d5), Scaled(b, s.b2, s.b5), Scaled(1, s.h2, s.h5),
              Decimal(d, dExp), Dyadic(b, bExp), Dyadic(1, bExp - 1), f);
  }

  lemma FactorPositive(k: int, m: int)
    ensures Factor(k, m) > 0.0
  {
    hide Power;
  }

  lemma DecimalTimes(d: nat, e: int)
    ensures Decimal(d, e) == Times(d, e, e)
  {
    hide Power;
    PowerTen(e);
  }

  lemma DyadicTimes(b: nat, e: int)
    ensures Dyadic(b, e) == Times(b, e, 0)
  {
    assert Power(5, 0) == 1.0;
    hide Power;
  }

  lemma SignArith(dS: int, bS: int, hS: int, d: real, b: real, h: real, f: real)
    requires dS as real == d * f && bS as real == b * f && hS as real == h * f && f > 0.0
    ensures (dS == bS <==> d == b) && (dS < bS <==> d < b)
    ensures Order(if dS < bS then bS - dS else dS - bS, hS) == Sign(Abs(d - b), h)
  {
    Ordered(d, b, f);
    Ordered(b, d, f);
    assert dS < bS <==> dS as real < bS as real;
    assert dS > bS <==> dS as real > bS as real;
    if dS < bS {
      assert Abs(d - b) == b - d;
      DistanceSign(bS - dS, b, d, hS, h, f);
    } else {
      assert Abs(d - b) == d - b;
      DistanceSign(dS - bS, d, b, hS, h, f);
    }
  }

  lemma DistanceSign(delta: int, x: real, y: real, hS: int, h: real, f: real)
    requires delta as real == x * f - y * f && hS as real == h * f && f > 0.0
    ensures Order(delta, hS) == Sign(x - y, h)
  {
    Scattered(x, y, f);
    Ordered(x - y, h, f);
    Ordered(h, x - y, f);
  }

  lemma Scattered(x: real, y: real, f: real)
    ensures (x - y) * f == x * f - y * f
  {
  }

  lemma Ordered(x: real, y: real, f: real)
    requires f > 0.0
    ensures x < y <==> x * f < y * f
  {
    if x < y {
      assert (y - x) * f > 0.0;
    } else {
      assert (x - y) * f >= 0.0;
    }
  }

  // ---------------------------------------------------------------- the comparison itself

  /** The normal words of a number. */
  function WordsOf(v: nat): (w: Words)
    ensures Normal(w) && Val(w) == v && (v > 0 ==> w[|w| - 1] != 0)
  {
    if v < BASE then [v] else
      var rest := WordsOf(v / BASE);
      var w := [v % BASE] + rest;
      assert w[1..] == rest;
      w
  }

  lemma WordsUnique(w: Words)
    requires Normal(w)
    ensures w == WordsOf(Val(w))
  {
    hide Val, Normal, WordsOf;
    SameWords(w, WordsOf(Val(w)));
  }

  /** A left shift that stays clear of the whole-word branch for several words. */
  predicate ShiftExact(v: nat, shift: nat) { shift % 64 != 0 || shift == 0 || v < BASE }

  /** A shift by one word repeats words of the number itself; longer ones meet words never written. */
  predicate ShiftDetermined(v: nat, shift: nat) { ShiftExact(v, shift) || shift == 64 }

  /** What the shift of the original gives. */
  function ShiftValue(v: nat, shift: nat): nat
    requires ShiftDetermined(v, shift)
  {
    if ShiftExact(v, shift) then v * Pow(2, shift)
    else
      var w := WordsOf(v);
      Val([0] + w[1..] + [w[|w| - 1]])
  }

  function Distance(x: nat, y: nat): nat { if x < y then y - x else x - y }

  /** What the lost borrows add when the smaller number is taken from the larger one. */
  function LostBy(x: nat, y: nat): nat {
    if x < y then LostSum(WordsOf(y), WordsOf(x), |WordsOf(y)|) else LostSum(WordsOf(x), WordsOf(y), |WordsOf(x)|)
  }

  /** What Difference of the original gives for two different numbers. */
  function DifferenceValue(x: nat, y: nat): nat { Distance(x, y) + LostBy(x, y) }

  /** The sign that is returned, or the failing assertion of Difference for two equal numbers. */
  datatype Checked = Compared(sign: int) | AssertionFails

  predicate Determined(d: nat, dExp: int, b: nat, bExp: int) {
    var s := ScalesOf(dExp, bExp);
    && ShiftDetermined(d * Pow(5, s.d5), s.d2)
    && ShiftDetermined(b * Pow(5, s.b5), s.b2)
    && ShiftDetermined(1 * Pow(5, s.h5), s.h2)
  }

  /** What the original computes, lost borrows and misplaced words included. */
  function Outcome(d: nat, dExp: int, b: nat, bExp: int): Checked
    requires Determined(d, dExp, b, bExp)
  {
    var s := ScalesOf(dExp, bExp);
    var dS := ShiftValue(d * Pow(5, s.d5), s.d2);
    var bS := ShiftValue(b * Pow(5, s.b5), s.b2);
    var hS := ShiftValue(1 * Pow(5, s.h5), s.h2);
    if dS == bS then AssertionFails else Compared(Order(DifferenceValue(dS, bS), hS))
  }

  /**
   The integer operations of one comparison are exact: no shift of several words by whole
   words, and no borrow is lost in the subtraction.
   */
  predicate ExactArithmetic(d: nat, dExp: int, b: nat, bExp: int) {
    var s := ScalesOf(dExp, bExp);
    && ShiftExact(d * Pow(5, s.d5), s.d2)
    && ShiftExact(b * Pow(5, s.b5), s.b2)
    && ShiftExact(1 * Pow(5, s.h5), s.h2)
    && BorrowsKept(Scaled(d, s.d2, s.d5), Scaled(b, s.b2, s.b5))
  }

  /** No borrow is lost when the smaller number is taken from the larger one. */
  predicate BorrowsKept(x: nat, y: nat) {
    if x < y then NoLostBorrow(WordsOf(y), WordsOf(x)) else NoLostBorrow(WordsOf(x), WordsOf(y))
  }

  /** With exact arithmetic the outcome is the sign of the distance, less half a unit. */
  lemma ExactOutcome(d: nat, dExp: int, b: nat, bExp: int)
    requires ExactArithmetic(d, dExp, b, bExp)
    ensures Determined(d, dExp, b, bExp)
    ensures RightSign(d, dExp, b, bExp) && Outcome(d, dExp, b, bExp) == TrueOutcome(d, dExp, b, bExp)
  {
    hide Pow, Decimal, Dyadic, WordsOf, LostSum, NoLostBorrow, ScalesOf;
    ScalingKeepsSign(d, dExp, b, bExp);
    var s := ScalesOf(dExp, bExp);
    var dS, bS := Scaled(d, s.d2, s.d5), Scaled(b, s.b2, s.b5);
    ExactIffKept(WordsOf(dS), WordsOf(bS));
    ExactIffKept(WordsOf(bS), WordsOf(dS));
  }

  // ---------------------------------------------------------------- when the outcome is right

  /** The outcome that is meant: the sign of the distance, less half a unit. */
  ghost function TrueOutcome(d: nat, dExp: int, b: nat, bExp: int): Checked {
    if Decimal(d, dExp) == Dyadic(b, bExp) then AssertionFails
    else Compared(Sign(Abs(Decimal(d, dExp) - Dyadic(b, bExp)), Dyadic(1, bExp - 1)))
  }

  predicate NumberExact(d: nat, dExp: int, bExp: int) {
    var s := ScalesOf(dExp, bExp); ShiftExact(d * Pow(5, s.d5), s.d2)
  }

  predicate DoubleExact(dExp: int, b: nat, bExp: int) {
    var s := ScalesOf(dExp, bExp); ShiftExact(b * Pow(5, s.b5), s.b2)
  }

  predicate HalfExact(dExp: int, bExp: int) {
    var s := ScalesOf(dExp, bExp); ShiftExact(1 * Pow(5, s.h5), s.h2)
  }

  /** Of the three shifts at most one can go wrong: no other one is by 64 bits then. */
  lemma OneShiftWrong(d: nat, dExp: int, b: nat, bExp: int)
    requires Determined(d, dExp, b, bExp)
    ensures !HalfExact(dExp, bExp) ==> NumberExact(d, dExp, bExp) && DoubleExact(dExp, b, bExp)
    ensures !DoubleExact(dExp, b, bExp) ==> NumberExact(d, dExp, bExp) && HalfExact(dExp, bExp)
    ensures !NumberExact(d, dExp, bExp) ==> DoubleExact(dExp, b, bExp) && HalfExact(dExp, bExp)
  {
    hide Pow, ScalesOf;
    var s := ScalesOf(dExp, bExp);
    assert s.b2 == s.h2 + 1 && (s.d2 == 0 || s.h2 == 0);
  }

  /** `x` against `h` is as `y` against `k`. */
  predicate SameSide(x: int, h: int, y: int, k: int) {
    (x < h && y < k) || (x == h && y == k) || (x > h && y > k)
  }

  function Least(x: nat, y: nat): nat { if x < y then x else y }
  function Greatest(x: nat, y: nat): nat { if x < y then y else x }

  /**
   The exact condition for a right outcome, on the scaled integers. With exact shifts: the lost
   borrows, if any, do not carry the distance over half a unit. If half a unit is misplaced: the
   distance does not lie between the misplaced and the true half unit. If the number or the
   double is misplaced: its distance is on the same side of half a unit as the true one.
   */
  predicate RightSign(d: nat, dExp: int, b: nat, bExp: int)
    requires Determined(d, dExp, b, bExp)
  {
    var s := ScalesOf(dExp, bExp);
    var dS, bS, hS := Scaled(d, s.d2, s.d5), Scaled(b, s.b2, s.b5), Scaled(1, s.h2, s.h5);
    var dist, lost := Distance(dS, bS), LostBy(dS, bS);
    if !HalfExact(dExp, bExp) then
      var hM := ShiftValue(1 * Pow(5, s.h5), s.h2);
      dS == bS || (if lost == 0 then hM == hS || dist < Least(hS, hM) || dist > Greatest(hS, hM)
                   else SameSide(dist, hS, dist + lost, hM))
    else if !NumberExact(d, dExp, bExp) || !DoubleExact(dExp, b, bExp) then
      var dM, bM := ShiftValue(d * Pow(5, s.d5), s.d2), ShiftValue(b * Pow(5, s.b5), s.b2);
      (dS == bS <==> dM == bM) && (dS != bS && dM != bM ==> SameSide(dist, hS, DifferenceValue(dM, bM), hS))
    else
      dS == bS || lost == 0 || dist > hS || dist + lost < hS
  }

  lemma RightSignIff(d: nat, dExp: int, b: nat, bExp: int)
    requires Determined(d, dExp, b, bExp)
    ensures Outcome(d, dExp, b, bExp) == TrueOutcome(d, dExp, b, bExp) <==> RightSign(d, dExp, b, bExp)
  {
    hide Pow, Decimal, Dyadic, WordsOf, LostBy, ScalesOf, Val;
    ScalingKeepsSign(d, dExp, b, bExp);
    OneShiftWrong(d, dExp, b, bExp);
  }

  /** The next double is taken: above half a unit, or at half a unit of an odd double. */
  predicate RoundsUp(odd: bool, dist: int, h: int) { dist > h || (dist == h && odd) }

  /** The exact condition for the right choice between the two doubles, in the same three cases. */
  predicate RightChoice(odd: bool, d: nat, dExp: int, b: nat, bExp: int)
    requires Determined(d, dExp, b, bExp) && Outcome(d, dExp, b, bExp).Compared?
  {
    var s := ScalesOf(dExp, bExp);
    var dS, bS, hS := Scaled(d, s.d2, s.d5), Scaled(b, s.b2, s.b5), Scaled(1, s.h2, s.h5);
    var dist, lost := Distance(dS, bS), LostBy(dS, bS);
    if !HalfExact(dExp, bExp) then
      var hM := ShiftValue(1 * Pow(5, s.h5), s.h2);
      RoundsUp(odd, dist, hS) <==> RoundsUp(odd, dist + lost, hM)
    else if !NumberExact(d, dExp, bExp) || !DoubleExact(dExp, b, bExp) then
      var dM, bM := ShiftValue(d * Pow(5, s.d5), s.d2), ShiftValue(b * Pow(5, s.b5), s.b2);
      RoundsUp(odd, dist, hS) <==> RoundsUp(odd, DifferenceValue(dM, bM), hS)
    else
      lost == 0 || RoundsUp(odd, dist, hS) || !RoundsUp(odd, dist + lost, hS)
  }

  /** Room for multiplying by 5^e5 and shifting by e2. */
  predicate Fits(count: nat, e2: nat, e5: nat) { 2 * (count + e5 / 27 + 3) + e2 / 64 <= CAPACITY }

  predicate AllFit(count: nat, dExp: int, bExp: int) {
    var s := ScalesOf(dExp, bExp);
    Fits(count, s.d2, s.d5) && Fits(1, s.b2, s.b5) && Fits(1, s.h2, s.h5)
  }

  /** Every decimal exponent that matters for a double fits, with up to 60 words for the digits. */
  lemma UsualExponentsFit(count: nat, dExp: int, u: Bits)
    requires count <= 60 && -2500 <= dExp <= 2500 && u < INFINITY
    ensures AllFit(count, dExp, IntegerExponent(u))
  {
    ExponentRange(u);
    ScalesBounded(dExp, IntegerExponent(u));
    hide ScalesOf, IntegerExponent;
  }

  /** x.MultiplyPow5(e5) <<= e2 */
  method ScaleUp(x: BigInteger, e2: nat, e5: nat)
    requires x.Valid() && Fits(x.count, e2, e5)
    modifies x, x.digits
    ensures x.Valid()
    ensures var v := old(x.Value()) * Pow(5, e5);
            ShiftDetermined(v, e2) ==> x.Value() == ShiftValue(v, e2)
  {
    hide Val, Pow, Normal, Repeats, WordsOf;
    x.MultiplyPow5(e5);
    ghost var w, b, n := x.digits[..x.count], x.digits[..], x.count;
    OneWordIff(w);
    WordsUnique(w);
    ZeroWords(w);
    x.ShiftLeft(e2);
    if e2 == 64 && n > 1 {
      assert b[..n] == w;
      MovedByOne(w, b, n);
    }
  }

  lemma OneWordIff(w: Words)
    requires Normal(w)
    ensures |w| == 1 <==> Val(w) < BASE
  {
    assert Pow(BASE, 1) == BASE;
    if |w| > 1 {
      NormalLower(w);
      PowMono(BASE, 1, |w| - 1);
    } else {
      assert w == [w[0]];
      ValOne(w[0]);
    }
  }

  lemma ZeroWords(w: Words)
    requires w != []
    ensures |w| == 1 && w[0] == 0 ==> Val(w) == 0
  {
    if |w| == 1 {
      assert w == [w[0]];
      ValOne(w[0]);
    }
  }

  lemma MovedByOne(w: Words, b: Words, n: nat)
    requires 1 < n == |w| < |b| && b[..n] == w
    ensures MovedWords(b, n, 1) == [0] + w[1..] + [w[n - 1]]
  {
    assert b[1..n] == b[..n][1..];
    assert b[n - 1] == b[..n][n - 1];
    assert seq(1, _ => 0) == [0];
  }

  /**
   The sign of the distance between the decimal number and the double, less half a unit in
   the last place of the double, as the original computes it. It is the true sign, for the
   double as it is read off the bit pattern, if and only if RightSign; exact arithmetic is enough.
   */
  method CheckWithinHalfULP(u: Bits, d: BigInteger, dExp: int) returns (r: Checked)
    requires u < INFINITY && d.Valid() && AllFit(d.count, dExp, IntegerExponent(u))
    ensures var bInt, bExp := IntegerSignificand(u), IntegerExponent(u);
            && (Determined(d.Value(), dExp, bInt, bExp) ==>
                  && r == Outcome(d.Value(), dExp, bInt, bExp)
                  && (r == TrueOutcome(d.Value(), dExp, bInt, bExp) <==> RightSign(d.Value(), dExp, bInt, bExp)))
            && (ExactArithmetic(d.Value(), dExp, bInt, bExp) ==> r == TrueOutcome(d.Value(), dExp, bInt, bExp))
  {
    hide Val, Pow, Normal, ExactArithmetic, Decimal, Dyadic, IntegerSignificand, IntegerExponent, ScalesOf, Determined,
      Outcome, TrueOutcome, RightSign, AllFit;
    var bInt, bExp := IntegerSignificand(u), IntegerExponent(u);
    r := Compute(d, dExp, bInt, bExp);
    if Determined(d.Value(), dExp, bInt, bExp) {
      RightSignIff(d.Value(), dExp, bInt, bExp);
    }
    if ExactArithmetic(d.Value(), dExp, bInt, bExp) {
      ExactOutcome(d.Value(), dExp, bInt, bExp);
    }
  }

  /** The body of CheckWithinHalfULP behind the reading of the double. */
  method Compute(d: BigInteger, dExp: int, bInt: uint64, bExp: int) returns (r: Checked)
    requires d.Valid() && AllFit(d.count, dExp, bExp)
    ensures Determined(d.Value(), dExp, bInt, bExp) ==> r == Outcome(d.Value(), dExp, bInt, bExp)
  {
    hide Val, Pow, Normal, ScalesOf, ShiftValue, ShiftDetermined, DifferenceValue, Fits;
    var s := Adjust(dExp, bExp);
    var dS := ScaledNumber(d, s.d2, s.d5);
    var b := new BigInteger(bInt);
    var bS := ScaledNumber(b, s.b2, s.b5);
    var h := new BigInteger(1);
    var hS := ScaledNumber(h, s.h2, s.h5);
    r := CompareDistance(dS, bS, hS);
  }

  /** A copy, scaled. */
  method ScaledNumber(d: BigInteger, e2: nat, e5: nat) returns (x: BigInteger)
    requires d.Valid() && Fits(d.count, e2, e5)
    ensures fresh(x) && fresh(x.digits) && x.Valid()
    ensures var v := d.Value() * Pow(5, e5);
            ShiftDetermined(v, e2) ==> x.Value() == ShiftValue(v, e2)
  {
    hide Val, Pow, Normal, ShiftValue, ShiftDetermined;
    x := new BigInteger.Copy(d);
    ScaleUp(x, e2, e5);
  }

  /** Difference into a new number, then Compare. */
  method CompareDistance(dS: BigInteger, bS: BigInteger, hS: BigInteger) returns (r: Checked)
    requires dS.Valid() && bS.Valid() && hS.Valid()
    ensures r == if dS.Value() == bS.Value() then AssertionFails
                 else Compared(Order(DifferenceValue(dS.Value(), bS.Value()), hS.Value()))
  {
    hide Val, Pow, Normal, NoLostBorrow, LostSum, WordsOf;
    var delta := new BigInteger(0);
    WordsUnique(dS.digits[..dS.count]);
    WordsUnique(bS.digits[..bS.count]);
    var asserted, _ := dS.Difference(bS, delta);
    if !asserted {
      return AssertionFails;
    }
    var c := delta.Compare(hS);
    r := Compared(c);
  }

  lemma ExponentRange(u: Bits)
    requires u < INFINITY
    ensures -1075 <= IntegerExponent(u) <= 971
  {
  }

  // ---------------------------------------------------------------- what the bit pattern means

  /**
   The original takes the pattern of zero for a normal number and reads 2^52 * 2^-1075; every
   other finite pattern is read as the double it stands for.
   */
  lemma ReadRightUnlessZero(u: Bits)
    requires u < INFINITY
    ensures Dyadic(IntegerSignificand(u), IntegerExponent(u)) == DoubleValue(u) <==> u != 0
  {
    hide Power;
    if u == 0 {
      assert DoubleValue(u) == 0.0;
      assert HIDDEN as real * Power(2, -1075) > 0.0;
    }
  }

  /** The unit in the last place is the distance to the next double. */
  lemma UnitInLastPlace(u: Bits)
    requires 0 < u < INFINITY
    ensures DoubleValue(u + 1) - DoubleValue(u) == Dyadic(1, IntegerExponent(u))
  {
    hide Power;
    var e := Biased(u) - 1075;
    PowerDouble(e);
    if Significand(u) < HIDDEN - 1 {
      assert Biased(u + 1) == Biased(u) && Significand(u + 1) == Significand(u) + 1;
    } else {
      assert Biased(u + 1) == Biased(u) + 1 && Significand(u + 1) == 0;
    }
  }

  lemma PowerDouble(e: int)
    ensures Power(2, e + 1) == 2.0 * Power(2, e)
  {
    PowerAdd(2, 1, e);
    assert Pow(2, 1) == 2;
    assert Power(2, 1) == 2.0;
  }

  lemma NextIsLarger(u: Bits)
    requires u < INFINITY
    ensures DoubleValue(u) < DoubleValue(u + 1)
  {
    if u > 0 {
      UnitInLastPlace(u);
    }
    hide Power;
  }

  /** The order of the patterns is the order of the doubles. */
  lemma {:induction false} PatternsOrdered(u: Bits, v: Bits)
    requires u <= v
    ensures DoubleValue(u) <= DoubleValue(v) && (u < v ==> DoubleValue(u) < DoubleValue(v))
    decreases v - u
  {
    hide DoubleValue;
    if u < v {
      NextIsLarger(u);
      PatternsOrdered(u + 1, v);
    }
  }

  /** No double is closer to `x`, and if another one is as close the last bit of `r` is zero. */
  ghost predicate Nearest(r: Bits, x: real) {
    forall v: Bits :: Abs(DoubleValue(r) - x) <= Abs(DoubleValue(v) - x)
                      && (v != r && Abs(DoubleValue(r) - x) == Abs(DoubleValue(v) - x) ==> r % 2 == 0)
  }

  /** The sign that CheckWithinHalfULP computes for the decimal number `x`. */
  ghost function Computed(u: Bits, x: real): int {
    Sign(Abs(x - Dyadic(IntegerSignificand(u), IntegerExponent(u))), Dyadic(1, IntegerExponent(u) - 1))
  }

  /** The sign it is meant to compute. */
  ghost function Intended(u: Bits, x: real): int
    requires u < INFINITY
  {
    Sign(Abs(x - DoubleValue(u)), (DoubleValue(u + 1) - DoubleValue(u)) / 2.0)
  }

  /** The two agree for every double but zero; for zero they agree only far from it. */
  lemma ComputedAsIntended(u: Bits, x: real)
    requires u < INFINITY && x >= 0.0
    ensures Computed(u, x) == Intended(u, x)
            <==> u != 0 || (x > Dyadic(1, -1075) && Abs(x - Dyadic(1, -1023)) > Dyadic(1, -1076))
  {
    if u == 0 {
      ZeroMisread(x);
    } else {
      ReadRightUnlessZero(u);
      UnitInLastPlace(u);
      PowerDouble(IntegerExponent(u) - 1);
      hide Power, DoubleValue;
    }
  }

  /** Everything about zero in units of 2^-1076. */
  lemma AroundZero()
    ensures var t := Power(2, -1076);
            && Dyadic(1, -1075) == 2.0 * t && Dyadic(1, -1076) == t && Dyadic(1, -1023) == 9007199254740992.0 * t
            && DoubleValue(0) == 0.0 && DoubleValue(1) == 4.0 * t
            && Dyadic(IntegerSignificand(0), IntegerExponent(0)) == 9007199254740992.0 * t
            && IntegerExponent(0) == -1075
  {
    PowerDouble(-1076);
    PowerDouble(-1075);
    PowerAdd(2, 53, -1076);
    TwoTo53();
    hide Power;
  }

  lemma TwoTo53()
    ensures Power(2, 53) == 9007199254740992.0
  {
    PowersOfTwo();
    PowAdd(2, 32, 16);
    PowAdd(2, 48, 5);
    assert Pow(2, 5) == 32;
  }

  lemma ZeroMisread(x: real)
    requires x >= 0.0
    ensures Computed(0, x) == Intended(0, x)
            <==> x > Dyadic(1, -1075) && Abs(x - Dyadic(1, -1023)) > Dyadic(1, -1076)
  {
    hide Power, Dyadic, DoubleValue;
    AroundZero();
  }

  // ---------------------------------------------------------------- rounding

  /** The choice between the approximation and the next double. */
  function Rounded(u: Bits, c: int): (r: Bits)
    requires u < INFINITY
  {
    if c < 0 then u else if c == 0 then (if Significand(u) % 2 == 1 then u + 1 else u) else u + 1
  }

  lemma RoundedIsNearest(u: Bits, x: real)
    requires u < INFINITY && DoubleValue(u) <= x <= DoubleValue(u + 1)
    ensures Nearest(Rounded(u, Intended(u, x)), x)
  {
    hide DoubleValue, Significand;
    var r := Rounded(u, Intended(u, x));
    NextIsLarger(u);
    SameParity(u);
    var lo, hi := DoubleValue(u), DoubleValue(u + 1);
    forall v: Bits
      ensures Abs(DoubleValue(r) - x) <= Abs(DoubleValue(v) - x)
      ensures v != r && Abs(DoubleValue(r) - x) == Abs(DoubleValue(v) - x) ==> r % 2 == 0
    {
      if v <= u {
        PatternsOrdered(v, u);
      } else {
        PatternsOrdered(u + 1, v);
      }
      Outside(lo, hi, x, DoubleValue(v));
    }
  }

  /** Of two neighbours only one is the nearest with ties to even. */
  lemma OnlyOneNearest(u: Bits, x: real)
    requires u < INFINITY
    ensures !(Nearest(u, x) && Nearest(u + 1, x))
  {
    hide DoubleValue;
    if Nearest(u, x) && Nearest(u + 1, x) {
      assert Abs(DoubleValue(u) - x) <= Abs(DoubleValue(u + 1) - x);
      assert Abs(DoubleValue(u + 1) - x) <= Abs(DoubleValue(u) - x);
      OneIsOdd(u);
    }
  }

  lemma OneIsOdd(u: int)
    ensures u % 2 != 0 || (u + 1) % 2 != 0
  {
  }

  /** A choice between the two doubles around `x` is the nearest exactly if it is the intended one. */
  lemma NearestIffIntended(u: Bits, c: int, x: real)
    requires u < INFINITY && DoubleValue(u) <= x <= DoubleValue(u + 1)
    ensures Nearest(Rounded(u, c), x) <==> Rounded(u, c) == Rounded(u, Intended(u, x))
  {
    hide DoubleValue, Nearest, Intended;
    RoundedIsNearest(u, x);
    OnlyOneNearest(u, x);
  }

  /** What the comparison of two integers means for the choice. */
  lemma RoundedByOrder(u: Bits, dist: int, h: int)
    requires u < INFINITY
    ensures Rounded(u, Order(dist, h)) == if RoundsUp(Significand(u) % 2 == 1, dist, h) then u + 1 else u
  {
  }

  /** The exact condition for a right rounding, by what the double and the digits are. */
  ghost predicate RightRounding(u: Bits, d: nat, dExp: int)
    requires u < INFINITY
    requires Determined(d, dExp, IntegerSignificand(u), IntegerExponent(u))
    requires Outcome(d, dExp, IntegerSignificand(u), IntegerExponent(u)).Compared?
  {
    if u == 0 then Decimal(d, dExp) > Dyadic(1, -1075)
    else RightChoice(Significand(u) % 2 == 1, d, dExp, IntegerSignificand(u), IntegerExponent(u))
  }

  /**
   The digits are rounded to the nearest double, ties to even, if and only if RightRounding: for
   every finite double and every decimal number between it and the next one.
   */
  lemma RoundingIff(u: Bits, d: nat, dExp: int)
    requires u < INFINITY
    requires Determined(d, dExp, IntegerSignificand(u), IntegerExponent(u))
    requires Outcome(d, dExp, IntegerSignificand(u), IntegerExponent(u)).Compared?
    requires DoubleValue(u) <= Decimal(d, dExp) <= DoubleValue(u + 1)
    ensures Nearest(Rounded(u, Outcome(d, dExp, IntegerSignificand(u), IntegerExponent(u)).sign), Decimal(d, dExp))
            <==> RightRounding(u, d, dExp)
  {
    hide Power, Decimal, Dyadic, DoubleValue, Nearest, IntegerSignificand, IntegerExponent, Computed, Intended, Determined,
      Outcome, RightChoice;
    var b, e, x := IntegerSignificand(u), IntegerExponent(u), Decimal(d, dExp);
    var c := Outcome(d, dExp, b, e).sign;
    NearestIffIntended(u, c, x);
    if u == 0 {
      ZeroIntended(x);
      ZeroRead();
      ZeroOutcome(d, dExp);
    } else {
      ComputedAsIntended(u, x);
      ChoiceIff(u, d, dExp, b, e);
      ComputedIs(u, x, b, e);
    }
  }

  lemma ComputedIs(u: Bits, x: real, b: nat, e: int)
    requires b == IntegerSignificand(u) && e == IntegerExponent(u)
    ensures Computed(u, x) == Sign(Abs(x - Dyadic(b, e)), Dyadic(1, e - 1))
  {
  }

  /** The intended choice next to zero. */
  lemma ZeroIntended(x: real)
    requires DoubleValue(0) <= x <= DoubleValue(1)
    ensures Rounded(0, Intended(0, x)) == if x > Dyadic(1, -1075) then 1 else 0
    ensures forall c: int :: Rounded(0, c) == if c > 0 then 1 else 0
  {
    hide Power, Dyadic, DoubleValue;
    AroundZero();
  }

  lemma ZeroRead()
    ensures IntegerSignificand(0) == HIDDEN && IntegerExponent(0) == -1075
  {
  }

  /** A misplaced number is more than half and less than twice the true one. */
  lemma MisplacedBounds(v: nat, shift: nat)
    requires ShiftDetermined(v, shift)
    ensures var m, t := ShiftValue(v, shift), v * Pow(2, shift);
            m == t || (m < 2 * t && t < 2 * m)
  {
    hide Val, Pow, WordsOf;
    if !ShiftExact(v, shift) {
      MovedBounds(WordsOf(v));
      PowersOfTwo();
    }
  }

  /** The words that a shift by one word leaves, against those of the true result. */
  lemma MovedBounds(w: Words)
    requires Normal(w) && Val(w) >= BASE
    ensures var m, t := Val([0] + w[1..] + [w[|w| - 1]]), Val(w) * BASE;
            m < 2 * t && t < 2 * m
  {
    hide Val;
    OneWordIff(w);
    var n := |w| - 1;
    TopMoved(w, n);
    var moved := w[1..] + [w[n]];
    assert [0] + w[1..] + [w[n]] == [0] + moved;
    ZeroBelow(moved);
  }

  lemma ZeroBelow(w: Words)
    ensures Val([0] + w) == BASE * Val(w)
  {
    assert ([0] + w)[1..] == w;
  }

  lemma TopMoved(w: Words, n: nat)
    requires Normal(w) && n == |w| - 1 > 0
    ensures var m := Val(w[1..] + [w[n]]);
            m < 2 * Val(w) && Val(w) < 2 * m
  {
    hide Val, Pow;
    var p, top := Pow(BASE, n), w[n];
    assert w == w[..n] + [top];
    ValSnoc(w[..n], top);
    ValSnoc(w[1..], top);
    ValBound(w[..n]);
    ValBound(w[1..]);
    MulMono(1, top, p);
    MulCommutes(p, top);
  }

  /** A decimal number of at most four half units, scaled. */
  lemma FourHalfUnits(d: nat, dExp: int, bExp: int)
    requires Decimal(d, dExp) <= 4.0 * Dyadic(1, bExp - 1)
    ensures var s := ScalesOf(dExp, bExp);
            Scaled(d, s.d2, s.d5) <= 4 * Scaled(1, s.h2, s.h5) && Scaled(1, s.h2, s.h5) > 0
  {
    hide Power, Pow, Times, Factor, Scaled, Decimal, Dyadic;
    var s := ScalesOf(dExp, bExp);
    var k, m := s.d2 - dExp, s.b5;
    ScaledBy(d, dExp, dExp, k, m);
    ScaledBy(1, bExp - 1, 0, k, m);
    DecimalTimes(d, dExp);
    DyadicTimes(1, bExp - 1);
    FactorPositive(k, m);
    ScaledOnePositive(s.h2, s.h5);
    FourTimes(Decimal(d, dExp), Dyadic(1, bExp - 1), Factor(k, m), Scaled(d, s.d2, s.d5), Scaled(1, s.h2, s.h5));
  }

  lemma FourTimes(x: real, h: real, f: real, dS: int, hS: int)
    requires x <= 4.0 * h && f > 0.0 && dS as real == x * f && hS as real == h * f
    ensures dS <= 4 * hS
  {
    assert (4.0 * h - x) * f >= 0.0;
    Scattered(4.0 * h, x, f);
    assert 4.0 * h * f == 4.0 * (h * f);
  }

  lemma ScaledOnePositive(e2: nat, e5: nat)
    ensures Scaled(1, e2, e5) > 0
  {
    PowPositive(2, e2);
    PowPositive(5, e5);
    hide Pow;
    MulMono(1, Pow(5, e5), Pow(2, e2));
  }

  /** The double that zero is taken for is 2^53 half units. */
  lemma ZeroScaled(dExp: int)
    ensures var s := ScalesOf(dExp, -1075);
            Scaled(HIDDEN, s.b2, s.b5) == 2 * HIDDEN * Scaled(1, s.h2, s.h5)
  {
    hide ScalesOf;
    var s := ScalesOf(dExp, -1075);
    assert s.b2 == s.h2 + 1 && s.b5 == s.h5;
    var f, p := Pow(5, s.h5), Pow(2, s.h2);
    assert Pow(2, s.b2) == 2 * p;
    hide Pow;
    assert HIDDEN * f * (2 * p) == 2 * HIDDEN * (f * p);
  }

  /** Next to zero the original rounds up, whatever its shifts and borrows do. */
  lemma ZeroOutcome(d: nat, dExp: int)
    requires Determined(d, dExp, HIDDEN, -1075) && Decimal(d, dExp) <= DoubleValue(1)
    ensures Outcome(d, dExp, HIDDEN, -1075) == Compared(1)
  {
    hide Power, Pow, Decimal, Dyadic, DoubleValue, ScalesOf, ShiftValue, WordsOf, LostBy;
    AroundZero();
    FourHalfUnits(d, dExp, -1075);
    ZeroScaled(dExp);
    var s := ScalesOf(dExp, -1075);
    MisplacedBounds(d * Pow(5, s.d5), s.d2);
    MisplacedBounds(HIDDEN * Pow(5, s.b5), s.b2);
    MisplacedBounds(1 * Pow(5, s.h5), s.h2);
  }

  lemma ChoiceIff(u: Bits, d: nat, dExp: int, b: nat, e: int)
    requires u < INFINITY && Determined(d, dExp, b, e) && Outcome(d, dExp, b, e).Compared?
    ensures Rounded(u, Outcome(d, dExp, b, e).sign)
            == Rounded(u, Sign(Abs(Decimal(d, dExp) - Dyadic(b, e)), Dyadic(1, e - 1)))
            <==> RightChoice(Significand(u) % 2 == 1, d, dExp, b, e)
  {
    hide Pow, Decimal, Dyadic, WordsOf, LostBy, ScalesOf, Val, Significand, Rounded;
    ScalingKeepsSign(d, dExp, b, e);
    OneShiftWrong(d, dExp, b, e);
    var s := ScalesOf(dExp, e);
    var dS, bS, hS := Scaled(d, s.d2, s.d5), Scaled(b, s.b2, s.b5), Scaled(1, s.h2, s.h5);
    var dM, bM, hM := ShiftValue(d * Pow(5, s.d5), s.d2), ShiftValue(b * Pow(5, s.b5), s.b2), ShiftValue(1 * Pow(5, s.h5), s.h2);
    RoundedByOrder(u, Distance(dS, bS), hS);
    RoundedByOrder(u, DifferenceValue(dM, bM), hM);
  }

  lemma SameParity(u: Bits)
    ensures Significand(u) % 2 == u % 2 && (u % 2 == 1 ==> (u + 1) % 2 == 0)
  {
    var q, r := u / HIDDEN, u % HIDDEN;
    var h, b := r / 2, r % 2;
    assert u == HIDDEN * q + r && r == 2 * h + b;
    TwoMod(u, HIDDEN / 2 * q + h, b);
    TwoMod(u + 1, HIDDEN / 2 * q + h + b, 1 - b);
  }

  lemma TwoMod(x: int, k: int, b: int)
    requires x == 2 * k + b && 0 <= b < 2
    ensures x % 2 == b
  {
  }

  /** A number that is not between `lo` and `hi` is no closer to `x` than the nearer of the two. */
  lemma Outside(lo: real, hi: real, x: real, y: real)
    requires lo <= x <= hi && lo < hi && (y <= lo || y >= hi)
    ensures var c := Sign(Abs(x - lo), (hi - lo) / 2.0);
            && (c <= 0 ==> Abs(lo - x) <= Abs(y - x) && (y < lo ==> Abs(lo - x) < Abs(y - x)))
            && (c < 0 ==> y >= hi ==> Abs(lo - x) < Abs(y - x))
            && (c >= 0 ==> Abs(hi - x) <= Abs(y - x) && (y > hi ==> Abs(hi - x) < Abs(y - x)))
            && (c > 0 ==> y <= lo ==> Abs(hi - x) < Abs(y - x))
  {
  }

  /** Next to zero the original always rounds up. */
  lemma ZeroRoundsUp(x: real)
    requires 0.0 <= x <= DoubleValue(1)
    ensures Computed(0, x) == 1
    ensures Nearest(1, x) <==> x > Dyadic(1, -1075)
  {
    hide Power, Dyadic, DoubleValue;
    AroundZero();
    if x > Dyadic(1, -1075) {
      RoundedIsNearest(0, x);
    } else {
      assert Abs(DoubleValue(0) - x) <= Abs(DoubleValue(1) - x);
    }
  }

  datatype Rounding = Nearby(u: Bits) | Asserts

  /**
   Given a double next below the decimal number, the result is the nearest double, ties to
   even, if and only if RightRounding. With exact arithmetic it is so for every approximation
   but zero, and for zero exactly if that means rounding up; and the assertion in Difference
   fails exactly if the approximation is the decimal number itself.
   */
  method StrtodBigInteger(approx: Bits, decimals: Text, decimalPosition: int, exp: int) returns (r: Rounding)
    requires approx < INFINITY && decimals != [] && AllDigits(decimals) && |decimals| / 19 + 7 <= CAPACITY
    requires AllFit((|decimals| + 18) / 19, decimalPosition - |decimals| + exp, IntegerExponent(approx))
    ensures var d, dExp := DecimalValue(decimals), decimalPosition - |decimals| + exp;
            var bInt, bExp := IntegerSignificand(approx), IntegerExponent(approx);
            && (Determined(d, dExp, bInt, bExp) ==>
                  && r == Result(approx, Outcome(d, dExp, bInt, bExp))
                  && (r.Nearby? && DoubleValue(approx) <= Decimal(d, dExp) <= DoubleValue(approx + 1) ==>
                        (Nearest(r.u, Decimal(d, dExp)) <==> RightRounding(approx, d, dExp))))
            && (ExactArithmetic(d, dExp, bInt, bExp) ==>
                  var x := Decimal(d, dExp);
                  && (r.Asserts? <==> x == Dyadic(bInt, bExp))
                  && (r.Nearby? && DoubleValue(approx) <= x <= DoubleValue(approx + 1) ==>
                        (Nearest(r.u, x) <==> approx != 0 || x > Dyadic(1, -1075))))
  {
    hide Val, Pow, Power, ExactArithmetic, Determined, Outcome, DecimalValue, Decimal, Dyadic, DoubleValue, Nearest,
      IntegerSignificand, IntegerExponent, ScalesOf, Fits, Computed, RightSign, RightRounding;
    var dInt := new BigInteger.FromDecimals(decimals);
    var dExp := decimalPosition - |decimals| + exp;
    FewerFit(dInt.count, (|decimals| + 18) / 19, dExp, IntegerExponent(approx));
    var cmp := CheckWithinHalfULP(approx, dInt, dExp);
    if cmp.AssertionFails? {
      r := Asserts;
    } else if cmp.sign < 0 {
      r := Nearby(approx);
    } else if cmp.sign == 0 {
      if Significand(approx) % 2 == 1 {
        r := Nearby(approx + 1);
      } else {
        r := Nearby(approx);
      }
    } else {
      r := Nearby(approx + 1);
    }
    ghost var d := DecimalValue(decimals);
    ComputedIs(approx, Decimal(d, dExp), IntegerSignificand(approx), IntegerExponent(approx));
    ResultNearest(approx, Decimal(d, dExp));
    if Determined(d, dExp, IntegerSignificand(approx), IntegerExponent(approx)) && r.Nearby?
       && DoubleValue(approx) <= Decimal(d, dExp) <= DoubleValue(approx + 1) {
      RoundingIff(approx, d, dExp);
    }
  }

  function Result(u: Bits, c: Checked): Rounding
    requires u < INFINITY
  {
    if c.AssertionFails? then Asserts else Nearby(Rounded(u, c.sign))
  }

  lemma FewerFit(c: nat, c': nat, dExp: int, bExp: int)
    requires c <= c' && AllFit(c', dExp, bExp)
    ensures AllFit(c, dExp, bExp)
  {
    hide ScalesOf;
  }

  lemma ResultNearest(u: Bits, x: real)
    requires u < INFINITY && x >= 0.0
    ensures DoubleValue(u) <= x <= DoubleValue(u + 1) ==>
              (Nearest(Rounded(u, Computed(u, x)), x) <==> u != 0 || x > Dyadic(1, -1075))
  {
    hide Power, Dyadic, DoubleValue, Computed, Intended, Nearest;
    if DoubleValue(u) <= x <= DoubleValue(u + 1) {
      if u == 0 {
        ZeroRoundsUp(x);
      } else {
        ComputedAsIntended(u, x);
        RoundedIsNearest(u, x);
      }
    }
  }

  // ---------------------------------------------------------------- an input that is rounded wrongly

  /** 5^35, a number of two words. */
  const F := 2910383045673370361328125

  /** Sixty digits of which 35 stand behind the point: just below 2^82 and half a unit. */
  const MISREAD := BASE * (F * 0x20_0000_0000_0001 - 1)

  /** The pattern of 2^82. */
  const TWO_82: Bits := 1105 * HIDDEN

  lemma PowersOfExample()
    ensures Pow(5, 35) == F && Pow(5, 0) == 1 && Pow(2, 0) == 1 && Pow(2, 65) == 2 * BASE && Pow(2, 64) == BASE
  {
    FifthPowers();
    assert Pow(5, 4) == 625;
    PowAdd(5, 4, 4);
    PowAdd(5, 27, 8);
    PowersOfTwo();
    PowAdd(2, 64, 1);
  }

  lemma ScalesOfExample()
    ensures ScalesOf(-35, 30) == Scales(0, 0, 65, 35, 64, 35)
  {
  }

  /** Half a unit has two words and is shifted by one: its low word is replaced by its high word. */
  lemma ShiftedHalf()
    ensures !ShiftExact(F, 64) && ShiftValue(F, 64) == BASE * (F / BASE * BASE + F / BASE)
  {
    var h := F / BASE;
    assert h < BASE && h > 0;
    var w := WordsOf(F);
    assert WordsOf(h) == [h];
    assert w == [F % BASE, h];
    var r := [0, h, h];
    assert [0] + w[1..] + [w[1]] == r;
    assert r[1..] == [h, h] && r[1..][1..] == [h];
    ValOne(h);
    assert Val([h, h]) == h + BASE * h;
    assert Val(r) == BASE * (h + BASE * h);
  }

  /** No word of the scaled double is all ones, so no borrow is lost. */
  lemma NoBorrowLostInExample()
    ensures LostSum(WordsOf(MISREAD), WordsOf(2 * BASE * (HIDDEN * F)), |WordsOf(MISREAD)|) == 0
  {
    var x, y := MISREAD, 2 * BASE * (HIDDEN * F);
    var b := WordsOf(y);
    var v1 := y / BASE;
    var v2 := v1 / BASE;
    var v3 := v2 / BASE;
    assert 0 < v3 < BASE;
    assert WordsOf(v3) == [v3];
    assert WordsOf(v2) == [v2 % BASE] + WordsOf(v3);
    assert WordsOf(v1) == [v1 % BASE] + WordsOf(v2);
    assert b == [y % BASE] + WordsOf(v1);
    assert b == [y % BASE, v1 % BASE, v2 % BASE, v3];
    assert forall i :: 0 <= i < |b| ==> b[i] != BASE - 1;
    hide WordsOf, Val;
    var a := WordsOf(x);
    LargerNotShorter(a, b);
    LostBorrowMeans(a, b);
    ExactIffKept(a, b);
  }

  /** The decimal number is less than half a unit from 2^82, and the original says it is more. */
  lemma WrongSide()
    ensures Determined(MISREAD, -35, HIDDEN, 30) && Outcome(MISREAD, -35, HIDDEN, 30) == Compared(1)
    ensures Sign(Abs(Decimal(MISREAD, -35) - Dyadic(HIDDEN, 30)), Dyadic(1, 29)) == -1
    ensures Decimal(MISREAD, -35) > Dyadic(HIDDEN, 30)
  {
    hide Pow, Decimal, Dyadic, WordsOf, LostSum, Val;
    PowersOfExample();
    ScalesOfExample();
    ScalingKeepsSign(MISREAD, -35, HIDDEN, 30);
    ShiftedHalf();
    NoBorrowLostInExample();
    hide ShiftValue, ScalesOf;
    assert Scaled(MISREAD, 0, 0) == MISREAD;
    assert Scaled(HIDDEN, 65, 35) == 2 * BASE * (HIDDEN * F);
    assert Scaled(1, 64, 35) == F * BASE;
  }

  /** So the sixty digits are read as the double above 2^82, although 2^82 is the nearest. */
  lemma Misrounded()
    ensures var u, x := TWO_82, Decimal(MISREAD, -35);
            && IntegerSignificand(u) == HIDDEN && IntegerExponent(u) == 30 && Determined(MISREAD, -35, HIDDEN, 30)
            && DoubleValue(u) <= x <= DoubleValue(u + 1)
            && Result(u, Outcome(MISREAD, -35, HIDDEN, 30)) == Nearby(u + 1)
            && Nearest(u, x) && !Nearest(u + 1, x)
  {
    hide Power, Pow, Decimal, Determined, Outcome, Val, WordsOf;
    var u, x := TWO_82, Decimal(MISREAD, -35);
    WrongSide();
    ReadRightUnlessZero(u);
    UnitInLastPlace(u);
    PowerDouble(29);
    assert Dyadic(1, 30) == 2.0 * Dyadic(1, 29);
    hide Dyadic, DoubleValue;
    RoundedIsNearest(u, x);
    assert Abs(DoubleValue(u) - x) < Abs(DoubleValue(u + 1) - x);
  }

  /** The number has sixty digits. */
  lemma SixtyDigits()
    ensures AllDigits(I.Decimal(MISREAD)) && DecimalValue(I.Decimal(MISREAD)) == MISREAD && |I.Decimal(MISREAD)| == 60
  {
    I.DecimalRoundTrip(MISREAD);
    var text := I.Decimal(MISREAD);
    TenToSixty();
    hide Pow, DecimalValue, I.Decimal;
    I.DecimalLength(MISREAD, 60);
    DecimalBound(text);
    if |text| <= 59 {
      PowMono(10, |text|, 59);
    }
  }

  lemma TenToSixty()
    ensures Pow(10, 59) <= MISREAD < Pow(10, 60)
  {
    NineteenDigits();
    assert Pow(10, 1) == 10 && Pow(10, 2) == 100;
    PowAdd(10, 19, 19);
    PowAdd(10, 38, 19);
    PowAdd(10, 57, 2);
    PowAdd(10, 59, 1);
    hide Pow;
  }

  /** Reading the sixty digits, from the approximation 2^82, gives the double above it. */
  method MisroundedExample() returns (text: Text, r: Rounding)
    ensures |text| == 60 && AllDigits(text) && r == Nearby(TWO_82 + 1)
    ensures var x := Decimal(DecimalValue(text), -35);
            DoubleValue(TWO_82) <= x <= DoubleValue(TWO_82 + 1) && Nearest(TWO_82, x) && !Nearest(TWO_82 + 1, x)
  {
    hide Val, Pow, Power, Determined, Outcome, ExactArithmetic, DecimalValue, Decimal, DoubleValue, Nearest, Dyadic,
      RightRounding, I.Decimal;
    text := I.Decimal(MISREAD);
    SixtyDigits();
    Misrounded();
    UsualExponentsFit(4, -35, TWO_82);
    r := StrtodBigInteger(TWO_82, text, 25, 0);
  }
}

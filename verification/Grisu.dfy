/**
 The digit generation of Grisu2 (rapidjson/internal/dtoa.h). DiyFp values with the common
 exponent -s are their 64-bit significands; all arithmetic is checked against 64 bits.
 */
module Grisu {
  import opened Sax
  import opened Scan
  import opened Itoa
  import opened Powers

  /** kPow10, and the constants of the switch in DigitGen. */
  function KPow10(i: nat): (r: uint32)
    requires i < 10
  {
    if i == 0 then 1 else if i == 1 then 10 else if i == 2 then 100 else if i == 3 then 1000
    else if i == 4 then 10000 else if i == 5 then 100000 else if i == 6 then 1000000
    else if i == 7 then 10000000 else if i == 8 then 100000000 else 1000000000
  }

  lemma KPow10IsPower(i: nat)
    requires i < 10
    ensures KPow10(i) == Pow(10, i)
  {
    if i > 0 {
      KPow10IsPower(i - 1);
    }
  }

  function CountDecimalDigit32(n: uint32): nat {
    if n < 10 then 1
    else if n < 100 then 2
    else if n < 1000 then 3
    else if n < 10000 then 4
    else if n < 100000 then 5
    else if n < 1000000 then 6
    else if n < 10000000 then 7
    else if n < 100000000 then 8
    else 9
  }

  /** The number of decimal digits, for every number that has at most nine. */
  lemma CountsDigits(n: uint32)
    requires 1 <= n < 1000000000
    ensures var k := CountDecimalDigit32(n); 1 <= k <= 9 && Pow(10, k - 1) <= n < Pow(10, k)
  {
    KPow10IsPower(CountDecimalDigit32(n));
    KPow10IsPower(CountDecimalDigit32(n) - 1);
  }

  function LastDigit(s: Text): nat
    requires s != [] && AllDigits(s)
  {
    assert s[|s| - 1] in s;
    s[|s| - 1] - '0' as int
  }

  /** The distance of two numbers. */
  function Gap(a: int, b: int): nat { if a < b then b - a else a - b }

  /**
   Lower the last digit while that brings the number closer to W. `rest` is the distance to
   the upper bound and `wpw` the distance of W to it; one unit of the last digit is `tenKappa`.
   */
  method GrisuRound(buffer: Text, delta: uint64, rest0: uint64, tenKappa: uint64, wpw: uint64) returns (r: Text)
    requires buffer != [] && AllDigits(buffer) && tenKappa > 0 && rest0 <= delta
    requires rest0 + LastDigit(buffer) * tenKappa >= delta
    ensures |r| == |buffer| && r[..|r| - 1] == buffer[..|r| - 1] && AllDigits(r)
    ensures var m := LastDigit(buffer) - LastDigit(r);
            && 0 <= m && rest0 + m * tenKappa <= delta
            && forall k: nat :: rest0 + k * tenKappa <= delta ==>
                 Gap(rest0 + m * tenKappa, wpw) <= Gap(rest0 + k * tenKappa, wpw)
    ensures wpw <= rest0 ==> r == buffer
  {
    r := buffer;
    var rest: uint64 := rest0;
    ghost var m := 0;
    while rest < wpw && delta - rest >= tenKappa &&
          (rest + tenKappa < wpw || wpw - rest > rest + tenKappa - wpw)
      invariant |r| == |buffer| && r[..|r| - 1] == buffer[..|r| - 1] && AllDigits(r)
      invariant 0 <= m && LastDigit(r) == LastDigit(buffer) - m
      invariant rest == rest0 + m * tenKappa <= delta && rest0 <= rest && (m == 0 ==> r == buffer)
      invariant m > 0 ==> rest - tenKappa < wpw && Gap(rest, wpw) <= wpw - (rest - tenKappa)
      decreases delta - rest
    {
      MulStep(m, tenKappa);
      StillPositive(LastDigit(buffer), m, rest0, delta, tenKappa);
      r := Decrement(r);
      rest := rest + tenKappa;
      m := m + 1;
    }
    forall k: nat | rest0 + k * tenKappa <= delta
      ensures Gap(rest, wpw) <= Gap(rest0 + k * tenKappa, wpw)
    {
      if k < m {
        MulMono(k, m - 1, tenKappa);
        MulStep(m - 1, tenKappa);
      } else if k > m {
        MulMono(m + 1, k, tenKappa);
        MulStep(m, tenKappa);
      }
    }
  }

  /** The last digit is not yet zero when the loop goes on. */
  lemma StillPositive(d: nat, m: nat, rest0: int, delta: int, u: int)
    requires rest0 + d * u >= delta && u > 0 && rest0 + (m + 1) * u <= delta
    ensures m < d
  {
    if m >= d {
      MulMono(d, m, u);
      MulStep(m, u);
    }
  }

  function Decrement(s: Text): (r: Text)
    requires s != [] && AllDigits(s) && LastDigit(s) > 0
    ensures |r| == |s| && r[..|r| - 1] == s[..|r| - 1] && AllDigits(r) && LastDigit(r) == LastDigit(s) - 1
  {
    var r := s[|s| - 1 := s[|s| - 1] - 1];
    assert forall i :: 0 <= i < |r| ==> IsDigit(r[i]) by {
      assert forall i :: 0 <= i < |s| ==> s[i] in s;
    }
    r
  }

  // ---------------------------------------------------------------- digit generation

  /** The number that the digits denote; no digits denote zero. */
  function Denoted(s: Text): nat
    requires AllDigits(s)
  {
    DecimalValue(s)
  }

  lemma DenotedSnoc(s: Text, d: nat)
    requires AllDigits(s) && d < 10
    ensures AllDigits(s + [Digit(d)]) && Denoted(s + [Digit(d)]) == 10 * Denoted(s) + d
    ensures LastDigit(s + [Digit(d)]) == d
  {
    var t := s + [Digit(d)];
    assert t[..|t| - 1] == s;
    assert forall c :: c in t ==> c in s || c == Digit(d);
  }

  lemma DenotedLast(s: Text, r: Text)
    requires AllDigits(s) && AllDigits(r) && s != [] && |s| == |r| && s[..|s| - 1] == r[..|r| - 1]
    ensures Denoted(s) - LastDigit(s) == Denoted(r) - LastDigit(r)
  {
    assert s[|s| - 1] in s && r[|r| - 1] in r;
  }

  /** What DigitGen is called with: see Grisu2. `s` is -Mp.e. */
  predicate Callable(w: uint64, mp: uint64, s: nat, delta: uint64) {
    && 32 <= s <= 60
    && Pow(2, s) <= mp < 1000000000 * Pow(2, s)
    && w <= mp && mp - w <= delta < mp && 1 <= delta
  }

  /**
   The number `n` of units `u` against the upper bound `m` and the allowed distance `delta` from
   it: `n` is in the interval, and no multiple of ten units is strictly inside.
   */
  ghost predicate InsideAndShortest(n: int, u: int, m: int, delta: int) {
    && m - delta <= n * u <= m
    && forall x: nat :: x * (10 * u) <= m ==> x * (10 * u) <= m - delta
  }

  /** No multiple of the unit in the interval is closer to W, whose distance from `m` is `wpw`. */
  ghost predicate Closest(n: int, u: int, m: int, delta: int, wpw: int) {
    forall x: nat :: m - delta <= x * u <= m ==> Gap(m - n * u, wpw) <= Gap(m - x * u, wpw)
  }

  /** The digits times 10^kappa, in units of 2^-s, scaled by 10^-kappa if there are decimals. */
  ghost predicate Correct(digits: Text, kappa: int, mp: int, s: nat, delta: int)
    requires AllDigits(digits)
  {
    if kappa >= 0 then InsideAndShortest(Denoted(digits), Pow(10, kappa) * Pow(2, s), mp, delta)
    else InsideAndShortest(Denoted(digits), Pow(2, s), mp * Pow(10, -kappa), delta * Pow(10, -kappa))
  }

  ghost predicate ClosestDigits(digits: Text, kappa: int, w: int, mp: int, s: nat, delta: int)
    requires AllDigits(digits)
  {
    if kappa >= 0 then Closest(Denoted(digits), Pow(10, kappa) * Pow(2, s), mp, delta, mp - w)
    else Closest(Denoted(digits), Pow(2, s), mp * Pow(10, -kappa), delta * Pow(10, -kappa), (mp - w) * Pow(10, -kappa))
  }

  // ---------------------------------------------------------------- when the digits are the closest

  /** What is left of Mp behind `k` decimals, in units of 2^-s * 10^-k. */
  function Rest(mp: nat, s: nat, k: nat): (r: nat)
    ensures Pow(2, s) > 0 && r < Pow(2, s)
  {
    PowPositive(2, s);
    mp * Pow(10, k) % Pow(2, s)
  }

  /** `k` decimals are enough for the fraction loop to end. */
  predicate Stops(mp: nat, s: nat, delta: nat, k: nat) { Rest(mp, s, k) < delta * Pow(10, k) }

  /** The integer digits are enough. */
  predicate IntegerSuffices(mp: nat, s: nat, delta: nat) { Rest(mp, s, 0) <= delta }

  /** The number of decimals that the fraction loop writes, from `k` on. */
  function FirstStop(mp: nat, s: nat, delta: nat, k: nat): (r: nat)
    requires s <= 60 && delta >= 1
    ensures k <= r && Stops(mp, s, delta, r) && forall j :: k <= j < r ==> !Stops(mp, s, delta, j)
    decreases if k < 19 then 19 - k else 0
  {
    if Stops(mp, s, delta, k) then k else
      StopsByNineteen(mp, s, delta, k);
      FirstStop(mp, s, delta, k + 1)
  }

  lemma StopsByNineteen(mp: nat, s: nat, delta: nat, k: nat)
    requires s <= 60 && delta >= 1
    ensures k >= 19 ==> Stops(mp, s, delta, k)
  {
    if k >= 19 {
      PowersOfTwo();
      PowMono(2, s, 60);
      assert Pow(10, 4) == 10000 && Pow(10, 3) == 1000;
      PowAdd(10, 4, 4);
      PowAdd(10, 8, 8);
      PowAdd(10, 16, 3);
      PowMono(10, 19, k);
      MulMono(1, delta, Pow(10, k));
      hide Pow;
    }
  }

  /** Once enough, more decimals are enough too. */
  lemma StopsStay(mp: nat, s: nat, delta: nat, k: nat)
    requires Stops(mp, s, delta, k)
    ensures Stops(mp, s, delta, k + 1)
  {
    var one, r := Pow(2, s), Rest(mp, s, k);
    Scale(mp, delta, k);
    var q := mp * Pow(10, k) / one;
    assert mp * Pow(10, k) == q * one + r;
    TenTimesRest(q, one, r);
  }

  lemma TenTimesRest(q: int, one: int, r: int)
    requires 0 <= r < one
    ensures 10 * (q * one + r) % one <= 10 * r
  {
    var x := 10 * r;
    var d, t := x / one, x % one;
    DivMod(x, one);
    MulMono(0, d, one);
    TenTimes(q, one, r, d, t);
    RestIsMod(10 * (q * one + r), 10 * q + d, one, t);
  }

  lemma DivMod(x: int, one: int)
    requires x >= 0 && one > 0
    ensures x == x / one * one + x % one && 0 <= x % one < one && 0 <= x / one
  {
  }

  lemma TenTimes(q: int, one: int, r: int, d: int, t: int)
    requires 10 * r == d * one + t
    ensures 10 * (q * one + r) == (10 * q + d) * one + t
  {
  }

  lemma {:induction false} StopsLater(mp: nat, s: nat, delta: nat, j: nat, k: nat)
    requires j <= k && Stops(mp, s, delta, j)
    ensures Stops(mp, s, delta, k)
    decreases k - j
  {
    hide Stops;
    if j < k {
      StopsStay(mp, s, delta, j);
      StopsLater(mp, s, delta, j + 1, k);
    }
  }

  /**
   The caller's condition: the distance of W is taken into account, which it is up to eight
   decimals; or it does not matter, because the unrounded number is the only one in the interval
   or already at most half a unit above W.
   */
  predicate ClosestExpected(w: int, mp: nat, s: nat, delta: nat)
    requires s <= 60 && delta >= 1 && w <= mp
  {
    || IntegerSuffices(mp, s, delta) || Stops(mp, s, delta, 8)
    || var k := FirstStop(mp, s, delta, 1);
       || delta * Pow(10, k) < Rest(mp, s, k) + Pow(2, s)
       || 2 * ((mp - w) * Pow(10, k)) <= 2 * Rest(mp, s, k) + Pow(2, s)
  }

  /** Up to eight decimals are written exactly if eight are enough. */
  lemma EightDecimals(mp: nat, s: nat, delta: nat)
    requires s <= 60 && delta >= 1
    ensures FirstStop(mp, s, delta, 1) < 9 <==> Stops(mp, s, delta, 8)
  {
    hide Stops;
    var k := FirstStop(mp, s, delta, 1);
    if k < 9 {
      StopsLater(mp, s, delta, k, 8);
    }
  }

  /** Without rounding, the number is the closest exactly in these two cases. */
  lemma UnroundedClosest(n: int, u: int, rest: int, m: int, delta: int, wpw: int)
    requires n >= 1 && m == n * u + rest && 0 <= rest < u && rest <= delta
    ensures Closest(n, u, m, delta, wpw) <==> delta < rest + u || 2 * wpw <= 2 * rest + u
  {
    if delta < rest + u || 2 * wpw <= 2 * rest + u {
      forall x: nat | m - delta <= x * u <= m
        ensures Gap(m - n * u, wpw) <= Gap(m - x * u, wpw)
      {
        Above(x, n, u, rest);
        MulMinus(n, x, u);
        if x < n {
          MulMono(1, n - x, u);
        }
      }
    } else {
      MulMinus(n, 1, u);
      assert m - delta <= (n - 1) * u <= m;
      assert Gap(m - (n - 1) * u, wpw) < Gap(m - n * u, wpw);
    }
  }

  lemma RestIsMod(x: int, n: int, one: int, r: int)
    requires x == n * one + r && 0 <= r < one
    ensures x % one == r && x / one == n
  {
    var q, t := x / one, x % one;
    assert x == q * one + t;
    if q < n {
      MulMono(q + 1, n, one);
      MulStep(q, one);
    } else if q > n {
      MulMono(n + 1, q, one);
      MulStep(n, one);
    }
  }

  lemma OneRange(s: nat)
    requires 32 <= s <= 60
    ensures 0x1_0000_0000 <= Pow(2, s) <= 0x1000_0000_0000_0000
  {
    PowersOfTwo();
    PowMono(2, 32, s);
    PowMono(2, s, 60);
  }

  /** One digit of the integer part: `p1` is split at the place `u`, and `n` gets one more digit. */
  lemma SplitInteger(n: int, p1: int, u: int, one: int, p2: int, mp: int)
    requires u > 0 && 0 <= p1 < 10 * u && mp == (n * (10 * u) + p1) * one + p2
    ensures 0 <= p1 / u < 10 && 0 <= p1 % u < u
    ensures mp == ((10 * n + p1 / u) * u + p1 % u) * one + p2
    ensures p1 * one + p2 == p1 / u * (u * one) + (p1 % u * one + p2)
  {
    var d, r := p1 / u, p1 % u;
    assert p1 == d * u + r;
    assert n * (10 * u) + p1 == (10 * n + d) * u + r;
    assert (d * u + r) * one == d * (u * one) + r * one;
  }

  /** One digit of the fraction. */
  lemma SplitFraction(n: int, p2: int, one: int, scaled: int)
    requires one > 0 && 0 <= p2 < one && scaled == n * one + p2
    ensures 0 <= 10 * p2 / one < 10 && 0 <= 10 * p2 % one < one
    ensures 10 * scaled == (10 * n + 10 * p2 / one) * one + 10 * p2 % one
    ensures 10 * p2 == 10 * p2 / one * one + 10 * p2 % one
  {
    var d := 10 * p2 / one;
    assert 10 * p2 == d * one + 10 * p2 % one;
    assert 10 * (n * one + p2) == (10 * n + d) * one + 10 * p2 % one;
  }

  /** From the rounding of the last digit, `n` being denoted before it and `d` the last digit. */
  lemma RoundedWell(n: int, k: int, d: int, u: int, rest: int, m: int, delta: int, wpw: int)
    requires m == n * u + rest && 0 <= rest < u && 0 <= k && rest + k * u <= delta && rest + d * u >= delta
    requires 0 <= d <= 9 && n % 10 == d
    ensures InsideAndShortest(n - k, u, m, delta)
    ensures (forall i: nat :: rest + i * u <= delta ==> Gap(rest + k * u, wpw) <= Gap(rest + i * u, wpw))
            ==> Closest(n - k, u, m, delta, wpw)
  {
    MulMinus(n, k, u);
    MulMono(0, k, u);
    forall x: nat | x * (10 * u) <= m
      ensures x * (10 * u) <= m - delta
    {
      NoShorter(n, d, u, rest, delta, x);
    }
    if forall i: nat :: rest + i * u <= delta ==> Gap(rest + k * u, wpw) <= Gap(rest + i * u, wpw) {
      forall x: nat | m - delta <= x * u <= m
        ensures Gap(m - (n - k) * u, wpw) <= Gap(m - x * u, wpw)
      {
        Above(x, n, u, rest);
        MulMinus(n, n - x, u);
        assert rest + (n - x) * u == m - x * u;
      }
    }
  }

  lemma NoShorter(n: int, d: int, u: int, rest: int, delta: int, x: nat)
    requires 0 <= rest < u && rest + d * u >= delta && 0 <= d <= 9 && n % 10 == d
    requires x * (10 * u) <= n * u + rest
    ensures x * (10 * u) <= n * u + rest - delta
  {
    assert x * (10 * u) == 10 * x * u;
    Above(10 * x, n, u, rest);
    assert n == 10 * (n / 10) + d;
    assert 10 * x <= n - d;
    MulMono(10 * x, n - d, u);
    MulMinus(n, d, u);
  }

  /** A multiple of the unit below the bound is at most the integral part. */
  lemma Above(x: int, n: int, u: int, rest: int)
    requires 0 <= rest < u && x * u <= n * u + rest
    ensures x <= n
  {
    if x > n {
      MulMono(n + 1, x, u);
      MulStep(n, u);
    }
  }

  /**
   Generate digits of Mp from the left until what is left over is at most delta, then round
   towards W. `kappa` is what the caller's K is increased by.
   */
  method DigitGen(w: uint64, mp: uint64, s: nat, delta: uint64) returns (buffer: Text, kappa: int)
    requires Callable(w, mp, s, delta)
    ensures buffer != [] && AllDigits(buffer) && Correct(buffer, kappa, mp, s, delta)
    ensures kappa >= 0 <==> IntegerSuffices(mp, s, delta)
    ensures kappa < 0 ==> -kappa == FirstStop(mp, s, delta, 1)
    ensures kappa <= -9 ==> Denoted(buffer) == mp * Pow(10, -kappa) / Pow(2, s)
    ensures ClosestDigits(buffer, kappa, w, mp, s, delta) <==> ClosestExpected(w, mp, s, delta)
  {
    OneRange(s);
    var one: uint64 := Pow(2, s);
    var wpw: uint64 := mp - w;
    IntegerRest(mp, s, delta);
    DivideMp(mp, one);
    var p1: uint32 := mp / one;
    var p2: uint64 := mp % one;
    kappa := CountDecimalDigit32(p1);
    CountsDigits(p1);
    buffer := [];
    assert Denoted(buffer) == 0;
    while kappa > 0
      invariant 0 <= kappa <= 9 && Generated(buffer, kappa, p1, p2, one, mp)
      invariant p1 * one + p2 > delta
      decreases kappa
    {
      hide Generated, Correct, ClosestDigits, ClosestExpected, IntegerSuffices, FirstStop, Pow;
      var tmp, unit;
      ghost var above := p1 * one + p2;
      buffer, p1, tmp, unit := NextDigit(buffer, kappa, p1, p2, one, mp);
      kappa := kappa - 1;
      if tmp <= delta {
        buffer := FinishInteger(buffer, kappa, delta, tmp, unit, wpw, one, mp, s, w);
        MulMono(0, p1, one);
        IntegerExpected(w, mp, s, delta);
        return;
      }
    }
    GeneratedAll(buffer, p1, p2, one, mp);
    buffer, kappa := FractionDigits(buffer, p2, delta, one, wpw, mp, s, w);
  }

  lemma IntegerRest(mp: nat, s: nat, delta: nat)
    ensures Pow(2, s) > 0 && (IntegerSuffices(mp, s, delta) <==> mp % Pow(2, s) <= delta)
  {
    PowPositive(2, s);
  }

  lemma IntegerExpected(w: int, mp: nat, s: nat, delta: nat)
    requires s <= 60 && delta >= 1 && w <= mp && IntegerSuffices(mp, s, delta)
    ensures ClosestExpected(w, mp, s, delta)
  {
  }

  /** The digits so far and the rest `p1`, `p2` make up Mp; the first digit is not zero. */
  predicate Generated(buffer: Text, kappa: nat, p1: int, p2: int, one: int, mp: int) {
    && AllDigits(buffer)
    && 0 <= p1 < Pow(10, kappa) && 0 <= p2 < one
    && mp == (Denoted(buffer) * Pow(10, kappa) + p1) * one + p2
    && if buffer == [] then kappa > 0 && Pow(10, kappa - 1) <= p1 else Denoted(buffer) >= 1
  }

  lemma GeneratedAll(buffer: Text, p1: int, p2: int, one: int, mp: int)
    requires Generated(buffer, 0, p1, p2, one, mp)
    ensures buffer != [] && AllDigits(buffer) && p1 == 0 && mp == Denoted(buffer) * one + p2 && p2 < one
  {
  }

  /** One iteration of the first loop, up to the test. */
  method NextDigit(buffer: Text, kappa: nat, p1: uint32, p2: uint64, one: uint64, ghost mp: uint64)
    returns (r: Text, p1': uint32, tmp: uint64, unit: uint64)
    requires 0 < kappa <= 9 && one > 0 && Generated(buffer, kappa, p1, p2, one, mp)
    ensures Generated(r, kappa - 1, p1', p2, one, mp) && r != []
    ensures tmp == p1' * one + p2 && unit == Pow(10, kappa - 1) * one && unit > 0
    ensures LastDigit(r) * unit + tmp == p1 * one + p2
    ensures mp == Denoted(r) * unit + tmp && tmp < unit
  {
    KPow10IsPower(kappa - 1);
    var u := KPow10(kappa - 1);
    SplitInteger(Denoted(buffer), p1, u, one, p2, mp);
    hide DecimalValue;
    var d := p1 / u;
    p1' := p1 % u;
    if buffer == [] {
      LeadingDigit(p1, u);
      assert Denoted(buffer) == 0 by { NothingDenoted(); }
    }
    DenotedSnoc(buffer, d);
    r := buffer;
    if d != 0 || buffer != [] {
      r := r + [Digit(d)];
    }
    MulMono(p1' + 1, u, one);
    MulStep(p1', one);
    Fits(Denoted(r), u, p1', one, p2, mp);
    tmp := p1' * one + p2;
    unit := u * one;
  }

  lemma NothingDenoted()
    ensures AllDigits([]) && Denoted([]) == 0
  {
  }

  lemma Fits(n: int, u: int, p: int, one: int, p2: int, mp: int)
    requires n >= 1 && u >= 1 && one >= 1 && p >= 0 && p2 >= 0 && mp == (n * u + p) * one + p2
    ensures 0 < u * one <= mp && 0 <= p * one + p2 <= mp && mp == n * (u * one) + (p * one + p2)
  {
    assert (n * u + p) * one == n * (u * one) + p * one;
    MulMono(1, n, u * one);
    MulMono(0, p, one);
  }

  /** The integer digits suffice: round. */
  method FinishInteger(buffer: Text, ghost kappa: nat, delta: uint64, tmp: uint64, unit: uint64, wpw: uint64,
                       ghost one: uint64, ghost mp: uint64, ghost s: nat, ghost w: uint64) returns (r: Text)
    requires buffer != [] && AllDigits(buffer) && one == Pow(2, s) && unit == Pow(10, kappa) * one && unit > 0
    requires tmp <= delta && LastDigit(buffer) * unit + tmp > delta && mp == Denoted(buffer) * unit + tmp && tmp < unit
    requires wpw == mp - w
    ensures r != [] && AllDigits(r) && Correct(r, kappa, mp, s, delta) && ClosestDigits(r, kappa, w, mp, s, delta)
  {
    hide DecimalValue, Pow, InsideAndShortest, Closest;
    r := GrisuRound(buffer, delta, tmp, unit, wpw);
    DenotedLast(buffer, r);
    LastIsMod(buffer);
    RoundedWell(Denoted(buffer), LastDigit(buffer) - LastDigit(r), LastDigit(buffer), unit, tmp, mp, delta, wpw);
  }

  lemma LastIsMod(s: Text)
    requires s != [] && AllDigits(s)
    ensures Denoted(s) % 10 == LastDigit(s) && LastDigit(s) <= 9
  {
    assert s[|s| - 1] in s;
  }

  lemma DivideMp(mp: int, one: int)
    requires 0 < one <= mp < 1000000000 * one
    ensures 1 <= mp / one < 1000000000 && 0 <= mp % one < one && mp == mp / one * one + mp % one
  {
  }

  lemma LeadingDigit(p1: int, u: int)
    requires 0 < u <= p1
    ensures p1 / u != 0
  {
  }

  /** The second loop: digits behind the decimal point. */
  method FractionDigits(buffer0: Text, p20: uint64, delta0: uint64, one: uint64, wpw: uint64,
                        ghost mp: nat, ghost s: nat, ghost w: int)
    returns (buffer: Text, kappa: int)
    requires buffer0 != [] && AllDigits(buffer0) && 32 <= s <= 60 && one == Pow(2, s)
    requires mp == Denoted(buffer0) * one + p20 && 1 <= delta0 < p20 < one && wpw == mp - w <= delta0 && one <= mp
    ensures buffer != [] && AllDigits(buffer) && kappa < 0 && Correct(buffer, kappa, mp, s, delta0)
    ensures -kappa == FirstStop(mp, s, delta0, 1)
    ensures kappa <= -9 ==> Denoted(buffer) == mp * Pow(10, -kappa) / one
    ensures !IntegerSuffices(mp, s, delta0) ==>
              (ClosestDigits(buffer, kappa, w, mp, s, delta0) <==> ClosestExpected(w, mp, s, delta0))
  {
    hide FirstStop, Stops, Correct, ClosestDigits, ClosestExpected, IntegerSuffices, DecimalValue, Pow;
    OneRange(s);
    TenToZero(mp);
    TenToZero(delta0);
    var p2: uint64, delta: uint64 := p20, delta0;
    buffer, kappa := buffer0, 0;
    while true
      invariant kappa <= 0 && buffer != [] && AllDigits(buffer)
      invariant mp * Pow(10, -kappa) == Denoted(buffer) * one + p2
      invariant delta == delta0 * Pow(10, -kappa)
      invariant 1 <= delta <= p2 < one
      invariant FirstStop(mp, s, delta0, 1) == FirstStop(mp, s, delta0, 1 - kappa)
      decreases one - delta
    {
      ghost var j := -kappa;
      Scale(mp, delta0, j);
      buffer, p2 := NextDecimal(buffer, p2, one, delta, mp * Pow(10, j));
      delta := delta * 10;
      kappa := kappa - 1;
      StopStep(mp, s, delta0, j + 1, Denoted(buffer), p2);
      if p2 < delta {
        buffer := FinishFraction(buffer, -kappa, delta, p2, one, wpw, delta0, mp, s, w);
        return;
      }
    }
  }

  lemma TenToZero(x: int)
    ensures x * Pow(10, 0) == x
  {
  }

  /** One iteration of the second loop, up to the test. */
  method NextDecimal(buffer: Text, p2: uint64, one: uint64, ghost delta: int, ghost scaled: int)
    returns (r: Text, p2': uint64)
    requires buffer != [] && AllDigits(buffer) && 0 < one <= 0x1000_0000_0000_0000 && p2 < one && delta <= p2
    requires scaled == Denoted(buffer) * one + p2
    ensures r != [] && AllDigits(r) && 10 * scaled == Denoted(r) * one + p2' && p2' < one
    ensures LastDigit(r) * one + p2' >= 10 * delta && 10 * delta < 10 * one
  {
    hide DecimalValue;
    SplitFraction(Denoted(buffer), p2, one, scaled);
    var p: uint64 := p2 * 10;
    var d := p / one;
    DenotedSnoc(buffer, d);
    r := buffer;
    if d != 0 || buffer != [] {
      r := r + [Digit(d)];
    }
    p2' := p % one;
  }

  /** The test of the fraction loop, said of Mp. */
  lemma StopStep(mp: nat, s: nat, delta: nat, k: nat, n: int, p2: int)
    requires s <= 60 && delta >= 1 && mp * Pow(10, k) == n * Pow(2, s) + p2 && 0 <= p2 < Pow(2, s)
    ensures Rest(mp, s, k) == p2 && (Stops(mp, s, delta, k) <==> p2 < delta * Pow(10, k))
    ensures FirstStop(mp, s, delta, k) == if p2 < delta * Pow(10, k) then k else FirstStop(mp, s, delta, k + 1)
    ensures mp * Pow(10, k) / Pow(2, s) == n
  {
    RestIsMod(mp * Pow(10, k), n, Pow(2, s), p2);
  }

  /** The decimals suffice: round. */
  method FinishFraction(buffer: Text, index: int, delta: uint64, p2: uint64, one: uint64, wpw: uint64,
                        ghost delta0: uint64, ghost mp: nat, ghost s: nat, ghost w: int) returns (r: Text)
    requires buffer != [] && AllDigits(buffer) && index > 0 && one == Pow(2, s) && s <= 60 && 0 < one <= mp && 1 <= delta0
    requires delta == delta0 * Pow(10, index) && wpw == mp - w <= delta0
    requires mp * Pow(10, index) == Denoted(buffer) * one + p2 && p2 < one
    requires p2 < delta && LastDigit(buffer) * one + p2 >= delta && FirstStop(mp, s, delta0, 1) == index
    ensures r != [] && AllDigits(r) && Correct(r, -index, mp, s, delta0)
    ensures index >= 9 ==> Denoted(r) == mp * Pow(10, index) / one
    ensures !IntegerSuffices(mp, s, delta0) ==>
              (ClosestDigits(r, -index, w, mp, s, delta0) <==> ClosestExpected(w, mp, s, delta0))
  {
    hide DecimalValue, Pow, InsideAndShortest, Closest, FirstStop, Stops, IntegerSuffices, ClosestExpected;
    var scaledW: uint64 := ScaleW(wpw, delta0, index, delta);
    r := GrisuRound(buffer, delta, p2, one, scaledW);
    DenotedLast(buffer, r);
    LastIsMod(buffer);
    StopStep(mp, s, delta0, index, Denoted(buffer), p2);
    ghost var m, far := mp * Pow(10, index), (mp - w) * Pow(10, index);
    RoundedWell(Denoted(buffer), LastDigit(buffer) - LastDigit(r), LastDigit(buffer), one, p2, m, delta, far);
    ExpectedIff(w, mp, s, delta0, index);
    if index >= 9 {
      PowPositive(10, index);
      NotRounded(Denoted(buffer), one, p2, mp, Pow(10, index));
      UnroundedClosest(Denoted(buffer), one, p2, m, delta, far);
    }
  }

  /** The caller's condition when the fraction loop writes `k` decimals. */
  lemma ExpectedIff(w: int, mp: nat, s: nat, delta: nat, k: nat)
    requires s <= 60 && delta >= 1 && w <= mp && FirstStop(mp, s, delta, 1) == k
    ensures !IntegerSuffices(mp, s, delta) ==>
              (ClosestExpected(w, mp, s, delta) <==>
               k < 9 || delta * Pow(10, k) < Rest(mp, s, k) + Pow(2, s)
               || 2 * ((mp - w) * Pow(10, k)) <= 2 * Rest(mp, s, k) + Pow(2, s))
  {
    hide Pow, FirstStop, Stops, IntegerSuffices, Rest;
    EightDecimals(mp, s, delta);
    if k < 9 {
      StopsLater(mp, s, delta, k, 8);
    }
  }

  lemma NotRounded(n: int, one: int, p2: int, mp: int, c: int)
    requires 0 < one <= mp && mp * c == n * one + p2 && 0 <= p2 < one && c >= 1
    ensures n >= 1
  {
    MulMono(one, mp, c);
    MulMono(1, c, one);
    MulCommutes(one, c);
    if n < 1 {
      MulMono(n, 0, one);
    }
  }

  lemma Scale(mp: int, delta0: int, j: nat)
    ensures mp * Pow(10, j + 1) == 10 * (mp * Pow(10, j))
    ensures delta0 * Pow(10, j + 1) == delta0 * Pow(10, j) * 10
  {
  }

  /** wp_w scaled like delta, as long as the table of powers reaches; then zero. */
  method ScaleW(wpw: uint64, ghost delta0: uint64, index: int, ghost delta: uint64) returns (r: uint64)
    requires index >= 0 && wpw <= delta0 && delta == delta0 * Pow(10, index)
    ensures r == if index < 9 then wpw * Pow(10, index) else 0
  {
    if index < 9 {
      KPow10IsPower(index);
      MulMono(wpw, delta0, Pow(10, index));
      r := wpw * KPow10(index);
    } else {
      r := 0;
    }
  }

  // ---------------------------------------------------------------- an input that is not rounded

  const MP_LATE: uint64 := 0x18E3_8E38_E38E_38E3
  const DELTA_LATE: uint64 := 0x1_0000_0000
  const W_LATE: uint64 := MP_LATE - 0x8000_0000
  const LATE_REST := 640511946448248320

  lemma LatePowers()
    ensures Pow(2, 60) == 0x1000_0000_0000_0000 && Pow(10, 0) == 1
    ensures Pow(10, 8) == 100000000 && Pow(10, 9) == 1000000000
  {
    PowersOfTwo();
    assert Pow(10, 1) == 10;
    assert Pow(10, 4) == 10000;
    PowAdd(10, 4, 4);
    PowAdd(10, 1, 8);
  }

  /** Eight decimals leave too much of Mp, nine do not. */
  lemma LateStop()
    ensures !IntegerSuffices(MP_LATE, 60, DELTA_LATE) && !Stops(MP_LATE, 60, DELTA_LATE, 8)
    ensures Rest(MP_LATE, 60, 9) == LATE_REST < DELTA_LATE * Pow(10, 9) && Stops(MP_LATE, 60, DELTA_LATE, 9)
    ensures MP_LATE * Pow(10, 9) / Pow(2, 60) == 1555555555
  {
    hide Pow;
    LatePowers();
    RestIsMod(MP_LATE * 1, 1, 0x1000_0000_0000_0000, 640511947003803875);
    RestIsMod(MP_LATE * 100000000, 155555555, 0x1000_0000_0000_0000, 640511946948248320);
    RestIsMod(MP_LATE * 1000000000, 1555555555, 0x1000_0000_0000_0000, LATE_REST);
  }

  lemma LateInput()
    ensures Callable(W_LATE, MP_LATE, 60, DELTA_LATE) && !IntegerSuffices(MP_LATE, 60, DELTA_LATE)
    ensures FirstStop(MP_LATE, 60, DELTA_LATE, 1) == 9 && !ClosestExpected(W_LATE, MP_LATE, 60, DELTA_LATE)
    ensures MP_LATE * Pow(10, 9) / Pow(2, 60) == 1555555555
  {
    hide Pow, Stops, FirstStop, Rest, ClosestExpected, IntegerSuffices;
    LatePowers();
    LateStop();
    EightDecimals(MP_LATE, 60, DELTA_LATE);
    var k := FirstStop(MP_LATE, 60, DELTA_LATE, 1);
    assert k == 9;
    ExpectedIff(W_LATE, MP_LATE, 60, DELTA_LATE, k);
  }

  /** Nine decimals: 1.555555555 is written, although 1.555555554 is in the interval and closer to W. */
  method NotClosestExample() returns (buffer: Text, kappa: int)
    ensures AllDigits(buffer) && Denoted(buffer) == 1555555555 && kappa == -9
    ensures !ClosestDigits(buffer, kappa, W_LATE, MP_LATE, 60, DELTA_LATE)
  {
    LateInput();
    hide Callable, IntegerSuffices, FirstStop, ClosestExpected, ClosestDigits, Correct, DecimalValue, Pow;
    buffer, kappa := DigitGen(W_LATE, MP_LATE, 60, DELTA_LATE);
  }
}

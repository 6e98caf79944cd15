/**
 The multiword integers behind exact decimal reading (rapidjson/internal/biginteger.h):
 a fixed array of 64-bit words that every operation changes in place.
 */
module BigIntegers {
  import opened Sax
  import opened Scan
  import opened Powers
  import opened Limbs

  /** kBitCount / sizeof(Type), as the original computes it. */
  const CAPACITY := 416

  const HALF := 0x1_0000_0000

  // ---------------------------------------------------------------- one word at a time

  /** The portable MulAdd64: a * b + k in two words, from products of 32-bit halves. */
  method MulAdd64(a: uint64, b: uint64, k: uint64) returns (lo: uint64, hi: uint64)
    ensures lo + BASE * hi == a * b + k
  {
    var a0, a1, b0, b1 := a % HALF, a / HALF, b % HALF, b / HALF;
    HalfProducts(a0, b0);
    HalfProducts(a0, b1);
    HalfProducts(a1, b0);
    HalfProducts(a1, b1);
    ProductOfHalves(a0, a1, b0, b1);
    lo, hi := AddHalves(a0 * b0, a0 * b1, a1 * b0, a1 * b1, a * b);
    WordsOfProduct(a, b, lo, hi);
    lo := Wrap(lo + k);
    if lo < k {
      hi := hi + 1;
    }
  }

  /** Add the four half products at their places. */
  method AddHalves(x0: uint64, x1: uint64, x2: uint64, x3: uint64, ghost p: int) returns (lo: uint64, hi: uint64)
    requires x0 <= (HALF - 1) * (HALF - 1) && x1 <= (HALF - 1) * (HALF - 1)
    requires x2 <= (HALF - 1) * (HALF - 1) && x3 <= (HALF - 1) * (HALF - 1)
    requires p == x0 + HALF * (x1 + x2) + BASE * x3
    ensures lo + BASE * hi == p
  {
    var y1: uint64 := x1 + x0 / HALF;  // cannot give a carry
    var y3: uint64 := x3;
    var s: uint64 := Wrap(y1 + x2);
    if s < x2 {
      y3 := y3 + HALF;
    }
    lo := s % HALF * HALF + x0 % HALF;
    hi := y3 + s / HALF;
  }

  /** Unsigned 64-bit wrap-around. */
  function Wrap(x: int): (r: uint64)
    requires 0 <= x < 2 * BASE * HALF
    ensures x < BASE ==> r == x
    ensures BASE <= x < 2 * BASE ==> r == x - BASE
  {
    x % BASE
  }

  lemma HalfProducts(a: int, b: int)
    requires 0 <= a < HALF && 0 <= b < HALF
    ensures 0 <= a * b <= (HALF - 1) * (HALF - 1)
  {
    var h := HALF - 1;
    MulMono(0, a, b);
    MulMono(a, h, b);
    MulMono(b, h, h);
    MulCommutes(h, b);
  }

  lemma ProductOfHalves(a0: int, a1: int, b0: int, b1: int)
    ensures (a0 + HALF * a1) * (b0 + HALF * b1) == a0 * b0 + HALF * (a0 * b1 + a1 * b0) + BASE * (a1 * b1)
  {
  }

  lemma WordsOfProduct(a: int, b: int, lo: int, hi: int)
    requires 0 <= a < BASE && 0 <= b < BASE && 0 <= lo && lo + BASE * hi == a * b
    ensures hi <= BASE - 2
  {
    MulMono(a, BASE - 1, b);
    MulMono(b, BASE - 1, BASE - 1);
  }

  function DecimalPrefix(s: Text, i: nat): nat
    requires AllDigits(s) && i <= |s|
  {
    DecimalValue(s[..i])
  }

  /** Nineteen digits always fit one word. */
  method ParseUint64(s: Text) returns (r: uint64)
    requires AllDigits(s) && |s| <= 19
    ensures r == DecimalValue(s)
  {
    hide DecimalValue, Pow;
    NoDigits(s[..0]);
    r := 0;
    for i := 0 to |s|
      invariant r == DecimalValue(s[..i])
    {
      OneMoreDigit(s, i);
      assert s[i] in s;
      var next: int := r;
      next := next * 10 + (s[i] - '0' as int);
      r := next;
    }
    assert s[..|s|] == s;
  }

  lemma NoDigits(s: Text)
    requires s == []
    ensures DecimalValue(s) == 0
  {
  }

  lemma OneMoreDigit(s: Text, i: nat)
    requires AllDigits(s) && i < |s|
    ensures DecimalValue(s[..i + 1]) == DecimalValue(s[..i]) * 10 + (s[i] - '0' as int)
    ensures |s| <= 19 ==> DecimalValue(s[..i + 1]) < BASE
  {
    var t := s[..i + 1];
    assert t[..i] == s[..i] && t[i] == s[i];
    DecimalBound(t);
    NineteenDigits();
    hide DecimalValue, Pow;
    PowMono(10, i + 1, if i + 1 < 19 then 19 else i + 1);
  }

  lemma NineteenDigits()
    ensures Pow(10, 19) == 10000000000000000000 < BASE
  {
    assert Pow(10, 4) == 10000;
    assert Pow(10, 3) == 1000;
    PowAdd(10, 4, 4);
    PowAdd(10, 8, 8);
    PowAdd(10, 3, 16);
  }

  lemma {:induction false} DecimalBound(s: Text)
    requires AllDigits(s)
    ensures DecimalValue(s) < Pow(10, |s|)
  {
    if s != [] {
      assert s[|s| - 1] in s;
      DecimalBound(s[..|s| - 1]);
    }
  }

  lemma {:induction false} DecimalAppend(a: Text, b: Text)
    requires AllDigits(a) && AllDigits(b)
    ensures AllDigits(a + b) && DecimalValue(a + b) == DecimalValue(a) * Pow(10, |b|) + DecimalValue(b)
  {
    if b == [] {
      assert a + b == a;
    } else {
      var n := |b| - 1;
      var c := b[n];
      assert (a + b)[..|a + b| - 1] == a + b[..n];
      DecimalAppend(a, b[..n]);
      AppendArith(DecimalValue(a), Pow(10, n), DecimalValue(b[..n]), c - '0' as int);
    }
  }

  lemma AppendArith(a: int, p: int, b: int, c: int)
    ensures (a * p + b) * 10 + c == a * (10 * p) + (b * 10 + c)
  {
  }

  lemma DecimalSplit(s: Text, i: nat, j: nat)
    requires AllDigits(s) && i <= j <= |s|
    ensures AllDigits(s[i..j]) && (j == |s| ==> s[i..] == s[i..j] && s[..j] == s)
    ensures DecimalValue(s[..j]) == DecimalValue(s[..i]) * Pow(10, j - i) + DecimalValue(s[i..j])
  {
    assert s[..j] == s[..i] + s[i..j];
    DecimalAppend(s[..i], s[i..j]);
  }

  lemma ZeroNumber(w: Words, s: Text)
    requires w == [0] && s == []
    ensures Normal(w) && Val(w) == DecimalValue(s)
  {
  }

  /** Nineteen digits need no more than one word. */
  lemma WordsNeeded(w: Words, s: Text, k: nat)
    requires Normal(w) && AllDigits(s) && Val(w) == DecimalValue(s) && k > 0 && |s| <= 19 * k
    ensures |w| <= k
  {
    hide Val, Pow, DecimalValue;
    DecimalBound(s);
    PowMono(10, |s|, 19 * k);
    TenToBase(k);
    if |w| > k {
      NormalLower(w);
      PowMono(BASE, k, |w| - 1);
    }
  }

  lemma {:induction false} TenToBase(k: nat)
    ensures Pow(10, 19 * k) <= Pow(BASE, k)
  {
    if k > 0 {
      TenToBase(k - 1);
      PowAdd(10, 19, 19 * (k - 1));
      NineteenDigits();
      MulMono(Pow(10, 19), BASE, Pow(10, 19 * (k - 1)));
      MulMono(Pow(10, 19 * (k - 1)), Pow(BASE, k - 1), BASE);
    }
  }

  // ---------------------------------------------------------------- the class

  class BigInteger {
    const digits: array<uint64>
    var count: nat

    ghost predicate Valid()
      reads this, digits
    {
      && digits.Length == CAPACITY && 1 <= count <= CAPACITY
      && Normal(digits[..count])
    }

    ghost function Value(): nat
      reads this, digits
      requires count <= digits.Length
    {
      Val(digits[..count])
    }

    constructor (u: uint64)
      ensures Valid() && fresh(digits) && Value() == u && count == 1
    {
      digits := new uint64[CAPACITY];
      count := 1;
      new;
      digits[0] := u;
      assert digits[..1] == [u];
      ValOne(u);
    }

    /** The copy constructor: only the words in use are copied. */
    constructor Copy(rhs: BigInteger)
      requires rhs.Valid()
      ensures Valid() && fresh(digits) && Value() == rhs.Value() && count == rhs.count
    {
      digits := new uint64[CAPACITY];
      count := rhs.count;
      new;
      for i := 0 to count
        invariant count == rhs.count && fresh(digits) && digits.Length == CAPACITY && rhs.Valid()
        invariant forall j :: 0 <= j < i ==> digits[j] == rhs.digits[j]
        invariant unchanged(rhs, rhs.digits)
      {
        digits[i] := rhs.digits[i];
      }
      assert digits[..count] == rhs.digits[..rhs.count];
    }

    /** The number that a string of decimal digits denotes, read 19 digits at a time. */
    constructor FromDecimals(decimals: Text)
      requires decimals != [] && AllDigits(decimals) && |decimals| / 19 + 7 <= CAPACITY
      ensures Valid() && fresh(digits) && Value() == DecimalValue(decimals)
      ensures count <= (|decimals| + 18) / 19
    {
      digits := new uint64[CAPACITY];
      count := 1;
      new;
      hide Val, Pow, Normal, DecimalValue;
      digits[0] := 0;
      ZeroNumber(digits[..1], decimals[..0]);
      var i, length := 0, |decimals|;
      while length >= 19
        invariant 0 <= i <= |decimals| && length == |decimals| - i && i % 19 == 0 && fresh(digits)
        invariant Valid() && Value() == DecimalPrefix(decimals, i) && count <= if i == 0 then 1 else i / 19
      {
        AppendNext(decimals, i, i + 19);
        length := length - 19;
        i := i + 19;
      }
      if length > 0 {
        AppendNext(decimals, i, i + length);
      }
      assert decimals[..|decimals|] == decimals;
    }

    /** One turn of the constructor's loop. */
    method AppendNext(decimals: Text, i: nat, j: nat)
      requires Valid() && AllDigits(decimals) && i < j <= |decimals| && j <= i + 19 && i % 19 == 0
      requires Value() == DecimalPrefix(decimals, i) && count <= (if i == 0 then 1 else i / 19) && count + 5 <= CAPACITY
      modifies this, digits
      ensures Valid() && Value() == DecimalPrefix(decimals, j) && count <= i / 19 + 1
    {
      hide Val, Pow, DecimalValue, Normal;
      DecimalSplit(decimals, i, j);
      AppendDecimal64(decimals[i..j]);
      WordsNeeded(digits[..count], decimals[..j], i / 19 + 1);
    }

    /** Put up to 19 more digits behind the ones read so far. */
    method AppendDecimal64(s: Text)
      requires Valid() && 0 < |s| <= 19 && AllDigits(s) && count + 5 <= CAPACITY
      modifies this, digits
      ensures Valid() && Value() == old(Value()) * Pow(10, |s|) + DecimalValue(s) && count <= old(count) + 5
    {
      hide Val, Pow, DecimalValue, Normal, Repeats;
      var u := ParseUint64(s);
      if IsZero() {
        assert digits[..count] == [0];
        ValOne(0);
        Assign(u);
      } else {
        var exp := |s|;
        PowMul(5, 2, exp);
        MulAssoc(Value(), Pow(5, exp), Pow(2, exp));
        MultiplyPow5(exp);
        ShiftLeft(exp);
        AddWord(u);
      }
    }

    /** The assignment operator. */
    method Assign(u: uint64)
      requires Valid()
      modifies this, digits
      ensures Valid() && Value() == u && count == 1
    {
      digits[0] := u;
      count := 1;
      assert digits[..1] == [u];
      ValOne(u);
    }

    method PushBack(digit: uint64)
      requires digits.Length == CAPACITY && count < CAPACITY
      modifies this`count, digits
      ensures count == old(count) + 1 && digits[..count] == old(digits[..count]) + [digit]
    {
      digits[count] := digit;
      count := count + 1;
    }

    predicate IsZero()
      reads this, digits
      requires digits.Length > 0
    {
      count == 1 && digits[0] == 0
    }

    // -------------------------------------------------------------- multiplication

    method MulWord(u: uint64)
      requires Valid() && count < CAPACITY
      modifies this, digits
      ensures Valid() && Value() == old(Value()) * u && count <= old(count) + 1
    {
      hide Val, Pow, Normal;
      if u == 0 {
        Assign(0);
        return;
      }
      if u == 1 {
        return;
      }
      if count == 1 && digits[0] == 1 {
        assert digits[..1] == [1];
        ValOne(1);
        Assign(u);
        return;
      }
      ghost var w := digits[..count];
      var k: uint64 := 0;
      NothingYet(digits[..0], w[..0], u);
      for i := 0 to count
        invariant count == |w| && forall j :: i <= j < count ==> digits[j] == w[j]
        invariant k < u && Val(digits[..i]) + Pow(BASE, i) * k == Val(w[..i]) * u
      {
        ghost var low := digits[..i];
        var d, hi := MulAdd64(digits[i], u, k);
        CarryBound(w[i], u, k, d, hi);
        digits[i] := d;
        assert digits[..i + 1] == low + [d] && w[..i + 1] == w[..i] + [w[i]];
        MulCarry(low, w[..i], w[i], u, k, d, hi);
        k := hi;
      }
      assert w[..count] == w;
      FinishProduct(w, u, k);
    }

    /** The top of a product: a last carry becomes a new word. */
    method FinishProduct(ghost w: Words, ghost u: int, k: uint64)
      requires digits.Length == CAPACITY && 1 <= count == |w| < CAPACITY && Normal(w) && u > 0
      requires Val(digits[..count]) + Pow(BASE, count) * k == Val(w) * u
      modifies this, digits
      ensures Valid() && Value() == Val(w) * u && count <= old(count) + 1
    {
      ProductNormal(digits[..count], w, u, k);
      if k > 0 {
        ghost var low := digits[..count];
        PushBack(k);
        ValSnoc(low, k);
      }
    }

    method MulHalfWord(u: uint32)
      requires Valid() && count < CAPACITY
      modifies this, digits
      ensures Valid() && Value() == old(Value()) * u && count <= old(count) + 1
    {
      hide Val, Pow, Normal;
      if u == 0 {
        Assign(0);
        return;
      }
      if u == 1 {
        return;
      }
      if count == 1 && digits[0] == 1 {
        assert digits[..1] == [1];
        ValOne(1);
        Assign(u);
        return;
      }
      ghost var w := digits[..count];
      var k: uint64 := 0;
      NothingYet(digits[..0], w[..0], u);
      for i := 0 to count
        invariant count == |w| && forall j :: i <= j < count ==> digits[j] == w[j]
        invariant k < u && Val(digits[..i]) + Pow(BASE, i) * k == Val(w[..i]) * u
      {
        ghost var low := digits[..i];
        var d, hi := MulAdd32(digits[i], u, k);
        CarryBound(w[i], u, k, d, hi);
        digits[i] := d;
        assert digits[..i + 1] == low + [d] && w[..i + 1] == w[..i] + [w[i]];
        MulCarry(low, w[..i], w[i], u, k, d, hi);
        k := hi;
      }
      assert w[..count] == w;
      FinishProduct(w, u, k);
    }

    /** Multiply by 5^exp, in steps of 5^27, 5^13 and the rest. */
    method MultiplyPow5(exp0: nat)
      requires Valid() && count + exp0 / 27 + 3 <= CAPACITY
      modifies this, digits
      ensures Valid() && Value() == old(Value()) * Pow(5, exp0) && count <= old(count) + exp0 / 27 + 3
    {
      hide Val, Pow, Normal;
      var exp := exp0;
      if exp == 0 {
        PowZero(5, Value());
        return;
      }
      FifthPowers();
      while exp >= 27
        invariant Valid() && 0 <= exp <= exp0 && Value() * Pow(5, exp) == old(Value()) * Pow(5, exp0)
        invariant count + exp / 27 <= old(count) + exp0 / 27
      {
        PowAdd(5, 27, exp - 27);
        MulAssoc(Value(), 0x6765_C793_FA10_079D, Pow(5, exp - 27));
        MulWord(0x6765_C793_FA10_079D);
        exp := exp - 27;
      }
      ghost var most := old(count) + exp0 / 27;
      while exp >= 13
        invariant Valid() && 0 <= exp < 27 && Value() * Pow(5, exp) == old(Value()) * Pow(5, exp0)
        invariant count + exp / 13 <= most + 2
      {
        PowAdd(5, 13, exp - 13);
        MulAssoc(Value(), 1220703125, Pow(5, exp - 13));
        MulHalfWord(1220703125);
        exp := exp - 13;
      }
      if exp > 0 {
        KPow5IsPower(exp);
        MulHalfWord(KPow5(exp));
      } else {
        PowZero(5, Value());
      }
    }

    // -------------------------------------------------------------- addition

    method AddWord(u: uint64)
      requires Valid() && count < CAPACITY
      modifies this, digits
      ensures Valid() && Value() == old(Value()) + u && count <= old(count) + 1
    {
      hide Val, Pow, Normal;
      ghost var w := digits[..count];
      var backup := digits[0];
      var sum0: int := digits[0];
      sum0 := sum0 + u;
      digits[0] := Wrap(sum0);
      FirstCarry(w, u, digits[..1]);
      for i := 0 to count - 1
        invariant count == |w| && forall j :: i < j < count ==> digits[j] == w[j]
        invariant Carried(digits[..i + 1], w[..i + 1], u, if digits[i] < backup then 1 else 0)
      {
        if digits[i] >= backup {
          assert digits[..count][..i + 1] == digits[..i + 1];
          SumNormal(digits[..count], w, u, i + 1);
          return;
        }
        backup := digits[i + 1];
        ghost var low := digits[..i + 1];
        var sum: int := digits[i + 1];
        sum := sum + 1;
        digits[i + 1] := Wrap(sum);
        assert digits[..i + 2] == low + [digits[i + 1]] && w[..i + 2] == w[..i + 1] + [w[i + 1]];
        NextCarry(low, w[..i + 1], u, w[i + 1], digits[i + 1]);
      }
      assert w[..count] == w;
      if digits[count - 1] < backup {
        ghost var low := digits[..count];
        PushBack(1);
        ValSnoc(low, 1);
        NormalTop(digits[..count]);
      } else {
        assert digits[..count][..count] == digits[..count];
        SumNormal(digits[..count], w, u, count);
      }
    }

    // -------------------------------------------------------------- shifting

    /**
     The shift is exact unless it moves a number of several words by whole words. In that case
     the original moves the top word only, and the result is right exactly if the words left
     in the buffer happen to repeat.
     */
    method ShiftLeft(shift: nat)
      requires Valid()
      requires shift > 0 && !IsZero() && shift % 64 != 0 ==> count + shift / 64 < CAPACITY
      requires shift > 0 && !IsZero() && shift % 64 == 0 ==> 2 * count - 1 + shift / 64 <= CAPACITY
      modifies this, digits
      ensures Valid() && count <= old(count) + shift / 64 + 1
      ensures shift % 64 != 0 || shift == 0 || old(count) == 1 ==> Value() == old(Value()) * Pow(2, shift)
      ensures shift % 64 == 0 && shift > 0 && !old(IsZero()) ==>
                && digits[..count] == MovedWords(old(digits[..]), old(count), shift / 64)
                && (Value() == old(Value()) * Pow(2, shift) <==> Repeats(old(digits[..]), old(count), shift / 64))
    {
      hide Pow, Normal, Val, Repeats;
      if IsZero() || shift == 0 {
        assert digits[..count] == [0] || shift == 0;
        ZeroOrNoShift(digits[..count], shift);
        ValOne(0);
        return;
      }
      assert digits[..count] != [0];
      NonzeroWords(digits[..count]);
      var offset := shift / 64;
      var interShift := shift % 64;
      if interShift == 0 {
        WholeWords(shift, offset);
        ShiftWords(offset);
      } else {
        SplitShift(shift, offset, interShift, Value());
        ShiftBits(offset, interShift);
      }
    }

    /** The branch for whole words. */
    method ShiftWords(offset: nat)
      requires Valid() && offset > 0 && 2 * count - 1 + offset <= CAPACITY && Value() != 0
      modifies this, digits
      ensures Valid() && count == old(count) + offset
      ensures digits[..count] == MovedWords(old(digits[..]), old(count), offset)
      ensures Value() == old(Value()) * Pow(BASE, offset) <==> Repeats(old(digits[..]), old(count), offset)
      ensures old(count) == 1 ==> Value() == old(Value()) * Pow(BASE, offset)
    {
      hide Pow, Normal, Val, Repeats;
      ghost var w, b := digits[..count], digits[..];
      MoveTopWords(offset);
      assert b[..|w|] == w;
      MovedRight(w, b, digits[..count], offset);
    }

    /** The memmove and the memset of the whole-word branch. */
    method MoveTopWords(offset: nat)
      requires Valid() && offset > 0 && 2 * count - 1 + offset <= CAPACITY
      modifies this, digits
      ensures digits.Length == CAPACITY && count == old(count) + offset
      ensures forall j :: 0 <= j < offset ==> digits[j] == 0
      ensures forall j :: offset <= j < count - 1 ==> digits[j] == old(digits[j])
      ensures digits[count - 1] == old(digits[count - 1])
    {
      hide Normal, Val;
      var top := count - 1;
      var i := count;
      while i > 0
        invariant 0 <= i <= count == top + 1
        invariant forall j :: 0 <= j < top + offset + i ==> digits[j] == old(digits[j])
        invariant forall m :: top + offset + i <= m < top + offset + count ==> digits[m] == old(digits[m - offset])
      {
        i := i - 1;
        digits[top + offset + i] := digits[top + i];
      }
      count := count + offset;
      ClearLow(offset);
    }

    /** memset(digits_, 0, offset * sizeof(Type)) */
    method ClearLow(offset: nat)
      requires offset <= digits.Length
      modifies digits
      ensures forall j :: 0 <= j < offset ==> digits[j] == 0
      ensures forall j :: offset <= j < digits.Length ==> digits[j] == old(digits[j])
    {
      for i := 0 to offset
        invariant forall j :: 0 <= j < i ==> digits[j] == 0
        invariant forall j :: i <= j < digits.Length ==> digits[j] == old(digits[j])
      {
        digits[i] := 0;
      }
    }

    /** The branch that also shifts within the words. */
    method ShiftBits(offset: nat, interShift: nat)
      requires Valid() && 0 < interShift < 64 && count + offset < CAPACITY && Value() != 0
      modifies this, digits
      ensures Valid() && count <= old(count) + offset + 1
      ensures Value() == Pow(BASE, offset) * (Pow(2, interShift) * old(Value()))
    {
      hide Val, Pow, Normal;
      ghost var w := digits[..count];
      ghost var n := count;
      var p, q := Pow(2, interShift), Pow(2, 64 - interShift);
      SplitBase(interShift);
      digits[count] := 0;
      var i := count;
      while i > 0
        invariant 0 <= i <= count == n && digits.Length == CAPACITY
        invariant forall j :: 0 <= j <= i && j < n ==> digits[j] == w[j]
        invariant i == n ==> digits[n] == 0
        invariant forall j :: i < j <= n ==> digits[j + offset] == OutWord(w, p, q, j)
      {
        OutWordParts(w, p, q, i, digits[i], digits[i - 1]);
        digits[i + offset] := digits[i] * p % BASE + digits[i - 1] / q;
        i := i - 1;
      }
      digits[offset] := digits[0] * p % BASE;
      assert forall j :: 0 <= j <= n ==> digits[j + offset] == OutWord(w, p, q, j);
      count := count + offset;
      ghost var hi := digits[count];
      if digits[count] != 0 {
        count := count + 1;
      }
      ClearLow(offset);
      Shifted(w, p, q, digits[..n + offset + 1], offset);
      TrimTop(digits[..n + offset + 1], digits[..count], Pow(BASE, offset) * (p * Val(w)), w, p, offset);
    }

    // -------------------------------------------------------------- comparison

    method Compare(rhs: BigInteger) returns (c: int)
      requires Valid() && rhs.Valid()
      ensures c == Order(Value(), rhs.Value())
    {
      hide Val, Pow;
      if count != rhs.count {
        if count < rhs.count {
          LongerIsLarger(digits[..count], rhs.digits[..rhs.count]);
          return -1;
        }
        LongerIsLarger(rhs.digits[..rhs.count], digits[..count]);
        return 1;
      }
      var i := count;
      while i > 0
        invariant 0 <= i <= count && forall j :: i <= j < count ==> digits[j] == rhs.digits[j]
      {
        i := i - 1;
        if digits[i] != rhs.digits[i] {
          DecidedBy(digits[..count], rhs.digits[..count], i);
          return if digits[i] < rhs.digits[i] then -1 else 1;
        }
      }
      assert digits[..count] == rhs.digits[..count];
      return 0;
    }

    // -------------------------------------------------------------- difference

    /**
     The absolute difference of two different numbers; for equal ones the original's assertion
     fails and nothing is written. The borrow is taken to be d > a, which misses the borrow that
     arises when a subtrahend word 2^64 - 1 meets an incoming borrow: the result is right exactly
     if that never happens.
     */
    method Difference(rhs: BigInteger, out: BigInteger) returns (asserted: bool, ret: bool)
      requires Valid() && rhs.Valid() && out.Valid()
      requires out.digits != digits && out.digits != rhs.digits && out != this && out != rhs
      modifies out, out.digits
      ensures out.Valid() && asserted == (Value() != rhs.Value()) && ret == (Value() < rhs.Value())
      ensures !asserted ==> unchanged(out, out.digits)
      ensures asserted ==>
                var a := if ret then rhs.digits[..rhs.count] else digits[..count];
                var b := if ret then digits[..count] else rhs.digits[..rhs.count];
                && out.Value() == Val(a) - Val(b) + LostSum(a, b, |a|)
                && (out.Value() == Val(a) - Val(b) <==> NoLostBorrow(a, b))
    {
      hide Val, Normal, NoLostBorrow, LostSum;
      var cmp := Compare(rhs);
      if cmp == 0 {
        return false, false;
      }
      asserted := true;
      if cmp < 0 {
        LargerNotShorter(rhs.digits[..rhs.count], digits[..count]);
        ExactIffKept(rhs.digits[..rhs.count], digits[..count]);
        out.Subtract(rhs, this);
        ret := true;
      } else {
        LargerNotShorter(digits[..count], rhs.digits[..rhs.count]);
        ExactIffKept(digits[..count], rhs.digits[..rhs.count]);
        out.Subtract(this, rhs);
        ret := false;
      }
    }

    /** The loop of Difference, with this number as its result. */
    method Subtract(a: BigInteger, b: BigInteger)
      requires Valid() && a.Valid() && b.Valid() && a.Value() > b.Value() && b.count <= a.count
      requires digits != a.digits && digits != b.digits && this != a && this != b
      modifies this, digits
      ensures Valid()
      ensures Value() == a.Value() - b.Value() + LostSum(a.digits[..a.count], b.digits[..b.count], a.count)
    {
      hide Val, Pow, Normal, LostSum;
      ghost var x, y := a.digits[..a.count], b.digits[..b.count];
      var borrow := 0;
      SubtractStart(x, y);
      ghost var touched := false;
      for i := 0 to a.count
        invariant digits.Length == CAPACITY && 1 <= count <= CAPACITY
        invariant borrow == Borrow(x, y, i)
        invariant forall j :: 0 <= j < i ==> digits[j] == DiffWord(x, y, j)
        invariant touched ==> count <= i && digits[count - 1] != 0
        invariant forall j :: 0 <= j < i && (touched ==> j >= count) ==> digits[j] == 0
      {
        var d: int := a.digits[i];
        var ai := d;
        d := d - borrow;
        if i < b.count {
          d := d - b.digits[i];
        }
        d := if d < 0 then d + BASE else d;
        assert d == DiffWord(x, y, i);
        borrow := if d > ai then 1 else 0;
        digits[i] := d;
        if d != 0 {
          count := i + 1;
          touched := true;
        }
      }
      ghost var n := a.count;
      SubtractEnd(x, y, digits[..n]);
      assert !touched ==> forall j :: 0 <= j < n ==> digits[..n][j] == 0;
      TrimZeros(digits[..n], if touched then count else 0);
      if !touched {
        assert false;
      }
      assert digits[..n][..count] == digits[..count];
    }
  }

  /** The borrow that the original computes into word `i`. */
  function Borrow(a: Words, b: Words, i: nat): (c: int)
    requires i <= |a|
    ensures c == 0 || c == 1
    decreases i, 0
  {
    if i == 0 then 0 else if DiffWord(a, b, i - 1) > a[i - 1] then 1 else 0
  }

  function WordAt(b: Words, i: nat): uint64 { if i < |b| then b[i] else 0 }

  /** Word `i` of the difference, wrapped around. */
  function DiffWord(a: Words, b: Words, i: nat): (d: uint64)
    requires i < |a|
    decreases i, 1
  {
    var d := a[i] as int - Borrow(a, b, i) - WordAt(b, i);
    if d < 0 then d + BASE else d
  }

  /** A borrow meets a subtrahend word of all ones. */
  predicate LosesBorrow(a: Words, b: Words, i: nat)
    requires i < |a|
  {
    Borrow(a, b, i) == 1 && WordAt(b, i) == BASE - 1
  }

  predicate NoLostBorrow(a: Words, b: Words) {
    forall i :: 0 <= i < |a| ==> !LosesBorrow(a, b, i)
  }

  /** What the lost borrows up to word `i` add to the result. */
  function LostSum(a: Words, b: Words, i: nat): nat
    requires i <= |a|
  {
    if i == 0 then 0
    else LostSum(a, b, i - 1) + if LosesBorrow(a, b, i - 1) then Pow(BASE, i) else 0
  }

  function Padded(b: Words, n: nat): (r: Words)
    ensures |r| == n && forall i :: 0 <= i < n ==> r[i] == WordAt(b, i)
  {
    seq(n, i requires 0 <= i < n => WordAt(b, i))
  }

  lemma ValPadded(b: Words, n: nat)
    requires |b| <= n
    ensures Val(Padded(b, n)) == Val(b)
  {
    hide Val, Pow;
    var r := Padded(b, n);
    var z := r[|b|..];
    assert r == b + z;
    ValAppend(b, z);
    ValZeros(z);
  }

  lemma {:induction false} SubtractPrefix(a: Words, b: Words, d: Words, i: nat)
    requires i <= |a| == |d| && forall j :: 0 <= j < |d| ==> d[j] == DiffWord(a, b, j)
    ensures Val(d[..i]) == Val(a[..i]) - Val(Padded(b, i)) + Pow(BASE, i) * Borrow(a, b, i) + LostSum(a, b, i)
  {
    if i == 0 {
      assert d[..0] == [] && a[..0] == [] && Padded(b, 0) == [];
    } else {
      hide Val, Pow, Borrow, DiffWord, LostSum, LosesBorrow, WordAt;
      var k := i - 1;
      SubtractPrefix(a, b, d, k);
      assert d[..i] == d[..k] + [d[k]] && a[..i] == a[..k] + [a[k]] && Padded(b, i) == Padded(b, k) + [WordAt(b, k)];
      ValSnoc(d[..k], d[k]);
      ValSnoc(a[..k], a[k]);
      ValSnoc(Padded(b, k), WordAt(b, k));
      var lost := if LosesBorrow(a, b, k) then 1 else 0;
      WordStep(a, b, k);
      LostStep(a, b, k);
      SubtractArith(Pow(BASE, k), d[k], a[k], WordAt(b, k), Borrow(a, b, k), Borrow(a, b, i), lost);
    }
  }

  lemma LostStep(a: Words, b: Words, k: nat)
    requires k < |a|
    ensures LostSum(a, b, k + 1) == LostSum(a, b, k) + BASE * Pow(BASE, k) * if LosesBorrow(a, b, k) then 1 else 0
    ensures Pow(BASE, k + 1) == BASE * Pow(BASE, k)
  {
  }

  /** One word: exact, unless the borrow is lost. */
  lemma WordStep(a: Words, b: Words, k: nat)
    requires k < |a|
    ensures DiffWord(a, b, k)
            == a[k] - WordAt(b, k) - Borrow(a, b, k) + BASE * (Borrow(a, b, k + 1) + if LosesBorrow(a, b, k) then 1 else 0)
  {
  }

  lemma SubtractArith(p: int, d: int, x: int, y: int, c: int, c': int, lost: int)
    requires d == x - y - c + BASE * (c' + lost)
    ensures p * d == p * x - p * y - p * c + BASE * p * c' + BASE * p * lost
  {
    assert p * (x - y - c + BASE * (c' + lost)) == p * x - p * y - p * c + p * (BASE * (c' + lost));
    assert p * (BASE * (c' + lost)) == BASE * p * (c' + lost);
    Distribute(BASE * p, c', lost);
  }

  lemma {:induction false} LostSumZero(a: Words, b: Words, i: nat)
    requires i <= |a|
    ensures LostSum(a, b, i) == 0 <==> forall j :: 0 <= j < i ==> !LosesBorrow(a, b, j)
  {
    if i > 0 {
      LostSumZero(a, b, i - 1);
      PowPositive(BASE, i);
    }
  }

  lemma SubtractStart(a: Words, b: Words)
    ensures Borrow(a, b, 0) == 0
  {
  }

  /** The words of the difference denote it, increased by what the lost borrows stand for. */
  lemma SubtractEnd(a: Words, b: Words, d: Words)
    requires |d| == |a| && |b| <= |a| && Val(a) > Val(b) && forall j :: 0 <= j < |d| ==> d[j] == DiffWord(a, b, j)
    ensures Val(d) == Val(a) - Val(b) + LostSum(a, b, |a|)
  {
    hide Val, Pow, Borrow, DiffWord, LostSum, LosesBorrow, Padded;
    var n := |a|;
    SubtractPrefix(a, b, d, n);
    assert d[..n] == d && a[..n] == a;
    ValPadded(b, n);
    ValBound(d);
    EndArith(Pow(BASE, n), Borrow(a, b, n));
  }

  lemma ExactIffKept(a: Words, b: Words)
    ensures LostSum(a, b, |a|) == 0 <==> NoLostBorrow(a, b)
  {
    LostSumZero(a, b, |a|);
  }

  lemma EndArith(p: int, c: int)
    ensures c == 0 ==> p * c == 0
    ensures c == 1 ==> p * c == p
  {
  }

  /**
   The same condition said of the operands: nowhere does the subtrahend have a word 2^64 - 1
   above words that denote more than those of the minuend.
   */
  lemma LostBorrowMeans(a: Words, b: Words)
    requires |b| <= |a|
    ensures NoLostBorrow(a, b)
            <==> forall i :: 0 <= i < |b| && b[i] == BASE - 1 ==> Val(a[..i]) >= Val(b[..i])
  {
    hide Val, Pow, Borrow, DiffWord, LostSum;
    var d := seq(|a|, i requires 0 <= i < |a| => DiffWord(a, b, i));
    if i :| 0 <= i < |a| && LosesBorrow(a, b, i) {
      var k := FirstLoss(a, b, i);
      BorrowIs(a, b, d, k);
      assert b[k] == BASE - 1 && Val(a[..k]) < Val(b[..k]);
    } else {
      forall i | 0 <= i < |b| && b[i] == BASE - 1
        ensures Val(a[..i]) >= Val(b[..i])
      {
        BorrowIs(a, b, d, i);
        assert !LosesBorrow(a, b, i);
      }
    }
  }

  function FirstLoss(a: Words, b: Words, i: nat): (k: nat)
    requires i < |a| && LosesBorrow(a, b, i)
    ensures k <= i && LosesBorrow(a, b, k) && forall j :: 0 <= j < k ==> !LosesBorrow(a, b, j)
  {
    if j :| 0 <= j < i && LosesBorrow(a, b, j) then FirstLoss(a, b, j) else i
  }

  /** Until a borrow is lost, the borrow that the original computes is the true one. */
  lemma BorrowIs(a: Words, b: Words, d: Words, i: nat)
    requires i < |b| <= |a| == |d| && forall j :: 0 <= j < |d| ==> d[j] == DiffWord(a, b, j)
    requires forall j :: 0 <= j < i ==> !LosesBorrow(a, b, j)
    ensures Borrow(a, b, i) == 1 <==> Val(a[..i]) < Val(b[..i])
  {
    hide Val, Pow, Borrow, DiffWord, LostSum, LosesBorrow;
    SubtractPrefix(a, b, d, i);
    LostSumZero(a, b, i);
    assert Padded(b, i) == b[..i];
    ValBound(d[..i]);
    EndArith(Pow(BASE, i), Borrow(a, b, i));
  }

  /** 2^128 less 2^128 - 2^64 + 1 is 2^64 - 1; with the lost borrow it is 2^128 + 2^64 - 1. */
  method LostBorrowExample() returns (x: BigInteger, y: BigInteger, out: BigInteger)
    ensures x.Valid() && y.Valid() && out.Valid()
    ensures x.Value() == BASE * BASE && y.Value() == BASE * BASE - BASE + 1
    ensures out.Value() == BASE * BASE + BASE - 1 != x.Value() - y.Value()
  {
    hide Val, Normal, Repeats, Pow, NoLostBorrow, LostSum;
    SquareOfBase();
    x := new BigInteger(1);
    x.ShiftLeft(128);
    y := new BigInteger(BASE - 1);
    y.ShiftLeft(64);
    y.AddWord(1);
    out := new BigInteger(0);
    ExampleWords();
    SameWords(x.digits[..x.count], [0, 0, 1]);
    SameWords(y.digits[..y.count], [1, BASE - 1]);
    var _, _ := x.Difference(y, out);
  }

  lemma SquareOfBase()
    ensures Pow(2, 64) == BASE && Pow(2, 128) == BASE * BASE
  {
    PowersOfTwo();
    PowAdd(2, 64, 64);
  }

  lemma ExampleWords()
    ensures var a, b := [0, 0, 1], [1, BASE - 1];
            && Normal(a) && Normal(b) && Val(a) == BASE * BASE && Val(b) == BASE * BASE - BASE + 1
            && LostSum(a, b, 3) == BASE * BASE
  {
    var a, b := [0, 0, 1], [1, BASE - 1];
    assert DiffWord(a, b, 0) == BASE - 1;
    assert Borrow(a, b, 1) == 1;
    assert LosesBorrow(a, b, 1) && !LosesBorrow(a, b, 0);
    assert Borrow(a, b, 2) == 0;
    assert Pow(BASE, 2) == BASE * Pow(BASE, 1) && Pow(BASE, 1) == BASE;
    assert LostSum(a, b, 1) == 0;
    assert LostSum(a, b, 2) == BASE * BASE;
    assert a[1..] == [0, 1] && a[1..][1..] == [1] && b[1..] == [BASE - 1];
    ValOne(1);
    ValOne(BASE - 1);
  }

  /** A number has only one normal form. */
  lemma SameWords(w: Words, c: Words)
    requires Normal(w) && Normal(c) && Val(w) == Val(c)
    ensures w == c
  {
    hide Val, Pow, Normal;
    if |w| < |c| {
      LongerIsLarger(w, c);
    } else if |c| < |w| {
      LongerIsLarger(c, w);
    } else {
      ValInjective(w, c);
    }
  }

  /** Zeros on top may be left out. */
  lemma TrimZeros(d: Words, count: nat)
    requires count <= |d| && forall j :: count <= j < |d| ==> d[j] == 0
    ensures Val(d[..count]) == Val(d)
    ensures count > 0 && d[count - 1] != 0 ==> Normal(d[..count])
    ensures count == 0 ==> Val(d) == 0
  {
    hide Val, Pow;
    var low, z := d[..count], d[count..];
    assert d == low + z;
    ValAppend(low, z);
    ValZeros(z);
    if count == 0 {
      ValZeros(d);
    }
  }

  lemma LargerNotShorter(a: Words, b: Words)
    requires Normal(a) && Normal(b) && Val(a) > Val(b)
    ensures |b| <= |a|
  {
    if |a| < |b| {
      LongerIsLarger(a, b);
    }
  }

  /** In the buffer `b` the words from `offset` on repeat those from the start on. */
  predicate Repeats(b: Words, n: nat, offset: nat)
    requires 0 < n && n + offset <= |b|
  {
    forall j :: offset <= j < n - 1 + offset ==> b[j] == b[j - offset]
  }

  /** Shifting 2^64 + 5 by 64 bits gives a wrong number. */
  method WholeWordShiftExample() returns (x: BigInteger)
    ensures fresh(x) && x.Valid() && x.Value() != (BASE + 5) * Pow(2, 64)
  {
    hide Val, Normal, Repeats, Pow;
    PowersOfTwo();
    x := new BigInteger(1);
    x.ShiftLeft(64);
    x.AddWord(5);
    TwoWords(x.digits[..x.count]);
    assert x.digits[0] == 5 && x.digits[1] == 1;
    NoRepeat(x.digits[..], x.count);
    x.ShiftLeft(64);
  }

  lemma TwoWords(w: Words)
    requires Normal(w) && Val(w) == BASE + 5
    ensures w == [5, 1]
  {
    var c := [5, 1];
    assert c[1..] == [1];
    ValOne(1);
    SameWords(w, c);
  }

  lemma NoRepeat(b: Words, n: nat)
    requires n == 2 && |b| >= 3 && b[0] != b[1]
    ensures !Repeats(b, n, 1)
  {
    assert b[1] != b[1 - 1];
  }

  /** What the whole-word branch leaves: zeros, the words that were in their places, the top word. */
  function MovedWords(b: Words, n: nat, offset: nat): (r: Words)
    requires 0 < n && n + offset <= |b|
    ensures |r| == n + offset
  {
    seq(offset, _ => 0) + b[offset..n - 1 + offset] + [b[n - 1]]
  }

  lemma ZeroOrNoShift(w: Words, shift: nat)
    requires w == [0] || shift == 0
    ensures Val(w) == Val(w) * Pow(2, shift)
  {
  }

  /** Zeros below the words `w`. */
  function ZerosBelow(w: Words, offset: nat): (r: Words)
    ensures |r| == offset + |w|
  {
    seq(offset, _ => 0) + w
  }

  lemma ValZerosBelow(w: Words, offset: nat)
    ensures Val(ZerosBelow(w, offset)) == Pow(BASE, offset) * Val(w)
  {
    ValAppend(seq(offset, _ => 0), w);
    ValZeros(seq(offset, _ => 0));
  }

  /** The whole-word branch is right exactly if the words repeat. */
  lemma MovedRight(w: Words, b: Words, r: Words, offset: nat)
    requires Normal(w) && offset > 0 && |w| + offset <= |b| && |r| == |w| + offset && b[..|w|] == w
    requires forall j :: 0 <= j < offset ==> r[j] == 0
    requires forall j :: offset <= j < |r| - 1 ==> r[j] == b[j]
    requires r[|r| - 1] == w[|w| - 1]
    requires Val(w) != 0
    ensures Normal(r)
    ensures Val(r) == Pow(BASE, offset) * Val(w) <==> Repeats(b, |w|, offset)
    ensures |w| == 1 ==> Repeats(b, |w|, offset)
  {
    hide Pow, Val, Repeats;
    var c := ZerosBelow(w, offset);
    ValZerosBelow(w, offset);
    OneWordRepeats(b, |w|, offset);
    if Repeats(b, |w|, offset) {
      MovedIsShifted(w, b, r, offset);
    }
    if Val(r) == Val(c) {
      ValInjective(r, c);
      ShiftedRepeats(w, b, r, offset);
    }
    TopKept(w, r);
  }

  lemma TopKept(w: Words, r: Words)
    requires Normal(w) && Val(w) != 0 && |r| > |w| && r[|r| - 1] == w[|w| - 1]
    ensures Normal(r)
  {
    if |w| == 1 {
      assert w == [w[0]];
      ValOne(w[0]);
    }
  }

  lemma OneWordRepeats(b: Words, n: nat, offset: nat)
    requires 0 < n && n + offset <= |b|
    ensures n == 1 ==> Repeats(b, n, offset)
  {
  }

  lemma MovedIsShifted(w: Words, b: Words, r: Words, offset: nat)
    requires w != [] && offset > 0 && |w| + offset <= |b| && |r| == |w| + offset && b[..|w|] == w
    requires forall j :: 0 <= j < offset ==> r[j] == 0
    requires forall j :: offset <= j < |r| - 1 ==> r[j] == b[j]
    requires r[|r| - 1] == w[|w| - 1] && Repeats(b, |w|, offset)
    ensures r == ZerosBelow(w, offset)
  {
    var c := ZerosBelow(w, offset);
    forall j | 0 <= j < |r|
      ensures r[j] == c[j]
    {
      if offset <= j < |r| - 1 {
        assert b[j] == b[j - offset] == b[..|w|][j - offset];
      }
    }
  }

  lemma ShiftedRepeats(w: Words, b: Words, r: Words, offset: nat)
    requires w != [] && offset > 0 && |w| + offset <= |b| && |r| == |w| + offset && b[..|w|] == w
    requires forall j :: offset <= j < |r| - 1 ==> r[j] == b[j]
    requires r == ZerosBelow(w, offset)
    ensures Repeats(b, |w|, offset)
  {
    forall j | offset <= j < |w| - 1 + offset
      ensures b[j] == b[j - offset]
    {
      assert r[j] == w[j - offset] == b[..|w|][j - offset];
    }
  }

  lemma NonzeroWords(w: Words)
    requires Normal(w) && w != [0]
    ensures Val(w) != 0
  {
    if |w| > 1 {
      NormalLower(w);
      PowPositive(BASE, |w| - 1);
    } else {
      assert w == [w[0]];
      ValOne(w[0]);
    }
  }

  lemma WholeWords(shift: nat, offset: nat)
    requires shift == 64 * offset
    ensures Pow(2, shift) == Pow(BASE, offset)
  {
    if offset > 0 {
      WholeWords(shift - 64, offset - 1);
      PowAdd(2, 64, shift - 64);
      PowersOfTwo();
    }
  }

  lemma SplitShift(shift: nat, offset: nat, inter: nat, v: int)
    requires shift == 64 * offset + inter
    ensures Pow(BASE, offset) * (Pow(2, inter) * v) == v * Pow(2, shift)
  {
    WholeWords(64 * offset, offset);
    PowAdd(2, 64 * offset, inter);
    hide Pow;
    MulAssoc(Pow(BASE, offset), Pow(2, inter), v);
  }

  lemma SplitBase(inter: nat)
    requires 0 < inter < 64
    ensures Pow(2, inter) * Pow(2, 64 - inter) == BASE && Pow(2, inter) > 0 && Pow(2, 64 - inter) > 0
  {
    PowAdd(2, inter, 64 - inter);
    PowersOfTwo();
    PowPositive(2, inter);
    PowPositive(2, 64 - inter);
  }

  /** Word `j` of the words `w` times `p`, where p * q is the base. */
  function OutWord(w: Words, p: nat, q: nat, j: nat): int
    requires j <= |w| && q > 0
  {
    (if j < |w| then w[j] * p % BASE else 0) + (if j > 0 then w[j - 1] / q else 0)
  }

  lemma OutWordParts(w: Words, p: nat, q: nat, j: nat, x: uint64, y: uint64)
    requires 0 < j <= |w| && p * q == BASE && p > 0 && q > 0
    requires y == w[j - 1] && x == if j < |w| then w[j] else 0
    ensures x * p % BASE + y / q == OutWord(w, p, q, j) && 0 <= x * p % BASE + y / q < BASE
  {
    ShiftedWord(x, p, q);
    ShiftedWord(y, p, q);
    ZeroMul(p);
  }

  lemma ZeroMul(p: int)
    ensures 0 * p % BASE == 0
  {
  }

  /** A shifted word: its low part is a multiple of p, its high part is less than p. */
  lemma ShiftedWord(x: int, p: int, q: int)
    requires 0 <= x < BASE && p * q == BASE && p > 0 && q > 0
    ensures x * p == x * p % BASE + BASE * (x / q)
    ensures 0 <= x * p % BASE <= BASE - p && 0 <= x / q < p
  {
    var h, l := x / q, x % q;
    assert x == q * h + l;
    assert x * p == p * q * h + l * p by {
      assert (q * h + l) * p == q * h * p + l * p;
      assert q * h * p == p * q * h;
    }
    MulMono(l, q - 1, p);
    assert (q - 1) * p == BASE - p;
    MulMono(0, l, p);
    Remainder(x * p, h, l * p);
    if h >= p {
      MulMono(p, h, q);
    }
  }

  lemma Remainder(x: int, h: int, r: int)
    requires x == BASE * h + r && 0 <= r < BASE
    ensures x % BASE == r
  {
  }

  lemma {:induction false} ShiftedPrefix(w: Words, p: nat, q: nat, d: Words, i: nat)
    requires p * q == BASE && p > 0 && q > 0 && i <= |w| && |d| == |w| + 1
    requires forall j :: 0 <= j <= |w| ==> d[j] == OutWord(w, p, q, j)
    ensures Val(d[..i]) + Pow(BASE, i) * (if i > 0 then w[i - 1] / q else 0) == p * Val(w[..i])
  {
    if i == 0 {
      assert d[..0] == [] && w[..0] == [];
    } else {
      ShiftedPrefix(w, p, q, d, i - 1);
      assert d[..i] == d[..i - 1] + [d[i - 1]] && w[..i] == w[..i - 1] + [w[i - 1]];
      ValSnoc(d[..i - 1], d[i - 1]);
      ValSnoc(w[..i - 1], w[i - 1]);
      ShiftedWord(w[i - 1], p, q);
      var c := if i > 1 then w[i - 2] / q else 0;
      PrefixArith(Pow(BASE, i - 1), Val(d[..i - 1]), Val(w[..i - 1]), p, w[i - 1], w[i - 1] * p % BASE, c, w[i - 1] / q);
    }
  }

  lemma PrefixArith(b: int, vd: int, vw: int, p: int, x: int, low: int, c: int, h: int)
    requires vd + b * c == p * vw && x * p == low + BASE * h
    ensures vd + b * (low + c) + BASE * b * h == p * (vw + b * x)
  {
    Distribute(b, low, c);
    Distribute(p, vw, b * x);
    assert p * (b * x) == b * (x * p);
    Distribute(b, low, BASE * h);
    assert b * (BASE * h) == BASE * b * h;
  }

  lemma Shifted(w: Words, p: nat, q: nat, d: Words, offset: nat)
    requires p * q == BASE && p > 0 && q > 0 && w != [] && |d| == |w| + offset + 1
    requires forall j :: 0 <= j < offset ==> d[j] == 0
    requires forall j :: 0 <= j <= |w| ==> d[j + offset] == OutWord(w, p, q, j)
    ensures Val(d) == Pow(BASE, offset) * (p * Val(w))
  {
    hide Val, Pow, OutWord;
    var low, up := d[..offset], d[offset..];
    assert forall j :: 0 <= j <= |w| ==> up[j] == d[j + offset];
    ShiftedTop(w, p, q, up);
    assert d == low + up;
    ValAppend(low, up);
    ValZeros(low);
  }

  lemma ShiftedTop(w: Words, p: nat, q: nat, up: Words)
    requires p * q == BASE && p > 0 && q > 0 && w != [] && |up| == |w| + 1
    requires forall j :: 0 <= j <= |w| ==> up[j] == OutWord(w, p, q, j)
    ensures Val(up) == p * Val(w)
  {
    hide Val, Pow, OutWord;
    var n := |w|;
    ShiftedPrefix(w, p, q, up, n);
    TopOutWord(w, p, q);
    assert w[..n] == w && up == up[..n] + [up[n]];
    ValSnoc(up[..n], up[n]);
  }

  lemma TopOutWord(w: Words, p: nat, q: nat)
    requires w != [] && q > 0
    ensures OutWord(w, p, q, |w|) == w[|w| - 1] / q
  {
  }

  /** Leaving out a zero on top gives the normal form. */
  lemma TrimTop(d: Words, r: Words, v: int, w: Words, p: int, offset: nat)
    requires Val(d) == v == Pow(BASE, offset) * (p * Val(w)) && Normal(w) && Val(w) != 0 && p > 0
    requires |d| == |w| + offset + 1
    requires r == if d[|d| - 1] != 0 then d else d[..|d| - 1]
    ensures Normal(r) && Val(r) == v
  {
    hide Val, Pow;
    if d[|d| - 1] == 0 {
      var n := |d| - 1;
      assert d == d[..n] + [0];
      ValSnoc(d[..n], 0);
      LowerBound(w, p, offset);
      NormalByValue(r);
    } else {
      NormalNonzero(r);
    }
  }

  lemma NormalNonzero(r: Words)
    requires r != [] && r[|r| - 1] != 0
    ensures Normal(r)
  {
  }

  lemma LowerBound(w: Words, p: int, offset: nat)
    requires Normal(w) && Val(w) != 0 && p > 0
    ensures Pow(BASE, offset) * (p * Val(w)) >= Pow(BASE, |w| + offset - 1)
  {
    PowAdd(BASE, offset, |w| - 1);
    if |w| > 1 {
      NormalLower(w);
    } else {
      assert Pow(BASE, 0) == 1;
    }
    hide Val, Pow;
    var b, m := Pow(BASE, offset), Pow(BASE, |w| - 1);
    MulMono(1, p, Val(w));
    PowPositive(BASE, offset);
    MulMono(m, p * Val(w), b);
  }

  /** The sign of a comparison. */
  function Order(a: int, b: int): int { if a < b then -1 else if a > b then 1 else 0 }

  lemma DecidedBy(a: Words, b: Words, i: nat)
    requires |a| == |b| && i < |a| && a[i] != b[i] && forall j :: i < j < |a| ==> a[j] == b[j]
    ensures Order(Val(a), Val(b)) == if a[i] < b[i] then -1 else 1
  {
    hide Val, Pow;
    assert a[i + 1..] == b[i + 1..];
    ValPrefix(a, b, i + 1);
    if a[i] < b[i] {
      ValTop(a[..i + 1], b[..i + 1]);
    } else {
      ValTop(b[..i + 1], a[..i + 1]);
    }
  }

  /** The low words `d` are the low words `w` plus `u`, up to the carry `c`. */
  ghost predicate Carried(d: Words, w: Words, u: int, c: int)
  {
    |d| == |w| && Val(d) + Pow(BASE, |w|) * c == Val(w) + u
  }

  lemma FirstCarry(w: Words, u: uint64, d: Words)
    requires |w| >= 1 && |d| == 1 && d[0] == Wrap(w[0] + u)
    ensures Carried(d, w[..1], u, if d[0] < w[0] then 1 else 0)
  {
    assert w[..1] == [w[0]] && d == [d[0]];
    ValOne(w[0]);
    ValOne(d[0]);
    assert Pow(BASE, 1) == BASE;
  }

  lemma NextCarry(low: Words, w: Words, u: int, wi: uint64, di: uint64)
    requires Carried(low, w, u, 1) && di == Wrap(wi + 1)
    ensures Carried(low + [di], w + [wi], u, if di < wi then 1 else 0)
  {
    hide Val;
    var p := Pow(BASE, |w|);
    ValSnoc(low, di);
    ValSnoc(w, wi);
    assert Pow(BASE, |w| + 1) == BASE * p;
    var c := if di < wi then 1 else 0;
    assert di + BASE * c == wi + 1;
    assert p * di + BASE * p * c == p * wi + p by {
      Distribute(p, di, BASE * c);
      Distribute(p, wi, 1);
    }
  }

  lemma SumNormal(d: Words, w: Words, u: int, i: nat)
    requires |d| == |w| && i <= |w| && Normal(w) && u >= 0 && forall j :: i <= j < |w| ==> d[j] == w[j]
    requires Carried(d[..i], w[..i], u, 0)
    ensures Normal(d) && Val(d) == Val(w) + u
  {
    hide Val, Pow;
    assert d[i..] == w[i..];
    ValPrefix(d, w, i);
    if |w| > 1 {
      NormalLower(w);
    }
    NormalByValue(d);
  }

  lemma NormalTop(d: Words)
    requires d != [] && d[|d| - 1] == 1
    ensures Normal(d)
  {
  }

  lemma PowZero(b: nat, x: int)
    ensures x * Pow(b, 0) == x
  {
  }

  /** The uint32 multiplication of one word, by halves. */
  method MulAdd32(w: uint64, u: uint32, k: uint64) returns (d: uint64, hi: uint64)
    requires k < HALF
    ensures d + BASE * hi == w * u + k && hi < HALF
  {
    var c, e := w / HALF, w % HALF;
    HalfProducts(c, u);
    HalfProducts(e, u);
    assert w * u == HALF * (c * u) + e * u by { assert w == HALF * c + e; }
    var uc: uint64, ud: uint64 := u * c, u * e;
    var p0: uint64 := ud + k;
    var p1: uint64 := uc + p0 / HALF;
    d := p0 % HALF + p1 % HALF * HALF;
    hi := p1 / HALF;
  }

  /** kPow5: the powers 5^1 to 5^12. */
  function KPow5(e: nat): uint32
    requires 1 <= e <= 12
  {
    if e == 1 then 5 else if e == 2 then 25 else if e == 3 then 125 else if e == 4 then 625
    else if e == 5 then 3125 else if e == 6 then 15625 else if e == 7 then 78125 else if e == 8 then 390625
    else if e == 9 then 1953125 else if e == 10 then 9765625 else if e == 11 then 48828125 else 244140625
  }

  lemma {:induction false} KPow5IsPower(e: nat)
    requires 1 <= e <= 12
    ensures KPow5(e) == Pow(5, e)
  {
    if e > 1 {
      KPow5IsPower(e - 1);
    }
  }

  lemma NothingYet(d: Words, w: Words, u: int)
    requires d == [] && w == []
    ensures Val(d) == 0 && Val(w) == 0 && Val(w) * u == 0
  {
  }

  lemma FifthPowers()
    ensures Pow(5, 13) == 1220703125 && Pow(5, 27) == 0x6765_C793_FA10_079D
  {
    assert Pow(5, 1) == 5;
    assert Pow(5, 6) == 15625;
    PowAdd(5, 6, 6);
    PowAdd(5, 1, 12);
    PowAdd(5, 13, 13);
    PowAdd(5, 1, 26);
  }

  /** The carry of a one-word multiplication stays below the factor. */
  lemma CarryBound(w: int, u: int, k: int, d: int, hi: int)
    requires 0 <= w < BASE && 0 <= k < u < BASE && 0 <= d && d + BASE * hi == w * u + k
    ensures hi < u
  {
    MulMono(w, BASE - 1, u);
  }

  lemma MulCarry(low: Words, w: Words, wi: uint64, u: int, k: int, d: uint64, hi: int)
    requires |low| == |w| && Val(low) + Pow(BASE, |w|) * k == Val(w) * u
    requires d + BASE * hi == wi * u + k
    ensures Val(low + [d]) + Pow(BASE, |w| + 1) * hi == Val(w + [wi]) * u
  {
    hide Val;
    var p := Pow(BASE, |w|);
    ValSnoc(low, d);
    ValSnoc(w, wi);
    MulCarryArith(p, Val(low), Val(w), wi, u, k, d, hi);
  }

  lemma MulCarryArith(p: int, l: int, v: int, wi: int, u: int, k: int, d: int, hi: int)
    requires l + p * k == v * u && d + BASE * hi == wi * u + k
    ensures l + p * d + BASE * p * hi == (v + p * wi) * u
  {
    assert p * (d + BASE * hi) == p * d + BASE * p * hi;
    assert p * (wi * u + k) == p * wi * u + p * k;
    assert (v + p * wi) * u == v * u + p * wi * u;
  }

  /** Without a last carry the top word of a product is not zero. */
  lemma ProductNormal(d: Words, w: Words, u: int, k: int)
    requires |d| == |w| && Normal(w) && u > 0 && k >= 0
    requires Val(d) + Pow(BASE, |w|) * k == Val(w) * u
    ensures k == 0 ==> Normal(d)
  {
    hide Val, Pow;
    if k == 0 && |w| > 1 && d[|d| - 1] == 0 {
      var n := |d| - 1;
      assert d == d[..n] + [0];
      ValSnoc(d[..n], 0);
      ValBound(d[..n]);
      NormalLower(w);
      MulMono(1, u, Val(w));
    }
  }
}

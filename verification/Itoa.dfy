/**
 Decimal printing of integers (rapidjson/internal/itoa.h). The methods append to a buffer,
 four digits at a time through a table of digit pairs, as the original does.
 */
module Itoa {
  import opened Sax
  import opened Scan
  import opened Powers

  /** The canonical decimal digits of a number. */
  function Decimal(n: nat): (s: Text)
    ensures s != []
  {
    if n < 10 then [Digit(n)] else Decimal(n / 10) + [Digit(n % 10)]
  }

  function Digit(d: nat): Byte
    requires d < 10
  {
    '0' as int + d
  }

  function SignedDecimal(n: int): Text {
    if n < 0 then ['-' as int] + Decimal(-n) else Decimal(n)
  }

  /** Exactly four digits. */
  function Pad4(n: nat): Text
    requires n < 10000
  {
    [Digit(n / 1000), Digit(n / 100 % 10), Digit(n / 10 % 10), Digit(n % 10)]
  }

  /** The table of the digit pairs 00 to 99. */
  function DigitsLut(i: nat): Byte
    requires i < 200
  {
    if i % 2 == 0 then Digit(i / 2 / 10) else Digit(i / 2 % 10)
  }

  /** A number is the digits of its quotient by 10000, then four more. */
  lemma SplitAt4(a: nat, b: nat)
    requires a > 0 && b < 10000
    ensures Decimal(a * 10000 + b) == Decimal(a) + Pad4(b)
  {
    var n := a * 10000 + b;
    assert n / 10 == a * 1000 + b / 10 && n % 10 == b % 10;
    assert n / 10 / 10 == a * 100 + b / 100 && n / 10 % 10 == b / 10 % 10;
    assert n / 10 / 10 / 10 == a * 10 + b / 1000 && n / 10 / 10 % 10 == b / 100 % 10;
    assert (a * 10 + b / 1000) / 10 == a && (a * 10 + b / 1000) % 10 == b / 1000;
    var n3 := a * 10 + b / 1000;
    assert Decimal(n3) == Decimal(a) + [Digit(b / 1000)];
    assert Decimal(a * 100 + b / 100) == Decimal(n3) + [Digit(b / 100 % 10)];
    assert Decimal(a * 1000 + b / 10) == Decimal(a * 100 + b / 100) + [Digit(b / 10 % 10)];
    assert Decimal(n) == Decimal(a * 1000 + b / 10) + [Digit(b % 10)];
  }

  /** Up to four digits without leading zeros. */
  lemma SmallDecimal(n: nat)
    requires n < 10000
    ensures Decimal(n) ==
            (if n >= 1000 then [Digit(n / 1000)] else []) + (if n >= 100 then [Digit(n / 100 % 10)] else [])
            + (if n >= 10 then [Digit(n / 10 % 10)] else []) + [Digit(n % 10)]
  {
    assert n / 10 / 10 == n / 100 && n / 100 / 10 == n / 1000;
    assert Decimal(n / 1000) == [Digit(n / 1000)];
    if n >= 1000 {
      assert Decimal(n / 100) == Decimal(n / 1000) + [Digit(n / 100 % 10)];
    }
    if n >= 100 {
      assert Decimal(n / 10) == Decimal(n / 100) + [Digit(n / 10 % 10)];
    }
    if n >= 10 {
      assert Decimal(n) == Decimal(n / 10) + [Digit(n % 10)];
    }
  }

  /** The pairs of the table that make up a number below 10000. */
  lemma LutPairs(n: nat)
    requires n < 10000
    ensures DigitsLut(n / 100 * 2) == Digit(n / 1000) && DigitsLut(n / 100 * 2 + 1) == Digit(n / 100 % 10)
    ensures DigitsLut(n % 100 * 2) == Digit(n / 10 % 10) && DigitsLut(n % 100 * 2 + 1) == Digit(n % 10)
  {
    LutPair(n / 100);
    LutPair(n % 100);
    Pieces(n / 100, n % 100 / 10, n % 100 % 10);
    hide DigitsLut;
  }

  lemma Pieces(q: nat, x: nat, y: nat)
    requires x < 10 && y < 10
    ensures var n := 100 * q + 10 * x + y; n / 10 % 10 == x && n % 10 == y && n / 1000 == q / 10
  {
    var n := 100 * q + 10 * x + y;
    assert n / 10 == 10 * q + x && n / 100 == q;
  }

  lemma LutPair(k: nat)
    requires k < 100
    ensures DigitsLut(2 * k) == Digit(k / 10) && DigitsLut(2 * k + 1) == Digit(k % 10)
  {
  }

  method PutSmall(n: nat, buffer: Text) returns (r: Text)
    requires n < 10000
    ensures r == buffer + Decimal(n)
  {
    hide DigitsLut, Digit, Decimal;
    LutPairs(n);
    var d1 := n / 100 * 2;
    var d2 := n % 100 * 2;
    r := buffer;
    if n >= 1000 {
      r := r + [DigitsLut(d1)];
    }
    if n >= 100 {
      r := r + [DigitsLut(d1 + 1)];
    }
    if n >= 10 {
      r := r + [DigitsLut(d2)];
    }
    r := r + [DigitsLut(d2 + 1)];
    SmallDecimal(n);
  }

  method PutPadded(n: nat, buffer: Text) returns (r: Text)
    requires n < 10000
    ensures r == buffer + Pad4(n)
  {
    hide DigitsLut, Digit, Decimal;
    LutPairs(n);
    var d1 := n / 100 * 2;
    var d2 := n % 100 * 2;
    r := buffer + [DigitsLut(d1)];
    r := r + [DigitsLut(d1 + 1)];
    r := r + [DigitsLut(d2)];
    r := r + [DigitsLut(d2 + 1)];
  }

  method PutPadded8(n: nat, buffer: Text) returns (r: Text)
    requires n < 100000000
    ensures r == buffer + Pad4(n / 10000) + Pad4(n % 10000)
  {
    r := PutPadded(n / 10000, buffer);
    r := PutPadded(n % 10000, r);
  }

  lemma SplitAt8(a: nat, b: nat)
    requires a > 0 && b < 100000000
    ensures Decimal(a * 100000000 + b) == Decimal(a) + Pad4(b / 10000) + Pad4(b % 10000)
  {
    SplitAt4(a, b / 10000);
    SplitAt4(a * 10000 + b / 10000, b % 10000);
  }

  /** Up to eight digits without leading zeros. */
  method PutSmall8(n: nat, buffer: Text) returns (r: Text)
    requires n < 100000000
    ensures r == buffer + Decimal(n)
  {
    if n < 10000 {
      r := PutSmall(n, buffer);
    } else {
      r := PutSmall(n / 10000, buffer);
      r := PutPadded(n % 10000, r);
      SplitAt4(n / 10000, n % 10000);
      assert n == n / 10000 * 10000 + n % 10000;
    }
  }

  method U32toa(value: uint32, buffer: Text) returns (r: Text)
    ensures r == buffer + Decimal(value)
  {
    hide Decimal, Pad4;
    if value < 100000000 {
      r := PutSmall8(value, buffer);
    } else {
      var a := value / 100000000;
      r := PutHead2(a, buffer);
      r := PutPadded8(value % 100000000, r);
      SplitAt8(a, value % 100000000);
      assert value == a * 100000000 + value % 100000000;
    }
  }

  /** One or two digits. */
  method PutHead2(a: nat, buffer: Text) returns (r: Text)
    requires a < 100
    ensures r == buffer + Decimal(a)
  {
    hide DigitsLut, Digit, Decimal;
    LutPair(a);
    SmallDecimal(a);
    if a >= 10 {
      r := buffer + [DigitsLut(2 * a)];
      r := r + [DigitsLut(2 * a + 1)];
    } else {
      r := buffer + [Digit(a)];
    }
  }

  method I32toa(value: int32, buffer: Text) returns (r: Text)
    ensures r == buffer + SignedDecimal(value)
  {
    r := buffer;
    var u: uint32 := if value < 0 then value + 0x1_0000_0000 else value;
    if value < 0 {
      r := r + ['-' as int];
      u := 0xFFFF_FFFF - u + 1;
    }
    r := U32toa(u, r);
  }

  method U64toa(value: uint64, buffer: Text) returns (r: Text)
    ensures r == buffer + Decimal(value)
  {
    if value < 100000000 {
      r := PutSmall8(value, buffer);
    } else if value < 10000000000000000 {
      r := PutSmall8(value / 100000000, buffer);
      r := PutPadded8(value % 100000000, r);
      SplitAt8(value / 100000000, value % 100000000);
    } else {
      hide Decimal, Pad4;
      var a := value / 10000000000000000;
      var rest := value % 10000000000000000;
      r := PutHead(a, buffer);
      r := PutPadded8(rest / 100000000, r);
      r := PutPadded8(rest % 100000000, r);
      SplitAt16(a, rest);
      assert value == a * 10000000000000000 + rest;
    }
  }

  /** The digits before the last sixteen, by their number. */
  method PutHead(a: nat, buffer: Text) returns (r: Text)
    requires a < 10000
    ensures r == buffer + Decimal(a)
  {
    hide DigitsLut, Digit, Decimal;
    LutPairs(a);
    SmallDecimal(a);
    if a < 10 {
      r := buffer + [Digit(a)];
    } else if a < 100 {
      r := buffer + [DigitsLut(2 * a)];
      r := r + [DigitsLut(2 * a + 1)];
    } else if a < 1000 {
      r := buffer + [Digit(a / 100)];
      r := r + [DigitsLut(a % 100 * 2)];
      r := r + [DigitsLut(a % 100 * 2 + 1)];
    } else {
      r := PutPadded(a, buffer);
    }
  }

  lemma SplitAt16(a: nat, b: nat)
    requires a > 0 && b < 10000000000000000
    ensures Decimal(a * 10000000000000000 + b)
            == Decimal(a) + Pad4(b / 100000000 / 10000) + Pad4(b / 100000000 % 10000)
               + Pad4(b % 100000000 / 10000) + Pad4(b % 100000000 % 10000)
  {
    SplitAt8(a, b / 100000000);
    SplitAt8(a * 100000000 + b / 100000000, b % 100000000);
  }

  method I64toa(value: int64, buffer: Text) returns (r: Text)
    ensures r == buffer + SignedDecimal(value)
  {
    r := buffer;
    var u: uint64 := if value < 0 then value + 0x1_0000_0000_0000_0000 else value;
    if value < 0 {
      r := r + ['-' as int];
      u := 0xFFFF_FFFF_FFFF_FFFF - u + 1;
    }
    r := U64toa(u, r);
  }

  // ---------------------------------------------------------------- decimal reading inverts it

  lemma {:induction false} DecimalIsDigits(n: nat)
    ensures AllDigits(Decimal(n))
    ensures Decimal(n)[0] == '0' as int <==> n == 0
  {
    if n >= 10 {
      DecimalIsDigits(n / 10);
    }
  }

  /** Reading the printed digits gives the number back. */
  lemma {:induction false} DecimalRoundTrip(n: nat)
    ensures AllDigits(Decimal(n))
    ensures DecimalValue(Decimal(n)) == n
  {
    DecimalIsDigits(n);
    var s := Decimal(n);
    if n < 10 {
      assert s[..|s| - 1] == [];
    } else {
      DecimalRoundTrip(n / 10);
      assert s[..|s| - 1] == Decimal(n / 10);
    }
  }

  /** A digit string without a leading zero is the only way to print its value. */
  lemma {:induction false} DecimalCanonical(s: Text)
    requires s != [] && AllDigits(s) && (s[0] == '0' as int ==> |s| == 1)
    ensures Decimal(DecimalValue(s)) == s
  {
    var init, d := s[..|s| - 1], s[|s| - 1] - '0' as int;
    assert s == init + [s[|s| - 1]];
    assert IsDigit(s[|s| - 1]);
    assert DecimalValue(s) == DecimalValue(init) * 10 + d;
    if |s| == 1 {
      assert init == [];
    } else {
      DecimalCanonical(init);
      assert DecimalValue(s) / 10 == DecimalValue(init) && DecimalValue(s) % 10 == d;
      PositiveValue(init);
    }
  }

  lemma {:induction false} PositiveValue(s: Text)
    requires s != [] && AllDigits(s) && s[0] != '0' as int
    ensures DecimalValue(s) > 0
  {
    assert IsDigit(s[|s| - 1]);
    if |s| > 1 {
      PositiveValue(s[..|s| - 1]);
    }
  }

  /** The buffers of the writers are large enough: 10 digits for 32 bits, 20 for 64 bits. */
  lemma {:induction false} DecimalLength(n: nat, k: nat)
    requires n < Pow(10, k) && k > 0
    ensures |Decimal(n)| <= k
  {
    if n >= 10 {
      DecimalLength(n / 10, k - 1);
    }
  }

  lemma BuffersSuffice(u: uint32, w: uint64)
    ensures |Decimal(u)| <= 10 && |Decimal(w)| <= 20
  {
    assert Pow(10, 5) == 100000;
    PowAdd(10, 5, 5);
    PowAdd(10, 10, 10);
    DecimalLength(u, 10);
    DecimalLength(w, 20);
  }
}

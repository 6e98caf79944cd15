/** Little-endian words of 64 bits and the number they denote. */
module Limbs {
  import opened Sax
  import opened Powers

  const BASE := 0x1_0000_0000_0000_0000

  type Words = seq<uint64>

  function Val(s: Words): nat {
    if s == [] then 0 else s[0] + BASE * Val(s[1..])
  }

  lemma {:induction false} ValAppend(a: Words, b: Words)
    ensures Val(a + b) == Val(a) + Pow(BASE, |a|) * Val(b)
  {
    if a == [] {
      assert a + b == b;
    } else {
      assert (a + b)[1..] == a[1..] + b;
      ValAppend(a[1..], b);
      var p := Pow(BASE, |a| - 1);
      Distribute(BASE, Val(a[1..]), p * Val(b));
      MulAssoc(BASE, p, Val(b));
    }
  }

  lemma ValOne(d: uint64)
    ensures Val([d]) == d
  {
  }

  lemma ValSnoc(a: Words, d: uint64)
    ensures Val(a + [d]) == Val(a) + Pow(BASE, |a|) * d
  {
    ValAppend(a, [d]);
    assert Val([d]) == d;
  }

  lemma {:induction false} ValBound(a: Words)
    ensures Val(a) < Pow(BASE, |a|)
  {
    if a != [] {
      ValBound(a[1..]);
      MulMono(Val(a[1..]) + 1, Pow(BASE, |a| - 1), BASE);
    }
  }

  lemma {:induction false} ValZeros(a: Words)
    requires forall i :: 0 <= i < |a| ==> a[i] == 0
    ensures Val(a) == 0
  {
    if a != [] {
      ValZeros(a[1..]);
    }
  }

  /** Words of the same length that denote the same number are equal. */
  lemma {:induction false} ValInjective(a: Words, b: Words)
    requires |a| == |b| && Val(a) == Val(b)
    ensures a == b
  {
    if a != [] {
      assert (a[0] - b[0]) == BASE * (Val(b[1..]) - Val(a[1..]));
      ValInjective(a[1..], b[1..]);
      assert a == [a[0]] + a[1..] && b == [b[0]] + b[1..];
    }
  }

  /** Words whose last one differs are ordered by it. */
  lemma ValTop(a: Words, b: Words)
    requires |a| == |b| > 0 && a[|a| - 1] < b[|a| - 1]
    ensures Val(a) < Val(b)
  {
    var n := |a| - 1;
    assert a == a[..n] + [a[n]] && b == b[..n] + [b[n]];
    ValSnoc(a[..n], a[n]);
    ValSnoc(b[..n], b[n]);
    ValBound(a[..n]);
    MulMono(a[n] + 1, b[n], Pow(BASE, n));
  }

  /** No superfluous zero on top. */
  predicate Normal(s: Words) {
    s != [] && (|s| == 1 || s[|s| - 1] != 0)
  }

  lemma NormalLower(s: Words)
    requires Normal(s) && |s| > 1
    ensures Val(s) >= Pow(BASE, |s| - 1)
  {
    var n := |s| - 1;
    assert s == s[..n] + [s[n]];
    ValSnoc(s[..n], s[n]);
    MulMono(1, s[n], Pow(BASE, n));
  }

  /** A longer normal number is larger. */
  lemma LongerIsLarger(a: Words, b: Words)
    requires Normal(a) && Normal(b) && |a| < |b|
    ensures Val(a) < Val(b)
  {
    ValBound(a);
    NormalLower(b);
    PowMono(BASE, |a|, |b| - 1);
  }

  /** A value that needs the top word makes the words normal. */
  lemma NormalByValue(d: Words)
    requires d != [] && (|d| > 1 ==> Val(d) >= Pow(BASE, |d| - 1))
    ensures Normal(d)
  {
    if |d| > 1 && d[|d| - 1] == 0 {
      var n := |d| - 1;
      assert d == d[..n] + [0];
      ValSnoc(d[..n], 0);
      ValBound(d[..n]);
    }
  }

  /** Changing a prefix changes the value by the difference of the prefixes. */
  lemma ValPrefix(a: Words, b: Words, i: nat)
    requires |a| == |b| && i <= |a| && a[i..] == b[i..]
    ensures Val(a) - Val(a[..i]) == Val(b) - Val(b[..i])
  {
    assert a == a[..i] + a[i..] && b == b[..i] + b[i..];
    ValAppend(a[..i], a[i..]);
    ValAppend(b[..i], b[i..]);
  }
}

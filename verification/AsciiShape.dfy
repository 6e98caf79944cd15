/**
 How long and of what characters the strings are that the writer with an ASCII target makes
 (rapidjson/writer.h): no ASCII text that reads as the same string is shorter.
 */
module AsciiShape {
  import opened Sax
  import opened Rfc8259
  import opened JsonLexis
  import S = Scan
  import W = JsonWriter
  import R = RoundTrip
  import U = Unicode

  /** A \u escape shows its code in upper-case hexadecimal digits. */
  lemma CodesInUpperCase(v: nat)
    requires v < 0x10000
    ensures var h := U.HexText(v);
            FourHex(h) && CodeOf(h) == v && forall i :: 0 <= i < 4 ==> h[i] < 0x61
  {
    assert v / 256 == v / 16 / 16 && v / 4096 == v / 256 / 16;
    UpperHexIs(v / 4096);
    UpperHexIs(v / 256 % 16);
    UpperHexIs(v / 16 % 16);
    UpperHexIs(v % 16);
    hide W.UpperHex, HexValue, IsHexDig;
  }

  lemma UpperHexIs(d: nat)
    requires d < 16
    ensures IsHexDig(W.UpperHex(d)) && HexValue(W.UpperHex(d)) == d && W.UpperHex(d) < 0x61
  {
  }

  /** Characters beyond ASCII are written as their code, or as the surrogates of section 2.1 of RFC 2781. */
  lemma CodeOfEscape(cp: int)
    requires U.IsScalarValue(cp) && cp >= 0x80
    ensures var e := U.UnicodeEscape(cp);
            if cp < 0x10000 then e == UnitText(Code(e[2..6])) && FourHex(e[2..6]) && CodeOf(e[2..6]) == cp
            else
              && e == UnitText(Surrogates(e[2..6], e[8..12])) && UnitOk(Surrogates(e[2..6], e[8..12]))
              && PairOf(CodeOf(e[2..6]), CodeOf(e[8..12])) == cp
  {
    hide U.HexText, CodeOf, FourHex;
    if cp < 0x10000 {
      CodesInUpperCase(cp);
      EscapeParts(U.HexText(cp), []);
    } else {
      var v := cp - 0x10000;
      CodesInUpperCase(v / 1024 + 0xD800);
      CodesInUpperCase(v % 1024 + 0xDC00);
      EscapeParts(U.HexText(v / 1024 + 0xD800), U.HexText(v % 1024 + 0xDC00));
    }
  }

  lemma EscapeParts(h: Text, k: Text)
    requires |h| == 4
    ensures (U.ESCAPE + h)[2..6] == h && UnitText(Code(h)) == U.ESCAPE + h
    ensures |k| == 4 ==>
      var e := U.ESCAPE + h + (U.ESCAPE + k); |e| == 12 && e[2..6] == h && e[8..12] == k && UnitText(Surrogates(h, k)) == e
  {
  }

  lemma UnitIsShort(u: Unit)
    requires UnitOk(u) && U.IsAscii(UnitText(u)) && UnitBytes(u)[..1] != [] && UnitBytes(u)[0] < 0x80
    ensures |UnitBytes(u)| == 1 && |W.EscapedByte(UnitBytes(u)[0])| <= |UnitText(u)|
  {
    hide CodeOf, PairOf;
    if u.Plain? {
      R.PlainShort(u.c);
    }
  }

  /** A lone surrogate makes no well-formed character. */
  lemma NoLoneSurrogate(s: Text, p: nat, cp: nat)
    requires 0xD800 <= cp <= 0xDFFF && Stands(s, p, S.Utf8(cp))
    ensures U.CharLength(s, p) == 0
  {
    PeekStands(s, p, S.Utf8(cp), 0);
    PeekStands(s, p, S.Utf8(cp), 1);
  }

  /** The writer's text of a character beyond ASCII. */
  lemma CodeAt(s: Text, p: nat, cp: nat)
    requires 0x80 <= cp <= 0x10FFFF && Stands(s, p, S.Utf8(cp)) && U.WellFormedFrom(s, p)
    ensures p + |S.Utf8(cp)| <= |s| && U.WellFormedFrom(s, p + |S.Utf8(cp)|)
    ensures U.AsciiText(s, p) == U.UnicodeEscape(cp) + U.AsciiText(s, p + |S.Utf8(cp)|)
  {
    hide S.Utf8, U.CharLength, U.UnicodeEscape, U.Recover, U.AsciiText;
    StandsWithin(s, p, S.Utf8(cp));
    if 0xD800 <= cp <= 0xDFFF {
      NoLoneSurrogate(s, p, cp);
      assert false;
    } else {
      U.EncodedIsWellFormed(cp, s, p);
      U.RecoverEncoded(cp);
      StandsSlice(s, p, S.Utf8(cp));
      HighLead(s, p, cp);
      U.AsciiStep(s, p);
    }
  }

  lemma HighLead(s: Text, p: nat, cp: nat)
    requires 0x80 <= cp <= 0x10FFFF && Stands(s, p, S.Utf8(cp))
    ensures p < |s| && s[p] >= 0x80
  {
    PeekStands(s, p, S.Utf8(cp), 0);
  }

  /** What one unit stands for is written no longer than the unit. */
  lemma UnitWritten(s: Text, p: nat, u: Unit)
    requires UnitOk(u) && U.IsAscii(UnitText(u)) && Stands(s, p, UnitBytes(u)) && U.WellFormedFrom(s, p)
    ensures var q := p + |UnitBytes(u)|;
            && p < q <= |s| && U.WellFormedFrom(s, q) && |U.AsciiText(s, p)| <= |UnitText(u)| + |U.AsciiText(s, q)|
  {
    hide CodeOf, PairOf, U.UnicodeEscape, W.EscapedByte, U.CharLength, U.AsciiText, U.WellFormedFrom, FourHex, Stands, S.Utf8;
    var b := UnitBytes(u);
    UnitBegins(u);
    StandsWithin(s, p, b);
    if b[0] < 0x80 {
      UnitIsShort(u);
      PeekStands(s, p, b, 0);
      U.AsciiStep(s, p);
    } else {
      var cp := match u case Code(h) => CodeOf(h) case Surrogates(high, low) => PairOf(CodeOf(high), CodeOf(low)) case _ => 0;
      CodeUnit(u);
      CodeAt(s, p, cp);
    }
  }

  lemma UnitBegins(u: Unit)
    requires UnitOk(u)
    ensures UnitBytes(u) != []
  {
    hide CodeOf, PairOf;
  }

  /** Bytes beyond ASCII come from a code. */
  lemma CodeUnit(u: Unit)
    requires UnitOk(u) && U.IsAscii(UnitText(u)) && UnitBytes(u) != [] && UnitBytes(u)[0] >= 0x80
    ensures u.Code? || u.Surrogates?
    ensures u.Code? ==> CodeOf(u.h) >= 0x80 && |U.UnicodeEscape(CodeOf(u.h))| == |UnitText(u)|
    ensures u.Surrogates? ==>
      var cp := PairOf(CodeOf(u.high), CodeOf(u.low)); cp >= 0x80 && |U.UnicodeEscape(cp)| == |UnitText(u)|
  {
    hide CodeOf, U.HexText;
  }

  lemma {:induction false} ShortestFrom(us: seq<Unit>, s: Text, p: nat)
    requires UnitsOk(us) && p <= |s| && UnitsBytes(us) == s[p..] && U.WellFormedFrom(s, p) && U.IsAscii(UnitsText(us))
    ensures |U.AsciiText(s, p)| <= |UnitsText(us)|
    decreases |us|
  {
    hide U.AsciiText, U.WellFormedFrom, UnitBytes, UnitText, UnitOk;
    if us == [] {
      U.AsciiEnd(s, p);
    } else {
      var u, b := us[0], UnitBytes(us[0]);
      assert forall i :: 0 <= i < |b| ==> s[p + i] == s[p..][i];
      assert forall i :: 0 <= i < |UnitText(u)| ==> UnitText(u)[i] == UnitsText(us)[i];
      UnitWritten(s, p, u);
      assert s[p..][|b|..] == s[p + |b|..];
      var rest := UnitsText(us[1..]);
      assert forall i :: 0 <= i < |rest| ==> rest[i] == UnitsText(us)[|UnitText(u)| + i];
      ShortestFrom(us[1..], s, p + |b|);
    }
  }

  /** Whatever ASCII text reads as a well-formed string, the writer's is not longer. */
  lemma ShortestAscii(t: Text, p: nat, s: Text)
    requires p < |t| && t[p] == QUOTATION_MARK && U.WellFormedFrom(s, 0)
    requires S.ParseString(t, p).Chars? && S.ParseString(t, p).s == s && U.IsAscii(t[p..S.ParseString(t, p).end])
    ensures |[QUOTATION_MARK] + U.AsciiText(s, 0) + [QUOTATION_MARK]| <= S.ParseString(t, p).end - p
  {
    hide U.AsciiText, U.WellFormedFrom, S.ParseString;
    var us := StringFound(t, p);
    var all := t[p..S.ParseString(t, p).end];
    assert forall i :: 0 <= i < |UnitsText(us)| ==> UnitsText(us)[i] == all[i + 1];
    assert s[0..] == s;
    ShortestFrom(us, s, 0);
  }
}

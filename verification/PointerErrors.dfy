/**
 What the parser of JSON Pointers refuses (rapidjson/pointer.h), by the characters at the place
 that it reports, and what a pointer that it accepts looks like.
 */
module PointerErrors {
  import opened Sax
  import opened Rfc8259
  import U = Unicode
  import S = Scan
  import P = PointerText

  const SOLIDUS := 0x2F
  const TILDE := 0x7E
  const PERCENT := 0x25

  /** Section 2.3 of RFC 3986. */
  predicate Unreserved(c: int) {
    0x41 <= c <= 0x5A || 0x61 <= c <= 0x7A || IsDecDigit(c) || c == 0x2D || c == 0x2E || c == 0x5F || c == TILDE
  }

  /** A percent sign and two hexadecimal digits. */
  predicate TripletAt(t: Text, i: nat) {
    i + 3 <= |t| && t[i] == PERCENT && IsHexDig(t[i + 1]) && IsHexDig(t[i + 2])
  }

  function ByteAt(t: Text, i: nat): Byte
    requires TripletAt(t, i)
  {
    16 * HexValue(t[i + 1]) + HexValue(t[i + 2])
  }

  predicate TripletsAt(t: Text, i: nat, n: nat) { forall k :: 0 <= k < n ==> TripletAt(t, i + 3 * k) }

  function BytesAt(t: Text, i: nat, n: nat): (s: Text)
    requires TripletsAt(t, i, n)
    ensures |s| == n
  {
    seq(n, k requires 0 <= k < n => ByteAt(t, i + 3 * k))
  }

  /** `n` triplets that stand for one character of section 4 of RFC 3629. */
  predicate CodedAt(t: Text, i: nat, n: nat) {
    n > 0 && TripletsAt(t, i, n) && U.CharLength(BytesAt(t, i, n), 0) == n
  }

  lemma TripletIs(t: Text, i: nat)
    ensures P.Triplet(t, i) == if TripletAt(t, i) then S.Digits(ByteAt(t, i)) else S.NotHex
  {
  }

  lemma {:induction false} UnpercentIs(t: Text, i: nat, n: nat)
    ensures TripletsAt(t, i, n) <==> n <= |P.Unpercent(t, i)|
    ensures TripletsAt(t, i, n) ==> P.Unpercent(t, i)[..n] == BytesAt(t, i, n)
    decreases n
  {
    hide P.Triplet, TripletAt, ByteAt;
    TripletIs(t, i);
    if n > 0 {
      UnpercentIs(t, i + 3, n - 1);
      if TripletAt(t, i) && TripletsAt(t, i + 3, n - 1) {
        forall k | 0 <= k < n
          ensures TripletAt(t, i + 3 * k)
        {
          assert k > 0 ==> TripletAt(t, i + 3 + 3 * (k - 1));
        }
        var d := P.Unpercent(t, i);
        forall k | 0 <= k < n
          ensures d[k] == BytesAt(t, i, n)[k]
        {
          assert k > 0 ==> d[k] == BytesAt(t, i + 3, n - 1)[k - 1];
        }
      }
      if TripletsAt(t, i, n) {
        assert TripletAt(t, i + 3 * 0);
        forall k | 0 <= k < n - 1
          ensures TripletAt(t, i + 3 + 3 * k)
        {
          assert TripletAt(t, i + 3 * (k + 1));
        }
      }
    }
  }

  /** The bytes of a character alone decide it. */
  lemma CharAlone(d: Text, n: nat)
    requires 0 < n <= |d|
    ensures U.CharLength(d, 0) == n <==> U.CharLength(d[..n], 0) == n
  {
    var b := d[..n];
    assert Peek(b, 0) == Peek(d, 0);
    assert n > 1 ==> Peek(b, 1) == Peek(d, 1);
    assert n > 2 ==> Peek(b, 2) == Peek(d, 2);
    assert n > 3 ==> Peek(b, 3) == Peek(d, 3);
  }

  /** The percent decoder takes exactly one character, if one is coded at `i`. */
  lemma PercentCharIs(t: Text, i: nat)
    ensures match P.PercentCharAt(t, i)
            case Char(bytes, end) =>
              var n := |bytes|; CodedAt(t, i, n) && bytes == BytesAt(t, i, n) && end == i + 3 * n
            case NoChar => forall n: nat :: !CodedAt(t, i, n)
  {
    hide P.Unpercent, TripletsAt, U.CharLength;
    var d := P.Unpercent(t, i);
    forall n: nat
      ensures CodedAt(t, i, n) <==> 0 < n <= |d| && U.CharLength(d, 0) == n
      ensures CodedAt(t, i, n) ==> d[..n] == BytesAt(t, i, n)
    {
      UnpercentIs(t, i, n);
      if 0 < n <= |d| {
        CharAlone(d, n);
      }
    }
    if d != [] {
      U.CharFits(d, 0);
    }
  }

  // ---------------------------------------------------------------- names

  /** A tilde ends before `i`, as it is or coded. */
  predicate TildeBefore(t: Text, i: nat, uri: bool) {
    || (0 < i <= |t| && t[i - 1] == TILDE)
    || (uri && 3 <= i && TripletAt(t, i - 3) && ByteAt(t, i - 3) == TILDE)
  }

  predicate EscapeLetterAt(t: Text, i: nat) { i < |t| && (t[i] == 0x30 || t[i] == 0x31) }

  /** What the code says of the place `off`. */
  ghost predicate Reason(t: Text, uri: bool, code: P.PointerError, off: nat) {
    match code
    case TokenMustBeginWithSolidus => false
    case InvalidEscape => off <= |t| && TildeBefore(t, off, uri) && !EscapeLetterAt(t, off)
    case InvalidPercentEncoding => uri && off < |t| && t[off] == PERCENT && forall n: nat :: !CodedAt(t, off, n)
    case CharacterMustPercentEncode =>
      uri && off < |t| && t[off] != PERCENT && t[off] != SOLIDUS && !Unreserved(t[off])
  }

  /** A character of an accepted name: a tilde, coded or not, has its digit behind it. */
  predicate NameCharOk(t: Text, k: nat, uri: bool) {
    && k < |t| && t[k] != SOLIDUS
    && (t[k] == TILDE ==> EscapeLetterAt(t, k + 1))
    && (uri ==> Unreserved(t[k]) || t[k] == PERCENT)
    && (uri && t[k] == PERCENT ==> TripletAt(t, k) && (ByteAt(t, k) == TILDE ==> EscapeLetterAt(t, k + 3)))
  }

  predicate NameOk(t: Text, i: nat, end: nat, uri: bool) {
    forall k :: i <= k < end ==> NameCharOk(t, k, uri)
  }

  ghost predicate Explained(t: Text, i: nat, uri: bool, r: P.NameResult) {
    match r
    case Name(_, end) => i <= end && NameOk(t, i, end, uri)
    case BadName(code, off) => i <= off && Reason(t, uri, code, off)
  }

  /** The characters of a coded character. */
  lemma CodedIsOk(t: Text, i: nat, n: nat)
    requires CodedAt(t, i, n) && (n == 1 && ByteAt(t, i) == TILDE ==> EscapeLetterAt(t, i + 3))
    ensures i + 3 * n <= |t| && NameOk(t, i, i + 3 * n, true)
  {
    assert TripletAt(t, i + 3 * (n - 1));
    forall k | i <= k < i + 3 * n
      ensures NameCharOk(t, k, true)
    {
      var j := (k - i) / 3;
      assert k == i + 3 * j + (k - i) % 3;
      assert TripletAt(t, i + 3 * j);
      if (k - i) % 3 == 0 {
        assert BytesAt(t, i, n)[j] == ByteAt(t, k);
        if n > 1 {
          HighBytes(BytesAt(t, i, n), j);
        }
      } else {
        HexIsPlain(t[k]);
      }
    }
  }

  lemma HexIsPlain(c: Byte)
    requires IsHexDig(c)
    ensures Unreserved(c) && c != TILDE && c != PERCENT && c != SOLIDUS
  {
  }

  lemma HighBytes(b: Text, j: nat)
    requires |b| > 1 && U.CharLength(b, 0) == |b| && j < |b|
    ensures b[j] >= 0x80
  {
  }

  lemma {:induction false} NameExplained(t: Text, i: nat, uri: bool, acc: Text)
    requires i <= |t|
    ensures Explained(t, i, uri, P.ParseName(t, i, uri, acc))
    decreases |t| - i, 1
  {
    hide P.PercentCharAt, P.NeedPercentEncode, Unreserved, CodedAt, NameCharOk, P.Unescaped, Reason;
    if i < |t| && t[i] != SOLIDUS {
      P.UnreservedStay(t[i]);
      UnreservedIs(t[i]);
      if uri && t[i] == PERCENT {
        PercentCharIs(t, i);
        var c := P.PercentCharAt(t, i);
        if c.Char? {
          CodedFits(t, i, |c.bytes|);
          if |c.bytes| == 1 {
            UnescapedExplained(t, i, c.end, uri, acc, c.bytes[0]);
          } else {
            NameExplained(t, c.end, uri, acc + c.bytes);
            LongCodedIsOk(t, i, |c.bytes|);
            NameJoined(t, i, c.end, uri, P.ParseName(t, c.end, uri, acc + c.bytes));
          }
        } else {
          BadPercent(t, i);
        }
      } else if uri && P.NeedPercentEncode(t[i]) {
        BadCharacter(t, i);
      } else {
        UnescapedExplained(t, i, i + 1, uri, acc, t[i]);
      }
    }
  }

  lemma BadPercent(t: Text, i: nat)
    requires i < |t| && t[i] == PERCENT && forall n: nat :: !CodedAt(t, i, n)
    ensures Reason(t, true, P.InvalidPercentEncoding, i)
  {
  }

  lemma BadCharacter(t: Text, i: nat)
    requires i < |t| && t[i] != PERCENT && t[i] != SOLIDUS && !Unreserved(t[i])
    ensures Reason(t, true, P.CharacterMustPercentEncode, i)
  {
  }

  lemma UnreservedIs(c: Byte)
    ensures Unreserved(c) <==> 0x41 <= c <= 0x5A || 0x61 <= c <= 0x7A || 0x30 <= c <= 0x39 || c in {0x2D, 0x2E, 0x5F, 0x7E}
  {
  }

  lemma CodedFits(t: Text, i: nat, n: nat)
    requires CodedAt(t, i, n)
    ensures i + 3 * n <= |t| && TripletAt(t, i) && BytesAt(t, i, n)[0] == ByteAt(t, i)
  {
    assert TripletAt(t, i + 3 * (n - 1)) && TripletAt(t, i + 3 * 0);
  }

  lemma LongCodedIsOk(t: Text, i: nat, n: nat)
    requires CodedAt(t, i, n) && n > 1
    ensures i + 3 * n <= |t| && NameOk(t, i, i + 3 * n, true)
  {
    CodedIsOk(t, i, n);
  }

  lemma NameJoined(t: Text, i: nat, j: nat, uri: bool, r: P.NameResult)
    requires i <= j && NameOk(t, i, j, uri) && Explained(t, j, uri, r)
    ensures Explained(t, i, uri, r)
  {
    hide NameCharOk, Reason;
  }

  /** The character `c` ends before `j`: the one at `i`, as it is or coded. */
  lemma {:induction false} UnescapedExplained(t: Text, i: nat, j: nat, uri: bool, acc: Text, c: Byte)
    requires i < j <= |t|
    requires if j == i + 1 then t[i] == c && c != SOLIDUS && (uri ==> Unreserved(c)) && (uri ==> c != PERCENT)
             else uri && j == i + 3 && CodedAt(t, i, 1) && ByteAt(t, i) == c
    ensures Explained(t, i, uri, P.Unescaped(t, j, uri, acc, c))
    decreases |t| - j, 2
  {
    hide CodedAt, NameCharOk, Unreserved, Reason, P.ParseName;
    if c != TILDE {
      NameExplained(t, j, uri, acc + [c]);
      OneOk(t, i, j, uri, c);
      NameJoined(t, i, j, uri, P.ParseName(t, j, uri, acc + [c]));
    } else if EscapeLetterAt(t, j) {
      var d := if t[j] == 0x30 then P.TILDE else P.SLASH;
      NameExplained(t, j + 1, uri, acc + [d]);
      OneOk(t, i, j, uri, c);
      DigitOk(t, j, uri);
      NameJoined(t, j, j + 1, uri, P.ParseName(t, j + 1, uri, acc + [d]));
      NameJoined(t, i, j, uri, P.ParseName(t, j + 1, uri, acc + [d]));
    } else {
      BadEscape(t, i, j, uri);
    }
  }

  lemma BadEscape(t: Text, i: nat, j: nat, uri: bool)
    requires i < j <= |t| && !EscapeLetterAt(t, j)
    requires if j == i + 1 then t[i] == TILDE else uri && j == i + 3 && CodedAt(t, i, 1) && ByteAt(t, i) == TILDE
    ensures Reason(t, uri, P.InvalidEscape, j)
  {
  }

  lemma OneOk(t: Text, i: nat, j: nat, uri: bool, c: Byte)
    requires i < j <= |t| && (c == TILDE ==> EscapeLetterAt(t, j))
    requires if j == i + 1 then t[i] == c && c != SOLIDUS && (uri ==> Unreserved(c)) && (uri ==> c != PERCENT)
             else uri && j == i + 3 && CodedAt(t, i, 1) && ByteAt(t, i) == c
    ensures NameOk(t, i, j, uri)
  {
    if j != i + 1 {
      hide CodedAt, NameOk;
      CodedIsOk(t, i, 1);
    }
  }

  lemma DigitOk(t: Text, j: nat, uri: bool)
    requires EscapeLetterAt(t, j)
    ensures NameOk(t, j, j + 1, uri)
  {
  }

  // ---------------------------------------------------------------- pointers

  /** A pointer begins each name with a solidus; the fragment form begins with a number sign. */
  predicate PointerOk(t: Text, i: nat, uri: bool) {
    forall k :: i <= k < |t| ==> t[k] == SOLIDUS || NameCharOk(t, k, uri)
  }

  lemma {:induction false} TokensExplained(t: Text, i: nat, uri: bool)
    requires i <= |t| && (i < |t| ==> t[i] == SOLIDUS)
    ensures match P.ParseTokens(t, i, uri)
            case Tokens(_) => PointerOk(t, i, uri)
            case Malformed(code, off) => i < off <= |t| && Reason(t, uri, code, off)
    decreases |t| - i
  {
    hide P.ParseName, NameCharOk, Reason;
    if i < |t| {
      NameExplained(t, i + 1, uri, []);
      var name := P.ParseName(t, i + 1, uri, []);
      if name.Name? {
        TokensExplained(t, name.end, uri);
        assert forall k :: i < k < name.end ==> NameCharOk(t, k, uri);
      } else {
        ReasonWithin(t, uri, name.code, name.off);
      }
    }
  }

  lemma ReasonWithin(t: Text, uri: bool, code: P.PointerError, off: nat)
    requires Reason(t, uri, code, off)
    ensures off <= |t|
  {
  }

  /**
   A text is refused only for a reason that its characters show: no solidus where the first name begins, a
   tilde without its digit, in a fragment a percent sign that codes no character or a character that must be
   coded. What is accepted shows no such thing anywhere.
   */
  lemma PointerExplained(t: Text)
    ensures var uri := Peek(t, 0) == 0x23;
            var i := if uri then 1 else 0;
            match P.ParsePointer(t)
            case Tokens(_) => PointerOk(t, i, uri) && (i < |t| ==> t[i] == SOLIDUS)
            case Malformed(code, off) =>
              if code.TokenMustBeginWithSolidus? then off == i < |t| && t[i] != SOLIDUS
              else i < off <= |t| && Reason(t, uri, code, off)
  {
    hide P.ParseTokens, PointerOk, Reason;
    var uri := Peek(t, 0) == 0x23;
    var i := if uri then 1 else 0;
    if i == |t| || Peek(t, i) == SOLIDUS {
      TokensExplained(t, i, uri);
      match P.ParsePointer(t) {
        case Tokens(_) =>
        case Malformed(code, off) => ReasonCode(t, uri, code, off);
      }
    }
  }

  lemma ReasonCode(t: Text, uri: bool, code: P.PointerError, off: nat)
    requires Reason(t, uri, code, off)
    ensures !code.TokenMustBeginWithSolidus?
  {
  }
}

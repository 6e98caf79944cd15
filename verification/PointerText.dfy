/**
 The text of JSON Pointers (rapidjson/pointer.h): Parse and Stringify, for the string form and
 the URI fragment form of RFC 6901.
 */
module PointerText {
  import opened Sax
  import opened Scan
  import opened JsonWriter
  import opened RoundTrip
  import opened Unicode
  import opened JsonReader
  import opened JsonPointer
  import Powers
  import I = Itoa

  datatype PointerError =
    | TokenMustBeginWithSolidus
    | InvalidEscape
    | InvalidPercentEncoding
    | CharacterMustPercentEncode

  datatype Parsed = Tokens(ts: Path) | Malformed(code: PointerError, off: nat)

  const SLASH := '/' as int
  const TILDE := '~' as int
  const PERCENT := '%' as int

  /** All but the unreserved characters of section 2.3 of RFC 3986. */
  predicate NeedPercentEncode(c: Byte) {
    !(In(c, '0' as int, '9' as int) || In(c, 'A' as int, 'Z' as int) || In(c, 'a' as int, 'z' as int)
      || c == '-' as int || c == '.' as int || c == '_' as int || c == TILDE)
  }

  // ---------------------------------------------------------------- percent encoding

  /** The byte of the triplet at `i`, as PercentDecodeStream takes it. */
  function Triplet(t: Text, i: nat): (h: Hex)
    ensures h.Digits? ==> h.v < 256 && i + 3 <= |t|
  {
    if Peek(t, i) != PERCENT || i + 3 > |t| then NotHex
    else
      var a, b := HexDigit(t[i + 1]), HexDigit(t[i + 2]);
      if a.Digits? && b.Digits? then Digits(16 * a.v + b.v) else NotHex
  }

  /** The bytes of the triplets from `i` on, as many as there are. */
  function Unpercent(t: Text, i: nat): (s: Text)
    ensures i + 3 * |s| <= |t| || s == []
    decreases |t| - i
  {
    var h := Triplet(t, i);
    if h.NotHex? then [] else [h.v] + Unpercent(t, i + 3)
  }

  function Percent(s: Text): (r: Text)
    ensures |r| == 3 * |s|
  {
    if s == [] then [] else [PERCENT, UpperHex(s[0] / 16), UpperHex(s[0] % 16)] + Percent(s[1..])
  }

  lemma {:induction false} PercentReadsBack(t: Text, i: nat, s: Text)
    requires Stands(t, i, Percent(s))
    ensures s <= Unpercent(t, i)
    decreases |s|
  {
    if s != [] {
      var head := [PERCENT, UpperHex(s[0] / 16), UpperHex(s[0] % 16)];
      StandsSplit(t, i, head, Percent(s[1..]));
      assert t[i + 0] == head[0] && t[i + 1] == head[1] && t[i + 2] == head[2];
      UpperHexDigit(s[0] / 16);
      UpperHexDigit(s[0] % 16);
      assert Triplet(t, i) == Digits(s[0]);
      PercentReadsBack(t, i + 3, s[1..]);
    }
  }

  /** One well-formed character from triplets. */
  datatype PercentChar = Char(bytes: Text, end: nat) | NoChar

  function PercentCharAt(t: Text, i: nat): (r: PercentChar)
    ensures r.Char? ==> 1 <= |r.bytes| && r.end == i + 3 * |r.bytes| <= |t|
  {
    var d := Unpercent(t, i);
    if d == [] then NoChar
    else
      var n := CharLength(d, 0);
      if n == 0 then NoChar else (CharFits(d, 0); Char(d[..n], i + 3 * n))
  }

  // ---------------------------------------------------------------- names

  datatype NameResult = Name(name: Text, end: nat) | BadName(code: PointerError, off: nat)

  /** The rest of a token from `i` on, after the name so far. */
  function ParseName(t: Text, i: nat, uri: bool, acc: Text): (r: NameResult)
    ensures r.Name? ==> i <= r.end && (i <= |t| ==> r.end <= |t|) && Peek(t, r.end) == if r.end < |t| then SLASH else 0
    ensures r.Name? && i <= |t| ==> |r.name| - |acc| <= r.end - i
    decreases |t| - i, 1
  {
    if i >= |t| || t[i] == SLASH then Name(acc, i)
    else if uri && t[i] == PERCENT then
      var c := PercentCharAt(t, i);
      if c.NoChar? then BadName(InvalidPercentEncoding, i)
      else if |c.bytes| == 1 then Unescaped(t, c.end, uri, acc, c.bytes[0])
      else ParseName(t, c.end, uri, acc + c.bytes)
    else if uri && NeedPercentEncode(t[i]) then BadName(CharacterMustPercentEncode, i)
    else Unescaped(t, i + 1, uri, acc, t[i])
  }

  /** The character `c` has been read; a tilde takes the next one with it. */
  function Unescaped(t: Text, i: nat, uri: bool, acc: Text, c: Byte): (r: NameResult)
    requires i <= |t|
    ensures r.Name? ==> i <= r.end <= |t| && Peek(t, r.end) == if r.end < |t| then SLASH else 0
    ensures r.Name? ==> |r.name| - |acc| <= r.end - i + 1
    decreases |t| - i, 2
  {
    if c != TILDE then ParseName(t, i, uri, acc + [c])
    else if i == |t| then BadName(InvalidEscape, i)
    else if t[i] == '0' as int then ParseName(t, i + 1, uri, acc + [TILDE])
    else if t[i] == '1' as int then ParseName(t, i + 1, uri, acc + [SLASH])
    else BadName(InvalidEscape, i)
  }

  /** The name is a number without leading zeros. */
  predicate IsNumber(name: Text) {
    && name != [] && AllDigits(name)
    && !(|name| > 1 && name[0] == '0' as int)
  }

  /** The conversion loop: 32-bit arithmetic, and a result that gets smaller counts as overflow. */
  function Accumulate(name: Text, j: nat, n: nat): (r: nat)
    requires j <= |name| && AllDigits(name)
    decreases |name| - j
  {
    if j == |name| then n
    else
      assert IsDigit(name[j]);
      var m := Wrapped(n, name[j]);
      if m < n then INVALID else Accumulate(name, j + 1, m)
  }

  function Wrapped(n: nat, digit: int): (m: int)
    requires '0' as int <= digit <= '9' as int
    ensures 0 <= m < 0x1_0000_0000
  {
    (n * 10 + (digit - '0' as int)) % 0x1_0000_0000
  }

  function IndexOf(name: Text): (r: nat) { if IsNumber(name) then Accumulate(name, 0, 0) else INVALID }

  /** Tokens from `i` on; a solidus stands there unless the text is at its end. */
  function ParseTokens(t: Text, i: nat, uri: bool): (r: Parsed)
    decreases |t| - i
  {
    if i >= |t| then Tokens([])
    else
      var name := ParseName(t, i + 1, uri, []);
      if name.BadName? then Malformed(name.code, name.off)
      else
        var rest := ParseTokens(t, name.end, uri);
        if rest.Malformed? then rest else Tokens([Token(name.name, IndexOf(name.name))] + rest.ts)
  }

  function ParsePointer(t: Text): (r: Parsed) {
    var uri := Peek(t, 0) == '#' as int;
    var i := if uri then 1 else 0;
    if i != |t| && Peek(t, i) != SLASH then Malformed(TokenMustBeginWithSolidus, i)
    else ParseTokens(t, i, uri)
  }

  // ---------------------------------------------------------------- Stringify

  /** The text of a name from `j` on. */
  function NameText(name: Text, j: nat, uri: bool): (r: Text)
    requires uri ==> WellFormedFrom(name, j)
    decreases |name| - j
  {
    if j >= |name| then []
    else
      var c := name[j];
      if c == TILDE then [TILDE, '0' as int] + NameText(name, j + 1, uri)
      else if c == SLASH then [TILDE, '1' as int] + NameText(name, j + 1, uri)
      else if uri && NeedPercentEncode(c) then
        CharFits(name, j);
        Percent(name[j..j + CharLength(name, j)]) + NameText(name, j + CharLength(name, j), uri)
      else
        [c] + NameText(name, j + 1, uri)
  }

  /** Names that can be written as a URI fragment. */
  predicate Writable(ts: Path, uri: bool) {
    uri ==> forall k :: 0 <= k < |ts| ==> WellFormedFrom(ts[k].name, 0)
  }

  function TokensText(ts: Path, uri: bool): (r: Text)
    requires Writable(ts, uri)
  {
    if ts == [] then [] else [SLASH] + (NameText(ts[0].name, 0, uri) + TokensText(ts[1..], uri))
  }

  function PointerText(ts: Path, uri: bool): (r: Text)
    requires Writable(ts, uri)
  {
    (if uri then ['#' as int] else []) + TokensText(ts, uri)
  }

  method Stringify(ts: Path, uri: bool) returns (ok: bool, os: Text)
    ensures ok <==> Writable(ts, uri)
    ensures ok ==> os == PointerText(ts, uri)
  {
    hide NameText, WellFormedFrom, TokensText, Writable;
    os := if uri then ['#' as int] else [];
    WritableEnds(ts, uri);
    for k := 0 to |ts|
      invariant Writable(ts[..k], uri) && (Writable(ts, uri) ==> Writable(ts[k..], uri))
      invariant Writable(ts, uri) ==> os + TokensText(ts[k..], uri) == PointerText(ts, uri)
    {
      WritableStep(ts, k, uri);
      ghost var os0, rest := os, if Writable(ts, uri) then TokensText(ts[k + 1..], uri) else [];
      var good, text := StringifyName(ts[k].name, uri);
      if !good {
        return false, os;
      }
      os := os + [SLASH] + text;
      assert os + rest == os0 + ([SLASH] + (text + rest));
    }
    ok := true;
  }

  lemma WritableEnds(ts: Path, uri: bool)
    ensures Writable(ts[..0], uri) && ts[0..] == ts && ts[..|ts|] == ts && ts[|ts|..] == []
    ensures Writable([], uri) && TokensText([], uri) == []
  {
  }

  lemma WritableStep(ts: Path, k: nat, uri: bool)
    requires k < |ts|
    ensures Writable(ts[..k + 1], uri) <==> Writable(ts[..k], uri) && (uri ==> WellFormedFrom(ts[k].name, 0))
    ensures Writable(ts, uri) ==> Writable(ts[k..], uri) && Writable(ts[k + 1..], uri) && (uri ==> WellFormedFrom(ts[k].name, 0))
    ensures Writable(ts, uri) ==>
              TokensText(ts[k..], uri) == [SLASH] + (NameText(ts[k].name, 0, uri) + TokensText(ts[k + 1..], uri))
  {
    hide NameText, WellFormedFrom;
    assert ts[k..][1..] == ts[k + 1..];
    assert ts[..k + 1] == ts[..k] + [ts[k]];
    if Writable(ts[..k + 1], uri) && uri {
      assert ts[..k + 1][k] == ts[k];
      assert forall j :: 0 <= j < k ==> ts[..k][j] == ts[..k + 1][j];
    }
  }

  method StringifyName(name: Text, uri: bool) returns (ok: bool, os: Text)
    ensures ok <==> (uri ==> WellFormedFrom(name, 0))
    ensures ok ==> os == NameText(name, 0, uri)
  {
    hide CharLength, Percent, WellFormedFrom, NameText, NeedPercentEncode;
    os := [];
    var j := 0;
    NameEnd(name, |name|, uri);
    while j < |name|
      invariant 0 <= j <= |name|
      invariant uri ==> (WellFormedFrom(name, j) <==> WellFormedFrom(name, 0))
      invariant (uri ==> WellFormedFrom(name, 0)) ==> os + NameText(name, j, uri) == NameText(name, 0, uri)
      decreases |name| - j
    {
      var c := name[j];
      NameStep(name, j, uri);
      ghost var os0, j0 := os, j;
      if c == TILDE {
        os := os + [TILDE, '0' as int];
        j := j + 1;
      } else if c == SLASH {
        os := os + [TILDE, '1' as int];
        j := j + 1;
      } else if uri && NeedPercentEncode(c) {
        var good, q, bytes := Validate(name, j, []);
        if !good {
          return false, os;
        }
        assert bytes == name[j..q];
        os := os + Percent(bytes);
        j := q;
      } else {
        os := os + [c];
        j := j + 1;
      }
      Joined(os0, CharText(name, j0, uri), if uri && !WellFormedFrom(name, j) then [] else NameText(name, j, uri));
    }
    ok := true;
  }

  lemma Joined(a: Text, b: Text, c: Text)
    ensures a + b + c == a + (b + c)
  {
  }

  lemma NameEnd(name: Text, j: nat, uri: bool)
    requires j >= |name|
    ensures WellFormedFrom(name, j) && NameText(name, j, uri) == []
  {
  }

  /** One character of a name: what it adds to the text, and where the next one begins. */
  lemma NameStep(name: Text, j: nat, uri: bool)
    requires j < |name|
    ensures var c := name[j];
            var encoded := uri && c != TILDE && c != SLASH && NeedPercentEncode(c);
            var q := Next(name, j, uri);
            && q == j + (if encoded then CharLength(name, j) else 1)
            && (uri ==> (WellFormedFrom(name, j) <==> (encoded ==> CharLength(name, j) > 0) && WellFormedFrom(name, q)))
            && q <= |name|
            && ((uri ==> WellFormedFrom(name, j)) ==>
                  (uri ==> WellFormedFrom(name, q)) && NameText(name, j, uri) == CharText(name, j, uri) + NameText(name, q, uri))
  {
    CharFits(name, j);
    OneByteChar(name, j);
    hide CharLength;
  }

  lemma OneByteChar(name: Text, j: nat)
    requires j < |name|
    ensures name[j] < 0x80 ==> CharLength(name, j) == 1
  {
  }

  /** The text of the character at `j`. */
  function CharText(name: Text, j: nat, uri: bool): (r: Text)
    requires j < |name|
  {
    var c := name[j];
    if c == TILDE then [TILDE, '0' as int]
    else if c == SLASH then [TILDE, '1' as int]
    else if uri && NeedPercentEncode(c) then (CharFits(name, j); Percent(name[j..j + CharLength(name, j)]))
    else [c]
  }

  // ---------------------------------------------------------------- round trip

  /** The text of a name stands at `i`, and behind it the next token or the end. */
  predicate NameStands(t: Text, i: nat, name: Text, j: nat, uri: bool)
    requires uri ==> WellFormedFrom(name, j)
  {
    && Stands(t, i, NameText(name, j, uri))
    && var e := i + |NameText(name, j, uri)|;
       e == |t| || (e < |t| && t[e] == SLASH)
  }

  lemma {:induction false} NameReadsBack(t: Text, i: nat, name: Text, j: nat, uri: bool, acc: Text)
    requires (uri ==> WellFormedFrom(name, j)) && j <= |name| && NameStands(t, i, name, j, uri)
    ensures ParseName(t, i, uri, acc) == Name(acc + name[j..], i + |NameText(name, j, uri)|)
    decreases |name| - j
  {
    hide CharLength, Stands, NameText, WellFormedFrom, NeedPercentEncode, CharText, ParseName;
    if j == |name| {
      NameEnd(name, j, uri);
      NameStops(t, i, uri, acc);
      assert acc + name[j..] == acc;
    } else {
      NameStep(name, j, uri);
      var q := Next(name, j, uri);
      var head, rest := CharText(name, j, uri), NameText(name, q, uri);
      StandsSplit(t, i, head, rest);
      NameReadsBack(t, i + |head|, name, q, uri, acc + name[j..q]);
      assert name[j..] == name[j..q] + name[q..];
      Joined(acc, name[j..q], name[q..]);
      CharReadsBack(t, i, name, j, uri, acc);
    }
  }

  lemma NameStops(t: Text, i: nat, uri: bool, acc: Text)
    requires i >= |t| || t[i] == SLASH
    ensures ParseName(t, i, uri, acc) == Name(acc, i)
  {
  }

  function Next(name: Text, j: nat, uri: bool): (q: nat)
    requires j < |name|
    ensures j <= q <= |name|
  {
    var c := name[j];
    CharFits(name, j);
    j + if uri && c != TILDE && c != SLASH && NeedPercentEncode(c) then CharLength(name, j) else 1
  }

  lemma CharReadsBack(t: Text, i: nat, name: Text, j: nat, uri: bool, acc: Text)
    requires j < |name| && (uri ==> WellFormedFrom(name, j)) && Stands(t, i, CharText(name, j, uri))
    ensures var q := Next(name, j, uri);
            ParseName(t, i, uri, acc) == ParseName(t, i + |CharText(name, j, uri)|, uri, acc + name[j..q])
  {
    hide CharLength, WellFormedFrom, ParseName, Unescaped, NeedPercentEncode, Stands;
    var c := name[j];
    CharFits(name, j);
    if c == TILDE || c == SLASH {
      EscapedReadsBack(t, i, c, uri, acc);
      assert name[j..j + 1] == [c];
    } else if uri && NeedPercentEncode(c) {
      WellFormedHead(name, j);
      EncodedReadsBack(t, i, name, j, acc);
    } else {
      PlainReadsBack(t, i, c, uri, acc);
      assert name[j..j + 1] == [c];
    }
  }

  lemma WellFormedHead(name: Text, j: nat)
    requires j < |name| && WellFormedFrom(name, j)
    ensures CharLength(name, j) > 0
  {
  }

  lemma EscapedReadsBack(t: Text, i: nat, c: Byte, uri: bool, acc: Text)
    requires c == TILDE || c == SLASH
    requires Stands(t, i, [TILDE, if c == TILDE then '0' as int else '1' as int])
    ensures ParseName(t, i, uri, acc) == ParseName(t, i + 2, uri, acc + [c])
  {
    var s := [TILDE, if c == TILDE then '0' as int else '1' as int];
    assert t[i + 0] == s[0] && t[i + 1] == s[1];
    assert ParseName(t, i, uri, acc) == Unescaped(t, i + 1, uri, acc, TILDE);
  }

  lemma PlainReadsBack(t: Text, i: nat, c: Byte, uri: bool, acc: Text)
    requires c != TILDE && c != SLASH && (uri ==> !NeedPercentEncode(c)) && Stands(t, i, [c])
    ensures ParseName(t, i, uri, acc) == ParseName(t, i + 1, uri, acc + [c])
  {
    assert t[i + 0] == [c][0];
    assert ParseName(t, i, uri, acc) == Unescaped(t, i + 1, uri, acc, c);
  }

  lemma EncodedReadsBack(t: Text, i: nat, name: Text, j: nat, acc: Text)
    requires j < |name| && CharLength(name, j) > 0 && NeedPercentEncode(name[j]) && name[j] != SLASH
    requires j + CharLength(name, j) <= |name|
    requires Stands(t, i, Percent(name[j..j + CharLength(name, j)]))
    ensures var n := CharLength(name, j);
            ParseName(t, i, true, acc) == ParseName(t, i + 3 * n, true, acc + name[j..j + n])
  {
    var n := CharLength(name, j);
    var bytes := name[j..j + n];
    PercentReadsBack(t, i, bytes);
    assert Percent(bytes)[0] == PERCENT;
    StandsHead(t, i, Percent(bytes));
    var d := Unpercent(t, i);
    SameCharLength(name, j, d);
    assert d[..n] == bytes;
    hide CharLength, Unpercent, Percent;
    assert PercentCharAt(t, i) == Char(bytes, i + 3 * n);
    if n == 1 {
      assert bytes == [name[j]];
    }
  }

  /** The length of a character depends on its own bytes only. */
  lemma SameCharLength(name: Text, j: nat, d: Text)
    requires j < |name| && CharLength(name, j) > 0 && j + CharLength(name, j) <= |name|
    requires name[j..j + CharLength(name, j)] <= d
    ensures CharLength(d, 0) == CharLength(name, j)
  {
    var n := CharLength(name, j);
    var s := name[j..j + n];
    assert s[0] == d[0];
    assert n > 1 ==> s[1] == d[1];
    assert n > 2 ==> s[2] == d[2];
    assert n > 3 ==> s[3] == d[3];
  }

  predicate Canonical(ts: Path) { forall k :: 0 <= k < |ts| ==> ts[k].index == IndexOf(ts[k].name) }

  lemma {:induction false} TokensReadBack(t: Text, i: nat, ts: Path, uri: bool)
    requires Writable(ts, uri) && Canonical(ts) && i <= |t| && t[i..] == TokensText(ts, uri)
    ensures ParseTokens(t, i, uri) == Tokens(ts)
    decreases |ts|
  {
    hide ParseName, NameText, IndexOf, WellFormedFrom, TokensText, Writable;
    WritableEnds(ts, uri);
    if ts != [] {
      WritableStep(ts, 0, uri);
      var text, rest := NameText(ts[0].name, 0, uri), TokensText(ts[1..], uri);
      TextHead(ts[1..], uri);
      assert t[i..] == [SLASH] + (text + rest);
      assert t[i + 1..] == text + rest;
      var e := i + 1 + |text|;
      assert t[e..] == rest;
      assert rest != [] ==> rest[0] == t[e] && rest[0] == SLASH;
      FrontStands(t, i + 1, text, rest);
      NameReadsBack(t, i + 1, ts[0].name, 0, uri, []);
      assert [] + ts[0].name[0..] == ts[0].name;
      TokensReadBack(t, e, ts[1..], uri);
      assert ts == [ts[0]] + ts[1..];
    }
  }

  lemma TextHead(ts: Path, uri: bool)
    requires Writable(ts, uri)
    ensures TokensText(ts, uri) != [] ==> TokensText(ts, uri)[0] == SLASH
  {
    hide NameText;
  }

  lemma FrontStands(t: Text, p: nat, a: Text, b: Text)
    requires p <= |t| && t[p..] == a + b
    ensures Stands(t, p, a)
  {
    forall k | 0 <= k < |a|
      ensures p + k < |t| && t[p + k] == a[k]
    {
      assert t[p..][k] == (a + b)[k];
    }
  }

  /** Parsing the text of a pointer gives its tokens back, in either form. */
  lemma PointerReadsBack(ts: Path, uri: bool)
    requires Writable(ts, uri) && Canonical(ts)
    ensures ParsePointer(PointerText(ts, uri)) == Tokens(ts)
  {
    hide ParseTokens, IndexOf, NameText, WellFormedFrom;
    var t := PointerText(ts, uri);
    var i := if uri then 1 else 0;
    assert t[i..] == TokensText(ts, uri);
    TokensReadBack(t, i, ts, uri);
  }

  /** What Parse returns can be written and read again. */
  lemma ParsedReadsBack(t: Text, uri: bool)
    requires ParsePointer(t).Tokens? && Writable(ParsePointer(t).ts, uri)
    ensures ParsePointer(PointerText(ParsePointer(t).ts, uri)) == ParsePointer(t)
    ensures DashIsNoIndex(ParsePointer(t).ts)
  {
    var i := if Peek(t, 0) == '#' as int then 1 else 0;
    ParsedCanonical(t, i, i == 1);
    PointerReadsBack(ParsePointer(t).ts, uri);
    assert !IsDigit(DASH[0]) && DASH[0] in DASH;
  }

  lemma {:induction false} ParsedCanonical(t: Text, i: nat, uri: bool)
    requires ParseTokens(t, i, uri).Tokens?
    ensures Canonical(ParseTokens(t, i, uri).ts)
    decreases |t| - i
  {
    hide ParseName, IndexOf;
    if i < |t| {
      ParsedCanonical(t, ParseName(t, i + 1, uri, []).end, uri);
    }
  }

  // ---------------------------------------------------------------- counting tokens

  function Slashes(t: Text, i: nat): (n: nat)
    decreases |t| - i
  {
    if i >= |t| then 0 else (if t[i] == SLASH then 1 else 0) + Slashes(t, i + 1)
  }

  predicate NoSlash(t: Text, i: nat, e: nat)
    requires e <= |t|
  {
    forall k :: i <= k < e ==> t[k] != SLASH
  }

  lemma {:induction false} SkipNoSlash(t: Text, i: nat, e: nat)
    requires i <= e <= |t| && NoSlash(t, i, e)
    ensures Slashes(t, i) == Slashes(t, e)
    decreases e - i
  {
    if i < e {
      SkipNoSlash(t, i + 1, e);
    }
  }

  lemma {:induction false} TripletsHaveNoSlash(t: Text, i: nat, n: nat)
    requires n <= |Unpercent(t, i)| && i + 3 * n <= |t|
    ensures NoSlash(t, i, i + 3 * n)
    decreases n
  {
    if n > 0 {
      assert HexDigit(t[i + 1]).Digits? && HexDigit(t[i + 2]).Digits?;
      TripletsHaveNoSlash(t, i + 3, n - 1);
    }
  }

  lemma {:induction false} NameHasNoSlash(t: Text, i: nat, uri: bool, acc: Text)
    requires i <= |t| && ParseName(t, i, uri, acc).Name?
    ensures NoSlash(t, i, ParseName(t, i, uri, acc).end)
    decreases |t| - i, 1
  {
    hide PercentCharAt, Unpercent, NeedPercentEncode;
    if i < |t| && t[i] != SLASH {
      if uri && t[i] == PERCENT {
        var c := PercentCharAt(t, i);
        PercentHasNoSlash(t, i);
        if |c.bytes| == 1 {
          RestHasNoSlash(t, c.end, uri, acc, c.bytes[0]);
        } else {
          NameHasNoSlash(t, c.end, uri, acc + c.bytes);
        }
      } else {
        RestHasNoSlash(t, i + 1, uri, acc, t[i]);
      }
    }
  }

  lemma PercentHasNoSlash(t: Text, i: nat)
    requires PercentCharAt(t, i).Char?
    ensures NoSlash(t, i, PercentCharAt(t, i).end)
  {
    hide CharLength;
    TripletsHaveNoSlash(t, i, |PercentCharAt(t, i).bytes|);
  }

  lemma {:induction false} RestHasNoSlash(t: Text, i: nat, uri: bool, acc: Text, c: Byte)
    requires i <= |t| && Unescaped(t, i, uri, acc, c).Name?
    ensures NoSlash(t, i, Unescaped(t, i, uri, acc, c).end)
    decreases |t| - i, 2
  {
    hide ParseName;
    if c != TILDE {
      NameHasNoSlash(t, i, uri, acc + [c]);
    } else {
      NameHasNoSlash(t, i + 1, uri, acc + [if t[i] == '0' as int then TILDE else SLASH]);
    }
  }

  lemma {:induction false} TokenPerSlash(t: Text, i: nat, uri: bool)
    requires i <= |t| && (i < |t| ==> t[i] == SLASH) && ParseTokens(t, i, uri).Tokens?
    ensures |ParseTokens(t, i, uri).ts| == Slashes(t, i)
    decreases |t| - i
  {
    hide ParseName, IndexOf;
    if i < |t| {
      var e := ParseName(t, i + 1, uri, []).end;
      NameHasNoSlash(t, i + 1, uri, []);
      SkipNoSlash(t, i + 1, e);
      TokenPerSlash(t, e, uri);
    }
  }

  /** Counting the solidi beforehand gives the number of tokens. */
  lemma CountedTokens(t: Text)
    requires ParsePointer(t).Tokens?
    ensures |ParsePointer(t).ts| == Slashes(t, 0)
  {
    hide ParseTokens;
    var uri := Peek(t, 0) == '#' as int;
    TokenPerSlash(t, if uri then 1 else 0, uri);
  }

  // ---------------------------------------------------------------- indices

  lemma {:induction false} AccumulateExact(name: Text, j: nat)
    requires j <= |name| && AllDigits(name) && DecimalValue(name) < 0x1_0000_0000
    ensures Accumulate(name, j, DecimalValue(name[..j])) == DecimalValue(name)
    decreases |name| - j
  {
    if j == |name| {
      assert name[..j] == name;
    } else {
      hide DecimalValue, Accumulate, IsDigit;
      DigitStep(name, j);
      DigitsGrow(name, j + 1);
      AccumulateStep(name, j, DecimalValue(name[..j]));
      AccumulateExact(name, j + 1);
    }
  }

  lemma DigitStep(name: Text, j: nat)
    requires j < |name| && AllDigits(name)
    ensures '0' as int <= name[j] <= '9' as int
    ensures DecimalValue(name[..j + 1]) == DecimalValue(name[..j]) * 10 + (name[j] - '0' as int)
  {
    assert IsDigit(name[j]);
    DecimalSnoc(name, 0, j);
    assert name[0..j] == name[..j] && name[0..j + 1] == name[..j + 1];
  }

  lemma DigitsGrow(name: Text, j: nat)
    requires j <= |name| && AllDigits(name)
    ensures DecimalValue(name[..j]) <= DecimalValue(name)
  {
    DecimalMonotone(name, 0, j, |name|);
    assert name[0..|name|] == name && name[0..j] == name[..j];
  }

  /** One turn of the loop while the value fits. */
  lemma AccumulateStep(name: Text, j: nat, n: nat)
    requires j < |name| && AllDigits(name) && '0' as int <= name[j] <= '9' as int
    requires n * 10 + (name[j] - '0' as int) < 0x1_0000_0000
    ensures Accumulate(name, j, n) == Accumulate(name, j + 1, n * 10 + (name[j] - '0' as int))
  {
  }

  /** The index of a number is its value exactly if that fits 32 bits. */
  lemma IndexExact(name: Text)
    requires IsNumber(name)
    ensures IndexOf(name) == DecimalValue(name) <==> DecimalValue(name) < 0x1_0000_0000
  {
    if DecimalValue(name) < 0x1_0000_0000 {
      AccumulateExact(name, 0);
      assert name[..0] == [];
    } else {
      AccumulateSmall(name, 0, 0);
    }
  }

  const TWO_32 := 0x1_0000_0000

  /** Digit `k` makes the 32-bit value smaller. */
  predicate Dips(name: Text, k: nat)
    requires k < |name| && AllDigits(name)
  {
    DecimalValue(name[..k + 1]) % TWO_32 < DecimalValue(name[..k]) % TWO_32
  }

  /** Some digit from `j` on makes the 32-bit value smaller. */
  predicate DipsFrom(name: Text, j: nat)
    requires AllDigits(name)
  {
    exists k :: j <= k < |name| && Dips(name, k)
  }

  lemma DipsStep(name: Text, j: nat)
    requires AllDigits(name) && j < |name|
    ensures DipsFrom(name, j) <==> Dips(name, j) || DipsFrom(name, j + 1)
  {
    hide Dips;
  }

  lemma WrapsLikeValue(v: nat, d: nat)
    ensures (v % TWO_32 * 10 + d) % TWO_32 == (v * 10 + d) % TWO_32
  {
    var q := v / TWO_32;
    SameMod(v % TWO_32 * 10 + d, v * 10 + d, q * 10);
  }

  lemma SameMod(x: nat, y: nat, k: nat)
    requires y == x + TWO_32 * k
    ensures x % TWO_32 == y % TWO_32
  {
  }

  /** The conversion loop from digit `j` on. */
  lemma {:induction false} AccumulateWraps(name: Text, j: nat)
    requires j <= |name| && AllDigits(name)
    ensures Accumulate(name, j, DecimalValue(name[..j]) % TWO_32)
            == if DipsFrom(name, j) then INVALID else DecimalValue(name) % TWO_32
    decreases |name| - j
  {
    if j == |name| {
      assert name[..j] == name;
    } else {
      hide DecimalValue, DipsFrom, IsDigit;
      DigitStep(name, j);
      DipsStep(name, j);
      WrapsLikeValue(DecimalValue(name[..j]), name[j] - '0' as int);
      AccumulateWraps(name, j + 1);
    }
  }

  /**
   Which overflows the test catches: those where some digit makes the 32-bit value smaller, and
   a value that wraps to the invalid index. Otherwise the index is the value modulo 2^32.
   */
  lemma CaughtOverflow(name: Text)
    requires IsNumber(name)
    ensures IndexOf(name) == INVALID <==> DipsFrom(name, 0) || DecimalValue(name) % TWO_32 == INVALID
    ensures IndexOf(name) != INVALID ==> IndexOf(name) == DecimalValue(name) % TWO_32
  {
    hide DipsFrom;
    assert name[..0] == [];
    AccumulateWraps(name, 0);
  }

  /** An overflow that the test misses. */
  lemma MissedOverflow()
    ensures IsNumber(FIVE_BILLION) && DecimalValue(FIVE_BILLION) == 5000000000 && IndexOf(FIVE_BILLION) == 705032704
  {
    var s := FIVE_BILLION;
    var t := s[..9];
    assert AllDigits(s);
    assert t[0..9] == t && s[0..9] == t && s[0..10] == s;
    FiveZeros(t, 9);
    assert Powers.Pow(10, 4) == 10000;
    Powers.PowAdd(10, 4, 4);
    DecimalSnoc(s, 0, 9);
    AccumulatePrefix(s, 9);
    assert s[..9] == t;
    assert Wrapped(500000000, s[9]) == 705032704;
    assert Accumulate(s, 10, 705032704) == 705032704;
  }

  const FIVE_BILLION: Text := ['5' as int] + seq(9, _ => '0' as int)

  /** A five and zeros. */
  lemma {:induction false} FiveZeros(t: Text, n: nat)
    requires 1 <= n == |t| <= 9 && t[0] == '5' as int && forall i :: 1 <= i < n ==> t[i] == '0' as int
    ensures AllDigits(t) && DecimalValue(t) == 5 * Powers.Pow(10, n - 1)
  {
    if n == 1 {
      assert t[..0] == [];
    } else {
      assert t[n - 1] == '0' as int;
      FiveZeros(t[..n - 1], n - 1);
    }
  }

  /** While the value fits, the loop computes it. */
  lemma {:induction false} AccumulatePrefix(name: Text, j: nat)
    requires j <= |name| && AllDigits(name) && DecimalValue(name[..j]) < 0x1_0000_0000
    ensures Accumulate(name, 0, 0) == Accumulate(name, j, DecimalValue(name[..j]))
    decreases j
  {
    if j == 0 {
      assert name[..0] == [];
    } else {
      hide DecimalValue, Accumulate, IsDigit;
      DigitStep(name, j - 1);
      AccumulatePrefix(name, j - 1);
      AccumulateStep(name, j - 1, DecimalValue(name[..j - 1]));
    }
  }

  lemma {:induction false} AccumulateSmall(name: Text, j: nat, n: nat)
    requires j <= |name| && AllDigits(name) && n < 0x1_0000_0000
    ensures Accumulate(name, j, n) < 0x1_0000_0000
    decreases |name| - j
  {
    if j < |name| {
      assert IsDigit(name[j]);
      var m := Wrapped(n, name[j]);
      if m >= n {
        AccumulateSmall(name, j + 1, m);
      }
    }
  }

  // ---------------------------------------------------------------- Parse in its buffer

  /** The part of the name buffer that one token occupies. */
  datatype NameSlice = NameSlice(start: nat, length: nat, index: nat)

  predicate Within(slices: seq<NameSlice>, n: nat) {
    forall k :: 0 <= k < |slices| ==> slices[k].start + slices[k].length <= n
  }

  function Read(buf: Text, slices: seq<NameSlice>): (ts: Path)
    requires Within(slices, |buf|)
  {
    seq(|slices|, k requires 0 <= k < |slices| =>
      Token(buf[slices[k].start..slices[k].start + slices[k].length], slices[k].index))
  }

  /**
   Parse stores all names in one buffer of as many characters as the text has, each followed
   by a null character: no name ever leaves it, and none overwrites an earlier one.
   */
  method Parse(source: Text) returns (r: Parsed)
    ensures r == ParsePointer(source)
  {
    hide ParseName, IndexOf, Read, ParseTokens;
    var buf := new Byte[|source|];
    var name: nat := 0;
    var i: nat := 0;
    var uri := false;
    if Peek(source, i) == '#' as int {
      uri := true;
      i := i + 1;
    }
    if i != |source| && Peek(source, i) != SLASH {
      return Malformed(TokenMustBeginWithSolidus, i);
    }
    var slices: seq<NameSlice> := [];
    ReadNothing(buf[..], source, |source|, uri);
    while i < |source|
      invariant name <= i <= |source| && (i < |source| ==> source[i] == SLASH)
      invariant Within(slices, name)
      invariant ParsePointer(source) == Behind(Read(buf[..], slices), ParseTokens(source, i, uri))
      decreases |source| - i
    {
      TokenTurn(source, i, uri, Read(buf[..], slices));
      var found, slice := ParseToken(source, i, uri, buf, name, slices);
      if found.BadName? {
        return Malformed(found.code, found.off);
      }
      i := found.end;
      name := slice.start + slice.length + 1;
      slices := slices + [slice];
    }
    ReadNothing(buf[..], source, i, uri);
    r := Tokens(Read(buf[..], slices));
  }

  /** Tokens in front of the outcome for the rest of the text. */
  function Behind(ts: Path, rest: Parsed): Parsed {
    if rest.Malformed? then rest else Tokens(ts + rest.ts)
  }

  lemma ReadNothing(buf: Text, t: Text, i: nat, uri: bool)
    requires i >= |t|
    ensures Within([], |buf|) && Read(buf, []) == [] && ParseTokens(t, i, uri) == Tokens([])
  {
  }

  lemma TokenTurn(t: Text, i: nat, uri: bool, ts: Path)
    requires i < |t|
    ensures var name := ParseName(t, i + 1, uri, []);
            Behind(ts, ParseTokens(t, i, uri)) ==
            if name.BadName? then Malformed(name.code, name.off)
            else Behind(ts + [Token(name.name, IndexOf(name.name))], ParseTokens(t, name.end, uri))
  {
    hide ParseName, IndexOf;
    var name := ParseName(t, i + 1, uri, []);
    if name.Name? {
      var rest := ParseTokens(t, name.end, uri);
      if rest.Tokens? {
        var token := [Token(name.name, IndexOf(name.name))];
        assert ts + (token + rest.ts) == ts + token + rest.ts;
      }
    }
  }

  /** One turn of the outer loop: a name, its index and the null character behind it. */
  method ParseToken(source: Text, i: nat, uri: bool, buf: array<Byte>, name: nat, ghost slices: seq<NameSlice>)
    returns (found: NameResult, slice: NameSlice)
    requires name <= i < |source| == buf.Length && Within(slices, name)
    modifies buf
    ensures found == ParseName(source, i + 1, uri, [])
    ensures found.Name? ==> slice.start == name && slice.start + slice.length + 1 <= found.end <= |source|
    ensures found.Name? ==> Within(slices + [slice], name + slice.length)
    ensures found.Name? ==>
              Read(buf[..], slices + [slice]) == Read(old(buf[..]), slices) + [Token(found.name, IndexOf(found.name))]
  {
    hide ParseName, IndexOf, Read;
    ghost var before := buf[..];
    var end: nat;
    found, end := ParseNameInto(source, i + 1, uri, buf, name);
    slice := NameSlice(name, 0, 0);
    if found.Name? {
      var index := ParseIndex(buf[name..end]);
      slice := NameSlice(name, end - name, index);
      ghost var written := buf[name..end];
      buf[end] := 0;
      assert buf[name..end] == written;
      assert buf[..][name..end] == buf[name..end];
      assert buf[..name] == before[..name];
      ReadKept(before, buf[..], slices, slice, name);
    }
  }

  lemma ReadKept(before: Text, after: Text, slices: seq<NameSlice>, slice: NameSlice, start: nat)
    requires |before| == |after| && start <= |after| && before[..start] == after[..start] && Within(slices, start)
    requires slice.start + slice.length <= |after|
    ensures Within(slices + [slice], |after|) && Within(slices, |before|)
    ensures Read(after, slices + [slice])
            == Read(before, slices) + [Token(after[slice.start..slice.start + slice.length], slice.index)]
  {
    forall k | 0 <= k < |slices|
      ensures before[slices[k].start..slices[k].start + slices[k].length] == after[slices[k].start..slices[k].start + slices[k].length]
    {
      PrefixSlice(before, after, start, slices[k].start, slices[k].start + slices[k].length);
    }
  }

  lemma PrefixSlice(a: Text, b: Text, n: nat, lo: nat, hi: nat)
    requires |a| == |b| && lo <= hi <= n <= |a| && a[..n] == b[..n]
    ensures a[lo..hi] == b[lo..hi]
  {
    assert a[lo..hi] == a[..n][lo..hi];
    assert b[lo..hi] == b[..n][lo..hi];
  }

  /** The two checks for an index and the conversion loop. */
  method ParseIndex(name: Text) returns (index: nat)
    ensures index == IndexOf(name)
  {
    var isNumber := name != [];
    for j := 0 to |name|
      invariant isNumber <==> name != [] && forall k :: 0 <= k < j ==> IsDigit(name[k])
    {
      if name[j] < '0' as int || name[j] > '9' as int {
        isNumber := false;
      }
    }
    if isNumber && |name| > 1 && name[0] == '0' as int {
      isNumber := false;
    }
    if !isNumber {
      return INVALID;
    }
    index := 0;
    for j := 0 to |name|
      invariant Accumulate(name, j, index) == Accumulate(name, 0, 0)
    {
      var m := Wrapped(index, name[j]);
      if m < index {
        return INVALID;
      }
      index := m;
    }
  }

  // ---------------------------------------------------------------- percent sequences into the buffer

  /** PercentDecodeStream::Take: the byte of a triplet; 0 and no longer valid if there is none. */
  method TakePercent(t: Text, pos: nat) returns (c: Byte, next: nat, valid: bool)
    ensures match Triplet(t, pos)
            case Digits(v) => valid && c == v && next == pos + 3
            case NotHex => !valid && c == 0
  {
    if Peek(t, pos) != PERCENT || pos + 3 > |t| {
      return 0, pos, false;
    }
    next := pos + 1;
    var high := HexDigit(t[next]);
    if high.NotHex? {
      return 0, next, false;
    }
    next := next + 1;
    var low := HexDigit(t[next]);
    if low.NotHex? {
      return 0, next, false;
    }
    next := next + 1;
    c, valid := 16 * high.v + low.v, true;
  }

  /** The byte of triplet `k` behind `i`, if there are so many. */
  lemma {:induction false} UnpercentAt(t: Text, i: nat, k: nat)
    requires k <= |Unpercent(t, i)|
    ensures k < |Unpercent(t, i)| <==> Triplet(t, i + 3 * k).Digits?
    ensures k < |Unpercent(t, i)| ==> Unpercent(t, i)[k] == Triplet(t, i + 3 * k).v
    decreases k
  {
    hide Triplet;
    if k > 0 {
      UnpercentAt(t, i + 3, k - 1);
    }
  }

  /** The mask that byte `j` of a character of this class has to meet. */
  function MaskAt(kind: Byte, j: nat): Byte { if j == 1 then FirstMask(kind) else 0x70 }

  predicate TailsMeet(kind: Byte, d: Text, k: nat) {
    forall j :: 1 <= j < k && j < |d| ==> Meets(d[j], MaskAt(kind, j))
  }

  /**
   Transcoder::Validate from the percent stream into the name buffer. One to four bytes are
   written before it is known whether they are a character; they stay inside the buffer, since
   a byte of 0x80 or more came from a complete triplet.
   */
  method ValidateInto(source: Text, i: nat, buf: array<Byte>, end: nat) returns (ok: bool, n: nat, next: nat)
    requires end < i < |source| == buf.Length
    modifies buf
    ensures buf[..end] == old(buf[..end]) && 1 <= n <= 4 && (n == 1 || end + n <= i + 3 <= |source|)
    ensures ok <==> PercentCharAt(source, i).Char?
    ensures ok ==> end + n <= buf.Length && n == |PercentCharAt(source, i).bytes|
    ensures ok ==> buf[end..end + n] == PercentCharAt(source, i).bytes && next == PercentCharAt(source, i).end
  {
    hide Unpercent, CharLength, PercentCharAt, Meets, GetRange, Triplet;
    ghost var d := Unpercent(source, i);
    UnpercentAt(source, i, 0);
    var c, q, valid := TakePercent(source, i);
    TripletFits(source, i);
    buf[end] := c;
    n := 1;
    assert buf[end..end + 1] == [c];
    if c < 0x80 {
      AsciiResult(source, i, valid, c);
      return valid, 1, q;
    }
    var kind := GetRange(c);
    ok := Following(kind) > 0;
    while n <= Following(kind)
      invariant 1 <= n <= 4 && buf[..end] == old(buf[..end]) && (ok ==> Following(kind) > 0)
      invariant n <= Following(kind) + 1
      invariant valid ==> q == i + 3 * n && n <= |d| && buf[end..end + n] == d[..n]
      invariant valid ==> (ok <==> Following(kind) > 0 && TailsMeet(kind, d, n))
      invariant !valid ==> |d| < n
      decreases 4 - n
    {
      if valid {
        UnpercentAt(source, i, n);
      }
      var more;
      c, q, more := TakePercent(source, q);
      valid := valid && more;
      buf[end + n] := c;
      ok := ok && Meets(c, MaskAt(kind, n));
      assert valid ==> buf[end..end + n + 1] == d[..n] + [c];
      n := n + 1;
    }
    LongResult(source, i, kind, n, ok, valid);
    ok := ok && valid;
    next := q;
  }

  lemma TripletFits(t: Text, i: nat)
    ensures Triplet(t, i).Digits? ==> i + 3 <= |t|
  {
  }

  lemma AsciiResult(t: Text, i: nat, valid: bool, c: Byte)
    requires c < 0x80 && (valid <==> Triplet(t, i).Digits?) && (valid ==> c == Triplet(t, i).v)
    ensures if valid then PercentCharAt(t, i) == Char([c], i + 3) else PercentCharAt(t, i).NoChar?
  {
    hide Triplet;
    if valid {
      var d := Unpercent(t, i);
      assert d[..1] == [c];
    }
  }

  /** The masks decide as Decode's, if there are enough triplets. */
  lemma LongResult(t: Text, i: nat, kind: Byte, n: nat, ok: bool, valid: bool)
    requires var d := Unpercent(t, i);
             && d != [] && d[0] >= 0x80 && kind == GetRange(d[0]) && n == 1 + Following(kind)
             && (valid ==> n <= |d| && (ok <==> n > 1 && TailsMeet(kind, d, n)))
             && (!valid ==> |d| < n)
    ensures ok && valid <==> PercentCharAt(t, i).Char?
    ensures ok && valid ==> PercentCharAt(t, i) == Char(Unpercent(t, i)[..n], i + 3 * n)
  {
    hide Triplet, Unpercent, Meets;
    var d := Unpercent(t, i);
    if n == 1 {
      NoLead(d);
    } else {
      var met := Meets(Peek(d, 1), FirstMask(kind)) && (n > 2 ==> Meets(Peek(d, 2), 0x70))
                 && (n > 3 ==> Meets(Peek(d, 3), 0x70));
      Accepted(d, 0, met);
      if valid {
        TailsAre(kind, d, n);
      } else {
        NullIsNoTail();
      }
    }
  }

  lemma NoLead(d: Text)
    requires d != [] && d[0] >= 0x80 && Following(GetRange(d[0])) == 0
    ensures CharLength(d, 0) == 0
  {
  }

  lemma NullIsNoTail()
    ensures !Meets(0, 0x70) && !Meets(0, 0x50) && !Meets(0, 0x10) && !Meets(0, 0x20) && !Meets(0, 0x60)
  {
  }

  lemma TailsAre(kind: Byte, d: Text, n: nat)
    requires 2 <= n <= 4 && n <= |d|
    ensures TailsMeet(kind, d, n) <==>
            Meets(Peek(d, 1), FirstMask(kind)) && (n > 2 ==> Meets(Peek(d, 2), 0x70)) && (n > 3 ==> Meets(Peek(d, 3), 0x70))
  {
    hide Meets;
    if TailsMeet(kind, d, n) {
      assert Meets(d[1], MaskAt(kind, 1));
      assert n > 2 ==> Meets(d[2], MaskAt(kind, 2));
      assert n > 3 ==> Meets(d[3], MaskAt(kind, 3));
    }
  }

  /** The inner loop: the characters of one token, written behind `start`. */
  method ParseNameInto(source: Text, i0: nat, uri: bool, buf: array<Byte>, start: nat) returns (r: NameResult, end: nat)
    requires start < i0 <= |source| == buf.Length
    modifies buf
    ensures r == ParseName(source, i0, uri, [])
    ensures r.Name? ==> start <= end < r.end && buf[start..end] == r.name
    ensures buf[..start] == old(buf[..start])
  {
    hide PercentCharAt, NeedPercentEncode, ParseName, Unescaped;
    var i := i0;
    end := start;
    assert buf[start..end] == [];
    while i < |source| && source[i] != SLASH
      invariant start <= end < i <= |source|
      invariant buf[..start] == old(buf[..start])
      invariant ParseName(source, i, uri, buf[start..end]) == ParseName(source, i0, uri, [])
      decreases |source| - i
    {
      ghost var acc := buf[start..end];
      var unit := ReadUnit(source, i, uri, buf, start, end);
      if unit.Refused? {
        return BadName(unit.code, i), end;
      }
      if unit.Written? {
        end := end + unit.n;
        i := unit.next;
        continue;
      }
      var ok, c, next := TakeEscape(source, unit.next, uri, acc, unit.c);
      if !ok {
        return BadName(InvalidEscape, next), end;
      }
      i := next;
      buf[end] := c;
      assert buf[start..end + 1] == acc + [c];
      end := end + 1;
    }
    NameStops(source, i, uri, buf[start..end]);
    r := Name(buf[start..end], i);
  }

  /** What one turn of the inner loop reads: a character that is not yet written, or `n` bytes that are. */
  datatype Unit = Single(c: Byte, next: nat) | Written(n: nat, next: nat) | Refused(code: PointerError)

  method ReadUnit(source: Text, i: nat, uri: bool, buf: array<Byte>, start: nat, end: nat) returns (r: Unit)
    requires start <= end < i < |source| == buf.Length && source[i] != SLASH
    modifies buf
    ensures buf[..end] == old(buf[..end]) && buf[..start] == old(buf[..start]) && buf[start..end] == old(buf[start..end])
    ensures var whole := ParseName(source, i, uri, old(buf[start..end]));
            match r
            case Single(c, next) => i < next <= |source| && whole == Unescaped(source, next, uri, old(buf[start..end]), c)
            case Written(n, next) =>
              i < next <= |source| && end + n < next && whole == ParseName(source, next, uri, buf[start..end + n])
            case Refused(code) => whole == BadName(code, i)
  {
    hide PercentCharAt, NeedPercentEncode, ParseName, Unescaped;
    var c := source[i];
    ghost var acc := buf[start..end];
    NameTurn(source, i, uri, acc);
    if uri && c == PERCENT {
      var ok, n, next := ValidateInto(source, i, buf, end);
      assert buf[..start] == buf[..end][..start] && buf[start..end] == buf[..end][start..];
      if !ok {
        return Refused(InvalidPercentEncoding);
      }
      if n == 1 {
        return Single(buf[end], next);
      }
      assert buf[start..end + n] == acc + buf[end..end + n];
      return Written(n, next);
    }
    if uri && NeedPercentEncode(c) {
      return Refused(CharacterMustPercentEncode);
    }
    return Single(c, i + 1);
  }

  /** One turn of the inner loop. */
  lemma NameTurn(t: Text, i: nat, uri: bool, acc: Text)
    requires i < |t| && t[i] != SLASH
    ensures ParseName(t, i, uri, acc) ==
            if uri && t[i] == PERCENT then
              var c := PercentCharAt(t, i);
              if c.NoChar? then BadName(InvalidPercentEncoding, i)
              else if |c.bytes| == 1 then Unescaped(t, c.end, uri, acc, c.bytes[0])
              else ParseName(t, c.end, uri, acc + c.bytes)
            else if uri && NeedPercentEncode(t[i]) then BadName(CharacterMustPercentEncode, i)
            else Unescaped(t, i + 1, uri, acc, t[i])
  {
  }

  /** A tilde takes the next character with it. */
  method TakeEscape(source: Text, i: nat, ghost uri: bool, ghost acc: Text, c: Byte) returns (ok: bool, r: Byte, next: nat)
    requires i <= |source|
    ensures i <= next <= |source|
    ensures Unescaped(source, i, uri, acc, c)
            == if ok then ParseName(source, next, uri, acc + [r]) else BadName(InvalidEscape, next)
  {
    hide ParseName;
    if c != TILDE {
      return true, c, i;
    }
    if i == |source| {
      return false, c, i;
    }
    if source[i] == '0' as int {
      return true, TILDE, i + 1;
    }
    if source[i] == '1' as int {
      return true, SLASH, i + 1;
    }
    return false, c, i;
  }

  // ---------------------------------------------------------------- the two text forms, said apart

  /** A name has an index candidate exactly if it is the decimal form of a number. */
  lemma NumbersAreDecimals(name: Text)
    ensures IsNumber(name) <==> exists n: nat :: name == I.Decimal(n)
  {
    hide I.Decimal, DecimalValue;
    if IsNumber(name) {
      I.DecimalCanonical(name);
    }
    if n: nat :| name == I.Decimal(n) {
      I.DecimalIsDigits(n);
      if n == 0 {
        ZeroIsShort();
      }
    }
  }

  lemma ZeroIsShort()
    ensures |I.Decimal(0)| == 1
  {
  }

  /** ALPHA / DIGIT / "-" / "." / "_" / "~" by their codes: section 2.3 of RFC 3986. */
  lemma UnreservedStay(c: Byte)
    ensures !NeedPercentEncode(c)
            <==> 0x41 <= c <= 0x5A || 0x61 <= c <= 0x7A || 0x30 <= c <= 0x39 || c in {0x2D, 0x2E, 0x5F, 0x7E}
  {
  }

  /** Section 3 of RFC 6901: "~1" stands for a solidus and "~0" for a tilde, between any two characters. */
  lemma EscapesOfStringForm(a: Byte, b: Byte)
    requires a != 0x2F && a != 0x7E && a != 0x23 && !IsDigit(a) && b != 0x2F && b != 0x7E
    ensures ParsePointer([0x2F, a, 0x7E, 0x31, b]) == Tokens([Token([a, 0x2F, b], INVALID)])
    ensures ParsePointer([0x2F, a, 0x7E, 0x30, b]) == Tokens([Token([a, 0x7E, b], INVALID)])
  {
    OneEscape(a, 0x31, 0x2F, b);
    OneEscape(a, 0x30, 0x7E, b);
  }

  lemma OneEscape(a: Byte, e: Byte, c: Byte, b: Byte)
    requires a != 0x2F && a != 0x7E && a != 0x23 && !IsDigit(a) && b != 0x2F && b != 0x7E
    requires (e == 0x31 && c == 0x2F) || (e == 0x30 && c == 0x7E)
    ensures ParsePointer([0x2F, a, 0x7E, e, b]) == Tokens([Token([a, c, b], INVALID)])
  {
    var t := [0x2F, a, 0x7E, e, b];
    calc {
      ParseName(t, 1, false, []);
      Unescaped(t, 2, false, [], a);
      { assert [] + [a] == [a]; }
      ParseName(t, 2, false, [a]);
      Unescaped(t, 3, false, [a], 0x7E);
      { assert [a] + [c] == [a, c]; }
      ParseName(t, 4, false, [a, c]);
      Unescaped(t, 5, false, [a, c], b);
      { assert [a, c] + [b] == [a, c, b]; }
      ParseName(t, 5, false, [a, c, b]);
      Name([a, c, b], 5);
    }
    assert ParseTokens(t, 5, false) == Tokens([]);
    assert [a, c, b][0] in [a, c, b];
    assert IndexOf([a, c, b]) == INVALID;
    assert ParseTokens(t, 0, false) == Tokens([Token([a, c, b], INVALID)]);
  }

  /** In the string form a name has only one text: writing what was parsed gives the text back. */
  lemma {:induction false} NameWritten(t: Text, i: nat, acc: Text)
    requires i <= |t| && ParseName(t, i, false, acc).Name?
    ensures var r := ParseName(t, i, false, acc);
            acc <= r.name && t[i..r.end] == NameText(r.name, |acc|, false)
    decreases |t| - i, 1
  {
    hide NameText, NeedPercentEncode, Unescaped;
    var r := ParseName(t, i, false, acc);
    if i >= |t| || t[i] == SLASH {
      assert t[i..r.end] == [];
      NameEnd(r.name, |acc|, false);
    } else {
      RestWritten(t, i + 1, acc, t[i]);
      assert t[i..r.end] == [t[i]] + t[i + 1..r.end];
    }
  }

  lemma {:induction false} RestWritten(t: Text, i: nat, acc: Text, c: Byte)
    requires i <= |t| && c != SLASH && Unescaped(t, i, false, acc, c).Name?
    ensures var r := Unescaped(t, i, false, acc, c);
            acc < r.name && [c] + t[i..r.end] == NameText(r.name, |acc|, false)
    decreases |t| - i, 2
  {
    hide NameText, NeedPercentEncode, ParseName;
    var r := Unescaped(t, i, false, acc, c);
    if c != TILDE {
      NameWritten(t, i, acc + [c]);
    } else {
      NameWritten(t, i + 1, acc + [if t[i] == '0' as int then TILDE else SLASH]);
      assert t[i..r.end] == [t[i]] + t[i + 1..r.end];
    }
    NameStep(r.name, |acc|, false);
    assert Next(r.name, |acc|, false) == |acc| + 1;
  }

  lemma {:induction false} TokensWritten(t: Text, i: nat)
    requires i <= |t| && (i < |t| ==> t[i] == SLASH) && ParseTokens(t, i, false).Tokens?
    ensures t[i..] == TokensText(ParseTokens(t, i, false).ts, false)
    decreases |t| - i
  {
    hide ParseName, NameText, IndexOf;
    if i < |t| {
      var r := ParseName(t, i + 1, false, []);
      NameWritten(t, i + 1, []);
      TokensWritten(t, r.end);
      assert t[i..] == [SLASH] + (t[i + 1..r.end] + t[r.end..]);
    }
  }

  /** Stringify of a parsed string form is the text that was parsed. */
  lemma ParsedIsWritten(t: Text)
    requires ParsePointer(t).Tokens? && Peek(t, 0) != '#' as int
    ensures PointerText(ParsePointer(t).ts, false) == t
  {
    hide ParseTokens, TokensText;
    TokensWritten(t, 0);
    assert t[0..] == t;
  }
}

/**
 The lexemes of the tokenizer (parsers/jsmn.c) against the characters of RFC 8259: where its
 scanners end, and which error they report, said of the text alone.
 */
module JsmnLexis {
  import opened Sax
  import opened Rfc8259
  import opened Jsmn

  const QUOTE: Text := [QUOTATION_MARK]

  /** The characters of a string: complete escapes, and any others but the null character. */
  predicate BodyOk(s: Text) {
    if s == [] then true
    else if s[0] == ESCAPE then
      |s| >= 2
      && (if s[1] == 0x75 then
            |s| >= 6 && IsHexDig(s[2]) && IsHexDig(s[3]) && IsHexDig(s[4]) && IsHexDig(s[5]) && BodyOk(s[6..])
          else IsEscaped(s[1]) && BodyOk(s[2..]))
    else s[0] != QUOTATION_MARK && s[0] != 0 && BodyOk(s[1..])
  }

  /** Behind the opening quote: the body stands from `p` to the closing quote at `e`. */
  predicate Quoted(js: Text, p: nat, e: nat) {
    p <= e < |js| && js[e] == QUOTATION_MARK && BodyOk(js[p..e])
  }

  predicate TextEnds(js: Text, p: nat) { p >= |js| || js[p] == 0 }

  /** White space, a separator or a closing bracket. */
  predicate EndsWord(c: int) {
    IsWs(c) || c == NAME_SEPARATOR || c == VALUE_SEPARATOR || c == END_ARRAY || c == END_OBJECT
  }

  /** Printable characters of ASCII that do not end a word. */
  predicate WordChars(w: Text) { forall i :: 0 <= i < |w| ==> 0x20 < w[i] < 0x7F && !EndsWord(w[i]) }

  /** Numbers and the names true, false and null are such words. */
  predicate WordOk(w: Text) {
    w != [] && w[0] != BEGIN_OBJECT && w[0] != BEGIN_ARRAY && w[0] != QUOTATION_MARK && WordChars(w)
  }

  /** What may follow a value: the end, white space, a separator or a closing bracket. */
  predicate Stops(js: Text, p: nat) { TextEnds(js, p) || EndsWord(js[p]) }

  /** A word stands from `p` to `e`. */
  predicate Worded(js: Text, p: nat, e: nat) {
    p <= e <= |js| && WordChars(js[p..e]) && Stops(js, e)
  }

  // ---------------------------------------------------------------- the scanners

  lemma HexEndIs(js: Text, p: nat, n: nat)
    requires n <= 4
    ensures var h := HexEnd(js, p, n);
            h.Till? ==> p <= h.end <= p + n && (h.end <= |js| || h.end == p) && (h.end == p || HexFirst(js, p, h.end - p))
                        && (h.end == p + n || TextEnds(js, h.end))
    ensures HexEnd(js, p, n).Bad? <==> NoHexWithin(js, p, n)
    decreases n
  {
    if n > 0 && !TextEnds(js, p) {
      if IsHexDig(js[p]) {
        HexEndIs(js, p + 1, n - 1);
        if NoHexWithin(js, p + 1, n - 1) {
          var i :| 0 <= i < n - 1 && NoHexAt(js, p + 1, i);
          assert NoHexAt(js, p, i + 1);
        }
        if NoHexWithin(js, p, n) {
          var i :| 0 <= i < n && NoHexAt(js, p, i);
          assert i > 0;
          assert NoHexAt(js, p + 1, i - 1);
        }
      } else {
        assert NoHexAt(js, p, 0);
      }
    }
  }

  predicate NoHexWithin(js: Text, p: nat, n: nat) {
    exists i {:trigger NoHexAt(js, p, i)} :: 0 <= i < n && NoHexAt(js, p, i)
  }

  /** Behind `i` hexadecimal digits stands another character. */
  predicate NoHexAt(js: Text, p: nat, i: nat) {
    HexFirst(js, p, i) && !TextEnds(js, p) && p + i < |js| && js[p + i] != 0 && !IsHexDig(js[p + i])
  }

  /** The `i` characters from `p` on are hexadecimal digits. */
  predicate HexFirst(js: Text, p: nat, i: nat) {
    p + i <= |js| && forall k :: p <= k < p + i ==> IsHexDig(js[k])
  }

  lemma BodyPlain(js: Text, p: nat, e: nat)
    requires p < e <= |js| && js[p] != ESCAPE
    ensures BodyOk(js[p..e]) <==> js[p] != QUOTATION_MARK && js[p] != 0 && BodyOk(js[p + 1..e])
  {
    assert js[p..e][1..] == js[p + 1..e];
  }

  lemma BodyEscape(js: Text, p: nat, e: nat)
    requires p < e <= |js| && js[p] == ESCAPE
    ensures BodyOk(js[p..e]) <==>
            p + 2 <= e
            && if js[p + 1] == 0x75 then p + 6 <= e && HexFirst(js, p + 2, 4) && BodyOk(js[p + 6..e])
               else IsEscaped(js[p + 1]) && BodyOk(js[p + 2..e])
  {
    var s := js[p..e];
    if p + 2 <= e {
      assert s[1] == js[p + 1] && s[2..] == js[p + 2..e];
      if p + 6 <= e {
        assert s[6..] == js[p + 6..e] && s[2] == js[p + 2] && s[3] == js[p + 3] && s[4] == js[p + 4] && s[5] == js[p + 5];
        assert HexFirst(js, p + 2, 4) <==> IsHexDig(js[p + 2]) && IsHexDig(js[p + 3]) && IsHexDig(js[p + 4]) && IsHexDig(js[p + 5]);
      }
    }
  }

  /** The string scanner ends at `e` exactly if a complete body stands up to the quote at `e`. */
  lemma {:induction false} StringEndIff(js: Text, p: nat, e: nat)
    ensures StringEnd(js, p) == Till(e) <==> Quoted(js, p, e)
    decreases |js| - p
  {
    hide BodyOk, HexEnd;
    if p < |js| {
      if p == e {
        assert js[p..e] == [];
        EmptyBody();
      }
      if js[p] == ESCAPE {
        if e > p && e < |js| {
          BodyEscape(js, p, e);
        }
        if p + 1 < |js| {
          StringEndIff(js, p + 2, e);
          if js[p + 1] == 0x75 {
            HexEndIs(js, p + 2, 4);
            var h := HexEnd(js, p + 2, 4);
            if h.Till? {
              StringEndIff(js, h.end, e);
              if TextEnds(js, h.end) {
                assert StringEnd(js, h.end) == Bad(Part);
              }
            }
          }
        } else {
          assert StringEnd(js, p + 1) == Bad(Part);
        }
      } else if js[p] != 0 && js[p] != QUOTATION_MARK {
        StringEndIff(js, p + 1, e);
        if p < e < |js| {
          BodyPlain(js, p, e);
        }
      } else if p < e < |js| {
        BodyPlain(js, p, e);
      }
    }
  }

  lemma EmptyBody()
    ensures BodyOk([])
  {
  }

  /** The word scanner ends at `e` exactly if a word stands up to `e`. */
  lemma {:induction false} PrimitiveEndIff(js: Text, p: nat, e: nat)
    requires p <= |js|
    ensures PrimitiveEnd(js, p) == Till(e) <==> Worded(js, p, e)
    decreases |js| - p
  {
    if Stops(js, p) {
      if p < e <= |js| {
        assert js[p..e][0] == js[p];
      }
    } else {
      if p < e <= |js| {
        var w, rest := js[p..e], js[p + 1..e];
        assert w == [js[p]] + rest;
        if WordChars(w) {
          assert 0x20 < w[0] < 0x7F;
          forall i | 0 <= i < |rest|
            ensures 0x20 < rest[i] < 0x7F && !EndsWord(rest[i])
          {
            assert w[i + 1] == rest[i];
          }
        }
      }
      PrimitiveEndIff(js, p + 1, e);
    }
  }

  /** At `q` stands an escape that is not one of section 7 of RFC 8259. */
  predicate BadEscapeAt(js: Text, q: nat) {
    && q + 1 < |js| && js[q] == ESCAPE
    && if js[q + 1] == 0x75 then NoHexWithin(js, q + 2, 4) else !IsEscaped(js[q + 1])
  }

  /** Behind a complete body from `p` on stands a bad escape. */
  predicate FailsAt(js: Text, p: nat, q: nat) {
    p <= q < |js| && BodyOk(js[p..q]) && BadEscapeAt(js, q)
  }

  lemma {:induction false} BadEscapeFails(js: Text, p: nat, q: nat)
    requires FailsAt(js, p, q)
    ensures StringEnd(js, p) == Bad(Inval)
    decreases |js| - p
  {
    hide BodyOk, HexEnd;
    if p == q {
      HexEndIs(js, q + 2, 4);
    } else if js[p] == ESCAPE {
      BodyEscape(js, p, q);
      if js[p + 1] == 0x75 {
        HexEndIs(js, p + 2, 4);
        FourDigits(js, p + 2);
        BadEscapeFails(js, p + 6, q);
      } else {
        BadEscapeFails(js, p + 2, q);
      }
    } else {
      BodyPlain(js, p, q);
      BadEscapeFails(js, p + 1, q);
    }
  }

  lemma FourDigits(js: Text, p: nat)
    requires HexFirst(js, p, 4)
    ensures HexEnd(js, p, 4) == Till(p + 4)
  {
    assert HexEnd(js, p + 3, 1) == Till(p + 4);
    assert HexEnd(js, p + 2, 2) == Till(p + 4);
    assert HexEnd(js, p + 1, 3) == Till(p + 4);
  }

  lemma {:induction false} FailsAtBadEscape(js: Text, p: nat) returns (q: nat)
    requires StringEnd(js, p) == Bad(Inval)
    ensures FailsAt(js, p, q)
    decreases |js| - p
  {
    hide BodyOk, HexEnd;
    EmptyBody();
    q := p;
    assert js[p..p] == [];
    if js[p] == ESCAPE && p + 1 < |js| {
      if js[p + 1] == 0x75 {
        HexEndIs(js, p + 2, 4);
        var h := HexEnd(js, p + 2, 4);
        if h.Till? {
          q := FailsAtBadEscape(js, p + 6);
          BodyEscape(js, p, q);
        }
      } else if IsEscaped(js[p + 1]) {
        q := FailsAtBadEscape(js, p + 2);
        BodyEscape(js, p, q);
      }
    } else {
      q := FailsAtBadEscape(js, p + 1);
      if js[p] != ESCAPE {
        BodyPlain(js, p, q);
      }
    }
  }

  /** The two errors of a string: a bad escape behind a complete body, or no closing quote. */
  lemma StringErrors(js: Text, p: nat)
    ensures StringEnd(js, p) == Bad(Inval) <==> exists q: nat :: FailsAt(js, p, q)
    ensures StringEnd(js, p) == Bad(Part) <==> (forall q: nat :: !FailsAt(js, p, q)) && forall e: nat :: !Quoted(js, p, e)
  {
    hide BodyOk, FailsAt, Quoted;
    if StringEnd(js, p) == Bad(Inval) {
      var q := FailsAtBadEscape(js, p);
    }
    if q: nat :| FailsAt(js, p, q) {
      BadEscapeFails(js, p, q);
    }
    if StringEnd(js, p).Till? {
      StringEndIff(js, p, StringEnd(js, p).end);
    }
    if e: nat :| Quoted(js, p, e) {
      StringEndIff(js, p, e);
    }
  }
}

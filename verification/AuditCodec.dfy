/**
 The record format of the audit log (benchmarks/audit_codec.hpp): a heading, a fixed part with
 one tagged field after the other, and the blobs that the string fields point to. A number is
 its bytes in memory; 32-bit sizes and offsets are little-endian.
 */
module AuditCodec {
  import opened Sax

  /** The types of typemap. All have a code, but the decoder does not know that of bool. */
  datatype Kind = Bool | UInt8 | Int8 | UInt16 | Int16 | UInt32 | Int32 | UInt64 | Int64 | Float | Double

  datatype Field = Number(kind: Kind, bytes: Text) | Str(s: Text)

  function CodeOf(k: Kind): Byte {
    match k
    case Bool => '?' as int
    case UInt8 => 'B' as int case Int8 => 'b' as int case UInt16 => 'H' as int case Int16 => 'h' as int
    case UInt32 => 'L' as int case Int32 => 'l' as int case UInt64 => 'Q' as int case Int64 => 'q' as int
    case Float => 'f' as int case Double => 'd' as int
  }

  const STRING_CODE := 'S' as int

  function SizeOf(k: Kind): nat {
    match k
    case Bool => 1 case UInt8 => 1 case Int8 => 1 case UInt16 => 2 case Int16 => 2
    case UInt32 => 4 case Int32 => 4 case Float => 4
    case UInt64 => 8 case Int64 => 8 case Double => 8
  }

  predicate FieldOk(f: Field) { f.Number? ==> |f.bytes| == SizeOf(f.kind) }

  predicate FieldsOk(fs: seq<Field>) { forall i :: 0 <= i < |fs| ==> FieldOk(fs[i]) }

  // ---------------------------------------------------------------- sizes

  function FieldSize(f: Field): nat { 1 + if f.Str? then 4 else |f.bytes| }

  function BlobSize(f: Field): nat { if f.Str? then 1 + 4 + |f.s| else 0 }

  function RecordSize(fs: seq<Field>): nat { if fs == [] then 0 else FieldSize(fs[0]) + RecordSize(fs[1..]) }

  function BlobsSize(fs: seq<Field>): nat { if fs == [] then 0 else BlobSize(fs[0]) + BlobsSize(fs[1..]) }

  function FullRecordSize(fs: seq<Field>): nat { 1 + 4 + RecordSize(fs) + BlobsSize(fs) }

  // ---------------------------------------------------------------- bytes

  const LIMIT := 0x1_0000_0000

  function Little(n: nat): (s: Text)
    requires n < LIMIT
    ensures |s| == 4
  {
    [n % 256, n / 256 % 256, n / 65536 % 256, n / 16777216]
  }

  function ReadLittle(b: Text, p: nat): (n: int)
    requires p + 4 <= |b|
    ensures 0 <= n < LIMIT
  {
    var x0: int, x1: int, x2: int, x3: int := b[p], b[p + 1], b[p + 2], b[p + 3];
    x0 + 256 * x1 + 65536 * x2 + 16777216 * x3
  }

  lemma LittleReadsBack(b: Text, p: nat, n: nat)
    requires n < LIMIT && Stands(b, p, Little(n))
    ensures ReadLittle(b, p) == n
  {
    var s := Little(n);
    StandsAt(b, p, s, 0);
    StandsAt(b, p, s, 1);
    StandsAt(b, p, s, 2);
    StandsAt(b, p, s, 3);
    hide Stands;
    FourParts(n);
  }

  lemma FourParts(n: nat)
    ensures n == n % 256 + 256 * (n / 256 % 256) + 65536 * (n / 65536 % 256) + 16777216 * (n / 16777216)
  {
    assert n / 65536 == n / 256 / 256 && n / 16777216 == n / 65536 / 256;
  }

  /** The tagged field; `off` is where the blob of a string will go, relative to the blobs. */
  function FieldText(f: Field, off: nat): (s: Text)
    requires off < LIMIT
    ensures |s| == FieldSize(f)
  {
    if f.Str? then [STRING_CODE] + Little(off) else [CodeOf(f.kind)] + f.bytes
  }

  function BlobText(f: Field): (s: Text)
    requires BlobSize(f) < LIMIT
    ensures |s| == BlobSize(f)
  {
    if f.Str? then [2] + Little(|f.s|) + f.s else []
  }

  function FieldsText(fs: seq<Field>, off: nat): (s: Text)
    requires off + BlobsSize(fs) < LIMIT
    ensures |s| == RecordSize(fs)
  {
    if fs == [] then [] else FieldText(fs[0], off) + FieldsText(fs[1..], off + BlobSize(fs[0]))
  }

  function BlobsText(fs: seq<Field>): (s: Text)
    requires BlobsSize(fs) < LIMIT
    ensures |s| == BlobsSize(fs)
  {
    if fs == [] then [] else BlobText(fs[0]) + BlobsText(fs[1..])
  }

  function RecordText(fs: seq<Field>): (s: Text)
    requires FullRecordSize(fs) < LIMIT
    ensures |s| == FullRecordSize(fs)
  {
    [1] + Little(RecordSize(fs)) + FieldsText(fs, 0) + BlobsText(fs)
  }

  // ---------------------------------------------------------------- encode_record

  /** Puts exactly the record behind `buf`, in exactly full_record_size bytes. */
  method EncodeRecord(buf: Text, fs: seq<Field>) returns (r: Text, n: nat)
    requires FullRecordSize(fs) < LIMIT
    ensures r == buf + RecordText(fs) && n == FullRecordSize(fs) == |r| - |buf|
  {
    hide FieldsText, BlobsText, RecordSize, BlobsSize, Little, FieldText, BlobText;
    r := buf + [1] + Little(RecordSize(fs));
    ghost var head := r;
    var off := 0;
    assert fs[0..] == fs;
    for i := 0 to |fs|
      invariant 0 <= off && off + BlobsSize(fs[i..]) == BlobsSize(fs)
      invariant r + FieldsText(fs[i..], off) == head + FieldsText(fs, 0)
    {
      FieldsStep(fs, i, off);
      r := r + FieldText(fs[i], off);
      off := off + BlobSize(fs[i]);
    }
    NoFields(fs[|fs|..], off);
    assert r == head + FieldsText(fs, 0);
    ghost var fixed := r;
    for i := 0 to |fs|
      invariant BlobsSize(fs[i..]) <= BlobsSize(fs)
      invariant r + BlobsText(fs[i..]) == fixed + BlobsText(fs)
    {
      FieldsStep(fs, i, 0);
      r := r + BlobText(fs[i]);
    }
    NoFields(fs[|fs|..], 0);
    assert r == fixed + BlobsText(fs);
    assert r == buf + RecordText(fs);
    n := |r| - |buf|;
  }

  lemma NoFields(fs: seq<Field>, off: nat)
    requires fs == [] && off < LIMIT
    ensures BlobsSize(fs) == 0 && FieldsText(fs, off) == [] && BlobsText(fs) == []
  {
  }

  lemma TextsStep(fs: seq<Field>, off: nat)
    requires fs != [] && off + BlobsSize(fs) < LIMIT
    ensures FieldsText(fs, off) == FieldText(fs[0], off) + FieldsText(fs[1..], off + BlobSize(fs[0]))
    ensures BlobsText(fs) == BlobText(fs[0]) + BlobsText(fs[1..])
  {
    hide FieldText, BlobText;
  }

  lemma FieldsStep(fs: seq<Field>, i: nat, off: nat)
    requires i < |fs| && off + BlobsSize(fs[i..]) < LIMIT
    ensures BlobsSize(fs[i..]) == BlobSize(fs[i]) + BlobsSize(fs[i + 1..])
    ensures FieldsText(fs[i..], off) == FieldText(fs[i], off) + FieldsText(fs[i + 1..], off + BlobSize(fs[i]))
    ensures BlobsText(fs[i..]) == BlobText(fs[i]) + BlobsText(fs[i + 1..])
  {
    hide FieldText, BlobText, FieldsText, BlobsText, BlobsSize, BlobSize;
    SizesStep(fs[i..]);
    TextsStep(fs[i..], off);
    assert fs[i..][1..] == fs[i + 1..];
  }

  // ---------------------------------------------------------------- decode_field

  datatype Decoded = Got(field: Field, next: nat) | Aborted

  datatype KindCode = Code(kind: Kind) | Unknown

  function KindOf(c: Byte): KindCode {
    if c == 'B' as int then Code(UInt8) else if c == 'b' as int then Code(Int8)
    else if c == 'H' as int then Code(UInt16) else if c == 'h' as int then Code(Int16)
    else if c == 'L' as int then Code(UInt32) else if c == 'l' as int then Code(Int32)
    else if c == 'Q' as int then Code(UInt64) else if c == 'q' as int then Code(Kind.Int64)
    else if c == 'f' as int then Code(Float) else if c == 'd' as int then Code(Kind.Double)
    else Unknown
  }

  /** The field at `p`, with the blobs beginning at `blobs`. */
  function DecodeField(b: Text, p: nat, blobs: nat): (r: Decoded)
    ensures r.Got? ==> p < r.next <= |b| && FieldOk(r.field)
  {
    if p >= |b| then Aborted
    else if b[p] == STRING_CODE then
      if p + 5 > |b| then Aborted
      else
        var at := blobs + ReadLittle(b, p + 1) + 1;
        if at + 4 > |b| then Aborted
        else
          var length := ReadLittle(b, at);
          if at + 4 + length > |b| then Aborted else Got(Str(b[at + 4..at + 4 + length]), p + 5)
    else
      match KindOf(b[p])
      case Unknown => Aborted
      case Code(k) => if p + 1 + SizeOf(k) > |b| then Aborted else Got(Number(k, b[p + 1..p + 1 + SizeOf(k)]), p + 1 + SizeOf(k))
  }

  datatype Record = Fields(fs: seq<Field>) | Broken

  /** All fields from `p` up to the blobs. */
  function DecodeFields(b: Text, p: nat, blobs: nat): (r: Record)
    decreases |b| - p
  {
    if p >= blobs then Fields([])
    else
      var d := DecodeField(b, p, blobs);
      if d.Aborted? then Broken
      else
        var rest := DecodeFields(b, d.next, blobs);
        if rest.Broken? then Broken else Fields([d.field] + rest.fs)
  }

  // ---------------------------------------------------------------- round trip

  /** A string field reads back, given its blob at the offset that it stores. */
  lemma StringReadsBack(b: Text, p: nat, blobs: nat, s: Text, off: nat)
    requires off < LIMIT && 5 + |s| < LIMIT
    requires Stands(b, p, [STRING_CODE] + Little(off)) && Stands(b, blobs + off, [2] + Little(|s|) + s)
    ensures DecodeField(b, p, blobs) == Got(Str(s), p + 5)
  {
    hide Little, ReadLittle, Stands;
    StandsSplit(b, p, [STRING_CODE], Little(off));
    StandsAt(b, p, [STRING_CODE], 0);
    LittleReadsBack(b, p + 1, off);
    var at := blobs + off + 1;
    StandsSplit(b, blobs + off, [2] + Little(|s|), s);
    StandsSplit(b, blobs + off, [2], Little(|s|));
    LittleReadsBack(b, at, |s|);
    StandsSlice(b, at + 4, s);
    StandsWithin(b, p, [STRING_CODE] + Little(off));
    StandsWithin(b, at + 4, s);
  }

  /** A number reads back, unless it is a bool: that stops the decoder. */
  lemma NumberReadsBack(b: Text, p: nat, blobs: nat, k: Kind, bytes: Text)
    requires |bytes| == SizeOf(k) && Stands(b, p, [CodeOf(k)] + bytes)
    ensures DecodeField(b, p, blobs) == if k == Kind.Bool then Aborted else Got(Number(k, bytes), p + 1 + |bytes|)
  {
    hide Stands;
    StandsWithin(b, p, [CodeOf(k)] + bytes);
    StandsSplit(b, p, [CodeOf(k)], bytes);
    StandsAt(b, p, [CodeOf(k)], 0);
    StandsSlice(b, p + 1, bytes);
  }

  predicate IsBool(f: Field) { f.Number? && f.kind == Kind.Bool }

  predicate HasBool(fs: seq<Field>) { exists i :: 0 <= i < |fs| && IsBool(fs[i]) }

  lemma HasBoolStep(fs: seq<Field>)
    requires fs != []
    ensures HasBool(fs) <==> IsBool(fs[0]) || HasBool(fs[1..])
  {
    if i :| 0 <= i < |fs| && IsBool(fs[i]) {
      if i > 0 {
        assert IsBool(fs[1..][i - 1]);
      }
    }
    if i :| 0 <= i < |fs[1..]| && IsBool(fs[1..][i]) {
      assert IsBool(fs[i + 1]);
    }
  }

  /** A field reads back, given the blob of a string; a bool does not. */
  lemma FieldReadsBack(b: Text, p: nat, blobs: nat, f: Field, off: nat)
    requires FieldOk(f) && off < LIMIT && BlobSize(f) < LIMIT
    requires Stands(b, p, FieldText(f, off)) && Stands(b, blobs + off, BlobText(f))
    ensures DecodeField(b, p, blobs) == if IsBool(f) then Aborted else Got(f, p + FieldSize(f))
  {
    hide Stands, DecodeField, Little;
    match f {
      case Str(s) => StringReadsBack(b, p, blobs, s, off);
      case Number(k, bytes) => NumberReadsBack(b, p, blobs, k, bytes);
    }
  }

  /**
   The fields from `p` on read back exactly if none is a bool: each string's offset is the sum
   of the sizes of the blobs before it, so its blob is found there.
   */
  lemma {:induction false} FieldsReadBack(b: Text, p: nat, blobs: nat, fs: seq<Field>, off: nat)
    requires FieldsOk(fs) && off + BlobsSize(fs) < LIMIT
    requires p + RecordSize(fs) == blobs <= |b|
    requires Stands(b, p, FieldsText(fs, off)) && Stands(b, blobs + off, BlobsText(fs))
    ensures DecodeFields(b, p, blobs) == if HasBool(fs) then Broken else Fields(fs)
    decreases |fs|
  {
    hide FieldText, BlobText, DecodeField, DecodeFields, Stands, HasBool, IsBool, FieldsText, BlobsText, RecordSize, BlobsSize;
    if fs == [] {
      NoBool(fs);
      NoSizes(fs);
      DecodeNothing(b, p, blobs);
    } else {
      var f, rest := fs[0], fs[1..];
      HasBoolStep(fs);
      SizesStep(fs);
      TextsStep(fs, off);
      DecodeStep(b, p, blobs);
      StandsSplit(b, p, FieldText(f, off), FieldsText(rest, off + BlobSize(f)));
      StandsSplit(b, blobs + off, BlobText(f), BlobsText(rest));
      FieldReadsBack(b, p, blobs, f, off);
      FieldsReadBack(b, p + FieldSize(f), blobs, rest, off + BlobSize(f));
      assert fs == [f] + rest;
    }
  }

  lemma DecodeNothing(b: Text, p: nat, blobs: nat)
    requires p >= blobs
    ensures DecodeFields(b, p, blobs) == Fields([])
  {
  }

  lemma DecodeStep(b: Text, p: nat, blobs: nat)
    requires p < blobs
    ensures var d := DecodeField(b, p, blobs);
            DecodeFields(b, p, blobs) ==
            if d.Aborted? then Broken
            else
              var rest := DecodeFields(b, d.next, blobs);
              if rest.Broken? then Broken else Fields([d.field] + rest.fs)
  {
    hide DecodeField;
  }

  lemma NoBool(fs: seq<Field>)
    requires fs == []
    ensures !HasBool(fs)
  {
  }

  /**
   A record anywhere in a buffer: its heading locates the blobs, and decoding gives its fields
   back if and only if none of them is a bool; with a bool the decoder aborts.
   */
  lemma RecordReadsBack(b: Text, at: nat, fs: seq<Field>)
    requires FieldsOk(fs) && FullRecordSize(fs) < LIMIT && Stands(b, at, RecordText(fs))
    ensures at + 5 <= |b| && ReadLittle(b, at + 1) == RecordSize(fs)
    ensures var r := DecodeFields(b, at + 5, at + 5 + RecordSize(fs));
            (r == Fields(fs) <==> !HasBool(fs)) && (r == Broken <==> HasBool(fs))
  {
    hide Little, FieldsText, BlobsText, DecodeFields, Stands, HasBool, ReadLittle, RecordSize, BlobsSize;
    var head, fixed, blobs := [1] + Little(RecordSize(fs)), FieldsText(fs, 0), BlobsText(fs);
    StandsWithin(b, at, RecordText(fs));
    assert RecordText(fs) == head + (fixed + blobs);
    StandsSplit(b, at, head, fixed + blobs);
    StandsSplit(b, at, [1], Little(RecordSize(fs)));
    LittleReadsBack(b, at + 1, RecordSize(fs));
    StandsSplit(b, at + 5, fixed, blobs);
    FieldsReadBack(b, at + 5, at + 5 + RecordSize(fs), fs, 0);
  }

  /** The offset stored for a string field is the total size of the blobs before it. */
  lemma {:induction false} StoredOffset(fs: seq<Field>, i: nat, off: nat)
    requires i < |fs| && fs[i].Str? && off + BlobsSize(fs) < LIMIT
    ensures RecordSize(fs[..i]) + 5 <= RecordSize(fs) && off + BlobsSize(fs[..i]) < LIMIT
    ensures Stands(FieldsText(fs, off), RecordSize(fs[..i]), [STRING_CODE] + Little(off + BlobsSize(fs[..i])))
    decreases i
  {
    hide Little, Stands, FieldsText, RecordSize, BlobsSize;
    assert fs[0..] == fs;
    FieldsStep(fs, 0, off);
    SizesStep(fs);
    var f, rest := fs[0], fs[1..];
    var first, others := FieldText(f, off), FieldsText(rest, off + BlobSize(f));
    if i == 0 {
      assert fs[..0] == [];
      NoSizes(fs[..0]);
      AtFront(first, others);
    } else {
      var up := rest[..i - 1];
      StoredOffset(rest, i - 1, off + BlobSize(f));
      assert fs[..i] == [f] + up;
      SizesStep(fs[..i]);
      assert fs[..i][1..] == up;
      Shifted(first, others, RecordSize(up), [STRING_CODE] + Little(off + BlobSize(f) + BlobsSize(up)));
    }
  }

  lemma SizesStep(fs: seq<Field>)
    requires fs != []
    ensures RecordSize(fs) == FieldSize(fs[0]) + RecordSize(fs[1..])
    ensures BlobsSize(fs) == BlobSize(fs[0]) + BlobsSize(fs[1..])
  {
  }

  lemma NoSizes(fs: seq<Field>)
    requires fs == []
    ensures RecordSize(fs) == 0 && BlobsSize(fs) == 0
  {
  }

  lemma AtFront(a: Text, b: Text)
    ensures Stands(a + b, 0, a)
  {
  }

  lemma Shifted(a: Text, b: Text, p: nat, s: Text)
    requires Stands(b, p, s)
    ensures Stands(a + b, |a| + p, s)
  {
    forall i | 0 <= i < |s|
      ensures (a + b)[|a| + p + i] == s[i]
    {
      assert b[p + i] == s[i];
    }
  }

  // ---------------------------------------------------------------- the bytes of one record

  /** The codes are those of the Python struct module; sizes and offsets have their lowest byte first. */
  lemma CodeBytes()
    ensures [CodeOf(Kind.Bool), CodeOf(UInt8), CodeOf(Int8), CodeOf(UInt16), CodeOf(Int16), CodeOf(UInt32), CodeOf(Int32),
             CodeOf(UInt64), CodeOf(Kind.Int64), CodeOf(Float), CodeOf(Kind.Double)]
            == [0x3F, 0x42, 0x62, 0x48, 0x68, 0x4C, 0x6C, 0x51, 0x71, 0x66, 0x64]
    ensures Little(0x04030201) == [1, 2, 3, 4]
  {
  }

  lemma PartBytes()
    ensures FieldText(Number(UInt16, [0x39, 0x30]), 0) == [0x48, 0x39, 0x30]
    ensures FieldText(Str([0x6F, 0x6B]), 0) == [0x53, 0, 0, 0, 0] && BlobText(Str([0x6F, 0x6B])) == [2, 2, 0, 0, 0, 0x6F, 0x6B]
    ensures FieldText(Str([0x21]), 7) == [0x53, 7, 0, 0, 0] && BlobText(Str([0x21])) == [2, 1, 0, 0, 0, 0x21]
    ensures Little(13) == [13, 0, 0, 0]
  {
  }

  /** A number and two strings: heading, tagged fields and blobs as they lie in memory. */
  lemma RecordExample(fs: seq<Field>)
    requires fs == [Number(UInt16, [0x39, 0x30]), Str([0x6F, 0x6B]), Str([0x21])]
    ensures FieldsOk(fs) && FullRecordSize(fs) == 31
    ensures RecordText(fs)
            == [1] + [13, 0, 0, 0]
               + ([0x48, 0x39, 0x30] + ([0x53, 0, 0, 0, 0] + [0x53, 7, 0, 0, 0]))
               + ([2, 2, 0, 0, 0, 0x6F, 0x6B] + [2, 1, 0, 0, 0, 0x21])
  {
    hide FieldText, BlobText, Little, FieldsText, BlobsText, RecordSize, BlobsSize;
    PartBytes();
    ExampleParts(fs[0], fs[1], fs[2]);
    assert fs == [fs[0], fs[1], fs[2]];
  }

  /** A number and two strings in general. */
  lemma ExampleParts(f: Field, g: Field, h: Field)
    requires f.Number? && g.Str? && h.Str? && 10 + |g.s| + |h.s| < LIMIT
    ensures var fs := [f, g, h];
            && RecordSize(fs) == 11 + |f.bytes| && BlobsSize(fs) == 10 + |g.s| + |h.s|
            && FieldsText(fs, 0) == FieldText(f, 0) + (FieldText(g, 0) + FieldText(h, 5 + |g.s|))
            && BlobsText(fs) == BlobText(g) + BlobText(h)
  {
    hide FieldText, BlobText, Little, FieldsText, BlobsText, RecordSize, BlobsSize;
    assert [f, g, h][1..] == [g, h] && [g, h][1..] == [h] && [h][1..] == [];
    NoSizes([]);
    NoFields([], 10 + |g.s| + |h.s|);
    SizesStep([h]);
    SizesStep([g, h]);
    SizesStep([f, g, h]);
    TextsStep([h], 5 + |g.s|);
    TextsStep([g, h], 0);
    TextsStep([f, g, h], 0);
    assert BlobText(f) == [] by { NoBlob(f); }
  }

  lemma NoBlob(f: Field)
    requires f.Number?
    ensures BlobSize(f) == 0 && BlobText(f) == []
  {
  }
}

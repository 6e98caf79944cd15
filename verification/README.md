# Verified model of the JSON engine, the tokenizer and the audit log buffer

This project models the parts of the bidder that carry its hard invariants, in Dafny 4.11,
and proves what they are for. `dafny verify dfyconfig.toml` checks everything.

- **The two JSON parsers of RapidJSON.** `Recursive.dfy` says what recursive descent does,
  `TableDriven.dfy` what the state table with its explicit stack does, `ParserEquivalence.dfy`
  that the second refines the first over unbounded nesting, for every handler and every flag.
  `Scan.dfy` holds white space, strings and numbers, which both share. `Reader.dfy` is the
  reader as a class over a mutable buffer, in copying and in in-situ mode. `JsonLexis.dfy` and
  `JsonSyntax.dfy` are a grammar of the accepted texts, with the characters of RFC 8259
  (`Rfc8259.dfy`): both parsers accept exactly its texts, with the events of their trees.
- **Writing, reading and building trees.** `Itoa.dfy`, `Dom.dfy`, `Writer.dfy` and
  `RoundTrip.dfy` end in one method, `WriteParseBuild`: writer, reader and document together
  are the identity. `TextShape.dfy` says of the characters of the text where white space
  stands. `Unicode.dfy` adds UTF-8 decoding and the ASCII target, `AsciiShape.dfy` its shape.
- **Number text.** `Grisu.dfy` is digit generation with its 64-bit arithmetic. `Limbs.dfy`,
  `BigInteger.dfy` and `HalfUlp.dfy` are the multiword integers and the correctly rounded end
  of decimal reading; real numbers appear only in contracts.
- **The audit log buffer.** `AuditBuffer.dfy` is a transition system with a program counter per
  thread; every atomic operation is one step. `AuditCalls.dfy` says what finished calls have
  obtained. `AuditCodec.dfy` is the format of its records.
- **The jsmn tokenizer.** `Jsmn.dfy` is the parser in place and as a function, `JsmnLexis.dfy`
  its lexemes by RFC 8259, `JsmnRuns.dfy` what holds on every text, `JsmnTree.dfy` what holds
  on JSON texts.
- **JSON Pointer.** `Pointer.dfy` has the laws of Get, Create, Set and Erase, `PointerText.dfy`
  the two text forms of RFC 6901, `PointerErrors.dfy` what the parser refuses and why.
- **The pool allocator.** `Allocator.dfy` is the chunk list with in-place growth, over memory as
  a function of addresses.

A class method is specified by a function on values (`ensures Agrees(Value(o, text, ...))`,
`ensures r == Returned(Run(...))`), and the laws are lemmas about that function. A stream that
is read past its end yields the null character, as the original's strings do.

Where the code does not do what it is meant to do, the model follows the code and the contracts
say when it does:

- The two parsers disagree on the error code when the root begins with `]`, `}`, `,` or `:`
  (`DelimiterRootCodes`, `EqualIffNoDelimiterRoot`).
- `reserve` lets a request of filesize-1 bytes through its size check, but no segment ever
  grants it: the caller never returns. All smaller requests can be granted
  (`LargestRequestNeverGranted`, `GrantableIffSmaller`).
- Loading `segment_idx_` and copying the slot are two steps; a thread that is held up between
  them can move the index back (`IndexCanMoveBack`, `RingIffFreshCopy`).
- `BigInteger::operator<<=` moves the wrong words when it shifts several words by whole words
  (`ShiftLeft`, `WholeWordShiftExample`), and `BigInteger::Difference` loses a borrow that meets
  a word of all ones (`Difference`, `LostBorrowMeans`, `LostBorrowExample`). Because of the
  first, a decimal number of sixty digits is rounded to the wrong double (`MisroundedExample`);
  `RightSignIff` and `RoundingIff` say exactly when sign and rounding are right. They leave out
  only the shift of several words by two or more whole words, which depends on words never written.
- The bit pattern of zero is read as the normal number 2^-1023, so a decimal number next to
  zero is always rounded up (`ReadRightUnlessZero`, `ComputedAsIntended`, `StrtodBigInteger`).
- `DigitGen` uses 0 for the distance to W once more than eight decimals are needed; the digits
  stay in the interval but need not be the closest (`DigitGen`, `NotClosestExample`).
- The audit codec writes `bool` fields that its decoder does not know (`RecordReadsBack`).
- The overflow test for pointer indices misses some overflows (`IndexExact`, `CaughtOverflow`,
  `MissedOverflow`).

## Model

| member | source | states |
|---|---|---|
| `ParserEquivalence.TableDrivenRefinesRecursive` | rapidjson/reader.h:2162-2195 | for every text, every setting of the comment, trailing-comma and stop-when-done flags and every handler, also one that refuses events, unless the root begins with a delimiter: the table-driven parser gives the same events with the same counts, the same verdict and error code, and the same offset except that of a refusal |
| `ParserEquivalence.DelimiterRootCodes` | rapidjson/reader.h:2133-2152 | if the root begins with `]`, `}`, `,` or `:` both parsers reject with the same (empty) events, the recursive one with ValueInvalid and the table-driven one with DocumentEmpty, at the same offset |
| `ParserEquivalence.EqualIffNoDelimiterRoot` | rapidjson/reader.h:558-589 | with a handler that refuses nothing the outcomes are equal, offsets included, if and only if the root does not begin with a delimiter |
| `ParserEquivalence.RunValue` | rapidjson/reader.h:1981-2131 | a run of the table from any state that awaits a value, on any stack, delivers what ParseValue delivers and goes on in the state to return to, with the stack as it was |
| `ParserEquivalence.RunMembers` | rapidjson/reader.h:738-803 | the same for the members of an object from the first name or after a comma: the count on the stack is the recursive parser's memberCount |
| `ParserEquivalence.RunElements` | rapidjson/reader.h:806-852 | the same for the elements of an array and elementCount |
| `ParserEquivalence.RunScalar` | rapidjson/reader.h:2028-2042 | strings, numbers and literals are the same in both parsers, whatever is on the stack |
| `ParserEquivalence.ValueTermination` | rapidjson/reader.h:1722-1736 | the recursive parser reports Termination only when the handler refused an event, for every text and handler |
| `TableDriven.Transit` | rapidjson/reader.h:1981-2131 | every move goes forward within the text and keeps the stack consistent with the state: inside a container there is a frame for it, and each frame's return state fits the frame below |
| `JsonReader.Reader.RecursiveParse` | rapidjson/reader.h:558-589 | the recursive-descent class ends with the events, result and position of the recursive specification, in copying and in in-situ mode |
| `JsonReader.Reader.IterativeParse` | rapidjson/reader.h:2162-2195 | the same for the table-driven class with its explicit stack; in both, whenever parsing ends or is at any point between two steps, the unread text is unchanged and every string handed out in situ still reads as it was delivered |
| `JsonReader.Reader.Step` | rapidjson/reader.h:1981-2131 | one Transit in place is one step of the table, on the one stack that also holds the characters of strings |
| `JsonReader.Reader.PushFrame` | rapidjson/reader.h:1989-2014 | opening a container pushes the return state and a zero count |
| `JsonReader.Reader.PopFrame` | rapidjson/reader.h:2051-2109 | closing one delivers its count (one more if a value came last) and restores the return state, with Finish for Start |
| `JsonReader.Reader.StepDelimiter` | rapidjson/reader.h:2023-2049 | a colon or comma adds to the count on top; a trailing comma is accepted exactly with the flag |
| `JsonReader.Reader.ReadValue` | rapidjson/reader.h:1722-1736 | agrees with the specification of a value, and keeps every string handed out before |
| `JsonReader.Reader.ReadObject` | rapidjson/reader.h:738-803 | events, counts, error code and offset of an object, over unbounded nesting |
| `JsonReader.Reader.ReadArray` | rapidjson/reader.h:806-852 | events, counts, error code and offset of an array, over unbounded nesting |
| `JsonReader.Reader.ReadNull` | rapidjson/reader.h:854-865 | the literal null, or ValueInvalid at the first character that differs |
| `JsonReader.Reader.ReadTrue` | rapidjson/reader.h:867-878 | the literal true, or ValueInvalid at the first character that differs |
| `JsonReader.Reader.ReadFalse` | rapidjson/reader.h:880-891 | the literal false, or ValueInvalid at the first character that differs |
| `JsonReader.Reader.SkipWhitespaceAndComments` | rapidjson/reader.h:709-735 | stops at the first character behind white space and, with the flag, behind every comment; an unfinished comment is an error at its offset |
| `JsonReader.Reader.ReadString` | rapidjson/reader.h:957-985 | delivers the decoded string from the top of the stack or from the slice of the buffer; earlier slices stay as they are, and the stack is again what it was, frames included |
| `JsonReader.Reader.ParseStringToStream` | rapidjson/reader.h:989-1055 | the written characters are the decoding of the text; in situ the write position stays behind the read position and the unread text is never changed, also on an error |
| `JsonReader.Reader.ParseEscape` | rapidjson/reader.h:1009-1034 | one escape sequence decodes to at most as many bytes as it occupies |
| `JsonReader.Reader.ParseHex4` | rapidjson/reader.h:904-924 | the value of four hexadecimal digits, or an error at the backslash |
| `JsonReader.Reader.Encode` | rapidjson/encodings.h:101-121 | writes the UTF-8 form of the code point without overtaking the read position |
| `JsonReader.Reader.Put` | rapidjson/stream.h:153-160 | writing behind the read position changes neither the unread text nor a string handed out |
| `JsonReader.Reader.ReadNumber` | rapidjson/reader.h:1454-1719 | on the buffer: consumes and delivers what the specification of ParseNumber does, with its error code and offset; what that specification means is `JsonLexis.NumberTaken` and `NumberFound` |
| `JsonReader.Reader.ReadDigits` | rapidjson/reader.h:1480-1560 | for any digit string without a leading zero: exact value and class, falling to double exactly outside -2^63..2^64-1, with no wrap-around on the way |
| `JsonReader.Reader.Accumulate32` | rapidjson/reader.h:1481-1507 | the 32-bit loop stops exactly before the digit that would exceed the limit |
| `JsonReader.Reader.Accumulate64` | rapidjson/reader.h:1535-1560 | the 64-bit loop stops exactly before the digit that would exceed the limit |
| `JsonReader.DecimalMonotone` | rapidjson/reader.h:1481-1507 | more digits never make the value smaller, which makes the overflow test before each digit exact |
| `JsonSyntax.AcceptsIffJson` | rapidjson/reader.h:558-589 | Parse accepts a text with a position and events if and only if the text up to that position is one of a grammar stated apart from the parser (layout and comments, string units, number parts, trailing commas by flag) whose tree has exactly these events and no number that a too-big test refuses |
| `JsonSyntax.TableDrivenAcceptsIffJson` | rapidjson/reader.h:2162-2195 | the same for the table-driven parser |
| `JsonSyntax.ReadText` | rapidjson/reader.h:558-589 | the reader as it is called, either parser and either mode: success gives a text of the grammar and its events, failure means that no prefix is one |
| `JsonSyntax.ValueTaken` | rapidjson/reader.h:1722-1736 | every tree of the grammar, anywhere in a text, is read whole with its events; with a number that is too big the error is NumberTooBig |
| `JsonSyntax.ValueFound` | rapidjson/reader.h:1722-1736 | whatever ParseValue accepts, for every handler, is the text of a tree of the grammar with these events |
| `JsonSyntax.StringRefused` | rapidjson/reader.h:957-985 | a string is refused for its first bad unit at that place; one that the handler refuses has been read up to the place told |
| `JsonSyntax.WordRefused` | rapidjson/reader.h:854-891 | a literal is refused at the first letter that differs from the word |
| `JsonLexis.NumberTaken` | rapidjson/reader.h:1454-1719 | every number of the grammar (sign, integer part, fraction, exponent) that ends where its text ends is read whole with exactly its event, or refused as too big exactly if a too-big test fires |
| `JsonLexis.NumberFound` | rapidjson/reader.h:1454-1719 | whatever ParseNumber accepts is such a number, not extended by what follows, with its event; each error code tells what is missing at its offset |
| `JsonLexis.DoubleIff` | rapidjson/reader.h:1602-1699 | the event is a double if and only if the text has a point or an exponent letter or the integer lies outside -2^63..2^64-1; otherwise it is Int, Int64, Uint or Uint64 of the value by sign and size |
| `JsonLexis.StringTaken` | rapidjson/reader.h:989-1055 | every string of the grammar (characters, the escapes of section 7 of RFC 8259, surrogate pairs) is read as the bytes that its units stand for |
| `JsonLexis.StringFound` | rapidjson/reader.h:989-1055 | whatever ParseString accepts is such a string; each error code tells what stands at its offset behind complete units |
| `JsonLexis.EscapeFound` | rapidjson/reader.h:1009-1034 | an escape is a unit of the grammar, or one of three reasons holds why it is none |
| `JsonLexis.LayoutSkipped` | rapidjson/reader.h:709-735 | every sequence of white space and, with the flag, block and line comments is skipped to its end |
| `JsonLexis.LayoutFound` | rapidjson/reader.h:709-735 | whatever is skipped is such a sequence, a last line comment perhaps ended by the text; an error is a slash that begins no comment or a block comment that the text ends |
| `AuditBuffer.ReachableInv` | benchmarks/audit_buffer.hpp:138-192 | for any number of threads and every interleaving the invariant holds: entries of a segment tile its offset, each pending or crossing entry belongs to the one thread that made it |
| `AuditBuffer.ReturnedRanges` | benchmarks/audit_buffer.hpp:138-179 | in every run the ranges granted in one segment are disjoint and below size()-1, at most one thread crosses, the mark lies behind every granted range and the ranges before it leave no byte out; what a finished call has obtained is `AuditCalls.FinishedCallsAreGranted` |
| `AuditCalls.StaysInsideOrIsGranted` | benchmarks/audit_buffer.hpp:142-178 | in every state and step a thread inside reserve stays inside with the size it asked for, whoever steps, unless its own step grants it a range of exactly that size; only then is it outside |
| `AuditCalls.BeginsOutside` | benchmarks/audit_buffer.hpp:138-140 | a call begins only from outside reserve, with the size of the call |
| `AuditCalls.FinishedCallsAreGranted` | benchmarks/audit_buffer.hpp:138-179 | over every run and for every size, the number of finished calls for that many bytes is the number of granted ranges of that size |
| `AuditCalls.OneFinishPerCall` | benchmarks/audit_buffer.hpp:138-179 | over every run, the calls that a thread has begun are those it has finished and at most one that it is inside of |
| `AuditCalls.DecidedByRange` | benchmarks/audit_buffer.hpp:153-176 | in every run a range is granted, crossing or beyond the end by the inequalities on its bytes alone, and the mark is where the crossing range begins |
| `AuditBuffer.Ordered` | benchmarks/audit_buffer.hpp:93-95 | the fetch_add ranges of one segment follow each other |
| `AuditBuffer.OneCrossing` | benchmarks/audit_buffer.hpp:154-171 | at most one fetch_add of a segment crosses its end |
| `AuditBuffer.LargestRequestNeverGranted` | benchmarks/audit_buffer.hpp:138-140 | a request of filesize-1 bytes passes the size check and is never granted in any run |
| `AuditBuffer.GrantableIffSmaller` | benchmarks/audit_buffer.hpp:138-140 | of the requests that pass the size check, some run of any non-empty set of threads grants n bytes if and only if n < filesize-1 |
| `AuditBuffer.StepRing` | benchmarks/audit_buffer.hpp:144-192 | every step of every thread and of the preparation keeps the ring, provided a copied slot still belongs to the loaded index; the index rises by one on a publication and else stays |
| `AuditBuffer.FreshRunKeepsRing` | benchmarks/audit_buffer.hpp:144-192 | in every run whose copies are fresh the ring holds: one crossing thread at most, every thread on the segment it loaded, the slots holding exactly the segments from the current one on |
| `AuditBuffer.TogetherIsFresh` | benchmarks/audit_buffer.hpp:145-151 | taking the load of the index and the copy of the slot as one step makes every copy fresh |
| `AuditBuffer.AtomicRuns` | benchmarks/audit_buffer.hpp:131-192 | in every run with load and copy as one step, for any threads: at most one is crossing, full slots plus preparations are two, a preparation finds its slot empty, and every step moves the index by one exactly when it publishes |
| `AuditBuffer.RingIffFreshCopy` | benchmarks/audit_buffer.hpp:145-151 | a copy keeps the ring if and only if it is fresh |
| `AuditBuffer.IndexCanMoveBack` | benchmarks/audit_buffer.hpp:144-176 | with load and copy as separate steps a run of two threads makes segment_idx_ go from 2 back to 1 |
| `AuditBuffer.IndexRisesByOne` | benchmarks/audit_buffer.hpp:174-175 | in the ring the index changes only when a crossing is published, and then by one |
| `AuditBuffer.OneThreadCrosses` | benchmarks/audit_buffer.hpp:154-176 | in the ring two threads that are crossing are the same |
| `AuditBuffer.SlotsConserved` | benchmarks/audit_buffer.hpp:131-132 | in the ring full slots plus queued, running and about-to-be-queued preparations are two |
| `AuditBuffer.PreparationFindsSlotEmpty` | benchmarks/audit_buffer.hpp:182-192 | in the ring the slot to fill is empty: the assertion in prep_next_segment holds |
| `RoundTrip.WriteParseBuild` | rapidjson/document.h:1839-1876 | for every tree without doubles, every indentation and array format, either parser and either mode: the text is the rendering of the tree, the events are the parser's outcome on that text, the document is what they build, and it is the same tree (strings byte for byte, member order, integer bits and type flags) |
| `RoundTrip.DocumentReadsBack` | rapidjson/reader.h:558-589 | parsing the written text gives exactly the events of the tree, whatever the flags |
| `RoundTrip.TableDrivenReadsBack` | rapidjson/reader.h:2162-2195 | the same for the table-driven parser |
| `RoundTrip.ValueReadsBack` | rapidjson/reader.h:1722-1736 | a value's text inside any text, at any depth, reads as its events |
| `RoundTrip.StringReadsBack` | rapidjson/writer.h:378-450 | the quoted and escaped text of any bytes decodes to those bytes |
| `RoundTrip.NumberReadsBack` | rapidjson/reader.h:1454-1719 | the printed form of every integer of 64 bits reads as the event for that integer, whatever follows that ends a number |
| `RoundTrip.ArrayReadsBack` | rapidjson/prettywriter.h:208-255 | arrays in every format read back |
| `RoundTrip.ObjectReadsBack` | rapidjson/prettywriter.h:208-255 | objects in every format read back, names in order |
| `JsonWriter.Writer.Accept` | rapidjson/document.h:1839-1876 | driving the writer with a tree puts exactly its rendering behind what the level stack calls for, and counts one value; the characters of that rendering are the subject of `TextShape` |
| `JsonWriter.Writer.Prefix` | rapidjson/prettywriter.h:208-248 | comma, colon, line feed and indentation of the innermost level and the style; the level counts one value more; where they stand in the text is `TextShape.PrettyIsSpaced` |
| `JsonWriter.Writer.WriteIndent` | rapidjson/prettywriter.h:250-253 | one indentation per open level; what that makes of the lines of a text is `TextShape.LinesIndented` |
| `JsonWriter.Writer.WriteString` | rapidjson/writer.h:378-450 | quotes around the escaped bytes |
| `JsonWriter.Writer.Number` | rapidjson/writer.h:314-348 | the canonical decimal text for each integer event |
| `JsonWriter.Writer.Start` | rapidjson/writer.h:217-221 | opens a level behind its prefix |
| `JsonWriter.Writer.End` | rapidjson/prettywriter.h:137-179 | closes the innermost level, on its own line unless it is empty or a single-line array |
| `TextShape.WriteValue` | rapidjson/document.h:1839-1876 | the writer as it is called, by the characters of its text alone: compact text has no white space outside quoted strings, and pretty text is that text with each gap between neighbouring characters filled as it must be, every line indented by its open brackets |
| `TextShape.CompactIsTight` | rapidjson/writer.h:470-487 | no white space stands outside quoted strings in a compact text |
| `TextShape.PrettyIsSpaced` | rapidjson/prettywriter.h:208-253 | for each array format a pretty text is the compact text with a line or a blank exactly where neighbouring characters (bracket, comma, colon, next character) and the brackets open there call for it |
| `TextShape.PrettyStripped` | rapidjson/prettywriter.h:208-253 | a pretty text without the white space outside quoted strings is the compact text |
| `TextShape.LinesIndented` | rapidjson/prettywriter.h:250-253 | every line feed outside quoted strings is followed by exactly (open brackets before it, less one if a closing bracket follows) times the indent count of indent characters, and then by another character |
| `TextShape.ControlsInUpperCase` | rapidjson/writer.h:432-441 | a control without a letter of its own is written as its code in four upper-case hexadecimal digits |
| `RoundTrip.ShortestString` | rapidjson/writer.h:378-450 | no text that reads as the same string is shorter than the one written: nothing is escaped without need, and in the shortest way |
| `Dom.ConstructorsAgree` | rapidjson/document.h:693-729 | all integer constructors that accept a number store the same bits and type flags for it |
| `Dom.NumberEventValue` | rapidjson/document.h:1868-1874 | Accept reports a number by the narrowest event its flags allow, with the stored value |
| `Dom.NumberRoundTrip` | rapidjson/document.h:2410-2415 | building from the event that the reader gives for an integer stores its bits and flags |
| `Dom.BuildValue` | rapidjson/document.h:2408-2448 | feeding the events of a tree to the document pushes exactly that tree, on any stack |
| `Dom.Document.Handle` | rapidjson/document.h:2408-2448 | each event changes the stack as specified |
| `Dom.Document.EndObject` | rapidjson/document.h:2431-2435 | the last memberCount pairs become the members of the object below them |
| `Dom.Document.EndArray` | rapidjson/document.h:2439-2443 | the last elementCount values become the elements of the array below them |
| `Dom.FlattenPairs` | rapidjson/document.h:2005-2028 | pairing up the flattened members gives the members back, in order |
| `Unicode.Decode` | rapidjson/encodings.h:146-176 | accepts exactly the well-formed characters of section 4 of RFC 3629, and the code point is the scalar value whose encoding was read |
| `Unicode.Validate` | rapidjson/encodings.h:179-202 | accepts the same characters and copies exactly their bytes |
| `Unicode.MasksMean` | rapidjson/encodings.h:204-220 | each mask, applied to the table of byte classes, is the byte range it stands for |
| `Unicode.EncodedIsWellFormed` | rapidjson/encodings.h:101-121 | Encode of every scalar value is one well-formed character |
| `Unicode.RecoverEncoded` | rapidjson/encodings.h:101-121 | the code point is recovered from its encoding, so no two have the same |
| `Unicode.CharacterIsEncoded` | rapidjson/encodings.h:146-176 | every well-formed character is the encoding of a scalar value |
| `Unicode.WriteAsciiString` | rapidjson/writer.h:401-431 | with an ASCII target a string can be written if and only if it is well-formed UTF-8; the text is ASCII, one escape or a surrogate pair per character |
| `Unicode.AsciiRoundTrip` | rapidjson/writer.h:378-450 | what is written with an ASCII target reads back as the same bytes |
| `AsciiShape.ShortestAscii` | rapidjson/writer.h:401-450 | no ASCII text that reads as the same string is shorter than the one written |
| `AsciiShape.CodeOfEscape` | rapidjson/writer.h:404-431 | a character beyond ASCII is written as its code, or as the surrogates that stand for it |
| `Unicode.UnicodeEscapeReadsBack` | rapidjson/reader.h:1017-1032 | the reader turns an escape or surrogate pair back into the bytes of its code point |
| `Itoa.U32toa` | rapidjson/internal/itoa.h:39-111 | appends the canonical decimal form of every 32-bit number |
| `Itoa.I32toa` | rapidjson/internal/itoa.h:113-121 | the same with sign, for -2^31 too |
| `Itoa.U64toa` | rapidjson/internal/itoa.h:123-289 | appends the canonical decimal form of every 64-bit number |
| `Itoa.I64toa` | rapidjson/internal/itoa.h:291-299 | the same with sign, for -2^63 too |
| `Itoa.DecimalRoundTrip` | rapidjson/internal/itoa.h:39-299 | the printed digits denote the number |
| `Itoa.DecimalCanonical` | rapidjson/internal/itoa.h:39-299 | a digit string without leading zeros is the printed form of its value |
| `Itoa.BuffersSuffice` | rapidjson/writer.h:314-348 | ten and twenty characters are enough for the digits of 32-bit and 64-bit numbers |
| `Grisu.DigitGen` | rapidjson/internal/dtoa.h:60-110 | on the documented range: terminates, never exceeds 64 bits, writes digits only; the number written lies in [Mp - delta, Mp] and no shorter one lies in (Mp - delta, Mp]; how many decimals are written, as a function of the arguments; and none of that length in the interval is closer to W if and only if the integer digits or eight decimals are enough, or the unrounded number is the only one there or at most half a unit above W |
| `Grisu.NotClosestExample` | rapidjson/internal/dtoa.h:98-107 | an input with nine decimals: 1.555555555 is written although 1.555555554 is in the interval and closer to W |
| `Grisu.EightDecimals` | rapidjson/internal/dtoa.h:103-105 | the table of powers is long enough exactly if eight decimals are |
| `Grisu.UnroundedClosest` | rapidjson/internal/dtoa.h:103-105 | when the unrounded number is the closest, exactly |
| `Grisu.GrisuRound` | rapidjson/internal/dtoa.h:35-42 | lowers the last digit, never below zero, so that no other choice inside the interval is closer to W |
| `Grisu.CountsDigits` | rapidjson/internal/dtoa.h:44-58 | CountDecimalDigit32 is the number of decimal digits of every number below 10^9 |
| `Grisu.FractionDigits` | rapidjson/internal/dtoa.h:90-108 | the fraction loop ends with the same guarantee, after the first number of decimals that leaves less of Mp than delta |
| `Grisu.RoundedWell` | rapidjson/internal/dtoa.h:35-42 | rounding a prefix of the digits gives a number in the interval, and no shorter one is in it |
| `BigIntegers.MulAdd64` | rapidjson/internal/biginteger.h:249-277 | the portable branch: both words of a * b + k, for all words |
| `BigIntegers.BigInteger.FromDecimals` | rapidjson/internal/biginteger.h:40-53 | the number denoted by the digits, normalised, in no more than one word per 19 digits; for far more than 780 digits without exceeding the capacity |
| `BigIntegers.BigInteger.AppendDecimal64` | rapidjson/internal/biginteger.h:224-232 | times a power of ten plus up to 19 more digits |
| `BigIntegers.ParseUint64` | rapidjson/internal/biginteger.h:239-246 | 19 digits never exceed 64 bits |
| `BigIntegers.BigInteger.Copy` | rapidjson/internal/biginteger.h:32-34 | the same number |
| `BigIntegers.BigInteger.AddWord` | rapidjson/internal/biginteger.h:70-85 | exact, with a new word for a last carry |
| `BigIntegers.BigInteger.MulWord` | rapidjson/internal/biginteger.h:87-103 | exact for every 64-bit factor |
| `BigIntegers.BigInteger.MulHalfWord` | rapidjson/internal/biginteger.h:105-126 | exact for every 32-bit factor |
| `BigIntegers.BigInteger.MultiplyPow5` | rapidjson/internal/biginteger.h:162-182 | exact for every exponent that fits the capacity |
| `BigIntegers.BigInteger.ShiftLeft` | rapidjson/internal/biginteger.h:128-152 | exact unless a number of several words is shifted by whole words; then the words left are stated, and the result is exact if and only if the words in the buffer happen to repeat |
| `BigIntegers.WholeWordShiftExample` | rapidjson/internal/biginteger.h:135-138 | 2^64 + 5 shifted by 64 bits by ShiftLeft is not (2^64 + 5) * 2^64 |
| `BigIntegers.BigInteger.Difference` | rapidjson/internal/biginteger.h:186-206 | says which operand is smaller; its assertion fails exactly for equal numbers; the result is the difference plus what the lost borrows stand for, and exact if and only if no borrow is lost |
| `BigIntegers.LostBorrowMeans` | rapidjson/internal/biginteger.h:196-199 | a borrow is lost exactly if the subtrahend has a word 2^64-1 above words that denote more than those of the minuend |
| `BigIntegers.LostBorrowExample` | rapidjson/internal/biginteger.h:196-199 | a call of Difference on 2^128 and 2^128 - 2^64 + 1 gives 2^128 + 2^64 - 1 |
| `BigIntegers.BigInteger.Compare` | rapidjson/internal/biginteger.h:208-217 | the numeric order of normalised numbers |
| `HalfUlp.Adjust` | rapidjson/internal/strtod.h:57-94 | the six exponents end as the least common scaling: all non-negative and one of them zero |
| `HalfUlp.ScalingKeepsSign` | rapidjson/internal/strtod.h:54-109 | comparing the scaled integers is comparing the real numbers, for every significand and every exponent |
| `HalfUlp.CheckWithinHalfULP` | rapidjson/internal/strtod.h:54-109 | on multiword integers in place: what is computed, wrong shifts and lost borrows included; it is the sign of the distance between d * 10^dExp and the double, less half its unit in the last place (and the failing assertion for equal numbers), if and only if RightSign, for which exact arithmetic is enough |
| `HalfUlp.ExactOutcome` | rapidjson/internal/strtod.h:54-109 | if no several words are shifted by whole words and no borrow is lost, the computed outcome is the true one |
| `HalfUlp.RightSignIff` | rapidjson/internal/strtod.h:96-108 | the computed outcome is the true one if and only if: with exact shifts, the lost borrows do not carry the distance over half a unit; with half a unit misplaced, the distance does not lie between the misplaced and the true half unit; with the number or the double misplaced, its distance is on the same side of half a unit as the true one |
| `HalfUlp.OneShiftWrong` | rapidjson/internal/strtod.h:90-103 | of the three shifts at most one can go wrong |
| `HalfUlp.RoundingIff` | rapidjson/internal/strtod.h:206-224 | for every finite double and every decimal number between it and the next one, whatever the shifts and borrows do: the result is the nearest double, ties to even, if and only if RightRounding, a condition on the scaled integers in the same three cases and, for zero, that the number is above half the smallest double |
| `HalfUlp.NearestIffIntended` | rapidjson/internal/strtod.h:212-223 | of two neighbouring doubles exactly the intended choice is the nearest with ties to even |
| `HalfUlp.ZeroOutcome` | rapidjson/internal/strtod.h:54-109 | next to zero the sign is always that of more than half a unit, even with a wrong shift or a lost borrow |
| `HalfUlp.WrongSide` | rapidjson/internal/strtod.h:54-109 | a decimal number of sixty digits less than half a unit from 2^82, for which the computed sign is that of more than half a unit |
| `HalfUlp.Misrounded` | rapidjson/internal/strtod.h:206-224 | the outcome for that number selects the double above 2^82 although 2^82 is the nearest |
| `HalfUlp.MisroundedExample` | rapidjson/internal/strtod.h:206-224 | a call on a text of sixty digits, with the approximation 2^82, returns the double above 2^82, which is not the nearest |
| `HalfUlp.UsualExponentsFit` | rapidjson/internal/strtod.h:54-109 | decimal exponents from -2500 to 2500 and up to 60 words of digits stay within the capacity, for every finite double |
| `HalfUlp.ReadRightUnlessZero` | rapidjson/internal/ieee754.h:47-48 | the pattern is read as the double it stands for, except that of zero |
| `HalfUlp.UnitInLastPlace` | rapidjson/internal/ieee754.h:47-48 | the unit used is the distance to the next double, across powers of two and the subnormal limit |
| `HalfUlp.ComputedAsIntended` | rapidjson/internal/strtod.h:54-109 | the sign is the intended one for every finite double but zero; for zero exactly far from it |
| `HalfUlp.PatternsOrdered` | rapidjson/internal/ieee754.h:32-35 | the next pattern is the next larger double, through all finite doubles |
| `HalfUlp.StrtodBigInteger` | rapidjson/internal/strtod.h:206-224 | the computed outcome decides between the approximation and the next double; given the double next below the decimal number, the result is the nearest double, ties to even, if and only if RightRounding; with exact arithmetic for every approximation but zero, and for zero if and only if the number is above half the smallest double; an exact approximation makes an assertion fail |
| `Jsmn.Parser.Parse` | parsers/jsmn.c:151-303 | a call on an array of any size returns and leaves tokens, position and superior token exactly as the run on values, also on every error and when resumed; the count it keeps is the number of tokens; what the run accepts is said in `JsmnRuns` and `JsmnTree` |
| `Jsmn.Parser.Count` | parsers/jsmn.c:151-303 | a call without an array returns the count or the error of the counting run |
| `Jsmn.Parser.ParseString` | parsers/jsmn.c:84-146 | finds the closing quote or reports Inval or Part; a full array leaves everything as it was |
| `Jsmn.Parser.ParsePrimitive` | parsers/jsmn.c:35-79 | finds the end of a word; a full array leaves everything as it was |
| `Jsmn.Parser.AllocToken` | parsers/jsmn.c:6-19 | the next free token, reset, and nothing else changed |
| `Jsmn.Parser.CloseBracket` | parsers/jsmn.c:182-230 | closes the last open container if its type matches and makes the one around it the superior token; otherwise Inval and no change |
| `Jsmn.Parser.OpenBracket` | parsers/jsmn.c:164-181 | a new open container, counted by the superior token |
| `Jsmn.Parser.Comma` | parsers/jsmn.c:243-260 | a key or word is replaced as the superior token by the innermost open container |
| `JsmnRuns.MoreTokens` | parsers/jsmn.c:151-181 | a larger array changes a run only where the smaller one was full, and then continues it |
| `JsmnRuns.ResumeIsOneCall` | parsers/jsmn.c:151-303 | resuming after out-of-tokens errors with growing arrays, any number of times, ends as one call with the last array |
| `JsmnRuns.ExactlyEnough` | parsers/jsmn.c:6-19 | if a call succeeds with r tokens, exactly the arrays of at least r tokens suffice; smaller ones end with NoMem |
| `JsmnRuns.CountAgrees` | parsers/jsmn.c:63-66 | whenever a call succeeds with r tokens counting returns r |
| `JsmnRuns.AcceptsIffBalanced` | parsers/jsmn.c:182-230 | with room enough a run is accepted, ends with Inval or ends with Part exactly as a plain recogniser says that has a stack of bracket types and the character classes of RFC 8259 |
| `JsmnRuns.SpansNested` | parsers/jsmn.c:151-303 | on every text, whatever the outcome, tokens cover text of their kind and any two are disjoint or nested in a container; after success none is open |
| `JsmnRuns.AcceptedText` | parsers/jsmn.c:151-303 | the same for the caller of one call on a fresh parser, with bracket balance and token count |
| `JsmnTree.TreeTokens` | parsers/jsmn.c:151-303 | for every JSON tree, with any white space of section 2 of RFC 8259 between its tokens, any words of printable ASCII and any strings with the escapes of section 7, the tokens are the tree in preorder with exact spans; sizes are members, elements, 1 for a key and 0 for other scalars |
| `JsmnTree.RunValue` | parsers/jsmn.c:158-291 | the same for a value anywhere in a text, on any token array: its superior token gets one child |
| `JsmnLexis.StringEndIff` | parsers/jsmn.c:84-146 | the string scanner ends at a place if and only if a complete body, by section 7 of RFC 8259, stands up to a quote there |
| `JsmnLexis.StringErrors` | parsers/jsmn.c:84-146 | Inval exactly if a bad escape stands behind a complete body, Part exactly if neither that nor a closing quote follows |
| `JsmnLexis.PrimitiveEndIff` | parsers/jsmn.c:35-79 | the word scanner ends at a place if and only if printable ASCII without delimiters stands up to it and a delimiter or the end follows |
| `JsonPointer.Get` | rapidjson/pointer.h:479-507 | the value at the path or the number of the first token that does not lead on |
| `JsonPointer.FindIsWalk` | rapidjson/pointer.h:479-507 | Get finds a value if and only if the tokens lead to it one after the other: first member of that name, or element of that index |
| `JsonPointer.UnresolvedIsFirst` | rapidjson/pointer.h:501-504 | the unresolved token is the first below whose value nothing is referenced |
| `JsonPointer.PutGet` | rapidjson/pointer.h:610-612 | Get after Set finds the value if and only if no `-` token met an array on the way |
| `JsonPointer.PutPut` | rapidjson/pointer.h:610-612 | a second Set overrides the first |
| `JsonPointer.SetContainer` | rapidjson/pointer.h:401-447 | where the path up to the last token exists, Set leaves its container with exactly this change: replaced or appended member, replaced element, array filled up with nulls, or a new container in place of another value |
| `JsonPointer.ExistedIffFound` | rapidjson/pointer.h:401-447 | Create reports an existing value if and only if Get finds one; then Create and setting the current value change nothing |
| `JsonPointer.CreatedIsNull` | rapidjson/pointer.h:401-447 | otherwise Create makes a null that Get finds |
| `JsonPointer.SetKeepsOthers` | rapidjson/pointer.h:401-447 | values that lie off the path are found as before, unless a container on the path changes its type |
| `JsonPointer.EraseIsSet` | rapidjson/pointer.h:711-749 | Erase succeeds exactly on what Get finds below the root, and then puts into the container of that value the same container without it |
| `JsonPointer.EraseEffect` | rapidjson/pointer.h:711-749 | after a successful Erase, as Get sees it: the container has one child fewer; in an array the elements before the erased one stay and the later ones move down by one, in an object exactly the first member of that name is gone; every path apart from the container is as before |
| `JsonPointer.OtherNamesStay` | rapidjson/pointer.h:735-741 | in that object every other name is found, or not found, as before |
| `PointerText.Parse` | rapidjson/pointer.h:802-932 | tokens, error code and offset; all names with their null characters fit a buffer as long as the text and none overwrites another |
| `PointerText.ValidateInto` | rapidjson/pointer.h:844-860 | the one to four bytes of a percent sequence are written before it is known whether they are a character; they stay inside the buffer on every input, and are a character exactly if the specification says so |
| `PointerText.Stringify` | rapidjson/pointer.h:941-976 | writes the pointer; the URI fragment form exists if and only if the names are well-formed UTF-8 |
| `PointerText.ParsedReadsBack` | rapidjson/pointer.h:802-976 | parsing the string form of a parsed pointer gives equal tokens, and so does the URI fragment form when it exists |
| `PointerText.PointerReadsBack` | rapidjson/pointer.h:802-976 | the same for any tokens whose indices are those of their names |
| `PointerText.CountedTokens` | rapidjson/pointer.h:812-817 | the number of solidi counted beforehand is the number of tokens |
| `PointerText.NumbersAreDecimals` | rapidjson/pointer.h:888-902 | a name has an index candidate if and only if it is the decimal form of some number |
| `PointerText.UnreservedStay` | rapidjson/pointer.h:790-792 | the characters that are not percent-encoded are the unreserved ones of section 2.3 of RFC 3986 |
| `PointerErrors.PointerExplained` | rapidjson/pointer.h:802-932 | a text is refused only for what its characters show at the offset told: no solidus at the beginning, a tilde without its digit, in a fragment a percent sign that codes no character or a character that must be coded; what is accepted shows none of these anywhere |
| `PointerText.EscapesOfStringForm` | rapidjson/pointer.h:872-886 | `~1` is a solidus and `~0` a tilde, between any two characters |
| `PointerText.ParsedIsWritten` | rapidjson/pointer.h:941-976 | writing a parsed string form gives the text that was parsed |
| `PointerText.IndexExact` | rapidjson/pointer.h:904-917 | the index of a number is its value if and only if that fits 32 bits |
| `PointerText.CaughtOverflow` | rapidjson/pointer.h:908-912 | a number is rejected if and only if some digit makes the 32-bit value smaller or the value wraps to the invalid index; otherwise the index is the value modulo 2^32 |
| `PointerText.MissedOverflow` | rapidjson/pointer.h:908-912 | the name 5000000000 gets the index 705032704: the wrapped value is not smaller than the one before |
| `PointerText.PercentReadsBack` | rapidjson/pointer.h:980-1037 | percent-encoded bytes are decoded to themselves |
| `Allocator.MemoryPoolAllocator.Malloc` | rapidjson/allocators.h:176-188 | a new aligned-size block disjoint from all blocks handed out since the last Clear: at the top of the head chunk exactly if that has room, otherwise at the beginning of a new chunk of the chunk capacity or of the size if that is larger; null exactly for size 0 or when a chunk is needed and cannot be had, and then nothing changes |
| `Allocator.MemoryPoolAllocator.Realloc` | rapidjson/allocators.h:191-222 | null exactly for size 0 or when the block cannot stay and no chunk can be had; the same pointer exactly if the block shrinks or is the last one and has room; the resulting block is large enough and begins with the old contents, and no other block moves or changes a byte |
| `Allocator.MemoryPoolAllocator.AlignedIff` | rapidjson/allocators.h:185-187 | a block is aligned if and only if it is not in a user buffer that is not |
| `Allocator.MemoryPoolAllocator.Grow` | rapidjson/allocators.h:205-212 | the in-place shortcut enlarges the last block and changes nothing else |
| `Allocator.MemoryPoolAllocator.Clear` | rapidjson/allocators.h:145-153 | no block and no chunk is left but the user's buffer, which is empty |
| `Allocator.LastBlockTest` | rapidjson/allocators.h:205-212 | the pointer test succeeds exactly for the block that ends at the top of the head chunk, given with its whole size, wherever the chunks lie |
| `Allocator.CarveKeeps` | rapidjson/allocators.h:185-187 | a block cut off the head chunk overlaps none of the others |
| `Allocator.GrowKeeps` | rapidjson/allocators.h:205-212 | growing the last block in place overlaps none of the others |
| `Allocator.AddChunkKeeps` | rapidjson/allocators.h:237-249 | a new head chunk leaves all blocks inside their own chunks |
| `AuditCodec.EncodeRecord` | benchmarks/audit_codec.hpp:184-217 | puts exactly full_record_size bytes behind the buffer: heading, fixed part and blobs |
| `AuditCodec.RecordReadsBack` | benchmarks/audit_codec.hpp:222-280 | a record anywhere in a buffer: the size in its heading locates the blobs, and decoding its fields in order returns them all if and only if none is a bool; with a bool the decoder aborts |
| `AuditCodec.FieldsReadBack` | benchmarks/audit_codec.hpp:249-280 | the same for any tail of the fields, given the blobs at the running offset |
| `AuditCodec.FieldReadsBack` | benchmarks/audit_codec.hpp:221-280 | a field is decoded to itself, a string through its offset and stored length; a bool stops the decoder |
| `AuditCodec.StoredOffset` | benchmarks/audit_codec.hpp:147-154 | the offset stored for a string field is the total size of the blobs before it |
| `AuditCodec.RecordExample` | benchmarks/audit_codec.hpp:184-217 | the bytes of a record of a number and two strings as they lie in memory |
| `AuditCodec.CodeBytes` | benchmarks/audit_codec.hpp:57-64 | the codes of the eleven types, and 32-bit numbers with their lowest byte first |

## Left out

- Floating-point evaluation: a number that is not an integer event is delivered as its text, and
  the two tests that reject a number as too big are parameters of the model.
- `StrtodFast`, `StrtodDiyFp` and the table of cached powers: IEEE 754 error analysis.
- HalfUlp.CheckWithinHalfULP: requires that the scaled numbers fit the capacity, by a bound that is
  generous for doubles (`UsualExponentsFit`); says nothing about a shift of several words by two or
  more whole words, whose result depends on words never written.
- HalfUlp.StrtodBigInteger: inherits that, and says nothing about rounding from an approximation
  that is not next below the number.
- Jsmn.Parser.Parse: offsets are unbounded; texts of 2^31 characters or more, which would wrap the
  32-bit fields, are not modelled. Nor are strict mode and parent links.
- JSON Pointer trees are values: update in place, references into the tree and the allocator are
  not captured.
- 32-bit member, element and string counts are unbounded in the model.
- SIMD scanning, encoding validation while reading, NaN and Inf, numbers as strings, raw values,
  `IterativeParseNext`, other encodings than UTF-8 and ASCII.
- Stack capacity and allocation failure; storage flags of strings in the document.
- Allocator: wrap-around of sizes near 2^64 and chunk headers in memory; where the base allocator
  puts a chunk is a parameter.
- AuditCodec: numbers are their bytes in memory, and the output is a text that grows instead of a
  pointer into the log.
- File mapping, file creation and lifetime of segments in the audit buffer, memory orders weaker
  than sequential consistency, and wrap-around of the 64-bit offset.
- `rapidjson/schema.h`, `CRUD/`, `examples/`, file and iostream wrappers.

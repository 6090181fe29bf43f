# protowire: verified models

This project models nine parts of the protowire Rust port and proves what they
promise. Each part has a specification (functions over plain values), the code's
own loops and state changes as methods proved equal to it, and theorems about the
specification. For each reader, writer and rewrite one of these says exactly what it
does on every input, in a description of its own:
the texts it takes and what each denotes, the bytes it writes position by position,
or the form its result has.

1. **BigFloat** (`protowire-pxf/src/bigfloat.rs`). A little-endian 32-bit limb
   integer; a binary float rounded to nearest, ties to even (IEEE 754-2008 section
   4.3.1); a power of five whose intermediate products are rounded; the decimal
   literal reader and the `%g` printer. The main theorem is the print/read round
   trip, for every mantissa, exponent, precision and sign, although the reader's
   power of five is itself rounded. Every other literal is read as the number it is
   spelled as, to within a stated error.
   Files: `Powers`, `Limbs`, `LimbFacts`, `LimbOps`, `BigUint`, `Decimals`,
   `BigUintText`, `Reals`, `Floats`, `PowerOfFive`, `PowerOfFiveBound`,
   `PowTwoDigits`, `DigitCounts`, `ReadBack`, `DecimalRounding`, `Literals`,
   `LiteralText`, `BigFloats`, `RoundTrip`, `LeadingZeros`, `FloatCode`,
   `DigitBuffer`, `BigFloatCode`, `LiteralSpelling`, `LiteralReading`.
2. **The PB wire codec** (`protowire-pb/src/wire.rs`, `codec.rs`) with the message
   types of the envelope and of the recursive `Tree`. The writer and the reader
   agree on which values are too deep, undo each other in every order of fields and
   map entries, and unknown records mean nothing. The types' own encoders, with their
   field order and zero fields left out, return every envelope and every tree.
   Files: `Bytes`, `Wire`, `Codec`, `CodecProof`, `CodecTheorems`, `CodecValues`,
   `CodecListings`, `Envelopes`, `Trees`, `WireCode`, `MessageReader`,
   `MessageWriter`, `EnvelopeCode`, `TreeCode`, `WireForms`, `WireRecords`.
3. **Keyed lists** (`protowire-pxf/src/keyed.rs`, the decode rules of `decode.rs`).
   What a document means is said field by field, and the decoder finds exactly that.
   The canonicalizer keeps it, is idempotent, and its result is the one document in
   keyed form that respells the original.
   Files: `Options`, `PxfDocument`, `PxfDecoder`, `Keyed`, `KeyedSteps`,
   `KeyedMeaning`, `KeyedTheorems`, `KeyedCode`, `KeyedNormal`, `PxfMeaning`,
   `DecodedMeaning`.
4. **The post-decode pass** (`protowire-pxf/src/post_decode_plan.rs`, `decode.rs`).
   The search over recursive message types decides exactly which bodies matter, and
   skipping the others changes neither the message nor the failure. The pass sets
   exactly the defaults of absent fields and fails at the first offence.
   Files: `PostDecode`, `PostDecodePass`, `PostDecodeCode`, `PostDecodeEffect`.
5. **Dataset columns** (`protowire-pxf/src/dataset_paths.rs`,
   `dataset_reader.rs`). The linear-time trie is the pairwise overlap rule; a row's
   body holds each cell once at its path; its text parses as that body, and an error
   anywhere in the text names the column it was written for.
   Files: `ColumnPaths`, `RowBody`, `RowText`, `RowSpans`, `RowOrder`, `RowWriterCode`.
6. **The streaming dataset reader** (`protowire-pxf/src/dataset_reader.rs`). An answer
   found on a prefix stands on every extension, so the rows do not depend on how the
   bytes arrive; and what is found is a row, and every row is found.
   Files: `RowScanner`, `RowPieces`, `RowGrammar`, `RowStream`, `RowReaderCode`.
7. **SBE** (`protowire-sbe/src/template.rs`, `marshal.rs`, `unmarshal.rs`, `view.rs`,
   `codec.rs`). Layouts tile their blocks; unmarshal undoes marshal under an exact
   condition, set and unset fields told apart or not; on every buffer unmarshal takes
   the view opens, and it shows the decoded message exactly when every scalar's bytes
   are ones the two readers take alike, as without encoding annotations and oneofs
   they always are.
   Files: `SbeLayout`, `SbeValues`, `SbeCodec`, `SbeRoundTrip`, `SbePresence`,
   `SbeBuild`, `SbeWire`, `SbeBuffers`, `SbeView`, `SbeShown`, `SbeCode`,
   `SbeReaderCode`, `SbeFindings`.
8. **The lexer, parser and formatter** (`protowire-pxf/src/lexer.rs`, `parser.rs`,
   `format.rs`). Every text that parses is formatted to a text that parses as the same
   document, character by character, and formatting twice is formatting once. The
   tokens of every text are its lexemes, and the parser takes exactly the tokens that
   spell a document.
   Files: `Lexing`, `LexFacts`, `Base64`, `Utf8`, `StringSpelling`, `TokenSpelling`,
   `NumberSpelling`, `TimeTokens`, `LexedText`, `Syntax`, `SyntaxText`,
   `SyntaxTheorems`, `SyntaxLimits`, `ParserSpelling`, `TextForms`, `Indentation`,
   `FormatterCode`, `LexerCode`, `ParserCode`.
9. **Literals** (`protowire-pxf/src/bignum.rs`, `decode.rs`, `encode.rs`). Integers,
   decimals, durations and timestamps: what is printed reads back, exactly when, and
   what every literal denotes.
   Files: `Bignums`, `BignumSpelling`, `BignumCode`, `Calendar`, `Durations`,
   `DurationSpelling`, `Timestamps`, `TimestampSpelling`, `TimeCode`.

## Findings

- A literal that `format_big_float` prints can be refused by `parse_big_float`. It
  happens in two ways, and only in these: the leading zeros of the `%f` form push
  its digits past the digit limit, or a mantissa wider than its precision rounds up
  past the exponent bound, which is checked before rounding when printing and after
  rounding when reading. `RoundTrip.DefaultReadsBack` says exactly when.
  `LeadingZeros.LeadingZerosRefused` is a message of precision 13601 whose literal
  has 4097 digits, and `RoundTrip.CarryPastTheBound` the one with mantissa 3,
  exponent 16382 and precision 1. The doc comment of the exponent limit says such a
  literal reads back.
- `canonicalize_keyed` changes the meaning of a document when a keyed field holds
  `google.protobuf.Any` messages and an element's payload reads an assignment to a
  field named like the key: the payload's field is taken for the element's key and
  dropped (`KeyedTheorems.KeyedAnyLosesPayload`). Under every other configuration it
  keeps the meaning, and under no such one (`KeyedTheorems.MeaningKeptExactly`).
- `format` can turn a document the parser accepts into a text it refuses, in two ways
  and no other (`SyntaxTheorems.RoundTrip`). The text grows past the size limit: `a=[1 1]`
  has 7 bytes and its formatted text 17 (`SyntaxLimits.GrowthRefused`). Or a bytes
  literal is padded: the lexer judges it by its whole groups of four characters, so n
  bytes are refused when written without padding and n/3*3 is past the limit, but once
  padded when the next multiple of three is (`Base64.UnpaddedAgain`,
  `Base64.BytesAgain`, `SyntaxLimits.PaddingRefused`; `a=b"YQ"` under a limit of one or
  two bytes, `SyntaxLimits.OneByteRefused`). Where the limit on literals is no lower
  than the one on the text, as by default, only the first can happen
  (`SyntaxLimits.SizeDecides`).
- A chunk that ends between rows in a lone `/` or `b` makes the streaming reader
  refuse a stream that it accepts in other chunks (`RowStream.CommentCutInTwo`); no
  other refusal between rows does (`RowScanner.RefusalStableExactly`).
- Between rows the streaming reader passes over literals as it does over comments:
  `"x" (1)` holds a row (`RowGrammar.LiteralBetweenRows`), where any other entry is
  refused (`RowGrammar.NoRowExactly`).
- A known field of the envelope or of a tree is read by its number alone, whatever wire
  type its tag gives (`WireForms.WireTypeIgnored`).
- SBE's layout accepts kinds with encodings they cannot be read from: a block that has
  one is never read (`SbeRoundTrip.OnlyReadable`), so unmarshal panics or refuses
  whenever it is the root block or that of a group with entries. A bool encoded as a
  float makes every buffer unreadable (`SbeFindings.UnreadableLayout`).
- SBE's layout accepts composites without fields, on which marshal panics
  (`SbeCode.Marshal`, `SbeFindings.EmptyComposite`), and oneofs inside group entries, of
  whose members only the last by number comes back (`SbeFindings.OneofLost`).
- An SBE template id, block length or group count past 16 bits is written modulo 65536,
  and the message never comes back (`SbeRoundTrip.MessageReadsBack`;
  `SbeFindings.WideIdRefused` at template id 65536).
- SBE has no place for an unset field: a composite, or any other field that can be
  unset, comes back set (`SbePresence.EqualReturns`, `SbeFindings.UnsetComposite`).
- SBE's two readers can differ on a buffer both accept (`SbeShown.ViewShowsExactly`):
  - In a group entry the decoder keeps only the last member of a oneof, and the view
    gives every member's bytes (`SbeView.ScalarAgrees`, `SbeView.CompositeAgrees`). On
    the bytes of a message whose entry chose `x` the view gives its value 1, and the
    decoded message has `y` instead (`SbeFindings.OneofSeen`).
  - The view reads a bool from one byte, and so differs exactly on a wider encoding,
    signed or not, whose low byte is zero and whose value is not
    (`SbeFindings.WideBoolDisagrees`).
  - The view refuses an enum whose encoding is signed or wider than two bytes, and a
    float or double with an integer encoding, all of which the decoder reads.
  - The decoder wraps an integer that its kind does not hold, and the view does not.
  Every encoding that is not faithful in this sense has such a value
  (`SbeShown.FaithfulExactly`), and with faithful ones, as without annotations they are
  (`SbeShown.DefaultFaithful`), and no oneofs in groups the readers agree on every
  buffer (`SbeShown.FaithfulShows`).
- A decimal printed at scale 4096 is refused by the reader: the printer does not count
  leading zeros, the reader does (`Bignums.LargestScaleRefused`;
  `Bignums.OneAtLargestScale` is one at that scale).
- The empty column name passes the empty-segment check although its one segment is
  empty (`ColumnPaths.EmptyNamePasses`; `ColumnPaths.EmptySegmentIs` holds for all
  other names).

## Model

| member | source | states |
|---|---|---|
| BigUints.BigUint.MulSmallAdd | crates/protowire-pxf/src/bigfloat.rs:141-151 | multiplying by any word and adding one is exact and no limb product leaves 64 bits; a positive word leaves no leading zero limb |
| BigUints.BigUint.AddOne | crates/protowire-pxf/src/bigfloat.rs:153-162 | the carry runs to the right limb: the value grows by one |
| BigUints.BigUint.SubAssign | crates/protowire-pxf/src/bigfloat.rs:252-266 | borrow by borrow, the value falls by exactly the other, and leading zeros go |
| BigUints.BigUint.Shl | crates/protowire-pxf/src/bigfloat.rs:164-186 | the value times 2^n for every n |
| BigUints.BigUint.Shr | crates/protowire-pxf/src/bigfloat.rs:188-212 | the value divided by 2^n, rounded down |
| BigUints.BigUint.Mul | crates/protowire-pxf/src/bigfloat.rs:214-237 | schoolbook multiplication is exact and never indexes past the result buffer |
| BigUints.BigUint.Compare | crates/protowire-pxf/src/bigfloat.rs:239-249 | the order of the limbs is the order of the values |
| BigUints.BigUint.SetBit | crates/protowire-pxf/src/bigfloat.rs:268-274 | setting a bit adds its power of two when it was not set, and changes nothing when it was |
| BigUints.BigUint.DivRem | crates/protowire-pxf/src/bigfloat.rs:278-296 | shift-subtract gives the quotient and the remainder |
| BigUints.DivLoop | crates/protowire-pxf/src/bigfloat.rs:286-293 | the long-division loop keeps q * den + rem and ends with rem below den |
| BigUints.BigUint.Bit | crates/protowire-pxf/src/bigfloat.rs:123-126 | the bit of the value at a position, past the top too |
| BigUints.BigUint.AnyBitBelow | crates/protowire-pxf/src/bigfloat.rs:129-135 | true exactly when the value modulo 2^i is not zero |
| BigUints.BigUint.BitLength | crates/protowire-pxf/src/bigfloat.rs:116-121 | the limb count and the top limb give the bit length of the value |
| BigUintText.FromDecimalDigits | crates/protowire-pxf/src/bigfloat.rs:91-104 | nine digits at a time, the value of the digit string |
| BigUintText.ToDecimalString | crates/protowire-pxf/src/bigfloat.rs:324-351 | repeated division by 10^9 prints the value's canonical decimal digits |
| BigUintText.FromBeBytes | crates/protowire-pxf/src/bigfloat.rs:69-88 | the value of big-endian bytes |
| BigUintText.ToBeBytes | crates/protowire-pxf/src/bigfloat.rs:315-322 | big-endian bytes of the value with no leading zero |
| BigUintText.Pow5Exact | crates/protowire-pxf/src/bigfloat.rs:299-313 | square-and-multiply gives exactly 5^k |
| Floats.RoundIntoNearest | crates/protowire-pxf/src/bigfloat.rs:380-419 | rounding gives the nearest float of the precision, ties to even, top bit set, within 2^-prec of the value, or infinity past the top exponent |
| Floats.FiniteInRange | crates/protowire-pxf/src/bigfloat.rs:381-389 | the result is finite exactly within the exponent range, but for the carry out of the top exponent |
| Floats.MulNearest | crates/protowire-pxf/src/bigfloat.rs:428-452 | the product is correctly rounded |
| Floats.QuoBits | crates/protowire-pxf/src/bigfloat.rs:475-483 | the integer quotient always has prec + 2 bits, so the sticky remainder never loses a rounding decision |
| Floats.QuoNearest | crates/protowire-pxf/src/bigfloat.rs:456-491 | the quotient is correctly rounded |
| FloatCode.RoundInto | crates/protowire-pxf/src/bigfloat.rs:380-419 | rounding on limbs is the rounding on naturals |
| FloatCode.Mul | crates/protowire-pxf/src/bigfloat.rs:428-452 | multiplication on limbs is the one on naturals, zeros and infinities included |
| FloatCode.Quo | crates/protowire-pxf/src/bigfloat.rs:456-491 | division on limbs is the one on naturals, zeros and infinities included |
| FloatCode.Pow5 | crates/protowire-pxf/src/bigfloat.rs:497-513 | the square-and-multiply loop on limbs is the one on naturals |
| PowerOfFive.Pow5Exact | crates/protowire-pxf/src/bigfloat.rs:498-501 | up to 5^27 the power is exact when 63 bits are kept |
| PowerOfFive.Pow5Encloses | crates/protowire-pxf/src/bigfloat.rs:497-513 | past the table a finite power lies within one factor 1 +- 2^-prec for each set bit and one factor 1 +- 2^-(prec+64) for each unit of n, with one more of the first kind when 5^27 itself does not fit |
| PowerOfFive.Pow5Finite | crates/protowire-pxf/src/bigfloat.rs:503-512 | no intermediate product overflows while 4n is below the top exponent |
| PowerOfFiveBound.Pow5Close | crates/protowire-pxf/src/bigfloat.rs:497-513 | for every exponent below 2^20 the power is finite and within 64 units of roundoff |
| PowTwoDigits.Pow2DigitsCeiling | crates/protowire-pxf/src/bigfloat.rs:541-544 | the two fixed-point floors are one: the digit count is the first integer past p times the stored logarithm |
| DigitCounts.DigitsExact | crates/protowire-pxf/src/bigfloat.rs:533-544 | for every 32-bit p the fixed-point count is exactly the number of decimal digits of 2^p: 10^(d-1) <= 2^p < 10^d |
| DigitCounts.FewestDigits | crates/protowire-pxf/src/bigfloat.rs:546-551 | the digits a literal is written with are the fewest n with 10^(n-1) above 2^p, for every 32-bit p |
| DecimalRounding.SignificantReadable | crates/protowire-pxf/src/bigfloat.rs:546-551 | one digit more than 2^prec has is enough: the rounded expansion stays within half a gap of the float, with room to spare |
| DecimalRounding.ExpansionValue | crates/protowire-pxf/src/bigfloat.rs:805-820 | the integer printed, scaled down by its places, is exactly mant * 2^e |
| DigitBuffer.RoundDigits | crates/protowire-pxf/src/bigfloat.rs:821-849 | rounding in the digit buffer, half to even with carries through nines, is rounding the number |
| DigitBuffer.CarryUp | crates/protowire-pxf/src/bigfloat.rs:832-844 | adding one moves left over nines, and pushes a one and moves the point when there is nothing but nines |
| Literals.ExponentFormChosen | crates/protowire-pxf/src/bigfloat.rs:852-857 | the exponent form is chosen exactly when the decimal exponent is below -4 or at least the digit count |
| LiteralText.GeneralSplit | crates/protowire-pxf/src/bigfloat.rs:632-660 | reading either printed form gives the printed parts back, or is refused exactly for its digits |
| LiteralText.PrintedValue | crates/protowire-pxf/src/bigfloat.rs:870-921 | either printed form denotes exactly the digits with the point where it stands |
| RoundTrip.PrintedRounds | crates/protowire-pxf/src/bigfloat.rs:803-849 | the literal denotes the exact expansion of mant * 2^e rounded half-even to N significant digits |
| ReadBack.Gap | crates/protowire-pxf/src/bigfloat.rs:357-372 | two different floats of a precision are at least 2^-prec of either apart |
| ReadBack.DecimalBack | crates/protowire-pxf/src/bigfloat.rs:690-720 | a decimal within the half gap converts to exactly that float, although the power of five is rounded |
| RoundTrip.LiteralReadsBack | crates/protowire-pxf/src/bigfloat.rs:596-745 | under any limits the literal of any message is refused exactly for its precision's digits, its own digits or its exponent, and otherwise gives the rounded message |
| RoundTrip.DefaultReadsBack | crates/protowire-pxf/src/bigfloat.rs:566-584 | through the suffixed string, under the constant limits: the exact outcome for every finite message |
| RoundTrip.FullMantissaReadsBack | crates/protowire-pxf/src/bigfloat.rs:746-859 | a message in normal form reads back unchanged exactly when its text is within the digit limit, and always when its precision renders to four digits fewer |
| RoundTrip.ZeroReadsBack | crates/protowire-pxf/src/bigfloat.rs:764-795 | zeros read back with their sign and precision |
| RoundTrip.CarryPastTheBound | crates/protowire-pxf/src/bigfloat.rs:767-774 | a wider mantissa at the top exponent is printed and then refused |
| LeadingZeros.LeadingZerosRefused | crates/protowire-pxf/src/bigfloat.rs:757-859 | a message in normal form, within every bound, whose printed literal is refused for the zeros after its point |
| BigFloatCode.ParseBigFloat | crates/protowire-pxf/src/bigfloat.rs:596-745 | the reader on limbs and characters is its specification, every refusal included |
| BigFloatCode.FormatBigFloat | crates/protowire-pxf/src/bigfloat.rs:757-859 | the printer on limbs and digit buffers is its specification, every refusal included |
| BigFloatCode.ValueBits | crates/protowire-pxf/src/bigfloat.rs:556-561 | the bit length read off the bytes is the value's, leading zero bytes or not |
| LiteralSpelling.SplitSpelled | crates/protowire-pxf/src/bigfloat.rs:632-675 | any sign, digits around an optional point, and exponent text of digits alone, with a plus or with a minus, after e or E, are taken apart as that sign, those digits, their places and that power, or refused exactly for too many digits or too large a power |
| LiteralSpelling.OnlySpelled | crates/protowire-pxf/src/bigfloat.rs:632-675 | no other text is taken apart |
| LiteralReading.ReadsAsSpelled | crates/protowire-pxf/src/bigfloat.rs:596-745 | whatever is accepted has the spelled sign and the precision of its suffix, or the default one without, zero is zero, and any other number is the spelled one to within one unit of roundoff of that precision and a part in 2^40 of that unit |
| LiteralReading.AcceptsInRange | crates/protowire-pxf/src/bigfloat.rs:596-745 | a spelled literal within the limits is accepted when its number is zero or well within the exponents |
| LiteralReading.DefaultSpelled | crates/protowire-pxf/src/bigfloat.rs:566-584 | a schema default is read as the literal with the digits after its p as the suffix |
| PowerOfFiveBound.Pow5CloseFinite | crates/protowire-pxf/src/bigfloat.rs:497-513 | for exponents below 2^40 whenever the rounded power is finite it is within 128 units of roundoff |
| Wire.VarintBack | crates/protowire-pb/src/wire.rs:378-397 | a varint is read back wherever it stands, up to 64 bits |
| Wire.VarintLocal | crates/protowire-pb/src/wire.rs:378-397 | reading a varint looks at no byte past its end |
| WireCode.Writer.WriteVarint | crates/protowire-pb/src/wire.rs:218-224 | the loop appends the varint of the value |
| WireCode.Writer.Nested | crates/protowire-pb/src/wire.rs:160-171 | a writer one descent down, or none with the refusal recorded |
| WireCode.Reader.TakeVarint | crates/protowire-pb/src/wire.rs:378-397 | the loop reads what the specification says, moves past it, and never leaves the buffer |
| WireCode.Reader.SkipValue | crates/protowire-pb/src/wire.rs:492-518 | skipping moves exactly past the value or fails as specified |
| WireForms.VarintExactly | crates/protowire-pb/src/wire.rs:218-224 | the bytes written for a number are the one shortest chain of its seven-bit groups |
| WireForms.ReadExactly | crates/protowire-pb/src/wire.rs:378-397 | a number is read exactly from a chain of at most ten bytes, cut to 64 bits |
| WireForms.TagExactly | crates/protowire-pb/src/wire.rs:284-287 | a tag is the varint of eight times the field number plus the wire type |
| WireForms.SignedExactly | crates/protowire-pb/src/wire.rs:228-235 | a 32-bit number is written as its 64-bit two's complement and read from the low 32 bits |
| WireForms.SkipExactly | crates/protowire-pb/src/wire.rs:492-518 | where each wire type's value ends, and that groups are refused |
| CodecProof.ReadRecords | crates/protowire-pb/src/codec.rs:249-273 | reading a message's bytes anywhere in a buffer is merging its records in order, ending exactly at its end |
| CodecTheorems.DecodesToMeaning | crates/protowire-pb/src/codec.rs:91-105 | any records decode to their meaning exactly when size, nesting and counts are within the limits, and otherwise to the error of the limit |
| CodecTheorems.UnknownFieldsTransparent | crates/protowire-pb/src/wire.rs:491-518 | records of unknown numbers, anywhere and at any depth, change neither the value nor the refusal |
| WireRecords.DecodesExactly | crates/protowire-pb/src/codec.rs:91-105 | bytes decode exactly when they are within the size limit and are records one after another that merge within the limits, and they decode to what the records mean |
| WireForms.LastWins | crates/protowire-pb/src/codec.rs:249-273 | the last record of a singular field replaces what was there, a submessage too |
| WireForms.WireTypeIgnored | crates/protowire-envelope/src/codec.rs:155-165 | a known field is read by its number alone, whatever its wire type |
| CodecValues.MarshalFailsByDepth | crates/protowire-pb/src/codec.rs:76-80 | writing fails exactly when the value needs more descents than the limit, in whatever order its entries come |
| CodecValues.ReaderAgreesWithWriter | crates/protowire-pb/src/codec.rs:65-105 | a reader at a limit refuses exactly the values a writer at that limit refuses, and otherwise returns the value |
| CodecListings.ListingExists | crates/check-decode/src/main.rs:69-115 | every value a program can hold can be written down as records |
| Envelopes.EnvelopeReturns | crates/protowire-envelope/src/codec.rs:136-165 | an envelope, its fields in the code's order and zero ones left out, is written exactly when its depth of at most two is within the limit, whatever order its map is walked in, and is read back as it exactly when size, depth and counts are within the reader's limits |
| Envelopes.AppErrorLists | crates/protowire-envelope/src/codec.rs:87-109 | an application error's records add up to it, none overwriting another |
| Envelopes.AppErrorBack | crates/protowire-envelope/src/codec.rs:111-133 | the fields read off the message are the error's own |
| WireForms.EnvelopeLayout | crates/protowire-envelope/src/codec.rs:26-152 | every envelope is exactly these bytes: its fields by number, zeros left out, map entries whole |
| WireForms.ZeroEntryBytes | crates/protowire-envelope/src/codec.rs:346-357 | an empty map entry is written with both its fields, in the bytes the other ports share |
| MessageReader.ReadMessageAt | crates/protowire-pb/src/codec.rs:249-273 | the recursive reader is its specification, with the depth restored whatever happens |
| MessageReader.MergeFieldAt | crates/check-decode/src/main.rs:85-109 | one field merged, known or skipped, as specified |
| MessageReader.UnmarshalWith | crates/protowire-pb/src/codec.rs:91-105 | decoding terminates on every input with the specified outcome |
| MessageWriter.WriteMessage | crates/protowire-pb/src/codec.rs:110-119 | a submessage is written whole, or not at all with the refusal recorded |
| MessageWriter.WriteMapEntry | crates/protowire-pb/src/codec.rs:216-235 | an entry is one descent, both fields written, refused when its value is too deep |
| EnvelopeCode.MarshalEnvelope | crates/protowire-pb/src/codec.rs:76-80 | the encoders' run on an envelope gives the specified outcome for the order in which they walked its map |
| EnvelopeCode.EncodeAppError | crates/protowire-envelope/src/codec.rs:88-109 | every field tested and written in turn, the details nested and the map walked once, gives the specified records |
| EnvelopeCode.WriteMetadata | crates/protowire-envelope/src/codec.rs:104-108 | the loop over the map writes each of its entries exactly once |
| Trees.TreeReturns | crates/check-decode/src/main.rs:69-115 | a tree of any depth, its fields in the code's order and empty ones left out, is written exactly when it needs no more descents than the limit, whatever order its maps are walked in, and is read back as it exactly when size, depth and counts are within the reader's limits |
| Trees.TreeBack | crates/check-decode/src/main.rs:85-109 | the fields read off the message are the tree's own |
| TreeCode.MarshalTree | crates/protowire-pb/src/codec.rs:76-80 | the encoder's run on a tree gives the specified outcome |
| TreeCode.EncodeTree | crates/check-decode/src/main.rs:70-84 | child, text, branches and tags written in turn, a writer below another for each, give the specified records |
| TreeCode.WriteBranch | crates/protowire-pb/src/codec.rs:194-235 | a branch is an entry one descent down and its tree a second, refused when either is too deep |
| WireForms.TreeLayout | crates/check-decode/src/main.rs:70-84 | every tree is exactly these bytes |
| KeyedTheorems.MeaningKeptExactly | crates/protowire-pxf/src/keyed.rs:211-466 | the rewrite keeps what every document means exactly when no payload of a keyed Any reads an assignment to the key |
| KeyedMeaning.CanonicalMeaning | crates/protowire-pxf/src/keyed.rs:211-466 | then every document that decodes decodes to the same message, with the same fields present and null, after the rewrite |
| KeyedMeaning.ReadAsNamed | crates/protowire-pxf/src/keyed.rs:387-447 | an anonymous element with an explicit key reads as the named entry without it |
| KeyedMeaning.DroppedMeaning | crates/protowire-pxf/src/keyed.rs:353-381 | a named entry's body reads the same without the assignments that repeat its name |
| KeyedMeaning.NamedMeaning | crates/protowire-pxf/src/decode.rs:1031-1122 | a keyed block reads the same with its entries normalized |
| KeyedTheorems.CanonicalTwice | crates/protowire-pxf/src/keyed.rs:211-466 | the rewrite is idempotent |
| KeyedNormal.CanonicalExactly | crates/protowire-pxf/src/keyed.rs:211-466 | the result is the one document that is in keyed form at every level (no list that could be named, no name assigned a body, no quotes a name is safe without, no repeated key) and respells the original: entry by entry, lists that could be named become named blocks, repeated keys go, and everything else stays |
| KeyedNormal.LeftAloneExactly | crates/protowire-pxf/src/keyed.rs:211-466 | a document is left as it is exactly when it is in keyed form |
| KeyedNormal.EligibleExactly | crates/protowire-pxf/src/keyed.rs:387-466 | the lists made into named entries are those whose elements distinct, not empty names tell apart, each assigned once |
| SyntaxText.SafeExactly | crates/protowire-pxf/src/keyed.rs:61-72 | a name may lose its quotes exactly when the lexer reads it as one identifier |
| DecodedMeaning.DecodesExactly | crates/protowire-pxf/src/decode.rs:651-868 | a document decodes to a message exactly when its entries mean it: each may stand and gives its field a value, no two clash over a singular field or a oneof, lists and maps join within the limit, and the message holds exactly these, with the fields mentioned and nulled |
| DecodedMeaning.FieldValueExactly | crates/protowire-pxf/src/decode.rs:896-946 | what an assignment gives a field is what its value means on its own, joined to what the field holds |
| DecodedMeaning.NamedExactly | crates/protowire-pxf/src/decode.rs:1031-1122 | a keyed block goes on the list with one element for each entry, read from its name, names distinct and not empty, within the limit |
| DecodedMeaning.MapExactly | crates/protowire-pxf/src/decode.rs:1124-1253 | a map's entries merge exactly when no key comes again as a value of the key type and the limit holds |
| DecodedMeaning.InsideExactly | crates/protowire-pxf/src/decode.rs:1259-1317 | a block is read within the depth as its message, an Any with a type entry as the body it names |
| KeyedTheorems.KeyedAnyLosesPayload | crates/protowire-pxf/src/keyed.rs:427-444 | otherwise a document whose payload is emptied: both decoded messages, in full |
| KeyedCode.Document.CanonicalizeKeyed | crates/protowire-pxf/src/keyed.rs:211-213 | the in-place rewrite of a document gives the canonical form |
| KeyedCode.DropKeyAssignments | crates/protowire-pxf/src/keyed.rs:353-381 | exactly the repeating key assignments go |
| KeyedCode.ExplicitKeyOf | crates/protowire-pxf/src/keyed.rs:450-466 | the single explicit key, or none |
| PostDecode.HasDefaultOrRequired | crates/protowire-pxf/src/post_decode_plan.rs:83-93 | the search with a shared seen set terminates on recursive types; true means an annotated field is reachable, false that nothing new is left to see |
| PostDecode.PlanVisit | crates/protowire-pxf/src/post_decode_plan.rs:46-56 | visit is true exactly when an annotated field is reachable from the body type without passing a well-known type |
| PostDecodePass.PrunedPass | crates/protowire-pxf/src/decode.rs:1752-1789 | the pruned pass gives the same message or the same first failure as the pass that enters every body |
| PostDecodeCode.SuppliedKept | crates/protowire-pxf/src/decode.rs:1768-1847 | no default overwrites a supplied value or clears a chosen oneof sibling |
| PostDecodeCode.PostDecodeBody | crates/protowire-pxf/src/decode.rs:1752-1789 | the loops, with the plan asked for each field, are the pruned pass |
| PostDecodeEffect.PassExactly | crates/protowire-pxf/src/decode.rs:1752-1847 | the pass succeeds exactly when no body it reaches has an offence, with the one body filled with the defaults of absent fields whose oneof has no member mentioned, a later default clearing an earlier one's, and fails exactly at the first offence in field order |
| PostDecodeEffect.PrunedExactly | crates/protowire-pxf/src/decode.rs:1752-1847 | the same of the pass that skips bodies by the plan |
| PostDecodeEffect.OffencesExactly | crates/protowire-pxf/src/decode.rs:1770-1784 | the offences are exactly the required fields absent and the defaults that do not read at bodies reached along present fields not null |
| PostDecodeEffect.DoneExactly | crates/protowire-pxf/src/decode.rs:1752-1790 | the pass succeeds exactly when no body reached has one |
| PostDecodeEffect.FilledOnce | crates/protowire-pxf/src/decode.rs:1752-1847 | a body is filled in one way only |
| ColumnPaths.EmptySegmentIs | crates/protowire-pxf/src/dataset_paths.rs:33-38 | the three dot checks find exactly the empty segments of a non-empty name |
| ColumnPaths.EmptyNamePasses | crates/protowire-pxf/src/dataset_paths.rs:33-38 | the empty name has an empty segment and passes the checks |
| ColumnPaths.ColumnPathError | crates/protowire-pxf/src/dataset_paths.rs:30-76 | the trie returns nothing exactly when no column has an empty segment and no two overlap, and otherwise the least offending column with the column it conflicts with |
| RowBody.EachCellOnce | crates/protowire-pxf/src/dataset_reader.rs:453-490 | each non-empty cell is in the body exactly once, at its column's path, and nothing else is |
| RowBody.BuildKeepsBlocks | crates/protowire-pxf/src/dataset_reader.rs:470-486 | one block for each shared prefix |
| RowBody.NoNameTwice | crates/protowire-pxf/src/dataset_reader.rs:453-490 | on an accepted header no block binds a name twice |
| RowOrder.BuildOrdered | crates/protowire-pxf/src/dataset_reader.rs:453-509 | a body's cells and blocks stand in the order of their first columns |
| RowText.RowParses | crates/protowire-pxf/src/dataset_reader.rs:375-398 | for cells read under any limits, the row's text parses, under these, as its tree's entries exactly when it is within the size limit and each cell is within the depth and length limits where its path puts it |
| RowText.RowReadsBack | crates/protowire-pxf/src/dataset_reader.rs:453-525 | on an accepted header the parsed row has each non-empty cell's value at its column's path, and no other path leads anywhere |
| RowSpans.ErrorsNameColumns | crates/protowire-pxf/src/dataset_reader.rs:402-416 | an error at any character of the text names the column that character was written for, in a block's own lines its first; one on the empty first line or at the end names none |
| RowWriterCode.BodyWriter.WriteBlock | crates/protowire-pxf/src/dataset_reader.rs:492-512 | body, line number and spans grow together by the block's text, lines and spans |
| RowWriterCode.RowBodyOf | crates/protowire-pxf/src/dataset_reader.rs:385-393 | the writer's run gives the specified text and spans |
| RowWriterCode.ColumnOfLine | crates/protowire-pxf/src/dataset_reader.rs:406-414 | the search gives the first span's column |
| RowScanner.FindRowStable | crates/protowire-pxf/src/dataset_reader.rs:549-585 | a row found, the end of the rows, a malformed literal, and a refusal at a byte that can open nothing stand on every extension of the input |
| RowScanner.RefusalStableExactly | crates/protowire-pxf/src/dataset_reader.rs:572-580 | a refusal between rows stands on every extension exactly when the byte it was met at is not a last `/` or `b` |
| RowScanner.InRowStays | crates/protowire-pxf/src/dataset_reader.rs:581-584 | once inside a row more input only completes that row or spoils it |
| RowScanner.MatchingStable | crates/protowire-pxf/src/dataset_reader.rs:652-681 | the closing parenthesis found stands on every extension, literals and comments included |
| RowScanner.HeaderStable | crates/protowire-pxf/src/dataset_reader.rs:590-598 | so does the header's end, a keyword cut in two included |
| RowGrammar.RowExactly | crates/protowire-pxf/src/dataset_reader.rs:549-585 | a row is found exactly where one stands: after blanks, comments and literals a parenthesis, then literals (escaped quotes inside them), comments, nested groups and other bytes, then the parenthesis that closes it |
| RowGrammar.NoRowExactly | crates/protowire-pxf/src/dataset_reader.rs:549-585 | a directive ends the rows, and any other entry between them is refused where it stands |
| RowGrammar.BadExactly | crates/protowire-pxf/src/dataset_reader.rs:688-772 | a malformed literal is reported exactly where a newline cuts one off |
| RowGrammar.InRowExactly | crates/protowire-pxf/src/dataset_reader.rs:549-585 | more input is asked for inside a row exactly when one has begun and nothing closes or spoils it |
| RowGrammar.HeaderExactly | crates/protowire-pxf/src/dataset_reader.rs:590-686 | the header ends where the list after the first @dataset does |
| RowGrammar.HeaderBadExactly | crates/protowire-pxf/src/dataset_reader.rs:590-686 | and is malformed exactly when a newline cuts a literal off before that |
| RowGrammar.LiteralBetweenRows | crates/protowire-pxf/src/dataset_reader.rs:549-585 | a literal between rows is passed over |
| RowPieces.BrokenExactly | crates/protowire-pxf/src/dataset_reader.rs:715-772 | which bytes start a literal that a newline cuts off |
| RowStream.StepIsFirst | crates/protowire-pxf/src/dataset_reader.rs:129-192 | one call answers for the whole of what is left, unless it was cut short |
| RowStream.StreamRefines | crates/protowire-pxf/src/dataset_reader.rs:129-192 | whatever the chunks, limits and failures, the rows yielded are the first rows of the whole input, and all of them unless the reader was cut short |
| RowStream.ChunkingIrrelevant | crates/protowire-pxf/src/dataset_reader.rs:129-192 | two readers of the same bytes in different chunks yield the same rows and end alike, unless one is cut short |
| RowStream.QuietRun | crates/protowire-pxf/src/dataset_reader.rs:164-190 | when no read fails or ends in such a byte, and rows show within the buffer limit, the reader is never cut short |
| RowStream.CommentCutInTwo | crates/protowire-pxf/src/dataset_reader.rs:554-580 | a stream of two rows that two reads turn into one row and an error |
| RowStream.OpenIsHeader | crates/protowire-pxf/src/dataset_reader.rs:258-309 | the header read is the header of the whole input, whatever the chunks |
| RowStream.StepBounded | crates/protowire-pxf/src/dataset_reader.rs:174-190 | however long a stream goes on without ending a row, the bytes held stay below the limit and one read |
| RowReaderCode.FindNextRow | crates/protowire-pxf/src/dataset_reader.rs:549-585 | the scanning loop is its specification |
| RowReaderCode.DatasetReader.NextRow | crates/protowire-pxf/src/dataset_reader.rs:129-192 | the call is one step of the specification; errors and the end are sticky |
| RowReaderCode.DatasetReader.ReadHeader | crates/protowire-pxf/src/dataset_reader.rs:258-309 | the header loop is its specification |
| SbeLayout.EveryByteOnce | crates/protowire-sbe/src/template.rs:100-273 | every byte of a block belongs to exactly one scalar, however deep in composites, and no scalar reaches past the block |
| SbeValues.ScalarExact | crates/protowire-sbe/src/marshal.rs:101-138 | a scalar comes back exactly when it fits: integers no wider than their encoding or in its range, texts short enough with no trailing NUL, bytes of the full length |
| SbeValues.CutLongest | crates/protowire-sbe/src/marshal.rs:201-209 | an over-long text is cut to its longest prefix of whole characters |
| SbeValues.ReadableExactly | crates/protowire-sbe/src/unmarshal.rs:120-148 | a scalar read panics exactly when its kind cannot be read from its encoding |
| SbeRoundTrip.RoundTrip | crates/protowire-sbe/src/marshal.rs:27-139 | for every message of every layout unmarshal returns the values marshal was given exactly when the template id, lengths, counts and the size are within the wire's 16 bits and the limits, every block the message has can be read, every scalar fits, and no group entry loses a oneof member |
| SbePresence.EqualReturns | crates/protowire-sbe/src/unmarshal.rs:26-150 | the same with set and unset fields told apart, for any choice of fields that can be unset: exactly when, besides, each of these is set unless a later oneof member clears it |
| SbeRoundTrip.MessageReadsBack | crates/protowire-sbe/src/unmarshal.rs:26-74 | within those bounds what comes back is known in full, and beyond them, or with a block that cannot be read, it is never the message |
| SbeRoundTrip.GroupsReadBack | crates/protowire-sbe/src/unmarshal.rs:76-98 | the groups come back when every count and block length fits its header and every group with an entry can be read, and otherwise one is refused or loses entries |
| SbeRoundTrip.OnlyReadable | crates/protowire-sbe/src/unmarshal.rs:100-150 | a block is only ever read when each kind can be read from its encoding and no composite is empty |
| SbeView.ViewAgrees | crates/protowire-sbe/src/view.rs:35-63 | on every buffer unmarshal accepts the view opens, and its block and every group entry reflect the decoded message |
| SbeView.ScalarAgrees | crates/protowire-sbe/src/view.rs:70-191 | for every scalar slot each accessor is in bounds and gives what its bytes are decoded as, a bool exactly when its low byte tells, and the message holds that unless a later oneof member cleared it |
| SbeView.CompositeAgrees | crates/protowire-sbe/src/view.rs:193-210 | for every composite slot its view reflects what its bytes are decoded as, and the message holds that unless a later oneof member cleared it |
| SbeView.GroupAgrees | crates/protowire-sbe/src/view.rs:216-276 | walking to a group by name finds the decoded one, entry for entry |
| SbeShown.ViewShowsExactly | crates/protowire-sbe/src/view.rs:35-276 | on every buffer unmarshal accepts the view shows the decoded message, composites and group entries included, exactly when every scalar's bytes are ones both readers take alike |
| SbeShown.ScalarShown | crates/protowire-sbe/src/view.rs:77-191 | a field's accessor gives its decoded or cleared value exactly under a condition on its kind, encoding and bytes |
| SbeShown.FaithfulExactly | crates/protowire-sbe/src/view.rs:77-191 | the view and the decoder take every value of an encoding alike exactly for the listed encodings of each kind |
| SbeShown.FaithfulShows | crates/protowire-sbe/src/view.rs:35-276 | with those encodings and no cleared oneof members the view shows the decoded message on every accepted buffer |
| SbeShown.DefaultFaithful | crates/protowire-sbe/src/template.rs:286-312 | a field without an encoding annotation has one of those encodings |
| SbeView.Registered | crates/protowire-sbe/src/codec.rs:92-109 | with distinct ids a template is found by its id |
| SbeCode.Build | crates/protowire-sbe/src/template.rs:100-175 | the layout loops are their specification |
| SbeCode.Marshal | crates/protowire-sbe/src/marshal.rs:27-50 | writing at offsets into a zeroed buffer gives the fields' bytes one after another, in a buffer of exactly the computed size |
| SbeCode.WriteField | crates/protowire-sbe/src/marshal.rs:82-139 | a field is written in its own bytes and nowhere else, or not at all on a composite without fields |
| SbeWire.HeaderWords | crates/protowire-sbe/src/marshal.rs:36-39 | bytes 0, 2, 4 and 6 of every marshalled message are the block length, template id, schema id and version modulo 65536, low byte first |
| SbeWire.GroupWords | crates/protowire-sbe/src/marshal.rs:52-80 | each group stands after those before it: its block length and count, then its entries |
| SbeWire.EntryAt | crates/protowire-sbe/src/marshal.rs:66-78 | entry i of a group is its block at i block lengths |
| SbeWire.SlotAt | crates/protowire-sbe/src/marshal.rs:82-100 | a field's bytes stand at its offset in its block |
| SbeWire.IntegerBytes | crates/protowire-sbe/src/marshal.rs:145-164 | an integer field is its number modulo its width, low byte first |
| SbeWire.FloatBytes | crates/protowire-sbe/src/marshal.rs:120-138 | a float field is its bits, low byte first |
| SbeWire.TextBytes | crates/protowire-sbe/src/marshal.rs:101-119 | a text or bytes field that fits is followed by zeros |
| SbeWire.OwnEncoding | crates/protowire-sbe/src/template.rs:286-321 | without an annotation a field is as wide as its kind, or as its length says |
| SbeWire.NamedEncoding | crates/protowire-sbe/src/template.rs:51-65 | an annotation's name gives the sign and the width |
| SbeBuild.BuildExactly | crates/protowire-sbe/src/template.rs:100-273 | which messages have a layout, and that it lists their fields in order of their numbers, each with its encoding, repeated messages as groups |
| SbeReaderCode.UnmarshalMessage | crates/protowire-sbe/src/unmarshal.rs:26-74 | filling the message field by field is its specification |
| SbeBuffers.UnmarshalExactly | crates/protowire-sbe/src/unmarshal.rs:26-98 | a buffer is taken exactly when its header names the template and no shorter block, every block and group lies within it, counts are within the limit, and each block is read where it stands |
| SbeBuffers.ViewExactly | crates/protowire-sbe/src/view.rs:35-63 | the view opens exactly where the root block of a registered template stands |
| SbeReaderCode.GroupByName | crates/protowire-sbe/src/view.rs:216-241 | the view's walk over the groups is its specification |
| SbeReaderCode.TextField | crates/protowire-sbe/src/view.rs:176-185 | the padding loop and the UTF-8 check give the specified text |
| SbeReaderCode.Registry.InsertAll | crates/protowire-sbe/src/codec.rs:69-109 | registering fills both maps in order |
| SbeFindings.UnreadableLayout | crates/protowire-sbe/src/template.rs:275-284 | a layout that is built and that no buffer can be read with |
| SbeFindings.EmptyComposite | crates/protowire-sbe/src/template.rs:232-273 | a layout that is built and that no message can be written with |
| SbeFindings.OneofLost | crates/protowire-sbe/src/template.rs:177-230 | a group entry's chosen oneof member comes back as the other member, at zero |
| SbeFindings.WideBoolDisagrees | crates/protowire-sbe/src/view.rs:153-156 | a two-byte bool of 256, signed or unsigned, is decoded as true and viewed as false |
| SbeFindings.OneofSeen | crates/protowire-sbe/src/view.rs:77-102 | on the marshalled bytes of a group entry that chose one oneof member the view gives its value 1 and the decoded message has the other |
| SbeFindings.WideIdRefused | crates/protowire-sbe/src/marshal.rs:36-39 | with template id 65536 the layout is built and every marshalled message is refused |
| SbeFindings.UnsetComposite | crates/protowire-sbe/src/unmarshal.rs:106-114 | an unset composite comes back set, its fields at zero |
| LexFacts.LiteralAgain | crates/protowire-pxf/src/lexer.rs:522-720 | the text of any number, duration or timestamp token, in front of a separator, is that token again |
| LexFacts.IdentAgain | crates/protowire-pxf/src/lexer.rs:722-733 | so is that of an identifier or keyword |
| Base64.StringAgain | crates/protowire-pxf/src/lexer.rs:305-398 | both quoters are undone by the string lexer, on every string |
| Base64.BytesAgain | crates/protowire-pxf/src/format.rs:233-258 | a written bytes literal is one token that decodes to the bytes, or is illegal exactly when its padded length is judged past the limit |
| Base64.UnpaddedAgain | crates/protowire-pxf/src/lexer.rs:460-496 | without padding it is judged by its whole groups alone |
| Utf8.ValidExactly | crates/protowire-pxf/src/lexer.rs:378-398 | a text is valid UTF-8 exactly when it is the encodings of Unicode scalar values one after another |
| Utf8.RuneExactly | crates/protowire-pxf/src/lexer.rs:779-805 | a code point is written as its UTF-8 encoding, and only scalar values are written |
| StringSpelling.StringExactly | crates/protowire-pxf/src/lexer.rs:305-437 | a quoted string is read exactly as what its characters and escapes (letters, hex, octal, code points) denote, when that is UTF-8 |
| TokenSpelling.CharactersAre | crates/protowire-pxf/src/lexer.rs:741-759 | the characters that are letters, digits, parts of words and blanks, listed |
| TokenSpelling.StopsAre | crates/protowire-pxf/src/lexer.rs:659-720 | the characters before which a timestamp ends and a duration goes on |
| LexedText.TokenExactly | crates/protowire-pxf/src/lexer.rs:93-189 | the first token of a text and the rest are exactly a lexeme at its front that the rest leaves whole, for every kind of token |
| LexedText.TokensExactly | crates/protowire-pxf/src/lexer.rs:192-200 | the tokens of a text are its lexemes one after another, without blanks, line ends and comments, up to the first place where none stands |
| SyntaxText.DocumentLex | crates/protowire-pxf/src/format.rs:34-216 | the tokens of a formatted document are the tokens it spells, whatever the nesting |
| SyntaxTheorems.DocumentProper | crates/protowire-pxf/src/parser.rs:605-876 | what the parser produces is made of tokens of the lexer, within the depth limit |
| SyntaxTheorems.FormatParses | crates/protowire-pxf/src/format.rs:85-216 | under any limits a document's text parses as the document, or is refused exactly when it is past the size limit, padding takes a bytes literal past its limit, or it is too deep |
| SyntaxTheorems.RoundTrip | crates/protowire-pxf/src/format.rs:34-216 | every text that parses is formatted to a text that parses as the same document, but for the quotes of map keys that are safe without, exactly when that text is within the size limit and its bytes literals fit once padded |
| SyntaxTheorems.FormatTwice | crates/protowire-pxf/src/format.rs:34-216 | formatting a formatted text changes nothing |
| ParserSpelling.DocumentExactly | crates/protowire-pxf/src/parser.rs:605-876 | tokens are parsed as a document exactly when they spell it within the depth limit, commas and both spellings of entries included |
| TextForms.EncodeThree | crates/protowire-pxf/src/format.rs:232-258 | three bytes are written as the four base64 digits of their number |
| TextForms.EncodeTwo | crates/protowire-pxf/src/format.rs:232-258 | two bytes at the end are written as three digits and one pad |
| TextForms.EncodeOne | crates/protowire-pxf/src/format.rs:232-258 | one byte at the end is written as two digits and two pads |
| TextForms.QuotedExactly | crates/protowire-pxf/src/format.rs:201-225 | a string is written between quotes with exactly five characters escaped |
| Indentation.FormatLines | crates/protowire-pxf/src/format.rs:56-216 | every line of a formatted text starts with as many units as blocks and lists are open before it |
| Indentation.EntryForms | crates/protowire-pxf/src/format.rs:85-200 | the lines of each kind of entry and value |
| SyntaxLimits.SizeDecides | crates/protowire-pxf/src/limits.rs:79-102 | with the limit on bytes literals no lower than the one on texts, as by default, only the formatted text's size decides |
| SyntaxLimits.PaddingRefused | crates/protowire-pxf/src/lexer.rs:460-496 | any bytes between the two ways of judging them parse without padding and not once formatted |
| SyntaxLimits.OneByteRefused | crates/protowire-pxf/src/format.rs:233-258 | one byte under a limit of one or two is such a case |
| SyntaxLimits.GrowthRefused | crates/protowire-pxf/src/parser.rs:39-44 | a text of 7 bytes that any size limit from 7 to 16 accepts, and whose formatted text of 17 it refuses |
| FormatterCode.Formatter.FormatDocument | crates/protowire-pxf/src/format.rs:34-54 | output appended piece by piece is the specified text |
| FormatterCode.EncodeBase64 | crates/protowire-pxf/src/format.rs:233-258 | the loop over groups of three is the specified encoding |
| LexerCode.Lexer.Next | crates/protowire-pxf/src/lexer.rs:93-189 | the position moving through the input gives the specified token |
| ParserCode.ParseText | crates/protowire-pxf/src/parser.rs:39-45 | the size check and the parser with one token in hand are the specification |
| ParserCode.Parser.ReadEntry | crates/protowire-pxf/src/parser.rs:607-703 | an entry is read as specified, the depth restored |
| Bignums.BigIntReadsBack | crates/protowire-pxf/src/bignum.rs:63-120 | any magnitude prints exactly when its digits are within the limit, and reads back with its sign and no leading zero bytes |
| Bignums.DecimalReadsBack | crates/protowire-pxf/src/bignum.rs:83-161 | a decimal prints exactly when its scale and significant digits are within the limit, and reads back with its sign, magnitude and scale, or for a negative scale the same value at scale zero, unless the text's digits are too many |
| Bignums.LargestScaleRefused | crates/protowire-pxf/src/bignum.rs:163-182 | under the printer's own limit the reader refuses exactly the largest scale |
| Bignums.OneAtLargestScale | crates/protowire-pxf/src/bignum.rs:126-161 | one at scale 4096 is printed and refused |
| Bignums.CanonicalBack | crates/protowire-pxf/src/bignum.rs:189-204 | a magnitude without leading zero bytes comes back byte for byte |
| BignumSpelling.DecimalSpelled | crates/protowire-pxf/src/bignum.rs:83-107 | a decimal literal is read as its digits, its sign and the length of its fraction, or refused exactly for too many digits |
| BignumSpelling.IntegerSpelled | crates/protowire-pxf/src/bignum.rs:63-77 | an integer literal is read as its digits, negative when not zero |
| BignumSpelling.OnlyDecimals | crates/protowire-pxf/src/bignum.rs:83-107 | nothing else is read as a decimal |
| BignumSpelling.OnlyIntegers | crates/protowire-pxf/src/bignum.rs:63-77 | nothing else is read as an integer |
| BignumSpelling.IntegerPrinted | crates/protowire-pxf/src/bignum.rs:111-120 | an integer is printed as its canonical digits with its sign |
| BignumSpelling.DecimalPrinted | crates/protowire-pxf/src/bignum.rs:126-161 | a decimal is printed with its sign, as many digits after the point as its scale, and no needless zero |
| BignumCode.DecimalDigitsToBeBytes | crates/protowire-pxf/src/bignum.rs:189-204 | multiplying limb by limb gives the canonical bytes of the digits' value |
| BignumCode.BeBytesToDecimal | crates/protowire-pxf/src/bignum.rs:211-232 | dividing byte by byte gives the canonical digits of the value |
| BignumCode.ReadBigInt | crates/protowire-pxf/src/bignum.rs:63-77 | the integer reader is its specification, every refusal included |
| BignumCode.PrintBigInt | crates/protowire-pxf/src/bignum.rs:111-120 | the integer printer is its specification |
| BignumCode.ReadDecimal | crates/protowire-pxf/src/bignum.rs:83-107 | the reader is its specification, every refusal included |
| BignumCode.PrintDecimal | crates/protowire-pxf/src/bignum.rs:126-161 | the printer is its specification |
| Calendar.CountsDays | crates/protowire-pxf/src/decode.rs:2346-2354 | the day number counts calendar days: the day after any date is one more, and 1970-01-01 is zero |
| Calendar.DaysBack | crates/protowire-pxf/src/encode.rs:1038-1055 | every day number is turned into a date of the calendar with that day number |
| Calendar.DateBack | crates/protowire-pxf/src/decode.rs:2346-2354 | and every date of the calendar comes back from its day number |
| Durations.DurationBack | crates/protowire-pxf/src/encode.rs:1076-1133 | every Duration prints a valid literal, which reads back exactly when its nanoseconds are a signed 64-bit count |
| Durations.NormalBack | crates/protowire-pxf/src/decode.rs:2367-2447 | a normal Duration in range comes back unchanged, and no other does |
| DurationSpelling.SpelledRead | crates/protowire-pxf/src/decode.rs:2367-2447 | any sign and parts, fractions and every unit included, are read as their sum under the sign, exactly when each part can be read and the sum is a signed 64-bit count |
| DurationSpelling.OnlySpelled | crates/protowire-pxf/src/lexer.rs:969-1020 | nothing else is a duration literal |
| DurationSpelling.PrintedForm | crates/protowire-pxf/src/encode.rs:1076-1133 | every Duration is printed in hours, minutes and seconds that add up to it, or in one smaller unit |
| Timestamps.TimestampBack | crates/protowire-pxf/src/encode.rs:998-1034 | a timestamp of the years 0 to 9999 prints a valid date-time, which reads back with its seconds, and its nanoseconds exactly when these are in range |
| TimestampSpelling.SpelledRead | crates/protowire-pxf/src/decode.rs:2280-2331 | every date-time is read as the moment it names: its calendar day and clock, less what its zone is ahead |
| TimestampSpelling.OnlySpelled | crates/protowire-pxf/src/lexer.rs:861-935 | nothing else is a date-time literal |
| TimestampSpelling.ZonesApart | crates/protowire-pxf/src/decode.rs:2316-2331 | the same clock in another zone is earlier by exactly what that zone is ahead |
| TimestampSpelling.PrintedForm | crates/protowire-pxf/src/encode.rs:998-1034 | a timestamp is printed in UTC with the clock of its seconds and the fraction of its nanoseconds |
| TimeCode.ParseGoDuration | crates/protowire-pxf/src/decode.rs:2367-2447 | the reader's loop over groups is its specification |
| TimeCode.IsValidGoDuration | crates/protowire-pxf/src/lexer.rs:969-1020 | the lexer's validator is its specification |
| TimeCode.ParseRfc3339 | crates/protowire-pxf/src/decode.rs:2280-2331 | the date-time reader is its specification |

## Left out

- Directives other than `@type`, comments, positions and error wording in the lexer and parser; tokens after an illegal one, which the parser never reaches; how a triple-quoted string is dedented, which is an arbitrary function.
- SBE: XML schema conversion; composite types that contain themselves, on which building a layout does not end; defaults other than zero for unset fields; floats are bit patterns and their conversions arbitrary functions. The message's setter, which is not part of this model, panics on a value of another type.
- Streaming: reading rows' cells and the header's columns, which are arbitrary predicates on bytes.
- Timestamps.TimestampBack: for years 0 to 9999, the ones four digits hold.
- `clip_literal`, error wording, positions and comments.
- BigFloat: exponents and lengths are unbounded integers; the source's `i64` arithmetic on them is in range for every input whose digits fit in memory, and the `u32` truncation of a literal's bit count is modelled. Adding 64 or 128 to a precision near 2^32 is not modelled as wrapping; it takes a digit limit above 1.29e9 to get there.
- LiteralReading.ReadsAsSpelled: for up to 2^28 digits, where the code's 32-bit count of a literal's bits cannot wrap; the digit limit is 4096 unless a caller raises it.
- LiteralReading.AcceptsInRange: a sufficient condition only; at the very edge of the exponents the rounded power of five decides.
- PB codec: fixed-width and zigzag fields and packed lists, which none of the modelled message types has; buffer lengths fit 64 bits.
- Keyed lists: the trees are values, so aliasing between parts of one document is not a question; scalar, enum, wrapper and time literals and map keys read through functions of the schema that the theorems leave arbitrary.
- Post-decode: the plan cache, and how a default literal reads, which is an arbitrary function of the schema. A map field's bodies are given in the order of their shown keys, as the code sorts them first; the sort is not modelled.
- RowBody: the tree is a value and blocks are found by scanning instead of through an index. `bind`'s header and arity checks are preconditions of the theorems about its text, whose names are fields' names, which the schema check keeps apart from keywords.

# Verified models of the asset administration shell services

Dafny 4.11 models of two parts of the repository, with proofs.

**The codecs and builders of the browser object library** (`aasForBrowser.js`): the Punycode encoder and decoder, the
UTF-8 and Base64 codecs, signed integers of one to six bytes, the POSIX path normaliser, the `process.nextTick` shim and
`Submodel.fromJSON`. Each algorithm is written as the loop, buffer or object the library has and is proved equal to a
small specification; the laws (round trips, normal forms, order of callbacks, parents in the tree) are then lemmas about
the specification, for all inputs. What a round trip cannot see, such as tables, keys, constants and the order of
attributes, is stated with its literal values in laws of its own.

**The messaging services**: the onboarding skill with its versioned database record and deferred messages, the gRPC
ingress, the client pool of the gRPC egress and the fan-out of the endpoint resolver. Concurrent parts are state
machines whose steps are the atomic actions of the runtime; the safety laws hold for every interleaving of any number of
handlers. The objects (collector, dispatcher, database client, interaction, AMQP client, pool, resolver) are classes,
each method tied to the step or function it performs.

`dafny verify dfyconfig.toml` checks everything.

| file | content |
|---|---|
| `JsStrings.dfy`, `Arithmetic.dfy` | UTF-16 code units, results, facts about division |
| `PunycodeNumbers.dfy` | digits, bias adaptation, variable-length integers |
| `Punycode.dfy` | the encoder specified by the decoder's state machine; the round trip on code points |
| `PunycodeCodec.dfy` | the loops of `encode` and `decode`; the theorems on strings |
| `PunycodeSample.dfy` | a cross-check against one sample string of RFC 3492 |
| `Utf8.dfy`, `Utf8Codec.dfy` | UTF-8: laws, loops |
| `Base64.dfy`, `SignedInts.dfy`, `PosixPath.dfy`, `NextTick.dfy` | one algorithm each |
| `SubmodelTree.dfy`, `SubmodelObjects.dfy` | the submodel builder on trees and on objects |
| `SkillProtocol.dfy`, `SkillRuntime.dfy` | the onboarding skill as a system and as objects |
| `GrpcIngress.dfy`, `GrpcPool.dfy`, `EndpointResolver.dfy` | the Go services |

## Where the code falls short of what one expects

Each of these is kept as the code has it, and the exact condition is proved.

- **Punycode.** The two overflow guards test different quantities: the encoder bounds each delta, the decoder bounds the
  counter that the delta is added to. Encoding can therefore succeed on a string whose encoding does not decode
  (`PunycodeCodec.EncodedButUndecodable`: 1928 code points). `PunycodeCodec.RoundTrip` gives the exact condition;
  `PunycodeCodec.ShortStringsRoundTrip` shows that nothing up to 1927 code units is affected.
- **UTF-8.** A final lead surrogate that follows another unpaired lead is dropped without a replacement
  (`Utf8.BytesAreRepaired`); strings survive exactly when they are well-formed (`Utf8.StringRoundTripIff`).
- **Base64.** A `=` directly after a whole group makes the decoder lose that group and return two zero bytes for it
  (`Base64.PaddedGroupIsLost`); text survives exactly when it is canonical (`Base64.TextRoundTripIff`).
- **Onboarding skill.** A handler whose write failed goes on, and its next write can match the record of the winner and
  replace a state it never saw (`SkillProtocol.LostUpdate`); `SkillProtocol.NoLostUpdateIff` says exactly when a stored
  state was computed from the one stored before it. A write that fails before it reaches the database still uses up a
  version (`SkillProtocol.LostFirstWrite`).
- **Annotated relationships.** Their `toJSON` leaves out both references, so a submodel that holds one cannot be read
  back from its own JSON (`SubmodelTree.AnnotatedIsLost`); `SubmodelTree.SerialisedRoundTripIff` gives the exact
  condition.
- **gRPC ingress.** An interaction that cannot be marshalled is skipped without a status, so its RPC waits for ever
  (`GrpcIngress.UnmarshallableWaitsForever`).
- **Endpoint resolver.** Removing quotes from JSON text restores an identifier exactly when no character of it is escaped
  (`EndpointResolver.StrippedIff`).

## Model

| member | source | states |
|---|---|---|
| PunycodeNumbers.DigitsRoundTrip | src/ts/cmd/endpoint-registry-ui/webapp/lib/aasForBrowser.js:16101-16129 | every digit 0 to 35 is written as a letter or decimal digit that reads back as that digit |
| PunycodeNumbers.DigitTable | src/ts/cmd/endpoint-registry-ui/webapp/lib/aasForBrowser.js:16125-16129 | digits 0 to 25 are written as the letters a to z and 26 to 35 as the decimal digits 0 to 9 |
| PunycodeNumbers.CharacterTable | src/ts/cmd/endpoint-registry-ui/webapp/lib/aasForBrowser.js:16101-16112 | what each character is read as: letters of either case from 0, decimal digits from 26, no digit (36) from code unit 123 on, and the values the subtraction gives to the characters in between |
| PunycodeNumbers.ThresholdIsClamped | src/ts/cmd/endpoint-registry-ui/webapp/lib/aasForBrowser.js:16212 | the threshold is the distance from the bias, at least 1 and at most 26 |
| PunycodeNumbers.AdaptBound | src/ts/cmd/endpoint-registry-ui/webapp/lib/aasForBrowser.js:16136-16144 | for every 31-bit delta and any number of points the adapted bias is at most 198 |
| PunycodeNumbers.AdaptIgnoresCount | src/ts/cmd/endpoint-registry-ui/webapp/lib/aasForBrowser.js:16136-16144 | the number of points does not matter for a delta smaller than twice that number |
| PunycodeNumbers.AdaptIsStandard | src/ts/cmd/endpoint-registry-ui/webapp/lib/aasForBrowser.js:16136-16144 | the adaptation of section 6.1 of RFC 3492 in closed form, with its parameters 700, 2, 35, 36, 38 and 455 as numbers |
| PunycodeNumbers.ComputeAdapt | src/ts/cmd/endpoint-registry-ui/webapp/lib/aasForBrowser.js:16136-16144 | the division loop computes the recursive adaptation function of section 3.4 of RFC 3492, within that bound |
| PunycodeNumbers.WeightGuardIsRedundant | src/ts/cmd/endpoint-registry-ui/webapp/lib/aasForBrowser.js:16218-16221 | whenever the decoder's weight guard fires on an encoder's number, that number already exceeds 31 bits |
| PunycodeNumbers.VarIntRoundTrip | src/ts/cmd/endpoint-registry-ui/webapp/lib/aasForBrowser.js:16199-16225 | the digits written for any number, followed by anything, are read back as exactly that number and no more characters; the reader overflows if and only if the counter would exceed 2^31-1 (section 3.3 of RFC 3492) |
| PunycodeNumbers.VarIntValue | src/ts/cmd/endpoint-registry-ui/webapp/lib/aasForBrowser.js:16334-16347 | the digits written are the number in the mixed radix of section 3.3 of RFC 3492: their weighted sum is the number, and exactly the last one is below the threshold of its place |
| Punycode.BuiltInsert | src/ts/cmd/endpoint-registry-ui/webapp/lib/aasForBrowser.js:16239-16240 | inserting a code point at its position among the smaller ones before it turns what the decoder holds before that code point into what it holds after |
| Punycode.WalkRoundTrip | src/ts/cmd/endpoint-registry-ui/webapp/lib/aasForBrowser.js:16192-16242 | from any state of the code point walk, the remaining digits complete the remaining insertions to the whole input, or overflow exactly when a wrapped counter exceeds 31 bits |
| Punycode.PointsRoundTrip | src/ts/cmd/endpoint-registry-ui/webapp/lib/aasForBrowser.js:16153-16359 | decoding an encoding gives the code points back if every wrapped counter fits 31 bits, and raises overflow otherwise |
| Punycode.FrameSplit | src/ts/cmd/endpoint-registry-ui/webapp/lib/aasForBrowser.js:16176-16192 | the last delimiter of an encoding separates its basic code points from its digits, also when either part is empty |
| Punycode.WalkIndexBound | src/ts/cmd/endpoint-registry-ui/webapp/lib/aasForBrowser.js:16315-16322 | the wrapped counter never exceeds one lap over all code points per code point value |
| Punycode.ShortInputsFit | src/ts/cmd/endpoint-registry-ui/webapp/lib/aasForBrowser.js:16318-16330 | up to 1927 code points no guard of encoder or decoder can fire |
| PunycodeCodec.Ucs2RoundTrip | src/ts/cmd/endpoint-registry-ui/webapp/lib/aasForBrowser.js:16045-16090 | splitting any string, well-formed or not, into code points and joining them gives it back |
| PunycodeCodec.Ucs2Split | src/ts/cmd/endpoint-registry-ui/webapp/lib/aasForBrowser.js:16045-16069 | a string split anywhere but inside a surrogate pair is split into the code points of its parts |
| PunycodeCodec.Ucs2Single | src/ts/cmd/endpoint-registry-ui/webapp/lib/aasForBrowser.js:16052-16066 | a surrogate pair is the code point UTF-16 gives it, and any other code unit, unpaired surrogates included, stands for itself |
| PunycodeCodec.Units16Wraps | src/ts/cmd/endpoint-registry-ui/webapp/lib/aasForBrowser.js:16080-16088 | what is written for a code point beyond U+10FFFF: the low twenty bits of its offset as a pair |
| PunycodeCodec.Ucs2Decode | src/ts/cmd/endpoint-registry-ui/webapp/lib/aasForBrowser.js:16045-16069 | the masking loop with its step back pairs exactly the surrogates that form pairs |
| PunycodeCodec.NextPoint | src/ts/cmd/endpoint-registry-ui/webapp/lib/aasForBrowser.js:16052-16066 | one round of the loop consumes one or two code units: exactly those of the next code point |
| PunycodeCodec.Ucs2Encode | src/ts/cmd/endpoint-registry-ui/webapp/lib/aasForBrowser.js:16079-16090 | the backwards loop joins the code units of all code points in order |
| PunycodeCodec.NextValue | src/ts/cmd/endpoint-registry-ui/webapp/lib/aasForBrowser.js:16308-16313 | the search finds a code point of the input that is the least one not below n |
| PunycodeCodec.BasicPoints | src/ts/cmd/endpoint-registry-ui/webapp/lib/aasForBrowser.js:16286-16291 | the basic code points of the input, in order |
| PunycodeCodec.EmitDelta | src/ts/cmd/endpoint-registry-ui/webapp/lib/aasForBrowser.js:16334-16347 | the digit loop appends the variable-length integer of the delta |
| PunycodeCodec.OverflowIsReal | src/ts/cmd/endpoint-registry-ui/webapp/lib/aasForBrowser.js:16318-16330 | a counted delta beyond 31 bits always means that an insertion still to come has a delta that does not fit |
| PunycodeCodec.StaleCountIsHarmless | src/ts/cmd/endpoint-registry-ui/webapp/lib/aasForBrowser.js:16317-16348 | adapting with the count cached before the pass gives the bias that the decoder computes with its current count, for every occurrence of a value in the pass |
| PunycodeCodec.EncodePass | src/ts/cmd/endpoint-registry-ui/webapp/lib/aasForBrowser.js:16325-16352 | one pass over the input, adapting with the count cached before it, emits all insertions of the current value and leaves delta, bias and count as the walk has them; it stops only if some delta does not fit |
| PunycodeCodec.EncodeCodePoints | src/ts/cmd/endpoint-registry-ui/webapp/lib/aasForBrowser.js:16277-16358 | the delta coder, which jumps from value to value, writes basic code points, delimiter and the deltas of the walk over every value and position, and overflows if and only if one of these deltas exceeds 31 bits |
| PunycodeCodec.Encode | src/ts/cmd/endpoint-registry-ui/webapp/lib/aasForBrowser.js:16254-16359 | the same for strings |
| PunycodeCodec.EncodedForm | src/ts/cmd/endpoint-registry-ui/webapp/lib/aasForBrowser.js:16254-16359 | an encoding is the characters below 128 in order, then, if there are any, one hyphen (45), then only small letters and decimal digits, at least one for every other code point |
| PunycodeCodec.EncodesIff | src/ts/cmd/endpoint-registry-ui/webapp/lib/aasForBrowser.js:16317-16330 | encoding fails, with overflow, exactly when some delta of the walk exceeds 2147483647 |
| PunycodeCodec.ReadDelta | src/ts/cmd/endpoint-registry-ui/webapp/lib/aasForBrowser.js:16199-16225 | the inner loop with its three guards is the reader of variable-length integers; on success the index stands behind the digits read |
| PunycodeCodec.ReadOne | src/ts/cmd/endpoint-registry-ui/webapp/lib/aasForBrowser.js:16199-16225 | what one character does to the reader, in numbers: the end of the input, a non-digit, a counter or weight beyond 2147483647, the last digit, or one more place |
| PunycodeCodec.InsertPoint | src/ts/cmd/endpoint-registry-ui/webapp/lib/aasForBrowser.js:16230-16240 | wrapping and splicing raise overflow or insert within the output, at the position after which the next one is counted |
| PunycodeCodec.InsertMeans | src/ts/cmd/endpoint-registry-ui/webapp/lib/aasForBrowser.js:16230-16240 | a counter of steps wraps and position pos inserts code point n + steps at pos and counts on from pos + 1; refused exactly if n + steps exceeds 2147483647 |
| PunycodeCodec.DecodeDigits | src/ts/cmd/endpoint-registry-ui/webapp/lib/aasForBrowser.js:16192-16242 | the main loop computes the decoder function, starting behind the basic code points |
| PunycodeCodec.RoundsStayInRange | src/ts/cmd/endpoint-registry-ui/webapp/lib/aasForBrowser.js:16192-16242 | in every round of the main loop on every input, whether decoding succeeds or not: n and the counter stay within 31 bits, i never exceeds the length of the output, and the insertion lies within it |
| PunycodeCodec.DecodeCodePoints | src/ts/cmd/endpoint-registry-ui/webapp/lib/aasForBrowser.js:16153-16242 | basic code points up to the last hyphen are copied or rejected, then the digits are decoded |
| PunycodeCodec.Decode | src/ts/cmd/endpoint-registry-ui/webapp/lib/aasForBrowser.js:16153-16245 | the same for strings |
| PunycodeCodec.DecodingStarts | src/ts/cmd/endpoint-registry-ui/webapp/lib/aasForBrowser.js:16176-16192 | a character beyond 127 before the last hyphen (45) is refused; otherwise what is before that hyphen is copied and the digits start behind it, with n 128, i 0 and bias 72, or at the very beginning if the hyphen comes first or there is none |
| PunycodeSample.SampleDecodes | src/ts/cmd/endpoint-registry-ui/webapp/lib/aasForBrowser.js:16153-16245 | sample (L) of section 7.1 of RFC 3492 decodes to its eight code points |
| PunycodeCodec.RoundTrip | src/ts/cmd/endpoint-registry-ui/webapp/lib/aasForBrowser.js:16045-16359 | for every string that encodes: decoding the result gives the string back if and only if every wrapped counter fits 31 bits, and overflows otherwise |
| PunycodeCodec.ShortStringsRoundTrip | src/ts/cmd/endpoint-registry-ui/webapp/lib/aasForBrowser.js:16045-16359 | every string of up to 1927 code units encodes and decodes back to itself |
| PunycodeCodec.EncodedButUndecodable | src/ts/cmd/endpoint-registry-ui/webapp/lib/aasForBrowser.js:16254-16359 | a string of 1928 code points that encodes without error and whose encoding overflows in the decoder |
| PunycodeCodec.DecodeTailBounds | src/ts/cmd/endpoint-registry-ui/webapp/lib/aasForBrowser.js:16192-16242 | on letters, digits and hyphens the loop ends in a result or in overflow or invalid input; every inserted code point is within 31 bits, and the code points below 128 stay as they were, in order |
| PunycodeCodec.DecodeBounds | src/ts/cmd/endpoint-registry-ui/webapp/lib/aasForBrowser.js:16153-16245 | for every input of letters, digits and hyphens: at most as many code points as characters, all within 31 bits, the basic ones being exactly the text before the last hyphen (section 6.4 of RFC 3492) |
| Utf8.ScalarRoundTrip | src/ts/cmd/endpoint-registry-ui/webapp/lib/aasForBrowser.js:15029-15055 | the bytes written for any scalar value, followed by anything, are decoded as that value and that many bytes |
| Utf8.EncodingTable | src/ts/cmd/endpoint-registry-ui/webapp/lib/aasForBrowser.js:15025-15055 | the table of section 3 of RFC 3629: number of bytes, range of each, and the payload bits in their order |
| Utf8.FrontIsEncoding | src/ts/cmd/endpoint-registry-ui/webapp/lib/aasForBrowser.js:14283-14321 | whatever the decoder accepts is a scalar value standing in exactly its own encoding: no overlong form, no surrogate |
| Utf8.AcceptsTheStandard | src/ts/cmd/endpoint-registry-ui/webapp/lib/aasForBrowser.js:14275-14321 | the decoder's shifts and comparisons accept exactly the byte ranges of section 4 of RFC 3629 |
| Utf8.UnitsMean | src/ts/cmd/endpoint-registry-ui/webapp/lib/aasForBrowser.js:14274-14337 | a well-formed character in front becomes the code units of the code point its bytes encode; otherwise one byte becomes U+FFFD and decoding goes on behind it |
| Utf8.StringRoundTrip | src/ts/cmd/endpoint-registry-ui/webapp/lib/aasForBrowser.js:14269-14340 | every well-formed UTF-16 string survives encoding and decoding |
| Utf8.StringRoundTripIff | src/ts/cmd/endpoint-registry-ui/webapp/lib/aasForBrowser.js:14981-15059 | a string survives exactly when it is well-formed UTF-16 |
| Utf8.FrontBytes | src/ts/cmd/endpoint-registry-ui/webapp/lib/aasForBrowser.js:14981-15036 | what stands first among the bytes: those of the pair or character in front, EF BF BD for an unpaired surrogate, and nothing more where an unpaired lead is followed by a final lead |
| Utf8.BytesAreRepaired | src/ts/cmd/endpoint-registry-ui/webapp/lib/aasForBrowser.js:14981-15059 | for every string the bytes are well-formed UTF-8 and decode to the string with U+FFFD for every unpaired surrogate, except that two final leads leave one U+FFFD |
| Utf8.UnitsAreWellFormed | src/ts/cmd/endpoint-registry-ui/webapp/lib/aasForBrowser.js:14323-14337 | whatever the bytes, the decoder's output is well-formed UTF-16 |
| Utf8.ReencodedLength | src/ts/cmd/endpoint-registry-ui/webapp/lib/aasForBrowser.js:14323-14337 | re-encoding costs exactly two more bytes per byte the decoder gave up on |
| Utf8.BytesRoundTripIff | src/ts/cmd/endpoint-registry-ui/webapp/lib/aasForBrowser.js:14269-14340 | decoding and re-encoding gives the bytes back exactly when they were well-formed UTF-8 |
| Utf8Codec.Utf8ToBytes | src/ts/cmd/endpoint-registry-ui/webapp/lib/aasForBrowser.js:14981-15059 | the loop with its pending lead surrogate writes the byte groups of the string as far as the byte limit allows |
| Utf8.LimitedBytes | src/ts/cmd/endpoint-registry-ui/webapp/lib/aasForBrowser.js:15025-15055 | with a limit the result is the longest well-formed beginning of the unlimited bytes that fits it |
| Utf8.NegativeBudget | src/ts/cmd/endpoint-registry-ui/webapp/lib/aasForBrowser.js:14981-15055 | a limit below zero leaves nothing |
| Utf8.FittingIsLongestPrefix | src/ts/cmd/endpoint-registry-ui/webapp/lib/aasForBrowser.js:15025-15055 | a byte limit keeps the longest run of whole groups that fits it, never part of a character |
| Utf8Codec.FrontOf | src/ts/cmd/endpoint-registry-ui/webapp/lib/aasForBrowser.js:14274-14337 | one round consumes at least one byte and stays within the slice; what it pushes is what the specification reads there |
| Utf8Codec.DecodeRange | src/ts/cmd/endpoint-registry-ui/webapp/lib/aasForBrowser.js:14269-14339 | the loop terminates on all bytes and reads the whole range |
| Utf8Codec.DecodeCodePointsArray | src/ts/cmd/endpoint-registry-ui/webapp/lib/aasForBrowser.js:14345-14363 | joining in chunks of 0x1000 code units changes nothing, even where a chunk ends inside a surrogate pair |
| Utf8Codec.Utf8Slice | src/ts/cmd/endpoint-registry-ui/webapp/lib/aasForBrowser.js:14269-14340 | the string of the slice, with the end clamped to the buffer and nothing for an empty slice |
| Base64.BytesRoundTrip | src/ts/cmd/endpoint-registry-ui/webapp/lib/aasForBrowser.js:13230-13329 | every byte sequence survives, and its encoding is canonical (section 4 of RFC 4648) |
| Base64.AlphabetTable | src/ts/cmd/endpoint-registry-ui/webapp/lib/aasForBrowser.js:13184-13191 | the 64 characters are A to Z, a to z, 0 to 9, "+" and "/", and padding is "=" |
| Base64.ReverseTable | src/ts/cmd/endpoint-registry-ui/webapp/lib/aasForBrowser.js:13189-13197 | the reverse table inverts it, gives "-" and "_" the values of "+" and "/", and 0 to anything else |
| Base64.EncodedCharacters | src/ts/cmd/endpoint-registry-ui/webapp/lib/aasForBrowser.js:13296-13329 | every character of an encoding by position: the six bits of the bytes that stand there, or "=" where there is no byte |
| Base64.SampleEncodes | src/ts/cmd/endpoint-registry-ui/webapp/lib/aasForBrowser.js:13296-13329 | the test vector "foob" of section 10 of RFC 4648 |
| Base64.TextRoundTripIff | src/ts/cmd/endpoint-registry-ui/webapp/lib/aasForBrowser.js:13230-13329 | text survives decoding and re-encoding exactly when it is canonical: standard alphabet, padding only at the end, discarded bits zero |
| Base64.DecodesAsStandard | src/ts/cmd/endpoint-registry-ui/webapp/lib/aasForBrowser.js:13189-13274 | URL-safe text decodes exactly as its standard form, and a foreign character as "A" |
| Base64.RefusedIff | src/ts/cmd/endpoint-registry-ui/webapp/lib/aasForBrowser.js:13199-13228 | decoding fails exactly for lengths that are no multiple of 4 and for texts that begin with "="; which error it is |
| Base64.PaddedText | src/ts/cmd/endpoint-registry-ui/webapp/lib/aasForBrowser.js:13199-13274 | what whole groups followed by up to three characters and a "=" decode to, whatever comes behind: the bits of two or three characters, nothing for one, and two zero bytes in place of the last group for none |
| Base64.PaddedGroupIsLost | src/ts/cmd/endpoint-registry-ui/webapp/lib/aasForBrowser.js:13199-13274 | for all bytes in whole groups, the encoding followed by `====` decodes to all groups but the last, and two zero bytes |
| Base64.Encoded | src/ts/cmd/endpoint-registry-ui/webapp/lib/aasForBrowser.js:13296-13329 | the encoding has 4 * ceil(n/3) characters |
| Base64.FromByteArray | src/ts/cmd/endpoint-registry-ui/webapp/lib/aasForBrowser.js:13296-13329 | encoding in chunks of 16383 bytes equals encoding all groups at once |
| Base64.EncodeChunk | src/ts/cmd/endpoint-registry-ui/webapp/lib/aasForBrowser.js:13283-13294 | the loop encodes the groups of its range |
| Base64.LengthsOf | src/ts/cmd/endpoint-registry-ui/webapp/lib/aasForBrowser.js:13199-13228 | the placeholder and byte counts, computed from the position of the first `=`, in terms of whole groups and what is left of the next one |
| Base64.Lengths | src/ts/cmd/endpoint-registry-ui/webapp/lib/aasForBrowser.js:13199-13242 | the array the decoder allocates is exactly filled by groups and rest, or has negative length exactly when the text starts with `=` |
| Base64.DecodeGroups | src/ts/cmd/endpoint-registry-ui/webapp/lib/aasForBrowser.js:13246-13255 | the loop writes the bytes of all whole groups into the array and nothing behind them |
| Base64.DecodeRest | src/ts/cmd/endpoint-registry-ui/webapp/lib/aasForBrowser.js:13257-13271 | the padded group adds its one or two bytes behind the groups |
| Base64.ToByteArray | src/ts/cmd/endpoint-registry-ui/webapp/lib/aasForBrowser.js:13230-13274 | a fresh array with the specified bytes, or the specified error |
| SignedInts.BorrowMakesFloor | src/ts/cmd/endpoint-registry-ui/webapp/lib/aasForBrowser.js:14717-14722 | truncating division minus the borrow is floor division |
| SignedInts.WriteStep | src/ts/cmd/endpoint-registry-ui/webapp/lib/aasForBrowser.js:14717-14722 | looking only at the previous byte, the borrow is set exactly when a lower byte is non-zero, and the byte written is that of the two's complement form |
| SignedInts.WriteIntLE | src/ts/cmd/endpoint-registry-ui/webapp/lib/aasForBrowser.js:14704-14725 | the buffer gets the little-endian two's complement bytes at the offset and is otherwise untouched; out of range, an error and no change |
| SignedInts.WriteIntBE | src/ts/cmd/endpoint-registry-ui/webapp/lib/aasForBrowser.js:14727-14748 | the same, big-endian |
| SignedInts.ReadIntLE | src/ts/cmd/endpoint-registry-ui/webapp/lib/aasForBrowser.js:14511-14527 | the signed value of the bytes, or an error out of range |
| SignedInts.ReadIntBE | src/ts/cmd/endpoint-registry-ui/webapp/lib/aasForBrowser.js:14529-14545 | the same, big-endian |
| SignedInts.ByteOrder | src/ts/cmd/endpoint-registry-ui/webapp/lib/aasForBrowser.js:14704-14748 | little-endian puts the low byte first and big-endian last; the other bytes are those of the value divided by 256, rounded down |
| SignedInts.ReadOrder | src/ts/cmd/endpoint-registry-ui/webapp/lib/aasForBrowser.js:14511-14545 | reading in the same orders: the end byte counts once, the others 256 times |
| SignedInts.Bounds | src/ts/cmd/endpoint-registry-ui/webapp/lib/aasForBrowser.js:14511-14545 | the bounds 128, 32768 and so on of the six lengths as numbers, and that a value from there on reads as negative |
| SignedInts.CheckIntMeans | src/ts/cmd/endpoint-registry-ui/webapp/lib/aasForBrowser.js:14612-14616 | which error a write reports: the value is checked before the place |
| SignedInts.ValueRoundTrip | src/ts/cmd/endpoint-registry-ui/webapp/lib/aasForBrowser.js:14704-14748 | every value in range is read back as written, in both byte orders |
| SignedInts.BytesRoundTrip | src/ts/cmd/endpoint-registry-ui/webapp/lib/aasForBrowser.js:14511-14545 | every byte sequence reads as a value in range whose bytes are that sequence, in both byte orders |
| PosixPath.CloseUp | src/ts/cmd/endpoint-registry-ui/webapp/lib/aasForBrowser.js:15249-15276 | the test on the last two characters and the cut at the last slash do to the text what `..` does to the stack |
| PosixPath.CloseSegment | src/ts/cmd/endpoint-registry-ui/webapp/lib/aasForBrowser.js:15246-15285 | the work at a slash pushes the segment just read |
| PosixPath.NormalizeStringPosix | src/ts/cmd/endpoint-registry-ui/webapp/lib/aasForBrowser.js:15234-15297 | the one-pass machine refines the segment stack: for every string the text is the joined stack |
| PosixPath.SegmentRules | src/ts/cmd/endpoint-registry-ui/webapp/lib/aasForBrowser.js:15234-15297 | at any place among the segments, an empty one and "." do nothing, and so does a name followed by ".." |
| PosixPath.TextRules | src/ts/cmd/endpoint-registry-ui/webapp/lib/aasForBrowser.js:15234-15297 | for all texts a and b, with and without ".." above the root: a + "/./" + b and a + "//" + b normalise as a + "/" + b, and so does a + "/" + name + "/../" + b |
| PosixPath.UpsThenNames | src/ts/cmd/endpoint-registry-ui/webapp/lib/aasForBrowser.js:15247-15290 | ".." segments followed by names stay as they are where ".." may lead above the root, and lose the ".." where it may not |
| PosixPath.DropLast | src/ts/cmd/endpoint-registry-ui/webapp/lib/aasForBrowser.js:15252-15272 | cutting at the last slash removes the top segment of every non-empty stack; the test for a slash at the very end never fails |
| PosixPath.Normalize | src/ts/cmd/endpoint-registry-ui/webapp/lib/aasForBrowser.js:15357-15373 | the normal form: leading and trailing slash kept, `.` for nothing |
| PosixPath.NormalFormIs | src/ts/cmd/endpoint-registry-ui/webapp/lib/aasForBrowser.js:15357-15373 | the normal form in full: leading slash, resolved segments joined by slashes or ".", trailing slash |
| PosixPath.JoinedText | src/ts/cmd/endpoint-registry-ui/webapp/lib/aasForBrowser.js:15234-15297 | how segments become text: one alone as it is, more with a slash in front of the last |
| PosixPath.ResolveIsNormal | src/ts/cmd/endpoint-registry-ui/webapp/lib/aasForBrowser.js:15246-15285 | whatever the segments, the stack holds no `.` and `..` only at the bottom, and only if allowed above the root |
| PosixPath.NormalizeKeepsMeaning | src/ts/cmd/endpoint-registry-ui/webapp/lib/aasForBrowser.js:15357-15373 | the normal form is absolute if and only if the path is, resolves to the same segments, and those are normal |
| PosixPath.NormalizeIdempotent | src/ts/cmd/endpoint-registry-ui/webapp/lib/aasForBrowser.js:15357-15373 | normalising twice is normalising once, for every string |
| NextTick.StepKeeps | src/ts/cmd/endpoint-registry-ui/webapp/lib/aasForBrowser.js:15822-15877 | every step keeps: enqueued = started followed by pending, and queue, index and timers as a drain or a rest has them; it starts at most one callback |
| NextTick.StartsInOrder | src/ts/cmd/endpoint-registry-ui/webapp/lib/aasForBrowser.js:15822-15877 | over every history of enqueues, timers, returns and throws, callbacks start in enqueue order, each at most once; while one is unstarted, a drain runs or exactly one timer is pending |
| NextTick.TimerResumes | src/ts/cmd/endpoint-registry-ui/webapp/lib/aasForBrowser.js:15827-15840 | with nothing running and something unstarted, exactly one of the two timers can fire, and it starts the next callback: nothing is lost to a throw |
| NextTick.ReturnContinues | src/ts/cmd/endpoint-registry-ui/webapp/lib/aasForBrowser.js:15848-15863 | a callback that returns hands over to the next one at once, or the shim comes to rest |
| NextTick.Process.NextTick | src/ts/cmd/endpoint-registry-ui/webapp/lib/aasForBrowser.js:15866-15877 | appends and sets a timer only for the first callback of an idle shim |
| NextTick.Process.Loop | src/ts/cmd/endpoint-registry-ui/webapp/lib/aasForBrowser.js:15849-15863 | the two nested loops between callbacks, which swap queues and reset the index, choose the next callback or end the drain |
| NextTick.Process.DrainQueue | src/ts/cmd/endpoint-registry-ui/webapp/lib/aasForBrowser.js:15842-15864 | one drain up to its first callback |
| NextTick.Process.CleanUpNextTick | src/ts/cmd/endpoint-registry-ui/webapp/lib/aasForBrowser.js:15827-15840 | puts the interrupted queue in front and resumes it |
| NextTick.Process.CallbackReturns | src/ts/cmd/endpoint-registry-ui/webapp/lib/aasForBrowser.js:15852-15863 | the invariant is kept when a callback returns into the loop |
| NextTick.Process.CallbackThrows | src/ts/cmd/endpoint-registry-ui/webapp/lib/aasForBrowser.js:15852-15856 | a callback that throws leaves the drain interrupted, with the clean-up timer still set and the invariant kept |
| NextTick.Process.FireDrainTimer | src/ts/cmd/endpoint-registry-ui/webapp/lib/aasForBrowser.js:15842-15864 | the drain timer of a resting shim starts a drain and keeps the invariant |
| NextTick.Process.FireCleanTimer | src/ts/cmd/endpoint-registry-ui/webapp/lib/aasForBrowser.js:15827-15840 | the clean-up timer resumes an interrupted drain and keeps the invariant |
| SubmodelTree.CreatedMeans | src/ts/cmd/endpoint-registry-ui/webapp/lib/aasForBrowser.js:1401-1440 | building succeeds exactly on sound elements under valid parents, keeps kinds, idShorts, order and nesting, and gives every descendant its path as parent |
| SubmodelTree.AnnotatedMeans | src/ts/cmd/endpoint-registry-ui/webapp/lib/aasForBrowser.js:755-784 | the same for annotations, which are built once and then adopted |
| SubmodelTree.ChildrenMean | src/ts/cmd/endpoint-registry-ui/webapp/lib/aasForBrowser.js:1283-1322 | the same for the value of a collection and the statements of an entity |
| SubmodelTree.Rebuilt | src/ts/cmd/endpoint-registry-ui/webapp/lib/aasForBrowser.js:632-664 | building a built element under another parent gives what building the original there gives |
| SubmodelTree.FromJsonSucceedsIff | src/ts/cmd/endpoint-registry-ui/webapp/lib/aasForBrowser.js:632-664 | `fromJSON` succeeds exactly if all elements are sound, all references valid, and a submodel with elements is identified |
| SubmodelTree.FromJsonPlacesEverything | src/ts/cmd/endpoint-registry-ui/webapp/lib/aasForBrowser.js:632-664 | every element at every depth has its containers as parent; kinds, idShorts, order and nesting are those of the JSON |
| SubmodelTree.ParentIsThePathToTheRoot | src/ts/cmd/endpoint-registry-ui/webapp/lib/aasForBrowser.js:306-378 | the parent of the element at any index path lists its containers from the innermost out and ends in the submodel's own key |
| SubmodelTree.AttributesAreKept | src/ts/cmd/endpoint-registry-ui/webapp/lib/aasForBrowser.js:632-664 | after fromJSON, at every index path: the kind, idShort and number of children of the JSON element, both references of a relationship or annotated relationship, selfManaged of an entity and its asset exactly if self-managed, and no such attribute elsewhere |
| SubmodelTree.ParentKeys | src/ts/cmd/endpoint-registry-ui/webapp/lib/aasForBrowser.js:360-378 | the parent of every element, key by key: type IdShort, the name of the container's kind, its idShort, local, innermost container first; then the submodel's idType, "Submodel", id |
| SubmodelTree.KindNames | src/ts/cmd/endpoint-registry-ui/webapp/lib/aasForBrowser.js:1401-1440 | the modelType name of every kind |
| SubmodelTree.ReferenceIsCompleteIff | src/ts/cmd/endpoint-registry-ui/webapp/lib/aasForBrowser.js:250-291 | a reference is complete exactly if it is there and every key has idType, type and value |
| SubmodelTree.AnnotationIsBuiltIff | src/ts/cmd/endpoint-registry-ui/webapp/lib/aasForBrowser.js:1376-1400 | an annotation is built exactly if it is one of the six kinds of data element with a complete parent |
| SubmodelTree.Refusals | src/ts/cmd/endpoint-registry-ui/webapp/lib/aasForBrowser.js:1376-1440 | which error an element is refused with, case by case |
| SubmodelTree.FromJsonIsStable | src/ts/cmd/endpoint-registry-ui/webapp/lib/aasForBrowser.js:632-664 | `fromJSON` applied to a built submodel object reproduces it |
| SubmodelTree.SerialisedRoundTripIff | src/ts/cmd/endpoint-registry-ui/webapp/lib/aasForBrowser.js:632-805 | what `toJSON` writes of a built submodel is read back as that submodel if the original JSON holds no annotated relationship at any depth, and fails for a missing reference otherwise |
| SubmodelTree.WrittenWithoutReferences | src/ts/cmd/endpoint-registry-ui/webapp/lib/aasForBrowser.js:801-805 | what toJSON writes for an annotated relationship: everything but its two references |
| SubmodelTree.AnnotatedIsLost | src/ts/cmd/endpoint-registry-ui/webapp/lib/aasForBrowser.js:801-805 | a submodel that is built but whose serialised form cannot be read back |
| SubmodelObjects.ElementObject.GetReference | src/ts/cmd/endpoint-registry-ui/webapp/lib/aasForBrowser.js:360-378 | own key followed by the parent's keys, or an error if one is incomplete |
| SubmodelObjects.ElementObject.AddChild | src/ts/cmd/endpoint-registry-ui/webapp/lib/aasForBrowser.js:1318-1322 | the element given gets its parent set in place, and a fresh tree built from it is appended; siblings are untouched |
| SubmodelObjects.ElementObject.SetChildren | src/ts/cmd/endpoint-registry-ui/webapp/lib/aasForBrowser.js:1302-1309 | the loop appends what is built from all elements, in order, or stops at the first error |
| SubmodelObjects.ElementObject.AddAnnotation | src/ts/cmd/endpoint-registry-ui/webapp/lib/aasForBrowser.js:780-784 | the data element itself is appended and pointed at this relationship, or nothing is if the reference is incomplete |
| SubmodelObjects.ElementObject.SetAnnotation | src/ts/cmd/endpoint-registry-ui/webapp/lib/aasForBrowser.js:772-784 | the data elements themselves become children and point to this relationship |
| SubmodelObjects.CreateSubmodelElement | src/ts/cmd/endpoint-registry-ui/webapp/lib/aasForBrowser.js:1401-1440 | the constructors, which set parents on the objects they are given, build a fresh tree without sharing that reads as the specified one, or fail with the specified error |
| SubmodelObjects.NewEntity | src/ts/cmd/endpoint-registry-ui/webapp/lib/aasForBrowser.js:957-971 | statements first, then the asset of a self-managed entity |
| SubmodelObjects.NewAnnotatedRelationship | src/ts/cmd/endpoint-registry-ui/webapp/lib/aasForBrowser.js:756-768 | both references, then the annotation |
| SubmodelObjects.CreateDataElement | src/ts/cmd/endpoint-registry-ui/webapp/lib/aasForBrowser.js:1376-1400 | a fresh data element of one of six kinds under its own parent, or an error |
| SubmodelObjects.NewContainer | src/ts/cmd/endpoint-registry-ui/webapp/lib/aasForBrowser.js:1284-1309 | a collection or entity with its children built under its own reference, or the error of the first that fails |
| SubmodelObjects.NewRelationship | src/ts/cmd/endpoint-registry-ui/webapp/lib/aasForBrowser.js:1218-1222 | both references are required and complete |
| SubmodelObjects.BuildElements | src/ts/cmd/endpoint-registry-ui/webapp/lib/aasForBrowser.js:633-638 | the first loop of `fromJSON` builds every element under its own parent, in order, or stops at the first error |
| SubmodelObjects.SubmodelObject.AddSubmodelElement | src/ts/cmd/endpoint-registry-ui/webapp/lib/aasForBrowser.js:660-664 | the element given gets the submodel's reference as parent in place, and a fresh tree built from it is appended |
| SubmodelObjects.SubmodelObject.SetSubmodelElements | src/ts/cmd/endpoint-registry-ui/webapp/lib/aasForBrowser.js:652-659 | all elements in order, or the error of the first that fails |
| SubmodelObjects.SubmodelObject.GetReference | src/ts/cmd/endpoint-registry-ui/webapp/lib/aasForBrowser.js:306-321 | a single key, or an error without identification |
| SubmodelObjects.SubmodelFromJson | src/ts/cmd/endpoint-registry-ui/webapp/lib/aasForBrowser.js:632-664 | both passes on objects: a fresh submodel over fresh trees that read as specified, only parents of the input changed |
| SubmodelObjects.ObjectParents | src/ts/cmd/endpoint-registry-ui/webapp/lib/aasForBrowser.js:360-378 | the parent field of the object at any index path is the path to the root |
| SubmodelObjects.ObjectAttributes | src/ts/cmd/endpoint-registry-ui/webapp/lib/aasForBrowser.js:632-664 | the object at any index path has the attributes of the JSON element at that path: kind, idShort, number of children, both references, selfManaged and asset |
| SkillProtocol.Upsert | src/ts/cmd/onboarding-skill/src/base/persistence/SimpleMongoDbClient.ts:69-87 | a versioned upsert succeeds exactly if the id is absent or has the filter version, leaves version filter + 1, and otherwise changes nothing; other ids are untouched |
| SkillProtocol.StepKeeps | src/ts/cmd/onboarding-skill/src/base/Skill.ts:98-166 | every step of every handler, writes that never reach the database included, keeps: the record is the last successful write and its version counts them from the first one on; writes are chained machine steps under consecutive versions; deferred messages are conserved |
| SkillProtocol.Reachable | src/ts/cmd/onboarding-skill/src/base/Skill.ts:98-166 | that invariant holds after every interleaving of any number of handlers |
| SkillProtocol.RunAppends | src/ts/cmd/onboarding-skill/src/base/persistence/SimpleMongoDbClient.ts:80-86 | the log of successful writes of a conversation only grows at its end |
| SkillProtocol.VersionsAreConsumedOnce | src/ts/cmd/onboarding-skill/src/base/Skill.ts:126-150 | the i-th successful write had filter version First + i, where First counts the writes its first writer had lost; the stored version is one more than the last and so grows by one per success; no two successful writes share a filter version |
| SkillProtocol.NoLostUpdateIff | src/ts/cmd/onboarding-skill/src/base/Skill.ts:132-164 | in every interleaving a stored state was computed from the one stored right before it, or from the initial state if none was, if and only if the handler's preceding write succeeded; then it is its machine successor; otherwise it replaces another handler's state, or all earlier writes of its handler were lost |
| SkillProtocol.SuccessorOfStored | src/ts/cmd/onboarding-skill/src/base/Skill.ts:98-166 | a handler without earlier failed write stores the successor of the state stored before it, or of the initial state |
| SkillProtocol.HandlerReplays | src/ts/cmd/onboarding-skill/src/base/Skill.ts:98-166 | what a handler has done, computed from the steps and the machine alone: it read the record stored when it began, or the initial state at version 0; a closed record lets it do nothing; otherwise its events in order gave its current state, every command of every turn, and one update per change under consecutive versions |
| SkillProtocol.BegunAt | src/ts/cmd/onboarding-skill/src/base/Skill.ts:98-128 | every handler was begun at some step, so the laws about begun handlers cover all of them |
| SkillProtocol.WriteDecided | src/ts/cmd/onboarding-skill/src/base/persistence/SimpleMongoDbClient.ts:69-87 | in every interleaving the k-th write of a handler succeeds exactly if it reaches a database whose record is absent or has the version read plus k, and then stores that state under the next version; otherwise nothing changes |
| SkillProtocol.ResumedOnce | src/ts/cmd/onboarding-skill/src/base/Skill.ts:140-164 | the continuation of a write runs at most once |
| SkillProtocol.LostUpdate | src/ts/cmd/onboarding-skill/src/base/Skill.ts:132-164 | an eight-step run of two handlers in which the loser's second write replaces the winner's state |
| SkillProtocol.LostFirstWrite | src/ts/cmd/onboarding-skill/src/base/Skill.ts:132-164 | a run of one handler whose first write is lost and whose second one inserts the record under version 2 |
| SkillProtocol.DeferredSending | src/ts/cmd/onboarding-skill/src/base/MessageDispatcherDeferredWrapper.ts:12-33 | in every interleaving what a handler sent is a prefix of what the machine dispatched over all its events, and it sent nothing before one of its writes succeeded |
| SkillProtocol.CommitReleasesAll | src/ts/cmd/onboarding-skill/src/base/Skill.ts:150-164 | a step sends exactly if it continues a successful write, and then everything the machine has dispatched for the handler so far has been sent; otherwise what was sent stays as it was |
| SkillRuntime.CommandCollector.Add | src/ts/cmd/onboarding-skill/src/base/messaging/CommandCollector.ts:7-9 | appends at the end |
| SkillRuntime.CommandCollector.Pop | src/ts/cmd/onboarding-skill/src/base/messaging/CommandCollector.ts:11-13 | takes from the front, nothing from an empty list |
| SkillRuntime.DeferredDispatcher.Commit | src/ts/cmd/onboarding-skill/src/base/MessageDispatcherDeferredWrapper.ts:28-33 | the drain loop performs every collected call once and in order and empties the collector |
| SkillRuntime.SimpleMongoDbClient.Update | src/ts/cmd/onboarding-skill/src/base/persistence/SimpleMongoDbClient.ts:69-87 | performs the versioned upsert in place, or reports a duplicate key or a missing connection without a change |
| SkillRuntime.SimpleMongoDbClient.GetOneByKey | src/ts/cmd/onboarding-skill/src/base/persistence/SimpleMongoDbClient.ts:89-99 | the record of the id, none, or an error without connection |
| SkillRuntime.SimpleMongoDbClient.Connect | src/ts/cmd/onboarding-skill/src/base/persistence/SimpleMongoDbClient.ts:48-58 | opens the database once |
| SkillRuntime.ApplyEvent.constructor | src/ts/cmd/onboarding-skill/src/base/Skill.ts:98-128 | a call starts as the handler opened on the record it read |
| SkillRuntime.ApplyEvent.OnTransition | src/ts/cmd/onboarding-skill/src/base/Skill.ts:132-149 | actions collected one by one and the issued update are one transition step of the protocol |
| SkillRuntime.ApplyEvent.Deliver | src/ts/cmd/onboarding-skill/src/base/Skill.ts:140-149 | the oldest undecided update reaches the database or, without a connection, fails and changes nothing: in a system where this call is a handler, the steps Reach and Lose |
| SkillRuntime.ApplyEvent.OnUpdateDone | src/ts/cmd/onboarding-skill/src/base/Skill.ts:150-164 | the continuation of any decided update commits on success and keeps the queue on failure |
| GrpcIngress.AmqpClient.Publish | src/go/pkg/amqpclient/amqpclient.go:213-248 | against every sequence of attempts: returns exactly when one succeeds, without an error and having published exactly once; until then nothing is published and the backoff counts the failures |
| GrpcIngress.PublishesIff | src/go/pkg/amqpclient/amqpclient.go:213-248 | it returns exactly if some attempt is not refused and not made on a connection found closed, which the first attempt cannot find without a channel |
| GrpcIngress.Consume | src/go/cmd/grpc-endpoint-ingress/grpcingress.go:64-84 | one round of the consumer loop on the objects is the hand-over, publishing and acknowledging of the system |
| GrpcIngress.Interaction.Ack | src/go/pkg/interaction/interaction.go:10-14 | status 200 |
| GrpcIngress.Interaction.Answer | src/go/cmd/grpc-endpoint-ingress/grpcingress.go:78-82 | status 500 for an error, 200 otherwise |
| GrpcIngress.StepKeeps | src/go/cmd/grpc-endpoint-ingress/grpcserver.go:104-121 | every step keeps: a call without status has no publication unless the loop is about to acknowledge it; one with status was published once |
| GrpcIngress.ReturnedMeansPublishedOnce | src/go/cmd/grpc-endpoint-ingress/grpcserver.go:104-121 | in every interleaving an RPC that returned carries status 200, its status was written once, and exactly one publication is its own, with the payload of the message it arrived with, under exchange + "." + protocol + "." + role + "." + type of that message |
| GrpcIngress.PublishedInOrderOnce | src/go/cmd/grpc-endpoint-ingress/grpcingress.go:64-84 | no call is published twice, and publications leave in the order in which the loop took the calls over |
| GrpcIngress.WaitingCanBeAnsweredIff | src/go/cmd/grpc-endpoint-ingress/grpcingress.go:64-84 | in every reachable state with a live loop, the next steps can answer a handed-over call if and only if its message can be marshalled |
| GrpcIngress.CrashedIff | src/go/cmd/grpc-endpoint-ingress/grpcingress.go:66-75 | the loop is dead exactly if some message handed over marshals but names no receiver role |
| GrpcIngress.UnmarshallableWaitsForever | src/go/cmd/grpc-endpoint-ingress/grpcingress.go:67-71 | a call whose message cannot be marshalled never returns, whatever happens |
| GrpcPool.SwapRemoveLookup | src/go/cmd/grpc-endpoint-egress/grpcegress.go:173-175 | the swap-remove loses the stale client and no other: every other URL finds the client it found before |
| GrpcPool.GrpcEgress.ObtainGrpcClient | src/go/cmd/grpc-endpoint-egress/grpcegress.go:162-190 | a client in state Ready, Connecting or Idle is reused with the slice unchanged; a stale or missing one is replaced by the one just dialled, or nothing if the URL is empty or dialling fails; other URLs keep their clients and URLs stay distinct |
| GrpcPool.GrpcEgress.Serve | src/go/cmd/grpc-endpoint-egress/grpcegress.go:162-190 | over every sequence of calls each answer depends on the earlier calls for its own URL only |
| GrpcPool.OthersDoNotMatter | src/go/cmd/grpc-endpoint-egress/grpcegress.go:162-190 | the entry of a URL after any calls is what the calls for that URL alone make of it |
| GrpcPool.EntryMeans | src/go/cmd/grpc-endpoint-egress/grpcegress.go:162-190 | after any calls the next one keeps a client in state Ready, Connecting or Idle, and replaces one in TransientFailure or Shutdown |
| EndpointResolver.StrippedIff | src/go/cmd/endpoint-resolver/endpointresolver.go:247-250 | an identifier survives JSON encoding and removal of quotes exactly when none of its characters is escaped |
| EndpointResolver.StrippedTable | src/go/cmd/endpoint-resolver/endpointresolver.go:223-250 | what each character leaves: quotes a backslash, backslashes two, line feed, carriage return and tab their letter, other control characters, "<", ">", "&", U+2028 and U+2029 four hexadecimal digits, all others themselves |
| EndpointResolver.StrippedConcat | src/go/cmd/endpoint-resolver/endpointresolver.go:228-250 | an identifier is treated character by character |
| EndpointResolver.Resolver.ProcessEndpoint | src/go/cmd/endpoint-resolver/endpointresolver.go:194-301 | type grpc is published under egress.grpc, types http and https under egress.http, each with the endpoint's address, type, target, user, password and, if valid, certificate; every other type fails without publishing |
| EndpointResolver.Resolver.FanOutOne | src/go/cmd/endpoint-resolver/endpointresolver.go:188-302 | the endpoints of one descriptor, up to the first of unsupported type |
| EndpointResolver.Resolver.FanOut | src/go/cmd/endpoint-resolver/endpointresolver.go:162-305 | one publication per endpoint of each usable descriptor, in order, when nil is returned, and exactly those before the first unsupported endpoint otherwise |
| EndpointResolver.FanOutAt | src/go/cmd/endpoint-resolver/endpointresolver.go:162-305 | endpoint j of descriptor i is published at the position counting all endpoints before it, with its own attributes and the key of its type, if and only if it and all before it have type grpc, http or https |
| EndpointResolver.PlanMeans | src/go/cmd/endpoint-resolver/endpointresolver.go:307-365 | the registry is asked by the id of an identified receiver, else by protocol and role; which error, or which descriptors, follow |
| EndpointResolver.Resolver.ProcessGenericEgressMsg | src/go/cmd/endpoint-resolver/endpointresolver.go:133-305 | the same from the delivery on, with its errors: malformed, no receiver, registry failure; an empty answer drops the message |
| EndpointResolver.Resolver.ProcessDelivery | src/go/cmd/endpoint-resolver/endpointresolver.go:117-131 | every delivery is answered once; acknowledged exactly if it resolves and all its endpoints have type grpc, http or https |
| EndpointResolver.PrefixUnique | src/go/cmd/endpoint-resolver/endpointresolver.go:286-294 | the early exit is at the one place where all before are supported and the next is not |
| EndpointResolver.IdentifiedForGoodIff | src/go/cmd/endpoint-resolver/endpointresolver.go:223-278 | a message leaves with an identified receiver exactly if it came with one or the descriptor has a non-empty id, and exactly then every later rewriting, by whatever descriptor, leaves it as it is |
| EndpointResolver.UnidentifiedGetsDescriptor | src/go/cmd/endpoint-resolver/endpointresolver.go:223-278 | for an unidentified receiver only the identification changes, it becomes the descriptor's exactly if that is plain, and resolving the result again goes by that id and changes nothing |

## Left out

- PunycodeNumbers.ReadVarInt: stops with `NegativeDigit` where `basicToDigit` returns a negative number (code units 0 to 21, 58 to 64 and 91 to 96); what the decoder computes with negative digits is not modelled.
- PunycodeCodec.Encode: strings of more than 2^31-1 code units are left out; no engine has strings that long.
- SignedInts.WriteIntLE: integers only; the `noAssert` mode, fractional values, and lengths other than one to six bytes are left out, also for the other three methods.
- Base64.ToByteArray: the typed array is an array of bytes; the fallback to ordinary arrays is not modelled.
- Utf8Codec.Utf8Slice: offsets are natural numbers; coercion of other values is not modelled.
- NextTick.Process.Loop: a callback is foreign code, so the drain is cut into the pieces between callbacks; at most one callback runs at a time, and the fallbacks around `setTimeout` are not modelled.
- SubmodelObjects.SubmodelFromJson: the input is a tree without sharing, as parsed JSON is; attributes that are only copied (values, descriptions, qualifiers, data specifications, semantic ids of elements) and the MIME lookup of files are not modelled, and a missing attribute that must be non-empty is the empty string.
- SkillProtocol.StepKeeps: the state machine is an arbitrary function of state and event with the commands it dispatches; commands dispatched while a machine starts, error replies, serialisation of the state and the callbacks of the caller are not modelled. One handler's writes are decided in the order issued, and no record is deleted, and an update whose failure is reported has not changed the record.
- SkillRuntime.SimpleMongoDbClient.Connect: the gap between setting `connected` and the database being open is not modelled; nor are disconnecting and dropping the collection.
- SkillRuntime.DeferredDispatcher.Commit: a command that throws while it is performed is not modelled.
- GrpcIngress.AmqpClient.Publish: an attempt either publishes or fails; one that fails after the broker accepted the message is not modelled, nor are waiting times.
- GrpcIngress.StepKeeps: no fairness is assumed: that a call can be answered is stated, that it eventually is, is not. A message without frame, receiver or role ends the process.
- GrpcPool.GrpcEgress.ObtainGrpcClient: clients are known by URL and number; TLS settings, failing certificate pools and the connection of a dropped client, which the code does not close, are not modelled.
- EndpointResolver.Resolver.ProcessGenericEgressMsg: registry answers have the documented types (ill-typed ones end the process); HTTP, query escaping, PEM parsing and JSON marshalling of whole messages are abstract, and publishing succeeds as the AMQP client's does.
- Domain mapping (`toASCII`, `toUnicode`), IEEE-754 numbers, URL parsing, the MIME database, JSON schemas, and the lookup of elements by reference.
- `AmqpClient.ts`, HTTP servers and middleware, user interface controllers, configuration, logging and TLS.

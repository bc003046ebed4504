# Bolt client stack, text codecs and property maps, verified

The repository ships a Bolt client as browser bundles and a serializer of its own for the property maps
of its temporal graph store. This project models their most intricate code in Dafny and proves what it
is for. Each part comes as a specification (functions on values), theorems about it, and, where the
original changes things step by step, classes and loops proved to compute the specification.

| part | files |
|---|---|
| Punycode and dot-segment removal of URI.js | `Punycode`, `PunycodeLoops`, `PunycodeTexts`, `UrlPath`, `UrlPathLaws`, `JsText` |
| UTF-8 encoder and decoder | `Utf8`, `Utf8Errors` |
| 64-bit integers on 16-bit limbs, division, text | `Integer64`, `IntegerDivision`, `IntegerText`, `JsNumber` |
| calendar and time arithmetic | `Calendar`, `Temporal`, `TemporalSteps` |
| PackStream, chunking, and both together | `PackStream`, `PackStreamLosses`, `PackStreamBuffers`, `Framing`, `Chunking`, `ByteReading` |
| the pipelined connection | `Responses`, `BoltConnection` |
| the connection pool | `PoolLedger`, `ConnectionPool` |
| rediscovery and the choice of a server | `Rediscovery`, `LoadBalancing` |
| the Java property-map format | `PropertyMap`, `PropertyMapBuffers` |
| the bytes of all these formats, by example | `WireFormats` |

`dafny verify dfyconfig.toml` checks the whole project. The driver bundle and the worker consist of a few
very long lines, so the table names the webpack module or the function.

What lies outside is a parameter: whether a pooled connection is still valid and whether a new one can be
created, what each router answers, what an observer writes from within a callback, how the network cuts a
stream, the platform charset, and floating point: its relative rounding error and its 53-bit significand are
assumed, and of the logarithm in `div` that it is right to within one after rounding up.

## Where the code does not do what one would expect

- Dot-segment removal never returns, or throws, on a path with CR, U+2028 or U+2029 (`UrlPath.RemovesDotSegments`,
  `UrlPath.TerminatorsFail`).
- Encoding succeeds and decoding overflows on some inputs of 2048 code points (`Punycode.DecoderOverflows`).
- Structures with 256 fields or more lose their signature (`PackStreamLosses.SignatureKept`,
  `PackStreamLosses.NullsFallShort`).
- A map with the key `__proto__` loses it on the way, and one with a true `__isInteger__` is taken for an integer
  and cannot be packed (`PackStreamLosses.ProtoLost`, `PackStreamLosses.IntegerLookalike`).
- A second fatal error on a connection notifies the current observer once more (`Responses.SecondFatalIsSilent`,
  `Responses.ToldTwice`).
- A connection that cannot be created on release leaves later requests waiting although the limit is not
  used up (`PoolLedger.ReleaseKeepsBusy`, `PoolLedger.RequestStranded`).
- Normalising a duration whose carried seconds overflow changes its length (`Temporal.NormalizeConserves`,
  `Temporal.NormalizationOverflows`).
- String arrays in a property map are written under the boolean-array tag and cannot be read back
  (`PropertyMap.ReadMapInvertsWriteMapIff`, `PropertyMap.StringArrayLost`).
- Round robin skips a server where its offset is reset (`LoadBalancing.FairUnlessReset`, `LoadBalancing.ServerSkipped`).
- A fallback to seed routers compares addresses by identity, not by key, and can ask a router again that has
  just failed under the same key (`Rediscovery.NeverAsksAgain`, `Rediscovery.AskedAgain`).

## Model

| member | source | states |
|---|---|---|
| `Punycode.DecodeInvertsEncode` | src/main/resources/browser/e41f295b455b75f74791.worker.js:3 | `E` (encode) succeeds and `w` (decode) undoes it, if and only if the walk to every insertion, (r - n)(y + 1) + j for code point r after n with y elements in place and j before it, stays below 2^31; otherwise one of them reports an overflow (sections 6.2 and 6.3 of RFC 3492). |
| `PunycodeTexts.OneInsertion` | src/main/resources/browser/e41f295b455b75f74791.worker.js:3 | A text with exactly one code point c outside ASCII, at place p of n: it is written as the others, a hyphen if there are any, and the digits of (c - 128)n + p with thresholds 1, 1, 26, 26, ...; and that reads back. |
| `PunycodeTexts.SeveralInsertions` | src/main/resources/browser/e41f295b455b75f74791.worker.js:3 | A German word of 16 letters, four of them outside ASCII, is written as "bergrentrger-p9a8e4n8c", and that reads back. |
| `PunycodeTexts.Buecher` | src/main/resources/browser/e41f295b455b75f74791.worker.js:3 | The word for books is written as "bcher-kva", and that reads back. |
| `PunycodeTexts.OneHit` | src/main/resources/browser/e41f295b455b75f74791.worker.js:3 | A pass of `E` with one insertion, in closed form: its number, the next bias and the distance left. |
| `PunycodeTexts.AdaptIs` | src/main/resources/browser/e41f295b455b75f74791.worker.js:3 | `b` (adapt) in closed form: 36 for every division by 35 down to 455, and the rest (section 6.1 of RFC 3492). |
| `PunycodeTexts.CaseIgnored` | src/main/resources/browser/e41f295b455b75f74791.worker.js:3 | Capital and small letters read as the same digits. |
| `PunycodeTexts.DigitTable` | src/main/resources/browser/e41f295b455b75f74791.worker.js:3 | What every unit counts as, the negative ones included. |
| `PunycodeTexts.HeadNotBasic` | src/main/resources/browser/e41f295b455b75f74791.worker.js:3 | A unit outside ASCII before the last hyphen is refused. |
| `PunycodeTexts.NumberCutShort` | src/main/resources/browser/e41f295b455b75f74791.worker.js:3 | A text that ends within a number is refused. |
| `Punycode.ShortInputsFit` | src/main/resources/browser/e41f295b455b75f74791.worker.js:3 | Up to 1926 code points nothing overflows in either direction. |
| `Punycode.DecoderOverflows` | src/main/resources/browser/e41f295b455b75f74791.worker.js:3 | An input of 2048 code points that encodes and whose encoding does not decode. |
| `Punycode.DecodeTextInvertsEncode` | src/main/resources/browser/e41f295b455b75f74791.worker.js:3 | The same for strings of UTF-16 units, unpaired surrogates included, up to the string read back. |
| `Punycode.PassesReplay` | src/main/resources/browser/e41f295b455b75f74791.worker.js:3 | From any point between two passes, decoding the digits the encoder still writes inserts exactly the code points still missing if the walks to them stay in range, and overflows otherwise; and if they do, the encoder succeeds. |
| `Punycode.ScanReplays` | src/main/resources/browser/e41f295b455b75f74791.worker.js:3 | The same from the middle of a pass, where the encoder's divisor is already stale. |
| `Punycode.HitReplays` | src/main/resources/browser/e41f295b455b75f74791.worker.js:3 | One delta: encoder and decoder leave it with the same bias, code point and position. |
| `Punycode.AdaptAgrees` | src/main/resources/browser/e41f295b455b75f74791.worker.js:3 | `b` (adapt) gives encoder and decoder the same bias although the encoder uses one divisor for a whole pass. |
| `Punycode.AdaptIgnoresLargeDivisors` | src/main/resources/browser/e41f295b455b75f74791.worker.js:3 | Why: beyond the delta, the divisor does not matter to the bias. |
| `Punycode.ComputeAdapt` | src/main/resources/browser/e41f295b455b75f74791.worker.js:3 | The adaptation loop of `b` computes the recursive definition, with a stand-in for minus infinity (section 6.1 of RFC 3492). |
| `Punycode.DeltaRoundTrip` | src/main/resources/browser/e41f295b455b75f74791.worker.js:3 | A variable-length integer reads back as written, with any first weight and bias, if and only if the sum and the weights of its digits stay within the guards. |
| `Punycode.WeightsAlwaysFit` | src/main/resources/browser/e41f295b455b75f74791.worker.js:3 | The decoder's guard on digit weights never fires on digits the encoder writes, with any bias that occurs. |
| `Punycode.AdaptBounded` | src/main/resources/browser/e41f295b455b75f74791.worker.js:3 | Those biases lie between 0 and 215. |
| `Punycode.LowBiasesAlike` | src/main/resources/browser/e41f295b455b75f74791.worker.js:3 | All biases up to 10 give the same thresholds, so that the stand-in for minus infinity changes nothing. |
| `Punycode.BuiltNext` | src/main/resources/browser/e41f295b455b75f74791.worker.js:3 | The decoder's insertion index for the next occurrence is where the encoder's pass stands. |
| `PunycodeLoops.RunEncode` | src/main/resources/browser/e41f295b455b75f74791.worker.js:3 | The imperative encoder, from string to string, computes the specification, errors included. |
| `PunycodeLoops.RunDecode` | src/main/resources/browser/e41f295b455b75f74791.worker.js:3 | The imperative decoder with its `splice` computes the specification, errors included. |
| `PunycodeLoops.RunPass` | src/main/resources/browser/e41f295b455b75f74791.worker.js:3 | One pass over the input for one code point, with the state it leaves for the next. |
| `PunycodeLoops.ReadDigits` | src/main/resources/browser/e41f295b455b75f74791.worker.js:3 | The digit loop with both guards reads one delta and leaves the index behind it. |
| `JsText.FromCodePointsInverse` | src/main/resources/browser/e41f295b455b75f74791.worker.js:3 | Splitting a string into code points and joining them again loses nothing. |
| `UrlPath.RemovesDotSegments` | src/main/resources/browser/e41f295b455b75f74791.worker.js:3 | `L` (removeDotSegments) returns the path resolved segment by segment if and only if the path has no CR, U+2028 or U+2029; with one it throws or, behind a slash, loops for ever (section 5.2.4 of RFC 3986). |
| `UrlPath.TerminatorsFail` | src/main/resources/browser/e41f295b455b75f74791.worker.js:3 | A carriage return makes it throw, and behind a slash never return. |
| `UrlPathLaws.TwoDotsCancel` | src/main/resources/browser/e41f295b455b75f74791.worker.js:3 | `p/x/../q` and `p/q` have the same result, for p empty or beginning with a slash and x a segment that is not dots. |
| `UrlPathLaws.DotVanishes` | src/main/resources/browser/e41f295b455b75f74791.worker.js:3 | `p/./q` and `p/q` have the same result. |
| `UrlPathLaws.NothingAboveRoot` | src/main/resources/browser/e41f295b455b75f74791.worker.js:3 | `/../q` and `/q` have the same result. |
| `UrlPathLaws.DotsAtEnd` | src/main/resources/browser/e41f295b455b75f74791.worker.js:3 | `p/.`, `p/x/..` and `p/` have the same result. |
| `UrlPathLaws.LeadingDotsVanish` | src/main/resources/browser/e41f295b455b75f74791.worker.js:3 | `./q`, `../q` and `q` have the same result. |
| `UrlPathLaws.Example` | src/main/resources/browser/e41f295b455b75f74791.worker.js:3 | "/a/b/../c" becomes "/a/c". |
| `UrlPathLaws.Terminators` | src/main/resources/browser/e41f295b455b75f74791.worker.js:3 | The three characters that stop the pattern, by number. |
| `UrlPath.LoopWalks` | src/main/resources/browser/e41f295b455b75f74791.worker.js:3 | On a path that begins with a slash the regular-expression loop is a walk over the segments with a stack. |
| `UrlPath.TurnShortens` | src/main/resources/browser/e41f295b455b75f74791.worker.js:3 | Every turn of the loop that is not stuck strictly shortens the path. |
| `UrlPath.NoDotsLeft` | src/main/resources/browser/e41f295b455b75f74791.worker.js:3 | The result has no complete "." or ".." segment. |
| `UrlPath.FixedPoints` | src/main/resources/browser/e41f295b455b75f74791.worker.js:3 | The paths left unchanged are exactly those without dot segments and without those three characters. |
| `UrlPath.Idempotent` | src/main/resources/browser/e41f295b455b75f74791.worker.js:3 | Removing dot segments twice is removing them once. |
| `UrlPath.RunRemoveDotSegments` | src/main/resources/browser/e41f295b455b75f74791.worker.js:3 | The loop over the shrinking path and its segment stack computes the specification. |
| `Utf8.DecodeInvertsEncode` | src/main/resources/browser/e41f295b455b75f74791.worker.js:1 | The decoder undoes the encoder on every sequence of scalar values, also in fatal mode (section 3 of RFC 3629). |
| `Utf8.TextRoundTrip` | src/main/resources/browser/e41f295b455b75f74791.worker.js:1 | A string survives encoding and decoding if and only if its surrogates are paired and it does not begin with U+FEFF. |
| `Utf8.AcceptedIsEncoded` | src/main/resources/browser/e41f295b455b75f74791.worker.js:1 | From any state, bytes read without error are the rest of an encoding: the bytes can be told from the output. |
| `Utf8.FatalAcceptsEncodings` | src/main/resources/browser/e41f295b455b75f74791.worker.js:1 | Fatal mode accepts exactly the encodings of scalar values. |
| `Utf8.DecodedIsPaired` | src/main/resources/browser/e41f295b455b75f74791.worker.js:1 | Arbitrary bytes decode, in replacement mode, to a string of scalar values. |
| `Utf8.HandleSound` | src/main/resources/browser/e41f295b455b75f74791.worker.js:1 | The handler stays within its reachable states and emits only scalar values. |
| `Utf8Errors.UnexpectedByte` | src/main/resources/browser/e41f295b455b75f74791.worker.js:1 | From within a sequence, a byte with which no encoding goes on: one U+FFFD, and the byte is read again from the start (section 3.9 of the Unicode Standard); an error in fatal mode. |
| `Utf8Errors.UnexpectedStart` | src/main/resources/browser/e41f295b455b75f74791.worker.js:1 | A byte with which no encoding begins: one U+FFFD. |
| `Utf8Errors.UnexpectedEnd` | src/main/resources/browser/e41f295b455b75f74791.worker.js:1 | An end within a sequence: one U+FFFD. |
| `Utf8Errors.TakesIfPromising` | src/main/resources/browser/e41f295b455b75f74791.worker.js:1 | Every byte that the handler takes goes on the encoding of some scalar value. |
| `Utf8Errors.AsciiKept` | src/main/resources/browser/e41f295b455b75f74791.worker.js:1 | From any state, the bytes below 128 are, in order, exactly the scalar values below 128 of the result. |
| `Utf8Errors.AsciiUnitsKept` | src/main/resources/browser/e41f295b455b75f74791.worker.js:1 | The same for the string. |
| `Utf8.MarkDropped` | src/main/resources/browser/e41f295b455b75f74791.worker.js:1 | One leading U+FEFF is dropped, no more. |
| `Utf8.DecodeScalars` | src/main/resources/browser/e41f295b455b75f74791.worker.js:1 | Decoding ends although an unexpected byte is put back in front of the stream, and never fails in replacement mode. |
| `Utf8.EncodeBytes` | src/main/resources/browser/e41f295b455b75f74791.worker.js:1 | The encoder handler's shift loop writes one scalar value. |
| `Utf8.RunEncode` | src/main/resources/browser/e41f295b455b75f74791.worker.js:1 | The encoder's driving loop, from string to bytes. |
| `Utf8.RunDecode` | src/main/resources/browser/e41f295b455b75f74791.worker.js:1 | The decoder's driving loop with `prepend`, BOM removal and fatal mode. |
| `Integer64.AddValue` | src/main/resources/browser/neo4j-driver.chunkhash.bundle.js:1 | Module 197 `add`: addition modulo 2^64. |
| `Integer64.SubtractValue` | src/main/resources/browser/neo4j-driver.chunkhash.bundle.js:1 | `subtract`: subtraction modulo 2^64. |
| `Integer64.NegateValue` | src/main/resources/browser/neo4j-driver.chunkhash.bundle.js:1 | `negate`: exact but for MIN_VALUE, which is its own negative. |
| `Integer64.NotValue` | src/main/resources/browser/neo4j-driver.chunkhash.bundle.js:1 | `not`: the complement of both halves is -x - 1. |
| `Integer64.MultiplyValue` | src/main/resources/browser/neo4j-driver.chunkhash.bundle.js:1 | `multiply`: multiplication modulo 2^64 through every branch: zero, MIN_VALUE, signs, the fast path below 2^24 and the limbs. |
| `Integer64.Columns` | src/main/resources/browser/neo4j-driver.chunkhash.bundle.js:1 | The columns of the product lose no carry although each shifted sum has only 32 bits. |
| `Integer64.MultiplyLimbsNumber` | src/main/resources/browser/neo4j-driver.chunkhash.bundle.js:1 | Four 16-bit limbs: the product of the numbers they stand for, modulo 2^64. |
| `Integer64.AddLimbsNumber` | src/main/resources/browser/neo4j-driver.chunkhash.bundle.js:1 | The same for the sum. |
| `Integer64.SmallProduct` | src/main/resources/browser/neo4j-driver.chunkhash.bundle.js:1 | Below 2^24 the product is an exact machine number. |
| `Integer64.CompareOrder` | src/main/resources/browser/neo4j-driver.chunkhash.bundle.js:1 | `compare` is the signed order, although it looks at a wrapped difference. |
| `Integer64.FromDoubleValue` | src/main/resources/browser/neo4j-driver.chunkhash.bundle.js:1 | `fromNumber` of any number: zero for NaN and the infinities, saturated at both ends, and cut off toward zero in between. |
| `Integer64.FromNumberValue` | src/main/resources/browser/neo4j-driver.chunkhash.bundle.js:1 | `fromNumber` of a whole number saturates at both ends and is exact in between. |
| `Integer64.FromBitsValue` | src/main/resources/browser/neo4j-driver.chunkhash.bundle.js:1 | `new Integer(low, high)` for any numbers. |
| `IntegerDivision.Divide` | src/main/resources/browser/neo4j-driver.chunkhash.bundle.js:1 | `div`: the truncated quotient for every non-zero divisor, MIN_VALUE included; division by zero is an error. |
| `IntegerDivision.DividePositive` | src/main/resources/browser/neo4j-driver.chunkhash.bundle.js:1 | The estimate-and-correct loop reaches the quotient; its remainder strictly falls. |
| `IntegerDivision.TrialQuotient` | src/main/resources/browser/neo4j-driver.chunkhash.bundle.js:1 | Lowering the estimate ends with a trial quotient between 1 and the true one, with an exact product; the `isZero` fallback is never taken. |
| `IntegerDivision.Estimate` | src/main/resources/browser/neo4j-driver.chunkhash.bundle.js:1 | Whatever the rounding of three conversions and one division does, the estimate lies in [1, 2q], the correction step in [1, q], and both are whole numbers of one unit with at most 2^53 of it. |
| `IntegerDivision.StepOnGrid` | src/main/resources/browser/neo4j-driver.chunkhash.bundle.js:1 | Every corrected estimate `n - u` is a double, so the subtraction is exact. |
| `IntegerDivision.EstimateBound` | src/main/resources/browser/neo4j-driver.chunkhash.bundle.js:1 | The upper bound, from the relative rounding error of doubles alone. |
| `IntegerDivision.StepBound` | src/main/resources/browser/neo4j-driver.chunkhash.bundle.js:1 | The step `pow(2, log2 - 48)` is at most the quotient. |
| `IntegerDivision.Trial` | src/main/resources/browser/neo4j-driver.chunkhash.bundle.js:1 | The test on the wrapped 64-bit product tells a trial quotient that is too large. |
| `IntegerDivision.DivideLeast` | src/main/resources/browser/neo4j-driver.chunkhash.bundle.js:1 | MIN_VALUE as dividend: halving, dividing and correcting gives the truncated quotient. |
| `IntegerDivision.HalvedQuotient` | src/main/resources/browser/neo4j-driver.chunkhash.bundle.js:1 | Why: the quotient of -2^63 is twice that of -2^62 plus the quotient of what is left. |
| `IntegerDivision.Modulo` | src/main/resources/browser/neo4j-driver.chunkhash.bundle.js:1 | `modulo`: the remainder with the dividend's sign, even where the quotient wraps. |
| `IntegerDivision.HalveValue` | src/main/resources/browser/neo4j-driver.chunkhash.bundle.js:1 | `shiftRight(1)` rounds down. |
| `IntegerDivision.TwiceValue` | src/main/resources/browser/neo4j-driver.chunkhash.bundle.js:1 | `shiftLeft(1)` doubles modulo 2^64. |
| `IntegerText.PrintAndParse` | src/main/resources/browser/neo4j-driver.chunkhash.bundle.js:1 | `fromString(toString(x, r), r)` is x for every 64-bit x and radix 2 to 36. |
| `IntegerText.ToText` | src/main/resources/browser/neo4j-driver.chunkhash.bundle.js:1 | `toString`: six-digit groups with zero padding print the plain notation; a radix outside 2 to 36 is an error. |
| `IntegerText.FromText` | src/main/resources/browser/neo4j-driver.chunkhash.bundle.js:1 | `fromString`: eight-character groups, signs, infinities and interior minus signs as in the code. |
| `IntegerText.ParseInvertsNotation` | src/main/resources/browser/neo4j-driver.chunkhash.bundle.js:1 | Parsing inverts printing, MIN_VALUE included. |
| `IntegerText.ParseDigits` | src/main/resources/browser/neo4j-driver.chunkhash.bundle.js:1 | Digits of any non-negative number, however long, parse to that number modulo 2^64. |
| `IntegerText.ParseAnyDigits` | src/main/resources/browser/neo4j-driver.chunkhash.bundle.js:1 | Digits in either case, of any length, parse to their number modulo 2^64, except that "NaN" and "Infinity" are zero. |
| `IntegerText.ParseSigned` | src/main/resources/browser/neo4j-driver.chunkhash.bundle.js:1 | A plus sign changes nothing, a minus sign negates. |
| `IntegerText.ParseRefuses` | src/main/resources/browser/neo4j-driver.chunkhash.bundle.js:1 | Empty text, a radix outside 2 to 36 and an interior minus sign are errors. |
| `IntegerText.WordsAreZero` | src/main/resources/browser/neo4j-driver.chunkhash.bundle.js:1 | "NaN" and "Infinity" with or without a sign are zero. |
| `IntegerText.HexNotation` | src/main/resources/browser/neo4j-driver.chunkhash.bundle.js:1 | 255 prints as "ff" in radix 16, with small letters. |
| `IntegerText.DigitsSplit` | src/main/resources/browser/neo4j-driver.chunkhash.bundle.js:1 | A number printed in two groups, the lower one padded, is printed plainly. |
| `IntegerText.AccumulateDigits` | src/main/resources/browser/neo4j-driver.chunkhash.bundle.js:1 | Folding groups in wrapped arithmetic is folding them exactly and wrapping once. |
| `IntegerText.LeastToText` | src/main/resources/browser/neo4j-driver.chunkhash.bundle.js:1 | MIN_VALUE: quotient printed, last digit appended. |
| `IntegerText.PositiveToText` | src/main/resources/browser/neo4j-driver.chunkhash.bundle.js:1 | The group loop prints a positive value. |
| `Temporal.DatesAndDays` | src/main/resources/browser/neo4j-driver.chunkhash.bundle.js:1 | Module 824: `dateToEpochDay` and `epochDayToDate` are inverse to each other for years up to 999,999,999 of either sign (section 3.2.1 of ISO 8601:2004). |
| `Temporal.DateToEpochDayExact` | src/main/resources/browser/neo4j-driver.chunkhash.bundle.js:1 | `dateToEpochDay` in wrapping 64-bit operations is the number of days of the proleptic Gregorian calendar. |
| `Temporal.EpochDayToDateExact` | src/main/resources/browser/neo4j-driver.chunkhash.bundle.js:1 | `epochDayToDate` gives an existing date with that number of days. |
| `Temporal.TimesAndNanos` | src/main/resources/browser/neo4j-driver.chunkhash.bundle.js:1 | Local times and nanoseconds of the day are inverse to each other. |
| `Temporal.LocalDateTimesAndSeconds` | src/main/resources/browser/neo4j-driver.chunkhash.bundle.js:1 | Local date-times and epoch seconds with nanoseconds are inverse to each other, before 1970 too. |
| `Temporal.FloorExact` | src/main/resources/browser/neo4j-driver.chunkhash.bundle.js:1 | `floorDiv` and `floorMod` are rounded-down quotient and remainder for positive divisors. |
| `Temporal.NormalizeConserves` | src/main/resources/browser/neo4j-driver.chunkhash.bundle.js:1 | Duration normalisation leaves nanoseconds in [0, 10^9) and keeps the length if and only if the carried seconds fit. |
| `Temporal.NormalizationOverflows` | src/main/resources/browser/neo4j-driver.chunkhash.bundle.js:1 | A duration that normalisation changes. |
| `Temporal.OperationsAreIntegers` | src/main/resources/browser/neo4j-driver.chunkhash.bundle.js:1 | Sums, differences, products and comparisons are those of the 64-bit integer type. |
| `Temporal.QuotientsAreIntegers` | src/main/resources/browser/neo4j-driver.chunkhash.bundle.js:1 | So are quotients and remainders. |
| `TemporalSteps.DateStepsStay` | src/main/resources/browser/neo4j-driver.chunkhash.bundle.js:1 | Every intermediate value of `dateToEpochDay`, in unbounded integers, is within 64 bits, and the last is its result. |
| `TemporalSteps.DayStepsStay` | src/main/resources/browser/neo4j-driver.chunkhash.bundle.js:1 | The same for `epochDayToDate`. |
| `Temporal.MarchYear` | src/main/resources/browser/neo4j-driver.chunkhash.bundle.js:1 | The year estimate (400z + 591) / 146097, corrected by one. |
| `Calendar.EpochDayCounts` | src/main/resources/browser/neo4j-driver.chunkhash.bundle.js:1 | Reference calendar: the day number grows by one from each date to the next, from 1970-01-01. |
| `Calendar.EpochDayInjective` | src/main/resources/browser/neo4j-driver.chunkhash.bundle.js:1 | No two dates have the same day number. |
| `Calendar.YearEstimate` | src/main/resources/browser/neo4j-driver.chunkhash.bundle.js:1 | The linear estimate of the year is right or one too large, for every day. |
| `Calendar.FromMarchCorrect` | src/main/resources/browser/neo4j-driver.chunkhash.bundle.js:1 | Month and day from the day of a year that begins in March. |
| `PackStream.UnpackInvertsEncode` | src/main/resources/browser/neo4j-driver.chunkhash.bundle.js:1 | Module 822: unpacking a packed value followed by any bytes gives the value and leaves exactly those bytes, for nested values with sizes below 2^31, structures of fewer than 256 fields, and maps without a key `__proto__` or a true `__isInteger__`. |
| `PackStream.HeadRoundTrip` | src/main/resources/browser/neo4j-driver.chunkhash.bundle.js:1 | Every marker and size, in the shortest form that fits, reads back. |
| `PackStream.UnpackInvertsEntries` | src/main/resources/browser/neo4j-driver.chunkhash.bundle.js:1 | Map entries come back in order with their keys. |
| `PackStreamLosses.UnpackInvertsEncodeIff` | src/main/resources/browser/neo4j-driver.chunkhash.bundle.js:1 | Of the values packed with all their signatures, exactly the faithful ones come back: texts with paired surrogates and no leading byte order mark, sizes below 2^31, distinct keys, none of them `__proto__`, and no signature of a graph object. |
| `PackStreamLosses.UnfaithfulDiffers` | src/main/resources/browser/neo4j-driver.chunkhash.bundle.js:1 | Of any other value, unpacking fails or gives something else, whatever bytes follow. |
| `PackStreamLosses.SignatureKept` | src/main/resources/browser/neo4j-driver.chunkhash.bundle.js:1 | The packed bytes tell the signature of a structure if and only if it has fewer than 256 fields. |
| `PackStreamLosses.GraphUnpacks` | src/main/resources/browser/neo4j-driver.chunkhash.bundle.js:1 | A structure as the server sends it becomes a graph object if and only if its signature is 0x4E, 0x72 or 0x50 with three fields or 0x52 with five; with another number of fields these are refused. |
| `WireFormats.SimpleValues` | src/main/resources/browser/neo4j-driver.chunkhash.bundle.js:1 | The bytes of null, booleans and floats. |
| `WireFormats.WholeNumbers` | src/main/resources/browser/neo4j-driver.chunkhash.bundle.js:1 | The bytes of whole numbers of every width. |
| `WireFormats.Sizes` | src/main/resources/browser/neo4j-driver.chunkhash.bundle.js:1 | The markers that hold a size. |
| `WireFormats.LongSizes` | src/main/resources/browser/neo4j-driver.chunkhash.bundle.js:1 | The markers with a size of one, two and four bytes behind them. |
| `WireFormats.Composite` | src/main/resources/browser/neo4j-driver.chunkhash.bundle.js:1 | The bytes of a structure of a list and a byte string. |
| `WireFormats.Chunks` | src/main/resources/browser/neo4j-driver.chunkhash.bundle.js:1 | The bytes of a message in one chunk and of one in two. |
| `PackStreamLosses.KeysSpelled` | src/main/resources/browser/neo4j-driver.chunkhash.bundle.js:1 | The two names that objects treat apart, letter by letter. |
| `PackStreamLosses.TooLarge` | src/main/resources/browser/neo4j-driver.chunkhash.bundle.js:1 | What the packer takes has fewer than 2^16 fields and sizes below 2^32. |
| `PackStreamLosses.ProtoLost` | src/main/resources/browser/neo4j-driver.chunkhash.bundle.js:1 | A map with the one key `__proto__` is packed and comes back empty. |
| `PackStreamLosses.IntegerLookalike` | src/main/resources/browser/neo4j-driver.chunkhash.bundle.js:1 | A map whose `__isInteger__` is true is not taken for a map; one whose `__isInteger__` is false comes back. |
| `PackStreamLosses.NullsFallShort` | src/main/resources/browser/neo4j-driver.chunkhash.bundle.js:1 | A structure of 256 or more nulls takes a null for its signature and ends too early. |
| `PackStreamBuffers.Pack` | src/main/resources/browser/neo4j-driver.chunkhash.bundle.js:1 | The packer writes the encoding of a value to the chunker, whatever chunk boundaries fall inside it. |
| `PackStreamBuffers.UnpackValue` | src/main/resources/browser/neo4j-driver.chunkhash.bundle.js:1 | The unpacker, moving a position over a plain buffer, computes the reading function; a text that runs past the end is cut short, anything else that does is an error. |
| `PackStreamBuffers.Reader.NextHead` | src/main/resources/browser/neo4j-driver.chunkhash.bundle.js:1 | Marker and size, read byte by byte with the position, are the head that the reading function sees. |
| `PackStreamBuffers.UnpackKeyedValues` | src/main/resources/browser/neo4j-driver.chunkhash.bundle.js:1 | Its map loop: a repeated key replaces the earlier value, a key `__proto__` sets nothing, and every key is expected to be a text. |
| `PackStreamBuffers.Transmit` | src/main/resources/browser/neo4j-driver.chunkhash.bundle.js:1 | Packing, chunking, any cutting of the stream, dechunking and unpacking together: every value arrives, in order. |
| `PackStreamBuffers.SendAll` | src/main/resources/browser/neo4j-driver.chunkhash.bundle.js:1 | One message per value, whatever the flushes in between. |
| `PackStreamBuffers.ReceiveAll` | src/main/resources/browser/neo4j-driver.chunkhash.bundle.js:1 | Every delivered message is unpacked. |
| `Chunking.SendAndReceive` | src/main/resources/browser/neo4j-driver.chunkhash.bundle.js:1 | Modules 1593 and 1594: any run of writes and boundaries, flushed, cut up anywhere and fed to the dechunker gives the original messages, for buffer sizes 10 to 65537. |
| `Chunking.RunChunker` | src/main/resources/browser/neo4j-driver.chunkhash.bundle.js:1 | The chunker's output stands for exactly what was written. |
| `Chunking.RunDechunker` | src/main/resources/browser/neo4j-driver.chunkhash.bundle.js:1 | The dechunker delivers what the byte-at-a-time machine reads in the whole stream. |
| `Chunking.Chunker.CloseChunkIfOpen` | src/main/resources/browser/neo4j-driver.chunkhash.bundle.js:1 | An open chunk gets its length patched in; by the invariant it is never empty. |
| `Chunking.Chunker.MessageBoundary` | src/main/resources/browser/neo4j-driver.chunkhash.bundle.js:1 | Completes the message in progress. |
| `Chunking.Chunker.Flush` | src/main/resources/browser/neo4j-driver.chunkhash.bundle.js:1 | Hands over everything written so far, and only that. |
| `Chunking.Chunker.PutBytes` | src/main/resources/browser/neo4j-driver.chunkhash.bundle.js:1 | Appends any number of bytes, over as many buffers as it takes. |
| `Chunking.Dechunker.Advance` | src/main/resources/browser/neo4j-driver.chunkhash.bundle.js:1 | One step of the state machine consumes at least one byte and agrees with feeding those bytes one at a time. |
| `Chunking.Dechunker.Write` | src/main/resources/browser/neo4j-driver.chunkhash.bundle.js:1 | `write` agrees with the machine from any state, for any input. |
| `Chunking.GetUInt8` | src/main/resources/browser/neo4j-driver.chunkhash.bundle.js:1 | A byte of the CombinedBuffer is the byte of the concatenation. |
| `Framing.FragmentationIrrelevant` | src/main/resources/browser/neo4j-driver.chunkhash.bundle.js:1 | For every byte stream, valid or not, and every cut, messages and residual state are those of one write. |
| `Framing.FeedConcat` | src/main/resources/browser/neo4j-driver.chunkhash.bundle.js:1 | Feeding two pieces is feeding their concatenation. |
| `Framing.FeedChunk` | src/main/resources/browser/neo4j-driver.chunkhash.bundle.js:1 | A chunk, and an end marker, as the machine reads them. |
| `Responses.RunsStayInOrder` | src/main/resources/browser/neo4j-driver.chunkhash.bundle.js:1 | Module 1587, over every run: until the connection breaks, the queued observers are the answered ones followed by the current and the pending, and the last calls went to the answered ones in that order. |
| `Responses.HandleKeeps` | src/main/resources/browser/neo4j-driver.chunkhash.bundle.js:1 | One response: the k-th last response reaches the k-th queued observer, callbacks that write again and the RESET appended after a failure included. |
| `Responses.DeliverKeeps` | src/main/resources/browser/neo4j-driver.chunkhash.bundle.js:1 | A callback on a working connection only appends to the queue. |
| `Responses.QueryAnswered` | src/main/resources/browser/neo4j-driver.chunkhash.bundle.js:1 | A query that is answered: after any records and a success, exactly its observer has been told each record and then of the success, and the next is current, whatever is written meanwhile. |
| `Responses.ResetAnswered` | src/main/resources/browser/neo4j-driver.chunkhash.bundle.js:1 | However the RESET that follows a failure ends, the failure is over; a record in response to it breaks the connection. |
| `Responses.ResetEndsFailure` | src/main/resources/browser/neo4j-driver.chunkhash.bundle.js:1 | A request ignored after that is told so, and not the old failure. |
| `Responses.ResetAndFlushAnswered` | src/main/resources/browser/neo4j-driver.chunkhash.bundle.js:1 | A RESET that a caller asks for: completed by a success; anything else breaks the connection with a protocol error. |
| `Responses.UnknownResponse` | src/main/resources/browser/neo4j-driver.chunkhash.bundle.js:1 | An unknown message breaks the connection and tells everyone waiting. |
| `Responses.FatalTellsWhy` | src/main/resources/browser/neo4j-driver.chunkhash.bundle.js:1 | What a fatal error tells is that error. |
| `Responses.RefusedReset` | src/main/resources/browser/neo4j-driver.chunkhash.bundle.js:1 | On a broken connection a request is refused with its error, and a RESET still ends the failure. |
| `Responses.FailureIsShared` | src/main/resources/browser/neo4j-driver.chunkhash.bundle.js:1 | A failure is told to the request that failed and, as the same failure, to every request behind it that the server ignores for it, in order, whatever is written meanwhile. |
| `Responses.BrokenForGood` | src/main/resources/browser/neo4j-driver.chunkhash.bundle.js:1 | After a fatal error nothing from the wire is delivered and nothing is queued; observers only ever see errors. |
| `Responses.FatalTellsEach` | src/main/resources/browser/neo4j-driver.chunkhash.bundle.js:1 | A fatal error tells each waiting observer once, in order, and those written meanwhile right after. |
| `Responses.BreakTellsEveryoneOnce` | src/main/resources/browser/neo4j-driver.chunkhash.bundle.js:1 | If nobody writes meanwhile, everyone ever queued has had exactly one last call, in order. |
| `Responses.SecondFatalIsSilent` | src/main/resources/browser/neo4j-driver.chunkhash.bundle.js:1 | A second fatal error tells nobody if and only if no observer was current at the first; the current one is not cleared and is told again. |
| `Responses.ToldTwice` | src/main/resources/browser/neo4j-driver.chunkhash.bundle.js:1 | One observer told of two fatal errors. |
| `BoltConnection.Connection.HandleMessage` | src/main/resources/browser/neo4j-driver.chunkhash.bundle.js:1 | `_handleMessage` on the object's fields is that step; a broken connection does not change. |
| `BoltConnection.Connection.HandleFatalError` | src/main/resources/browser/neo4j-driver.chunkhash.bundle.js:1 | `_handleFatalError`: breaks, empties the queue, keeps the current observer, and whom it tells. |
| `BoltConnection.Connection.QueueObserver` | src/main/resources/browser/neo4j-driver.chunkhash.bundle.js:1 | `_queueObserver`: becomes current, waits, or is refused with the error. |
| `BoltConnection.Connection.CallBack` | src/main/resources/browser/neo4j-driver.chunkhash.bundle.js:1 | The observers' callbacks, those of both kinds of RESET included. |
| `BoltConnection.Connection.Serve` | src/main/resources/browser/neo4j-driver.chunkhash.bundle.js:1 | A whole run of writes, responses and channel failures. |
| `PoolLedger.RunsBalance` | src/main/resources/browser/neo4j-driver.chunkhash.bundle.js:1 | Module 1586, over every run of atomic steps: connections created are idle, handed out or destroyed, requests made are waiting, granted or refused; the active counter counts those handed out; idle and handed out stay within `maxSize`. |
| `PoolLedger.StepKeeps` | src/main/resources/browser/neo4j-driver.chunkhash.bundle.js:1 | Acquire, release, purge, idle error and timeout keep the ledger: no connection is in two places and nobody waits beside an idle connection. |
| `PoolLedger.ObtainKeeps` | src/main/resources/browser/neo4j-driver.chunkhash.bundle.js:1 | `_acquire`: the pop loop and the limit check. |
| `PoolLedger.ServeNextKeeps` | src/main/resources/browser/neo4j-driver.chunkhash.bundle.js:1 | `_processPendingAcquireRequests` restores the ledger after a connection came back, and the request at the head is never dropped. |
| `PoolLedger.ReleaseServesHead` | src/main/resources/browser/neo4j-driver.chunkhash.bundle.js:1 | A release grants the longest-waiting request, with the connection that came back if it is kept and valid, else with a new one; if none can be created that request is refused. The others keep their order. |
| `PoolLedger.AcquireGets` | src/main/resources/browser/neo4j-driver.chunkhash.bundle.js:1 | An acquire gets the last valid idle connection; without one it waits if and only if the limit is used up, and below the limit gets a new connection or is refused. |
| `PoolLedger.LastReleasedFirst` | src/main/resources/browser/neo4j-driver.chunkhash.bundle.js:1 | A connection released while nobody waits is the next handed out, and nothing else changes. |
| `PoolLedger.ReleaseKeepsBusy` | src/main/resources/browser/neo4j-driver.chunkhash.bundle.js:1 | After a release requests wait only for connections in use, if and only if no creation failed with a second request waiting. |
| `PoolLedger.RequestStranded` | src/main/resources/browser/neo4j-driver.chunkhash.bundle.js:1 | A run of four steps from an empty pool after which a request waits although no connection is in use. |
| `PoolLedger.OthersKeepBusy` | src/main/resources/browser/neo4j-driver.chunkhash.bundle.js:1 | No other step leaves a request waiting below the limit. |
| `PoolLedger.PopValidParts` | src/main/resources/browser/neo4j-driver.chunkhash.bundle.js:1 | The pop loop takes the last valid connection, and destroys exactly the invalid ones above it. |
| `ConnectionPool.Pool.AcquireConnection` | src/main/resources/browser/neo4j-driver.chunkhash.bundle.js:1 | `acquire` on the three dictionaries; other keys are untouched and every key's ledger is kept. |
| `ConnectionPool.Pool.TryAcquire` | src/main/resources/browser/neo4j-driver.chunkhash.bundle.js:1 | `_acquire`'s loop computes the specification. |
| `ConnectionPool.Pool.ReleaseConnection` | src/main/resources/browser/neo4j-driver.chunkhash.bundle.js:1 | `_release`: counter lowered, connection kept or destroyed, next request served. |
| `ConnectionPool.Pool.PurgeKey` | src/main/resources/browser/neo4j-driver.chunkhash.bundle.js:1 | `_purgeKey`: every idle connection of the key destroyed, the pool gone. |
| `ConnectionPool.Pool.KeepAll` | src/main/resources/browser/neo4j-driver.chunkhash.bundle.js:1 | `keepAll`: exactly the other keys are purged. |
| `ConnectionPool.Pool.Serve` | src/main/resources/browser/neo4j-driver.chunkhash.bundle.js:1 | A whole run over all keys, `keepAll` included: each key sees exactly the steps meant for it, and all ledgers stay balanced. |
| `ConnectionPool.Pool.OnIdleError` | src/main/resources/browser/neo4j-driver.chunkhash.bundle.js:1 | The idle observer's `onError` takes the connection out and destroys it. |
| `ConnectionPool.Pool.OnTimeout` | src/main/resources/browser/neo4j-driver.chunkhash.bundle.js:1 | The acquisition timer takes the request out and refuses it, unless it was granted. |
| `Rediscovery.RefreshOutcome` | src/main/resources/browser/neo4j-driver.chunkhash.bundle.js:1 | Module 825: a refresh asks seeds and known routers in the order that `_useSeedRouter` says, up to the first that answers or refuses; that is its outcome, else service unavailable. |
| `Rediscovery.FetchKnownForgets` | src/main/resources/browser/neo4j-driver.chunkhash.bundle.js:1 | Rediscovery over known routers removes from the table exactly the keys of those before the first that answers, all of them if none does. |
| `Rediscovery.FetchKnownKeepsRest` | src/main/resources/browser/neo4j-driver.chunkhash.bundle.js:1 | The table keeps exactly the routers from the first answering one on, if and only if none of these repeats the key of one before. |
| `Rediscovery.FailedRefresh` | src/main/resources/browser/neo4j-driver.chunkhash.bundle.js:1 | After a refresh without an answer the table has no routers, is stale for everything, and the next refresh goes to the seeds. |
| `Rediscovery.AnsweredRefresh` | src/main/resources/browser/neo4j-driver.chunkhash.bundle.js:1 | After an answered refresh the answer is the table, and the seeds come first again if nobody can write or a known router had to step in for them. |
| `Rediscovery.NeverAsksAgain` | src/main/resources/browser/neo4j-driver.chunkhash.bundle.js:1 | Whatever the routers answer, no known router is asked again as a seed under the same key, if and only if every seed with the key of a known router is the same object; a refresh that begins with the seeds asks none again if and only if no known router has the key of a seed. |
| `Rediscovery.AskedAgain` | src/main/resources/browser/neo4j-driver.chunkhash.bundle.js:1 | A known router that fails is asked again as a seed of the same key. |
| `Rediscovery.AllServersMeans` | src/main/resources/browser/neo4j-driver.chunkhash.bundle.js:1 | `allServers`: routers, readers and writers. |
| `Rediscovery.FetchAnswer` | src/main/resources/browser/neo4j-driver.chunkhash.bundle.js:1 | The `reduce` chain stops asking at the first answer. |
| `LoadBalancing.LoadBalancer.RefreshRoutingTable` | src/main/resources/browser/neo4j-driver.chunkhash.bundle.js:1 | `_refreshRoutingTable` on the object, with `keepAll` on the pool for the servers of the new table. |
| `LoadBalancing.LoadBalancer.FetchRoutingTable` | src/main/resources/browser/neo4j-driver.chunkhash.bundle.js:1 | The loop over routers, forgetting in place. |
| `LoadBalancing.LoadBalancer.Forget` | src/main/resources/browser/neo4j-driver.chunkhash.bundle.js:1 | `forget`: no reader or writer any more, idle connections purged. |
| `LoadBalancing.LoadBalancer.ForgetWriter` | src/main/resources/browser/neo4j-driver.chunkhash.bundle.js:1 | `forgetWriter`: no writer any more; everything else stays. |
| `LoadBalancing.LoadBalancer.ChooseServer` | src/main/resources/browser/neo4j-driver.chunkhash.bundle.js:1 | `acquireConnection` up to the choice: refreshes if and only if stale, and chooses among the right servers one with the fewest connections in use. |
| `LoadBalancing.WithoutKeyKeeps` | src/main/resources/browser/neo4j-driver.chunkhash.bundle.js:1 | Module 826: forgetting keeps exactly the addresses with another key, and forgetting twice is forgetting once. |
| `LoadBalancing.LeastConnectedStrategy.Select` | src/main/resources/browser/neo4j-driver.chunkhash.bundle.js:1 | Module 1610 `_select`: the first, going round from the round-robin index, among those with the fewest connections in use. |
| `LoadBalancing.LeastIsUnique` | src/main/resources/browser/neo4j-driver.chunkhash.bundle.js:1 | There is exactly one such server. |
| `LoadBalancing.LeastOfEquals` | src/main/resources/browser/neo4j-driver.chunkhash.bundle.js:1 | Equally loaded servers are chosen in turn. |
| `LoadBalancing.RoundRobinArrayIndex.Next` | src/main/resources/browser/neo4j-driver.chunkhash.bundle.js:1 | Module 829: the offset modulo the length, reset at MAX_SAFE_INTEGER. |
| `LoadBalancing.FairUnlessReset` | src/main/resources/browser/neo4j-driver.chunkhash.bundle.js:1 | n calls in a row give every index of an n-element array, if and only if the offset is not reset among them or n divides 2^53 - 1. |
| `LoadBalancing.ServerSkipped` | src/main/resources/browser/neo4j-driver.chunkhash.bundle.js:1 | Two servers, of which one is skipped at the reset. |
| `PropertyMap.ReadMapInvertsWriteMap` | src/main/java/cn/DynamicGraph/Common/Mapserializer.java:11-35 | `readMap` inverts `writeMap` for every map and every order of its entries, and takes exactly the bytes written. |
| `PropertyMap.ReadMapInvertsWriteMapIff` | src/main/java/cn/DynamicGraph/Common/Mapserializer.java:11-35 | A map comes back, whatever bytes follow, if and only if all its values are scalars or non-empty arrays of numbers or booleans. |
| `PropertyMap.StringArrayLost` | src/main/java/cn/DynamicGraph/Common/ArraySerializer.java:90-105 | A map with an array of one string is read as one with an array of one boolean. |
| `PropertyMap.ReadInvertsWrite` | src/main/java/cn/DynamicGraph/Common/ArraySerializer.java:107-206 | A scalar or non-empty array of numbers or booleans reads back, leaving what follows. |
| `PropertyMap.ReadInvertsWriteIff` | src/main/java/cn/DynamicGraph/Common/ArraySerializer.java:90-206 | For a single value, reading back whatever follows holds of nothing else: string arrays go under the boolean-array tag, empty arrays and null are refused, other types leave no byte. |
| `WireFormats.ScalarBytes` | src/main/java/cn/DynamicGraph/Common/BaseSerializer.java:94-128 | The bytes of an integer, a float and a boolean. |
| `WireFormats.LongBytes` | src/main/java/cn/DynamicGraph/Common/BaseSerializer.java:101-112 | The bytes of a long and a double. |
| `WireFormats.ArrayBytes` | src/main/java/cn/DynamicGraph/Common/ArraySerializer.java:24-31 | The bytes of a text and of an array. |
| `WireFormats.ArrayTags` | src/main/java/cn/DynamicGraph/Common/JavaSerialzerDataType.java:3-20 | The tags of arrays are the negated tags of their elements. |
| `WireFormats.EndsOfRange` | src/main/java/cn/DynamicGraph/Common/BaseSerializer.java:94-112 | The least and greatest numbers are written. |
| `WireFormats.OtherTags` | src/main/java/cn/DynamicGraph/Common/ArraySerializer.java:160-206 | Tag -1 is read as an array of texts, unknown tags as null. |
| `WireFormats.EmptyAndNegative` | src/main/java/cn/DynamicGraph/Common/ArraySerializer.java:160-206 | An array of size zero is read, a negative size refused, a map of negative size empty. |
| `PropertyMap.ReadFields` | src/main/java/cn/DynamicGraph/Common/ArraySerializer.java:8-88 | The elements of every typed array read back. |
| `PropertyMap.ReadWritten` | src/main/java/cn/DynamicGraph/Common/BaseSerializer.java:68-80 | A length-prefixed string reads back through the platform charset. |
| `PropertyMap.FieldRoundTrip` | src/main/java/cn/DynamicGraph/Common/BaseSerializer.java:91-128 | Big-endian two's-complement fields of four, eight and one byte. |
| `PropertyMap.ReadLongsInvertsWriteLongs` | src/main/java/cn/DynamicGraph/Common/Serialization.java:16-47 | `readMapFromByteArray` inverts the long-to-long `writeMapToByteArray`, whatever order the map is visited in. |
| `PropertyMap.WriteLongs` | src/main/java/cn/DynamicGraph/Common/Serialization.java:27-47 | The output is 4 + 16 * size bytes long. |
| `PropertyMapBuffers.WriteMapTo` | src/main/java/cn/DynamicGraph/Common/Mapserializer.java:11-25 | The writing loop over the shared buffer, stopping at a value that throws. |
| `PropertyMapBuffers.ReadMapFrom` | src/main/java/cn/DynamicGraph/Common/Mapserializer.java:26-35 | The reading loop over the shared buffer, errors included. |
| `PropertyMapBuffers.WriteAnyTo` | src/main/java/cn/DynamicGraph/Common/ArraySerializer.java:190-197 | Dispatch of the writer over scalars and arrays. |
| `PropertyMapBuffers.ReadAnyFrom` | src/main/java/cn/DynamicGraph/Common/ArraySerializer.java:160-206 | Dispatch of the reader on the sign of the tag. |
| `PropertyMapBuffers.WriteNumberArray` | src/main/java/cn/DynamicGraph/Common/ArraySerializer.java:8-80 | The element loops of the array writers. |
| `PropertyMapBuffers.ReadNumberArray` | src/main/java/cn/DynamicGraph/Common/ArraySerializer.java:16-88 | The element loops of the array readers fill an array in place. |
| `PropertyMapBuffers.StoreAndLoad` | src/main/java/cn/DynamicGraph/Common/Serialization.java:48-65 | A typed map through a byte array and back is the same map. |
| `PropertyMapBuffers.WriteLongsToByteArray` | src/main/java/cn/DynamicGraph/Common/Serialization.java:27-47 | The writing loop of the long-to-long map. |
| `PropertyMapBuffers.ReadLongsFromByteArray` | src/main/java/cn/DynamicGraph/Common/Serialization.java:16-26 | The reading loop of the long-to-long map. |

## Left out

- Punycode: `toASCII`, `toUnicode` and the splitting at dots and at `@`.
- Punycode.ComputeAdapt: where the divisor is zero, which takes a malformed input, the original's bias is minus infinity and the model's is -1; `Punycode.LowBiasesAlike` shows that they act alike.
- PackStreamLosses.UnpackInvertsEncodeIff: says nothing of values that contain a structure of 256 or more fields; and assembling a path from its parts is not modelled.
- PackStreamBuffers.UnpackValue: a message in several slices is read like one in a single slice; there the original reads past the end as undefined bytes instead of failing, and fills up a text with zeros.
- PackStreamBuffers.UnpackKeyedValues: a key that is not a text is an error, where the original makes a property name of it; that a value under `__proto__` becomes the prototype of the object is not modelled.
- PackStreamBuffers.Pack: the exception thrown for an object that is taken for an integer; such objects are outside what it accepts.
- PackStream: `putInt64`, `getInt64`, lossy number mode, undefined values, integer-like keys that the engine moves to the front, and the error callback of values that cannot be packed.
- Chunking.Chunker.PutFloat64: a double is eight opaque bytes; `putInt8` is as `putUInt8`.
- IntegerDivision.Estimate: real floating point is replaced by any values within the relative rounding error, the whole part of the quotient being a double, and any logarithm within one; overflow and subnormal numbers cannot occur in the range used.
- IntegerDivision.HalveValue: shifts by amounts other than one.
- Temporal.DatesAndDays: ISO text formatting, offsets and zone identifiers.
- Responses.HandleKeeps: the handshake, the observer that initialises a connection, idle observers, and the exception thrown when a response arrives and nobody is waiting.
- Responses.FatalTellsEach: what observers refused by a broken connection write in turn.
- PoolLedger.RunsBalance: steps are atomic. With real promises the counter rises only after creation, and a request that times out in flight is released without having been counted.
- ConnectionPool.Pool.TryAcquire: `removeIdleObserver` and `installIdleObserver` as calls; only the events they lead to are modelled.
- Rediscovery.FailedRefresh: a connection that breaks while a router is asked makes the driver forget that server as reader and writer at once and purge its pool; this effect on readers and writers is not part of the model.
- LoadBalancing.LoadBalancer.RefreshRoutingTable: the same effect on the table and the pool, the connections acquired to ask a router, session handling, DNS, and the parsing of the server's answer.
- LoadBalancing.LoadBalancer.ChooseServer: the error raised when there is no server is an absent value here.
- PropertyMap.ReadInvertsWrite: boxed arrays come back as arrays of primitives; dates, times and the unused string codec are not modelled.
- PropertyMap.ReadMapInvertsWriteMap: the capacity limit of the buffer, and memory exhausted by a length read from damaged bytes.
- `readJMapFromObject`, `DGVersion`, the RocksDB classes and the server bootstrap: copying, one-line masks and configuration.
- URL and regular-expression parsing, WebSocket and HTTP channels, logging, worker messaging: platform code.

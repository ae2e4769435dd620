# libslave column decoders in Dafny

libslave reads MySQL's row-based binary log. When a row event arrives, each
column of the table decodes its value from the row image in turn. It does this
with the `unpack(from)` method of the column's `Field_*` class: the method reads
the bytes at the cursor, stores the value in `field_data`, and returns the
cursor just past the column. Each class's constructor first derives the sizes
that `unpack` relies on from the declared type string (`varchar(300)`,
`decimal(5,2)`, `bit(13)`, `time(3)`, `enum('a','b')`, ...).

This project models those constructors and decoders from `field.cpp`, and
proves what they compute:

- `Fields`: the result of every constructor.
  - Each column class becomes a `Kind`, built by a function returning
    `Result<Kind, ConstructError>`. A `ConstructError` stands for the
    constructor's `throw`.
  - The enum and set constructors are methods with the counting loop.
- `Fields.Decode`: the pure specification of every `unpack`. It returns the
  stored value and the new cursor, or an error: `OutOfBounds` for a read past
  the buffer, `WrongPackLength` for the throw of `Field_blob::get_length`.
- `Fields.Field`: a class with a mutable `data` field, standing for
  `field_data`.
  - Its `Unpack` methods run the source's loops (the bit fold, the byte
    reversal of the 5.6 temporal types) and update `data`.
  - They are proved to agree with `Decode`.
- `TypeString`: the pieces of the C library the constructors use:
  - `std::string::find`;
  - the `substr` constructor, with the `size_t` wrap of `e-b-1`;
  - `atoi`;
  - `sscanf` with `(%d,%d)` and `keyword(%d)`.
- `Bytes` and `Arith`: the korr readers, little- and big-endian values, C's
  truncating `/` and `%`, and the unsigned conversions.
- `Temporal`: the fractional-seconds width switch and the field extraction of
  the MySQL 5.6.4 time and datetime layouts.
- `FieldProperties`, `ConstructorProperties` and `WorkedExamples`:
  - what each decoder reads, and its round trips;
  - what each constructor derives from a well-formed declaration;
  - the concrete cases.

Assumptions of the model:

- The host is little-endian. The source reads a native `short` for enum and
  writes into the bytes of a `ulonglong` for the 5.6 types, so both depend on
  the host's byte order.
- `char` is signed (two's complement), as on x86. Tiny (field.cpp:47), the
  1-byte enum (field.cpp:171-188) and the set as written (`SetMaskAsWritten`,
  field.cpp:209) load a `char`, so their values depend on it.
- `pack_length()` is declared in `field.h`, which is not part of this model.
  It is taken as:
  - tiny 1, short 2, medium 3, long 4, longlong 8, date 3;
  - time 3, timestamp 4 and datetime 8 before 5.6.4;
  - the computed `length_bytes`, `_pack_length` or `field_length` for the
    other fixed-width classes.
  - For enum and set it depends on the element count, so it is a parameter of
    those kinds (`NewEnum`, `NewSet`).
- `Field_bit::_pack_length` is also declared in `field.h`. It is taken to be a
  32-bit `unsigned int`, so the `int` quotient of line 418 is converted modulo
  2^32 when it is stored (`BitPackLength`).
- For a 1-byte set, `Decode` stores the unsigned byte, not the sign-extended
  value that field.cpp:209 computes (see the findings).

## Model

| member | source | states |
|---|---|---|
| Fields.NewVarstring | field.cpp:243-258 | the constructor succeeds exactly when both `(` and `)` are present; the result is a varstring with a 1- or 2-byte length prefix |
| Fields.SizeVarstring | field.cpp:251-258 | the symbol count is kept as the field length and the prefix is 1 or 2 bytes |
| ConstructorProperties.VarcharSizing | field.cpp:243-258 | `keyword(N)` gives N symbols and a 1-byte prefix exactly when N * maxlen < 256, else a 2-byte one |
| ConstructorProperties.NewVarstringOfParenthesized | field.cpp:243-251 | with both parentheses found, the symbol count is `atoi` of the text between them |
| ConstructorProperties.VarcharPrefixFitsLongestValue | field.cpp:252-255 | the chosen prefix can hold the longest value in bytes (below 65,536), and one byte could not when two are chosen |
| WorkedExamples.VarcharExamples | field.cpp:243-258 | varchar(100) at 1 byte per symbol takes a 1-byte prefix; varchar(300) takes a 2-byte one |
| WorkedExamples.VarcharWithoutWidth | field.cpp:246-248 | a declaration without parentheses is refused |
| Fields.NewBlob | field.cpp:284-294 | every blob class has a prefix of 1 to 4 bytes |
| FieldProperties.BlobFamilyWidths | field.cpp:284-294 | tinyblob, blob, mediumblob and longblob take 1, 2, 3 and 4 prefix bytes |
| Fields.GetLength | field.cpp:311-354 | only a width of 1 to 4 avoids the throw; then it succeeds exactly when the prefix is inside the buffer, and the length fits the `unsigned int` returned (characterised by BlobLengthIsLittleEndian) |
| FieldProperties.BlobLengthIsLittleEndian | field.cpp:311-354 | get_length is the little-endian value of the 1 to 4 prefix bytes; any other width is an error (the throw), and a prefix past the buffer is an error |
| WorkedExamples.BlobExample | field.cpp:353 | a 5-byte prefix width is refused |
| Fields.DecimalWidth | field.cpp:378-379 | a decimal with at least one digit takes at least one byte |
| Fields.NewDecimal | field.cpp:364-379 | without a `(`, or when `(%d,%d)` does not convert two numbers after it, the declaration is refused; a success is a decimal with at least one digit and at least one byte |
| ConstructorProperties.DecimalWithoutScale | field.cpp:371-373 | `keyword(M)` is refused: the scan converts only M |
| ConstructorProperties.DecimalWithoutNumericScale | field.cpp:371-373 | `keyword(M,scale)` is refused when the scale does not start a `%d` |
| WorkedExamples.DecimalRefusedExamples | field.cpp:371-373 | decimal(5) and decimal(5,x) are refused |
| Fields.DecimalGuardAsWritten | field.cpp:371 | the guard as written ensures a positive precision and a non-negative count of integer digits, M - D |
| Fields.DecimalGuard | field.cpp:371 | the corrected guard also ensures a scale between 0 and the precision |
| Fields.SizeDecimal | field.cpp:371-379 | success exactly when the (corrected) guard holds; then M - D integer and D fractional digits; otherwise the malformed-type error |
| ConstructorProperties.DeclaredPairParts | field.cpp:364-371 | in `keyword(M,scale)` the `(` is found after the keyword and `(%d,%d)` reads M and then the scale |
| ConstructorProperties.DecimalSizing | field.cpp:364-379 | `keyword(M,D)` gives (M-D, D, DecimalWidth(M-D, D)) when M > 0 and M >= D, and is refused otherwise |
| ConstructorProperties.Dig2BytesIsMinimal | field.cpp:378 | each table entry is the fewest bytes whose value range, less a sign bit, holds r leftover digits; 9 digits fit 4 bytes |
| WorkedExamples.DecimalExample | field.cpp:364-379 | decimal(5,2) has 3 integer digits, 2 fractional and 3 bytes |
| WorkedExamples.DecimalWidthExample | field.cpp:379 | 3 integer and 2 fractional digits take 3 bytes |
| ConstructorProperties.NegativeScaleScan | field.cpp:371 | `(%d,%d)` reads `(M,-D)` as M and -D |
| ConstructorProperties.NegativeScalePassesGuardAsWritten | field.cpp:371-379 | finding: `(M,-D)` with M >= 1 and 1 <= D < 9 passes the guard as written, and `frac % 9` is then negative; the corrected constructor refuses it |
| ConstructorProperties.NegativeMultipleOfNineAsWritten | field.cpp:371-379 | `decimal(5,-9)` passes the guard as written, its table indices -9 % 9 = 0 and 14 % 9 = 5 are in range and the sizing is 3 bytes; the corrected constructor refuses it |
| ConstructorProperties.NegativeRemainder | field.cpp:379 | C's `%` of -D by 9 is -D for 1 <= D < 9 |
| Fields.NewBit | field.cpp:408-421 | success needs both parentheses and gives a bit kind |
| Fields.SizeBit | field.cpp:418-421 | success exactly when the pack length is 1 to 8, and the kind then holds it |
| ConstructorProperties.NewBitOfParenthesized | field.cpp:408-418 | `keyword(D)` is sized by `atoi(D)` |
| Fields.BitPackLength | field.cpp:418 | the stored pack length fits 32 bits, and for a width N from 0 to 2^31 - 8 it is (N + 7) / 8 (characterised by BitPackLengthOfWidth) |
| ConstructorProperties.BitPackLengthIsBytesForBits | field.cpp:418 | for a width from 0 to 2^31 - 8, where `N + 7` fits an `int`, the pack length is the fewest whole bytes holding that many bits |
| ConstructorProperties.BitPackLengthOfWidth | field.cpp:418-420 | for 0 <= N <= 2^31 - 8 the pack length is (N+7)/8, and it lies in 1 to 8 exactly when N lies in 1 to 64 |
| ConstructorProperties.BitPackLengthOfNegative | field.cpp:418-420 | a negative width gives pack length 0 or, through the unsigned wrap, one above 8 |
| ConstructorProperties.BitSizing | field.cpp:408-421 | `keyword(N)` gives (N+7)/8 bytes for 1 <= N <= 64, and the invalid-length error for 0 and for 64 < N <= 2^31 - 8 |
| ConstructorProperties.BitRefusesNegativeWidth | field.cpp:416-421 | `keyword(-N)` is refused |
| WorkedExamples.BitExample | field.cpp:408-421 | bit(13) takes 2 bytes |
| WorkedExamples.BitRefusedExamples | field.cpp:420-421 | bit(0) and bit(65) are refused |
| Temporal.FspLength | field.cpp:477-501 | the width lies between the base and the base plus 3 bytes, and a digit count outside 0 to 6 is refused (also lines 560-584 and 638-662; characterised by FspLengthIsHalfRoundedUp) |
| Fields.FspDigits | field.cpp:475 | without the literal `keyword(` at the start, the precision stays 0 (also lines 558 and 636; characterised by FspOfDeclared) |
| TypeString.ScanAfter | field.cpp:475 | a conversion needs the literal prefix at the start and at least one character after it (also lines 558 and 636) |
| Temporal.FspLengthIsHalfRoundedUp | field.cpp:477-501 | the switch succeeds exactly for 0 to 6 fractional digits, giving base + (F+1)/2 bytes |
| ConstructorProperties.FspOfDeclared | field.cpp:474-475 | `sscanf(t, "keyword(%d)")` reads F from `keyword(F)` |
| ConstructorProperties.TimeSizing | field.cpp:474-501 | `time(F)` takes 3 + (F+1)/2 bytes for F <= 6 and is refused above; plain `time` takes 3 |
| ConstructorProperties.TimestampSizing | field.cpp:557-584 | `timestamp(F)` takes 4 + (F+1)/2 bytes for F <= 6 and is refused above; plain `timestamp` takes 4 |
| ConstructorProperties.DatetimeSizing | field.cpp:635-662 | `datetime(F)` takes 5 + (F+1)/2 bytes for F <= 6 and is refused above; plain `datetime` takes 5 |
| Fields.NewTime56 | field.cpp:469-502 | a successful constructor gives a 5.6 time kind |
| Fields.NewTimestamp56 | field.cpp:552-585 | a successful constructor gives a 5.6 timestamp kind |
| Fields.NewDatetime56 | field.cpp:630-663 | a successful constructor gives a 5.6 datetime kind |
| TypeString.CountElements | field.cpp:163-168 | the loop's count is one more than the number of commas in the type string |
| Fields.NewEnum | field.cpp:158-169 | the enum kind's element count is the commas of the declaration plus one |
| Fields.NewSet | field.cpp:190-202 | the set kind's element count is the commas of the declaration plus one |
| ConstructorProperties.ElementCountOfDeclaration | field.cpp:158-202 | a declaration of k comma-free values has k elements by that count |
| WorkedExamples.EnumExample | field.cpp:158-169 | enum('a','b','c') has 3 elements |
| Fields.Decode | field.cpp:45-695 | a successful unpack's cursor lies between the start and the end of the buffer (a 1-byte set stores the corrected, unsigned byte) |
| Fields.DecodeVarstring | field.cpp:261-281 | a successful varchar unpack stays within the buffer |
| Fields.DecodeBlob | field.cpp:296-308 | a successful blob unpack stays within the buffer |
| Fields.DecodeFixed | field.cpp:45-695 | a successful fixed-width unpack stays within the buffer (a 1-byte set stores the corrected, unsigned byte) |
| Fields.FixedValue | field.cpp:45-233 | every unsigned value a fixed-width unpack stores fits the 64-bit `field_data`; only tiny and enum store a signed value, within the `short` range; a decimal keeps exactly its packed bytes (the set case reads the corrected byte; also lines 424-695) |
| Fields.Read | field.cpp:274 | a checked read fails exactly when the bytes run past the buffer, and otherwise returns exactly the n bytes at the position |
| FieldProperties.DecodeIsPositionIndependent | field.cpp:45-695 | bytes before the cursor shift the returned cursor by their number and change nothing else |
| FieldProperties.DecodeReadsOnlyItsOwnBytes | field.cpp:45-695 | a successful unpack gives the same result on the buffer cut at its returned cursor (enum pack length 1 or 2; set 1, 2, 3, 4 or 8) |
| FieldProperties.DecodeIgnoresWhatFollows | field.cpp:45-695 | bytes appended after the buffer do not change a successful unpack |
| FieldProperties.TinyDecoderIsSignedByte | field.cpp:45-53 | tiny stores the signed char of one byte (in -128..127, congruent to the byte) and moves by 1 |
| FieldProperties.IntegerDecodersAreLittleEndian | field.cpp:59-106 | short, medium, long and longlong store the little-endian value of 2, 3, 4, 8 bytes and move by that width, failing exactly when the bytes are missing |
| WorkedExamples.ShortExample | field.cpp:59-67 | the bytes 0x2C 0x01 decode as short to 300 |
| FieldProperties.KorrValueIsLittleEndian | field.cpp:61-621 | the korr readers of the integer, date and legacy temporal kinds give the little-endian value of their bytes |
| FieldProperties.LegacyTemporalDecodersAreLittleEndian | field.cpp:148-156 | date, and the time, timestamp and datetime of before 5.6.4, store the little-endian value of 3, 3, 4, 8 bytes (also lines 458-466, 541-549 and 619-627) |
| FieldProperties.EnumDecoderIsSignedIndex | field.cpp:171-188 | enum reads a signed char when the pack length is 1 and a native signed short otherwise: a value in the signed range, congruent to the little-endian bytes, and the cursor moves by the pack length |
| Fields.SetMask | field.cpp:207-226 | the corrected switch: below 256 for a 1-byte set, and within 64 bits always (characterised by SetMaskIsLittleEndian) |
| Fields.SetMaskAsWritten | field.cpp:207-226 | the switch as written: a 1-byte value below 0x80 is kept, one of 0x80 or more becomes 2^64 - 256 + the byte; the other widths agree with SetMask |
| FieldProperties.SetMaskIsLittleEndian | field.cpp:204-226 | the corrected set switch is the little-endian value of the bytes read, below 256 to their number |
| FieldProperties.SetValueIsLittleEndian | field.cpp:204-228 | what the set decoder stores is that little-endian value |
| FieldProperties.SetDecoderIsBitMask | field.cpp:204-233 | set reads 1 to 4 bytes, or 8 for any other pack length; it stores their little-endian value, below 256^width, and moves by the pack length |
| FieldProperties.SetMaskAsWrittenSignExtends | field.cpp:208-209 | finding: as written, a 1-byte set value 0x80 becomes 0xFFFF_FFFF_FFFF_FF80, and every byte of 0x80 or more gives at least 2^64 - 128; the corrected reading is 0x80 |
| FieldProperties.VarstringDecoderTakesPrefixedBytes | field.cpp:261-281 | varchar takes a 1-byte or 2-byte little-endian length L; the value is exactly the L bytes after the prefix and the cursor moves past them; it fails exactly when those bytes are missing |
| FieldProperties.VarstringRoundTrip | field.cpp:261-281 | a string written behind its length prefix decodes back to itself, with the cursor just after it |
| FieldProperties.BlobDecoderTakesPrefixedBytes | field.cpp:296-308 | blob takes the prefix of its pack length as L; the value is exactly the L bytes after it and the cursor moves past them; it fails exactly when those bytes are missing |
| FieldProperties.BlobRoundTrip | field.cpp:296-354 | a byte string written behind a blob prefix decodes back to itself |
| Fields.FoldBigEndian | field.cpp:426-432 | the shift-and-or loop computes the big-endian value of the bytes, below 256^n |
| FieldProperties.BitDecoderIsBigEndian | field.cpp:424-439 | bit stores the big-endian value of its pack-length bytes, below 256^n, and moves by n |
| FieldProperties.BitRoundTrip | field.cpp:424-439 | a value written big-endian in n bytes decodes back to itself |
| Fields.ReverseToWord | field.cpp:509-513 | writing byte i to byte n-1-i of a zeroed little-endian `ulonglong` gives the big-endian value of the bytes |
| Temporal.TimeRoundTrip | field.cpp:509-520 | a packed time header with any flag bits and fractional bytes decodes to HHMMSS |
| Temporal.EveryTimeHeaderIsCovered | field.cpp:509-520 | every 24-bit header is a TimeHeader of fields within TimeRoundTrip's ranges, so that lemma covers every header value (every image, with EveryImageIsAnEncodedHeader) |
| FieldProperties.Time56RoundTrip | field.cpp:504-527 | time(F) decodes a packed header and its fractional bytes to HHMMSS and moves by the pack length |
| WorkedExamples.TimeExample | field.cpp:469-527 | time(3) takes 5 bytes, and 10:15:30 with any milliseconds decodes to 101530 |
| FieldProperties.Timestamp56RoundTrip | field.cpp:587-605 | timestamp(F) stores the big-endian seconds of the first 4 bytes, whatever the fractional bytes, and moves by the pack length |
| Temporal.DatetimeRoundTrip | field.cpp:670-688 | a packed datetime header with any sign bit and fractional bytes decodes to YYYYMMDDHHMMSS |
| Temporal.EveryImageIsAnEncodedHeader | field.cpp:509-520 | every image of at least n bytes is the n-byte big-endian encoding of its header value followed by the rest (also lines 670-688), so TimeRoundTrip and DatetimeRoundTrip with the coverage lemmas speak about every image |
| Bytes.BigEndianBytesOfBigEndian | field.cpp:424-439 | encoding the big-endian value of a byte run at its own width gives the run back |
| Temporal.EveryDatetimeHeaderIsCovered | field.cpp:670-688 | every 40-bit header is a DatetimeHeader of fields within DatetimeRoundTrip's ranges, so that lemma covers every header value (every image, with EveryImageIsAnEncodedHeader) |
| FieldProperties.Datetime56RoundTrip | field.cpp:665-695 | datetime(F) decodes a packed header and its fractional bytes to YYYYMMDDHHMMSS and moves by the pack length |
| WorkedExamples.DatetimeExample | field.cpp:630-695 | plain datetime takes 5 bytes, and 2023-06-15 09:05:00 decodes to 20230615090500 |
| FieldProperties.TimeGenerationsAgree | field.cpp:458-520 | a legacy time holding HHMMSS and a 5.6 time of the same fields decode to the same number |
| FieldProperties.DatetimeGenerationsAgree | field.cpp:619-688 | a legacy datetime holding YYYYMMDDHHMMSS and a 5.6 datetime of the same fields decode to the same number |
| Temporal.TimeDigits | field.cpp:517-520 | the sum of fields fits the `uint32` it is accumulated in |
| Temporal.DatetimeDigits | field.cpp:678-688 | the sum of fields fits the `ulonglong` it is accumulated in |
| Fields.Field.Unpack | field.cpp:45-695 | stores Decode's value and returns its cursor; on an error it leaves the stored value unchanged |
| Fields.Field.UnpackVarstring | field.cpp:261-281 | the varchar unpack agrees with Decode |
| Fields.Field.UnpackBlob | field.cpp:296-308 | the blob unpack agrees with Decode |
| Fields.Field.UnpackFixed | field.cpp:45-695 | the fixed-width unpacks of all the fixed classes, with the bit loop and the 5.6 byte reversal, agree with Decode |
| TypeString.Find | field.cpp:243-244 | `find` succeeds exactly when the character occurs, and then gives its first index (also lines 364 and 408-409; characterised by FindFirst) |
| TypeString.FindFirst | field.cpp:243-244 | the first occurrence is the index `find` returns, whatever the rest of the string holds |
| TypeString.Between | field.cpp:250 | the substring is the text strictly between the two indices when `(` comes before `)`; when it does not, the `size_t` count wraps and the text runs to the end (also line 417) |
| TypeString.ScanInt | field.cpp:371 | one `%d` conversion (also lines 475, 558 and 636): on success it has consumed at least one character and stops within the string; its value is characterised by ScanIntOfDigits and ScanIntOfNegative |
| TypeString.AtoI | field.cpp:251 | a string without any digit gives 0 (also line 418; characterised by AtoIOfDigits) |
| TypeString.ScanPrecisionScale | field.cpp:371 | a successful `(%d,%d)` needs the opening parenthesis first and a comma later (characterised by ScanPrecisionScaleOf) |
| TypeString.ParenthesizedParts | field.cpp:243-250 | in `keyword(D)` the two parentheses are found around D, and the substring between them is D |
| TypeString.ScanIntOfDigits | field.cpp:371 | `%d` reads a decimal rendering as its value |
| TypeString.AtoIOfDigits | field.cpp:251 | `atoi` of a decimal rendering is its value |
| TypeString.ScanIntOfNegative | field.cpp:371 | `%d` reads a minus sign followed by a rendering of n as -n |
| TypeString.ScanPrecisionScaleOf | field.cpp:371 | `(%d,%d)` reads `(M,` and then a second `%d` |
| Bytes.KorrIsLittleEndian | field.cpp:61-100 | uint2korr, uint3korr, uint4korr and uint8korr are the little-endian values of their bytes |
| Bytes.TwosComplement | field.cpp:47-180 | a `char` and a `short` read from bytes lie in the signed range and are congruent to the unsigned value |
| Bytes.LittleEndianRoundTrip | field.cpp:311-354 | encoding a value of fewer than 256^n little-endian in n bytes and reading it back gives the value |
| Bytes.BigEndianRoundTrip | field.cpp:424-439 | encoding a value of fewer than 256^n big-endian in n bytes and reading it back gives the value |

## Left out

- `Field_float`, `Field_double` and `Field_decimal::unpack`: these convert bytes to floating point. `dec2double` and `bin2dec` are not part of this model. A decimal's `Decode` keeps its packed image and digit counts (`PackedDecimal`).
- `LOG_TRACE` and `LOG_ERROR` logging: it has no effect on the result.
- `field.h`: it is not part of this model. `pack_length()` follows the convention stated above, and the enum and set pack lengths are parameters.
- Raw pointer arithmetic: it becomes a checked read, which is an error when the buffer is too short. The source reads past the end unchecked.
- Host byte order: a little-endian host is assumed for the native `short` of enum and for the byte reversal into `ulonglong`.
- The factory that picks a `Field_*` class from the type name: it is not in `field.cpp`, so the model takes the `Kind` as given. Most constructors then do not look at the keyword; the 5.6 time, timestamp and datetime constructors do, since their `sscanf` formats match the literal `time(`, `timestamp(` and `datetime(` (field.cpp:475, 558, 636; `FspDigits`).
- ConstructorProperties.VarcharSizing: requires N < 2^31 and does not model the `int` overflow of `atoi` or of `symbols * maxlen`, because C leaves those undefined.
- ConstructorProperties.BitSizing: requires N <= 2^31 - 8. Above that, `atoi` overflows for N >= 2^31, and for 2^31 - 7 <= N < 2^31 the `+ 7` of field.cpp:418 overflows `int`; C leaves both undefined. The model's arithmetic does not overflow, so it promises nothing about those widths.
- ConstructorProperties.BitPackLengthOfWidth: requires N <= 2^31 - 8, because the `+ 7` of field.cpp:418 overflows `int` above it.
- ConstructorProperties.BitPackLengthIsBytesForBits: requires N <= 2^31 - 8, for the same overflow of `+ 7`; `atoi` cannot return a larger width that fits.
- ConstructorProperties.DecimalSizing: requires M, D < 2^31, and so do NegativeScalePassesGuardAsWritten, DecimalWithoutScale and DecimalWithoutNumericScale for M, because `%d` into an `int` (field.cpp:371) is undefined for larger numbers. The model's scan does not overflow.
- ConstructorProperties.FspOfDeclared: requires F < 2^31, and so do TimeSizing, TimestampSizing and DatetimeSizing, for the same reason at field.cpp:475, 558 and 636.
- ConstructorProperties.BitRefusesNegativeWidth: requires N <= 2^31, the widths `atoi` can return. It also rests on `_pack_length` being a 32-bit `unsigned int`, declared in `field.h`, which is not part of this model. Were it a signed `int`, bit(-15) would give the pack length -1 and pass the check of line 420.
- ConstructorProperties.BitPackLengthOfNegative: whether the unsigned wrap applies depends on the same assumption about `_pack_length`.
- Fields.Decode: for a set of pack length 1, Decode stores the corrected unsigned byte, not the sign-extended value of field.cpp:209. The value as written is Fields.SetMaskAsWritten, and the findings give the input that tells them apart.
- Fields.DecodeFixed: for a set of pack length 1, gives the corrected unsigned byte, not the sign extension of field.cpp:209.
- Fields.FixedValue: for a set of pack length 1, reads the corrected unsigned byte (Fields.SetMask), not Fields.SetMaskAsWritten.
- Fields.Field.Unpack: stores Decode's value, so for a set of pack length 1 it stores the corrected unsigned byte.
- Fields.Field.UnpackFixed: agrees with Decode, so for a set of pack length 1 it stores the corrected unsigned byte.
- Fields.DecimalGuard: refuses every negative scale, including those the source sizes without an out-of-range index. A negative scale that is a multiple of 9, as in `decimal(5,-9)`, passes field.cpp:371 and indexes `dig2bytes[0]` in range, giving a field length of 3. The corrected constructor refuses it too (ConstructorProperties.NegativeMultipleOfNineAsWritten), so the model does not promise the source's result for such a declaration.
- Fields.NewDecimal: refuses every negative scale, through Fields.DecimalGuard. For a negative multiple of 9, such as `decimal(5,-9)`, it returns `MalformedType` where field.cpp:371-379 builds a 3-byte field.
- Temporal.TimeRoundTrip: the sign of a negative TIME is not interpreted, matching the source, which only extracts the fields. The same holds for Temporal.DatetimeRoundTrip. Neither is limited to some headers: their ranges cover every 24-bit and every 40-bit header (Temporal.EveryTimeHeaderIsCovered, Temporal.EveryDatetimeHeaderIsCovered), and every image is the encoding of its header followed by the rest (Temporal.EveryImageIsAnEncodedHeader).
- ConstructorProperties.ElementCountOfDeclaration: requires values without commas. A quoted comma inside an enum or set value is counted as a separator, as the source's loop does.
- NUL characters in type strings: `c_str()` would stop at them, and the model does not.
- The examples for `varchar`, `decimal` and `bit` are stated on `Declared(...)` and `DeclaredPair(...)`. WorkedExamples.VarcharRenderings, DecimalRendering, DecimalRefusedRenderings and BitRenderings prove that these are the literal strings.

## Findings

| source | as written | input that shows it | evidently intended | confidence | as-written member | corrected member |
|---|---|---|---|---|---|---|
| field.cpp:208-209 | `ulonglong(*((char*)(from)))` converts the 1-byte set value through a signed `char` | a set with pack length 1 and byte 0x80 (its eighth member) | the unsigned byte 0x80, one bit per member | not executed | Fields.SetMaskAsWritten, FieldProperties.SetMaskAsWrittenSignExtends | Fields.SetMask, FieldProperties.SetDecoderIsBitMask |
| field.cpp:371-379 | the guard `m <= 0 \|\| m < d` lets a negative scale through | `decimal(5,-1)`: the scan gives m = 5 and d = -1; then `frac % 9 == -1` indexes `dig2bytes[-1]` | refuse a negative scale (this also refuses `decimal(5,-9)`, which the guard as written accepts without an out-of-range index; see "Left out") | not executed | Fields.DecimalGuardAsWritten, ConstructorProperties.NegativeScalePassesGuardAsWritten | Fields.DecimalGuard, Fields.SizeDecimal, ConstructorProperties.DecimalSizing |

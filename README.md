# Peloton `Value`: a verified model of the scalar-value core

This project models the non-floating-point core of `Value`, the scalar SQL value of
the Peloton storage engine (derived from VoltDB). A `Value` is a 16-byte data area
plus a kind tag and a null-tag byte. The model covers:

- how a Value is built and tagged NULL: the kind sentinels `INTn_NULL`, the decimal
  NULL at the 128-bit minimum, and `setNull`;
- how it is stored in a tuple row: fixed-width kinds in little-endian two's complement,
  variable-length objects behind a 1- or 4-byte length prefix;
- the VARCHAR/VARBINARY size rules, counted in bytes or in UTF-8 characters;
- checked 64-bit integer arithmetic with the CERT INT32-CPP overflow tests, and the
  narrowing casts with their overflow/underflow flags;
- fixed-point DECIMAL arithmetic: integers scaled by 10^12, results bounded by the
  engine's decimal range;
- comparison, the relational operators, `op_max`/`op_min`, `castAs`, `promoteForOp` and
  the arithmetic dispatch, on their non-double paths;
- the `UTF8Iterator` cursor and the `LIKE` matcher (`Value::like` with its `Liker` class);
- the text trimming of `streamSQLFloatFormat`, which turns C++ `1.500000E+05` notation
  into SQL `1.5E5`.

Each module follows a part of `value.h`:

| module | file | part of `Value` |
|---|---|---|
| `Ints` | ints.dfy | integer widths, sentinels, C++ truncating division, little-endian images |
| `Values` | values.dfy | kinds, payloads, errors, factories, NULL, `setNull`, `narrowTo*`, storage sizes |
| `ObjectLength` | objectlength.dfy | the object length prefix and its decoder |
| `Varchar` | varchar.dfy | `getCharLength`, `getIthCharIndex`, `validVarcharSize`, `checkTooNarrowVarcharAndVarbinary` |
| `TupleStorage` | storage.dfy | `initFromTupleStorage`, `serializeToTupleStorage`, `inlineCopyObject` |
| `CertBits` | certbits.dfy | the CERT sign-bit tests of `opAddBigInts`/`opSubtractBigInts` on `bv64` |
| `BigIntArith` | bigint.dfy | `op*BigInts`, `op_increment`, `op_decrement`, `isZero`, implicit integer casts |
| `DecimalArith` | decimal.dfy | `op*Decimals`, `createDecimalFromInt`, `narrowDecimalToBigInt`, `getFractionalPart` |
| `Cast` | cast.dfy | `castAs*`, `castAs`, `promoteForOp`, `op_add`/`op_subtract`/`op_multiply`/`op_divide` |
| `Compare` | compare.dfy | `compare*`, `compareNull`, `compare`, the `op_*` relations, `op_max`/`op_min` |
| `Utf8` | utf8.dfy | `UTF8Iterator` |
| `Like` | like.dfy | `Value::like` and `Liker` |
| `SqlFloat` | sqlfloat.dfy | `streamSQLFloatFormat` |

The model keeps the source's shape:

- **State changed in place.** This becomes classes and arrays:
  - `Values.Cell` is a Value being built, as `setNull` and `narrowTo*` change it;
  - the in-row slot written by `serializeToTupleStorage` and `inlineCopyObject` is an `array<byte>`;
  - `Utf8.UTF8Iterator` keeps its cursor in a field;
  - `Like.Liker` holds two iterators and recurses with fresh ones.
- **Loops.** The loops of the source are `while` loops proved against specification functions:
  - the character counters;
  - the prefix writer;
  - the byte copies;
  - the cursor walks;
  - the two trimming loops of the float formatter.
- **Pure dispatch.** Dispatch code and arithmetic are functions and lemmas.

Exceptions are modelled as a `Result` whose error names the exception class that
`value.h` throws:

- `TypeMismatch` is the cast type-mismatch exception;
- `OutOfRange` is the numeric out-of-range exception, carrying its overflow and underflow flags;
- `ObjectSize` is thrown for an object larger than its column;
- `IncompatibleType` is thrown for a kind the size check does not accept;
- `Fault` is a plain `Exception`, carrying the reason it was thrown.

Documented behaviours that the lemmas pin down:

- **VARCHAR comparison uses `strncmp`.** Two strings that agree up to and including a NUL
  byte inside the shorter one are ordered by length alone, so two of equal length compare
  equal whatever follows the NUL (`Compare.StringCompareStopsAtNul`).
- **The LIKE matcher is not standard SQL after a doubled `%`.** When a `%` is directly
  followed by another `%` and the value is exhausted, it returns false, whatever follows
  in the pattern (`Like.DoubledPercentQuirk`). So once a `%`-free pattern prefix has
  consumed the whole value, `%%` fails: `'ab' LIKE 'ab%%'` and `'' LIKE '%%'` are false,
  while standard SQL makes them true (`Like.LiteralPrefixDoubledPercent`,
  `Like.EmptyValueDoubledPercent`). On every pattern without
  a doubled `%` the matcher agrees with the standard definition (`Like.LikeIsSqlLike`).
- **A length of 2^30 or more sets bit 30 of the first prefix byte.** That bit is the
  null bit, so the decoder's 30-bit mask loses it (`ObjectLength.LongLengthsLoseBit30`).
- **A length of -1 (`OBJECTLENGTH_NULL`) gets no `else` branch in `setObjectLengthToLocation`.**
  The byte is left at `0xFF`, so the null bit stays set (`ObjectLength.NullLengthPrefix`).

## Model

| member | source | states |
|---|---|---|
| Values.IntegralValue | src/backend/common/value.h:2129-2172 | the tinyint..timestamp factories store n under the kind and yield SQL NULL exactly when n is the kind's `INTn_NULL` sentinel |
| Values.DecimalValue | src/backend/common/value.h:2260-2264 | a decimal factory value is NULL exactly when it holds the smallest 128-bit value |
| Values.BooleanValue | src/backend/common/value.h:2183-2187 | a boolean built from a C++ bool is well-typed and never NULL |
| Values.IsBooleanNull | src/backend/common/value.h:2327-2330 | isBooleanNULL: the boolean byte read as int8 is INT8_NULL; stated with isTrue and isFalse by `Values.BooleanTrichotomy` |
| Values.IsTrue | src/backend/common/value.h:2309-2314 | isTrue: false for the boolean NULL, otherwise the stored bool; stated by `Values.BooleanTrichotomy` |
| Values.IsFalse | src/backend/common/value.h:2320-2325 | isFalse: false for the boolean NULL, otherwise the negated stored bool; stated by `Values.BooleanTrichotomy` |
| Values.BooleanTrichotomy | src/backend/common/value.h:2309-2330 | isTrue and isFalse never both hold; neither holds exactly for the boolean NULL; getTrue/getFalse give back their bool |
| Values.Blank | src/backend/common/value.h:712-716 | the private `Value(type)` constructor: the kind set, a zeroed data area and no null tag; used by `Values.Cell.constructor` and `Values.GetNullValueInPlace` |
| Values.Cell.constructor | src/backend/common/value.h:712-716 | a fresh `Value retval(type)` holds exactly `Blank(type)` |
| Values.NullOf | src/backend/common/value.h:2477-2517 | setNull keeps the kind and makes the Value NULL; it fails exactly for ADDRESS and ARRAY |
| Values.Cell.SetNull | src/backend/common/value.h:2477-2517 | in place: the receiver becomes the kind's NULL (sentinel payload, decimal minimum, boolean INT8_NULL), or the exception is returned with only the tag set |
| Values.GetNullValue | src/backend/common/value.h:3237-3241 | getNullValue(type) is a canonical NULL of that kind; it fails exactly for ADDRESS and ARRAY |
| Values.GetNullValueInPlace | src/backend/common/value.h:3237-3241 | building `Value(type)` and calling setNull on it gives getNullValue(type) |
| Values.SentinelFactoryIsNull | src/backend/common/value.h:2129-2172 | a factory value equals the kind's getNullValue exactly when it was built from the sentinel |
| Values.NullIsUnique | src/backend/common/value.h:3155-3162 | two canonical integer NULLs of one kind are the same Value |
| Values.TupleStorageSize | src/backend/common/value.h:2375-2402 | getTupleStorageSize fails exactly outside the integer, object, double, decimal and boolean kinds and is otherwise 1..16 bytes |
| Values.StorageSizeMatchesRange | src/backend/common/value.h:2375-2402 | an integer fits a kind's C++ range exactly when it fits that kind's slot size of two's complement |
| Values.RangeError | src/backend/common/value.h:93-111 | the out-of-range exception carries TYPE_OVERFLOW iff the value is positive and TYPE_UNDERFLOW iff it is negative |
| Values.IsNull | src/backend/common/value.h:3155-3162 | isNull: a decimal at the 128-bit minimum, any other kind by its null tag; its meaning per factory is stated by `Values.IntegralValue`, `Values.DecimalValue` and `Values.SentinelFactoryIsNull` |
| Values.Narrow | src/backend/common/value.h:1231-1319 | narrowTo{Integer,SmallInt,TinyInt} on a value: its range test and flags are stated by `Values.NarrowSpec` and its in-place form by `Values.Cell.NarrowTo` |
| Values.NarrowSpec | src/backend/common/value.h:1231-1319 | narrowTo{Integer,SmallInt,TinyInt} succeed exactly on [PELOTON_INTn_MIN, INTn_MAX] and keep the value; a failure flags exactly one of overflow (above) and underflow (below) |
| Values.Cell.NarrowTo | src/backend/common/value.h:1231-1237 | in place: the receiver's integer becomes the value when it fits, and is left unchanged when the exception is thrown |
| ObjectLength.AppropriateLengthLength | src/backend/common/value.h:796-802 | the prefix is 1 or 4 bytes |
| ObjectLength.EncodePrefix | src/backend/common/value.h:808-824 | the bytes setObjectLengthToLocation writes are as many as getAppropriateObjectLengthLength says |
| ObjectLength.SetObjectLengthToLocation | src/backend/common/value.h:808-824 | a length below -1 throws and writes nothing; otherwise exactly the prefix bytes are written and the rest of the buffer is untouched |
| ObjectLength.EncodePrefixShape | src/backend/common/value.h:808-824 | lengths 0..63 are the single byte itself; longer lengths are four big-endian bytes with bit 7 of the first set |
| ObjectLength.DecodeLength | src/backend/common/value.h:2596-2609 | the decoded length lies in 0..2^30-1 |
| ObjectLength.PrefixRoundTrip | src/backend/common/value.h:2596-2609 | for every 0 <= L < 2^30 the decoder reads back L from a prefix of exactly the size it announces |
| ObjectLength.LongLengthsLoseBit30 | src/backend/common/value.h:808-824 | a length of 2^30 or more sets the null bit, and the decoder returns the length without bit 30 |
| ObjectLength.NullLengthPrefix | src/backend/common/value.h:808-824 | length -1 leaves the single byte 0xFF, whose null bit is set |
| ObjectLength.NoNullBitBelow2To30 | src/backend/common/value.h:808-824 | no length below 2^30 sets the null bit |
| Varchar.GetCharLength | src/backend/common/value.h:627-635 | the loop counts exactly the bytes that are not UTF-8 continuation bytes (`10xxxxxx`) |
| Varchar.GetIthCharIndex | src/backend/common/value.h:637-648 | returns -1 for ith <= 0; otherwise the index of the lead byte of the ith character, or the length when there are fewer characters |
| Varchar.ValidVarcharSize | src/backend/common/value.h:1546-1560 | true exactly when the character count is at most the limit; the early exit on length - maxLength fires only past the 32-bit range |
| Varchar.TooNarrow | src/backend/common/value.h:1565-1614 | the column-capacity verdict of checkTooNarrowVarcharAndVarbinary; its rules are stated by `Varchar.TooNarrowSpec` and `Varchar.ByteModeIsStricter`, and the method is proved to return it |
| Varchar.TooNarrowSpec | src/backend/common/value.h:1565-1614 | maxLength 0 always fails; VARBINARY and byte-mode VARCHAR fail iff the byte length exceeds maxLength; character mode fails iff the character count does; other kinds give the incompatible-type exception |
| Varchar.ByteModeIsStricter | src/backend/common/value.h:1565-1614 | a VARCHAR that passes in byte mode also passes in character mode |
| Varchar.CheckTooNarrowVarcharAndVarbinary | src/backend/common/value.h:1565-1614 | the method's control flow returns the same verdict as the column-capacity rules |
| TupleStorage.ObjectBuffer | src/backend/common/value.h:2718-2776 | an out-of-line object buffer is its length prefix followed by its bytes |
| TupleStorage.InitFromTupleStorage | src/backend/common/value.h:2524-2642 | reading a slot gives a canonical Value of the column's kind; it fails exactly for kinds other than the integer kinds, DECIMAL, VARCHAR and VARBINARY, so BOOLEAN is rejected although it has a 1-byte slot |
| TupleStorage.InlineCopyObject | src/backend/common/value.h:1510-1544 | a too-large object returns the size exception and leaves the slot alone; otherwise the slot holds the prefix, the bytes and zero padding up to maxLength, and nothing after it changes |
| TupleStorage.SerializeToTupleStorage | src/backend/common/value.h:2718-2776 | fixed kinds write their little-endian image; inlined objects write the padded prefix and bytes; out-of-line objects, NULL included, write their 8-byte `Varlen` reference into the slot and yield the length-prefixed buffer it refers to; too-large objects and other kinds fail with the row unchanged |
| TupleStorage.WriteFixed | src/backend/common/value.h:2722-2744 | the fixed-width branches of serializeToTupleStorage: the slot starts with the kind's little-endian image and every later byte is unchanged; read back by `TupleStorage.FixedRoundTrip` |
| TupleStorage.SerializeObject | src/backend/common/value.h:2745-2776 | the VARCHAR/VARBINARY branch of serializeToTupleStorage: inlined objects go through inlineCopyObject, out-of-line ones are size-checked and then their reference is written, the rest of the slot unchanged |
| TupleStorage.FixedRoundTrip | src/backend/common/value.h:2524-2642 | reading back the image serializeToTupleStorage writes for a fixed-width Value gives the same Value |
| TupleStorage.FixedBytesRoundTrip | src/backend/common/value.h:2524-2642 | reading any fixed-width slot and writing it again reproduces its bytes |
| TupleStorage.InlineRoundTrip | src/backend/common/value.h:2524-2642 | an inlined object (NULL or at most 63 bytes) reads back as the same Value |
| TupleStorage.OutOfLineRoundTrip | src/backend/common/value.h:2524-2642 | an out-of-line object reads back as the same Value from its buffer, and a missing buffer reads as NULL |
| TupleStorage.BufferRoundTrip | src/backend/common/value.h:2524-2642 | every byte string below 2^30 bytes comes back unchanged through its length-prefixed buffer |
| TupleStorage.ObjectBufferDecodes | src/backend/common/value.h:2596-2609 | the decoder finds the stored length in a buffer, and the bytes after the prefix are the object |
| TupleStorage.DecodeReadsPrefix | src/backend/common/value.h:2596-2609 | the decoder reads only the prefix: trailing bytes do not change the length |
| CertBits.CertAddDetectsSignOverflow | src/backend/common/value.h:1924-1934 | on bv64 the CERT add test is clear exactly when both operands have one sign and the wrapped sum has the other |
| CertBits.CertSubSameSigns | src/backend/common/value.h:1936-1946 | the CERT subtract test never fires for operands of one sign |
| CertBits.CertSubNegativeMinuend | src/backend/common/value.h:1936-1946 | for a negative minuend and non-negative subtrahend, the test fires exactly when the wrapped difference is non-negative |
| CertBits.CertSubNegativeSubtrahend | src/backend/common/value.h:1936-1946 | for a non-negative minuend and negative subtrahend, the test fires exactly when the wrapped difference is negative |
| CertBits.CertSubNegativeMinuendInRange | src/backend/common/value.h:1936-1946 | a negative minuend, a non-negative subtrahend and a negative wrapped difference: the test stays clear |
| CertBits.CertSubNegativeMinuendWraps | src/backend/common/value.h:1936-1946 | a negative minuend, a non-negative subtrahend and a non-negative wrapped difference: the test fires |
| CertBits.CertSubNegativeSubtrahendInRange | src/backend/common/value.h:1936-1946 | a non-negative minuend, a negative subtrahend and a non-negative wrapped difference: the test stays clear |
| CertBits.CertSubNegativeSubtrahendWraps | src/backend/common/value.h:1936-1946 | a non-negative minuend, a negative subtrahend and a negative wrapped difference: the test fires |
| BigIntArith.BigIntValue | src/backend/common/value.h:2156-2163 | getBigIntValue builds a canonical BIGINT |
| BigIntArith.OpAddBigInts | src/backend/common/value.h:1924-1934 | opAddBigInts: its range test and result are stated by `BigIntArith.AddSubtractSpec` and `BigIntArith.AddThenSubtract`, its CERT test by `CertBits.CertAddDetectsSignOverflow` |
| BigIntArith.OpSubtractBigInts | src/backend/common/value.h:1936-1946 | opSubtractBigInts: its range test and result are stated by `BigIntArith.AddSubtractSpec`, its CERT test by the `CertBits.CertSub*` lemmas |
| BigIntArith.OpMultiplyBigInts | src/backend/common/value.h:1948-1989 | opMultiplyBigInts: its CERT test and result are stated by `BigIntArith.CertMultiplySpec` and `BigIntArith.MultiplySpec` |
| BigIntArith.OpDivideBigInts | src/backend/common/value.h:1991-2003 | opDivideBigInts: the zero-divisor error and truncating quotient are stated by `BigIntArith.DivideSpec` and `BigIntArith.DivideStaysInRange` |
| BigIntArith.OpIncrement | src/backend/common/value.h:3348-3384 | op_increment: its bound and its inverse are stated by `BigIntArith.IncrementDecrementInverse` |
| BigIntArith.OpDecrement | src/backend/common/value.h:3386-3422 | op_decrement: its `PELOTON_INTn_MIN` guard is stated by `BigIntArith.IncrementDecrementInverse` and its wrap of the sentinel by `BigIntArith.DecrementOfNullWraps` |
| BigIntArith.AddSubtractSpec | src/backend/common/value.h:1924-1946 | opAddBigInts/opSubtractBigInts throw exactly when the exact result leaves [-2^63, 2^63-1]; otherwise they return it, as SQL NULL exactly when it equals INT64_NULL |
| BigIntArith.AddThenSubtract | src/backend/common/value.h:1924-1946 | subtracting rhs from a successful lhs + rhs gives lhs back |
| BigIntArith.CertMultiplySpec | src/backend/common/value.h:1948-1989 | the four-way CERT division test on truncating division detects exactly the products outside the int64 range |
| BigIntArith.CertMultiplyMixedSigns | src/backend/common/value.h:1957-1968 | a positive factor times a non-positive one: the test against INT64_MIN divided (truncating) by the positive factor fires exactly when the product is below INT64_MIN |
| BigIntArith.CertMultiplyNegatives | src/backend/common/value.h:1969-1973 | a negative left factor and a non-positive right one: the test against INT64_MAX divided (truncating) by the left factor fires exactly when the product exceeds INT64_MAX |
| BigIntArith.MultiplySpec | src/backend/common/value.h:1948-1989 | opMultiplyBigInts throws exactly when the product is outside (INT64_MIN, INT64_MAX] and otherwise returns the non-NULL product |
| BigIntArith.DivideStaysInRange | src/backend/common/value.h:1991-2003 | the truncated quotient fits int64, and it is not INT64_NULL unless the dividend is |
| BigIntArith.DivideSpec | src/backend/common/value.h:1991-2003 | opDivideBigInts throws exactly on a zero divisor; otherwise the quotient truncates toward zero (remainder smaller than the divisor, with the dividend's sign) |
| BigIntArith.IncrementDecrementInverse | src/backend/common/value.h:3348-3422 | op_increment throws exactly at the kind's maximum and op_decrement exactly at its PELOTON minimum; each adds or takes one and the other undoes it |
| BigIntArith.DecrementOfNullWraps | src/backend/common/value.h:3386-3422 | decrementing a kind's NULL sentinel gives the kind's maximum: the guard tests `PELOTON_INTn_MIN`, one above the sentinel, so the sentinel passes it and wraps |
| BigIntArith.IsZero | src/backend/common/value.h:3424-3443 | isZero fails exactly for non-numeric kinds and is true exactly for a zero payload |
| BigIntArith.CastAsBigIntAndGetValue | src/backend/common/value.h:979-999 | the implicit BIGINT cast yields an int64 |
| BigIntArith.CastAsIntegerAndGetValue | src/backend/common/value.h:1005-1030 | the implicit INTEGER cast yields an int32 |
| BigIntArith.ImplicitCastSpec | src/backend/common/value.h:979-1030 | castAsBigIntAndGetValue accepts exactly the integer kinds and keeps the value; castAsIntegerAndGetValue narrows a BIGINT, keeps the narrower kinds and rejects TIMESTAMP |
| DecimalArith.Checked | src/backend/common/value.h:2036-2036 | the bound test repeated at 2036, 2053, 2080 and 2119: the TTInt conversion carry and both comparisons with s_maxDecimalValue and s_minDecimalValue; stated by `DecimalArith.CheckedSpec` |
| DecimalArith.OpAddDecimals | src/backend/common/value.h:2029-2044 | opAddDecimals: the exact sum and its bound check are stated by `DecimalArith.DecimalOpsSpec` and `DecimalArith.AddThenSubtract` |
| DecimalArith.OpSubtractDecimals | src/backend/common/value.h:2046-2061 | opSubtractDecimals: the exact difference and its bound check are stated by `DecimalArith.DecimalOpsSpec` |
| DecimalArith.OpMultiplyDecimals | src/backend/common/value.h:2069-2101 | opMultiplyDecimals: the truncated product and its bound check are stated by `DecimalArith.DecimalOpsSpec`, `DecimalArith.MultiplyDivideRounding` and `DecimalArith.IntermediatesFitTTLInt` |
| DecimalArith.OpDivideDecimals | src/backend/common/value.h:2103-2127 | opDivideDecimals: the zero check, the truncated quotient and its bound check are stated by `DecimalArith.DecimalOpsSpec` and `DecimalArith.MultiplyDivideRounding` |
| DecimalArith.NarrowDecimalToBigInt | src/backend/common/value.h:959-966 | narrowDecimalToBigInt: the window test, flags and truncated whole part are stated by `DecimalArith.NarrowDecimalSpec` |
| DecimalArith.GetFractionalPart | src/backend/common/value.h:969-973 | getFractionalPart: the remainder below one unit, of the decimal's sign, that recombines with the whole part, stated by `DecimalArith.NarrowDecimalSpec` |
| DecimalArith.OversizeWholeDecimal | src/backend/common/value.h:576-578 | oversizeWholeDecimal: stated by `DecimalArith.OversizeWholeDecimalSpec` |
| DecimalArith.CheckedSpec | src/backend/common/value.h:2029-2127 | a decimal result is rejected exactly outside [s_minDecimalValue, s_maxDecimalValue] and is never NULL when that range excludes the 128-bit minimum |
| DecimalArith.IntermediatesFitTTLInt | src/backend/common/value.h:2069-2127 | the 256-bit intermediates of multiply and divide cannot overflow |
| DecimalArith.DecimalOpsSpec | src/backend/common/value.h:2029-2127 | add and subtract give lhs ± rhs, multiply gives lhs·rhs/10^12, and divide gives lhs·10^12/rhs, each rejected exactly outside the decimal range; divide also fails on zero |
| DecimalArith.MultiplyDivideRounding | src/backend/common/value.h:2069-2127 | multiply and divide truncate toward zero: the error is under one unit and never away from zero |
| DecimalArith.AddThenSubtract | src/backend/common/value.h:2029-2061 | subtracting rhs from a successful in-range lhs + rhs gives lhs back |
| DecimalArith.CreateDecimalFromInt | src/backend/common/value.h:1443-1448 | an int64 enters decimal as a well-typed, non-NULL value |
| DecimalArith.NarrowDecimalSpec | src/backend/common/value.h:959-973 | narrowDecimalToBigInt fails exactly outside the int64-representable decimal range with the out-of-range flags; otherwise whole·10^12 + fraction is the decimal, the fraction below one unit and of the decimal's sign |
| DecimalArith.IntDecimalRoundTrip | src/backend/common/value.h:959-973 | an integer made decimal narrows back to itself with fractional part 0 |
| DecimalArith.OversizeWholeDecimalSpec | src/backend/common/value.h:576-578 | oversizeWholeDecimal holds exactly for values of at least 10^26 |
| Cast.CastAsBigInt | src/backend/common/value.h:1141-1175 | castAsBigInt: integer sources and ADDRESS keep their value, decimals narrow through the int64 window; stated by `Cast.IntegralCastSpec`, `Cast.WideningNeverFails` and `Cast.DecimalToIntegralSpec` |
| Cast.CastAsTimestamp | src/backend/common/value.h:1177-1228 | castAsTimestamp: as castAsBigInt, except that ADDRESS is a type mismatch; stated by the same lemmas |
| Cast.CastAsInteger | src/backend/common/value.h:1239-1269 | castAsInteger: narrow sources widen, wider ones are range-checked, decimals narrow their whole part; stated by `Cast.IntegralCastSpec` and `Cast.DecimalToIntegralSpec` |
| Cast.CastAsSmallInt | src/backend/common/value.h:1280-1310 | castAsSmallInt: stated by `Cast.IntegralCastSpec` and `Cast.DecimalToIntegralSpec` |
| Cast.CastAsTinyInt | src/backend/common/value.h:1321-1351 | castAsTinyInt: stated by `Cast.IntegralCastSpec` and `Cast.DecimalToIntegralSpec` |
| Cast.CastAsString | src/backend/common/value.h:1384-1426 | castAsString on objects: VARCHAR and VARBINARY keep their bytes as VARCHAR; stated by `Cast.ObjectCastSpec` |
| Cast.CastAsBinary | src/backend/common/value.h:1428-1441 | castAsBinary: only VARBINARY is accepted, so VARCHAR is a type mismatch; stated by `Cast.ObjectCastSpec` |
| Cast.CastAs | src/backend/common/value.h:3298-3334 | castAs: NULL sources and same-kind casts first, then the castAs* function of the target; stated by `Cast.CastIdentityAndNull` and the castAs* rows |
| Cast.CastAsDecimal | src/backend/common/value.h:1450-1504 | a successful castAsDecimal gives a well-typed DECIMAL |
| Cast.CastIdentityAndNull | src/backend/common/value.h:3298-3334 | castAs to the value's own kind is the identity, and a NULL source casts to getNullValue(target) |
| Cast.IntegralCastSpec | src/backend/common/value.h:1141-1351 | between integer kinds a cast succeeds exactly inside the target's non-NULL range, keeps the value and is never NULL; a failure is the out-of-range exception of the value |
| Cast.WideningNeverFails | src/backend/common/value.h:1141-1351 | casts to BIGINT and TIMESTAMP, tinyint to smallint/integer and smallint to integer never fail |
| Cast.DecimalToIntegralSpec | src/backend/common/value.h:1141-1351 | a decimal casts to an integer kind exactly when its scaled value lies in the `[s_minInt64AsDecimal, s_maxInt64AsDecimal]` window and, for the narrow targets, its truncated whole part fits the target; the result is that whole part |
| Cast.DecimalRoundTrip | src/backend/common/value.h:1443-1504 | an integer cast to DECIMAL is n·10^12, and casting it back gives the integer |
| Cast.ObjectCastSpec | src/backend/common/value.h:1384-1441 | VARBINARY to VARCHAR keeps the bytes, and VARCHAR to VARBINARY is always a type mismatch |
| Cast.PromoteForOp | src/backend/common/value.h:587-622 | the left kind chooses the promotion table and the right kind the entry; a non-numeric left kind gives INVALID |
| Cast.Arith | src/backend/common/value.h:3445-3567 | op_subtract, op_add, op_multiply and op_divide: promotion, NULL operands and dispatch to the checked operations, stated by `Cast.ArithNullAndPromotion` and `Cast.ArithDispatch` |
| Cast.ArithNullAndPromotion | src/backend/common/value.h:3445-3567 | a NULL operand gives the NULL of the promoted kind; a non-numeric left operand never promotes and throws (type mismatch for subtract) |
| Cast.ArithDispatch | src/backend/common/value.h:3445-3567 | integers promoted to an integer kind meet in the checked int64 operations; an integer promoted to DECIMAL enters as n·10^12 |
| Compare.CompareValue | src/backend/common/value.h:1617-1625 | the three-way result is EQUAL iff the operands are equal and LESS iff lhs < rhs |
| Compare.CompareNull | src/backend/common/value.h:2409-2423 | compareNull decides exactly when at least one side is NULL |
| Compare.CompareIntegral | src/backend/common/value.h:1647-1742 | compareTinyInt .. compareTimestamp: against a decimal the integer is scaled by 10^12, otherwise the right side goes through castAsBigIntAndGetValue; stated by `Compare.IntegerMeetsDecimal`, `Compare.CompareAntisymmetric` and `Compare.CompareReflexive` |
| Compare.CompareStringValue | src/backend/common/value.h:1786-1822 | compareStringValue: stated by `Compare.StringOrderWithoutNul`, `Compare.StringCompareStopsAtNul` and `Compare.MixedObjectComparison` |
| Compare.CompareBinaryValue | src/backend/common/value.h:1824-1857 | compareBinaryValue: stated by `Compare.BinaryOrder` and `Compare.MixedObjectComparison` |
| Compare.CompareDecimalValue | src/backend/common/value.h:1859-1922 | compareDecimalValue: decimals against decimals or scaled integers; stated by `Compare.IntegerMeetsDecimal` and `Compare.CompareReflexive` |
| Compare.CompareWithoutNull | src/backend/common/value.h:2431-2458 | compare_withoutNull: dispatch on the left kind; stated by `Compare.CompareAntisymmetric` and `Compare.CompareReflexive` |
| Compare.CompareValues | src/backend/common/value.h:2465-2472 | compare: NULLs first, then compare_withoutNull; stated by `Compare.NullsSortFirst` and the lemmas above |
| Compare.NullsSortFirst | src/backend/common/value.h:2409-2472 | NULL equals NULL and sorts below every non-NULL value |
| Compare.Strncmp | src/backend/common/value.h:1806-1806 | `::strncmp` over the shorter length on unsigned bytes, stopping at a shared NUL; stated by `Compare.StrncmpWithoutNul`, `Compare.StrncmpStopsAtNul`, `Compare.StrncmpAntisymmetric` and `Compare.StrncmpReflexive` |
| Compare.Memcmp | src/backend/common/value.h:1841-1841 | `::memcmp` over the shorter length on unsigned bytes; stated by `Compare.MemcmpSpec`, `Compare.MemcmpAntisymmetric` and `Compare.MemcmpReflexive` |
| Compare.MemcmpSpec | src/backend/common/value.h:1824-1857 | memcmp over n bytes is EQUAL iff the prefixes match and LESS iff the first differing unsigned byte is smaller |
| Compare.BinaryOrder | src/backend/common/value.h:1824-1857 | VARBINARY values are EQUAL iff their bytes match and LESS iff they are lexicographically smaller, a proper prefix first |
| Compare.StrncmpWithoutNul | src/backend/common/value.h:1786-1822 | strncmp agrees with memcmp when the left string has no NUL byte |
| Compare.StringOrderWithoutNul | src/backend/common/value.h:1786-1822 | a NUL-free VARCHAR compares to an object by plain lexicographic byte order |
| Compare.StrncmpStopsAtNul | src/backend/common/value.h:1786-1822 | strncmp over n bytes is EQUAL when both strings agree up to and including a NUL byte before position n |
| Compare.StringCompareStopsAtNul | src/backend/common/value.h:1786-1822 | two VARCHARs that agree up to and including a NUL byte inside the shorter one compare by length alone: EQUAL exactly when their lengths are equal, whatever follows the NUL |
| Compare.StrncmpAntisymmetric | src/backend/common/value.h:1806-1806 | swapping the two strings of strncmp flips its result |
| Compare.MemcmpAntisymmetric | src/backend/common/value.h:1841-1841 | swapping the two strings of memcmp flips its result |
| Compare.StrncmpReflexive | src/backend/common/value.h:1806-1806 | a string compared with itself by strncmp is EQUAL |
| Compare.MemcmpReflexive | src/backend/common/value.h:1841-1841 | a string compared with itself by memcmp is EQUAL |
| Compare.MixedObjectComparison | src/backend/common/value.h:1786-1857 | a VARCHAR left side accepts a VARBINARY, while a VARBINARY left side rejects a VARCHAR with a type mismatch |
| Compare.IntegerMeetsDecimal | src/backend/common/value.h:1647-1922 | an integer meets a decimal, on either side, by scaling the integer by 10^12 |
| Compare.CompareAntisymmetric | src/backend/common/value.h:2431-2458 | when both directions succeed, swapping the operands flips the ordering |
| Compare.CompareReflexive | src/backend/common/value.h:2431-2458 | a value compares with itself exactly when it is NULL, integral, an object or a decimal, and then it is EQUAL |
| Compare.OpRelation | src/backend/common/value.h:3172-3194 | the op_* relations give a boolean that is never NULL |
| Compare.OpRelationWithoutNull | src/backend/common/value.h:3197-3219 | the op_*_withoutNull relations: stated by `Compare.RelationSpec` |
| Compare.RelationSpec | src/backend/common/value.h:3172-3219 | op_* is true exactly when its relation holds of compare; it agrees with the _withoutNull form on non-NULL operands; swapping operands with the converse relation gives the same answer |
| Compare.OpMax | src/backend/common/value.h:3221-3227 | op_max: stated by `Compare.MaxMinSpec` |
| Compare.OpMin | src/backend/common/value.h:3229-3235 | op_min: stated by `Compare.MaxMinSpec` |
| Compare.MaxMinSpec | src/backend/common/value.h:3221-3235 | op_max and op_min return one of their operands, no less (no greater) than either, and on unequal operands they return different ones |
| Utf8.UTF8Iterator.constructor | src/backend/common/value.h:459-467 | `UTF8Iterator(start, end)`: the cursor at the first byte of the buffer |
| Utf8.UTF8Iterator.At | src/backend/common/value.h:469-473 | `UTF8Iterator(other, start)`: the same buffer end as other, the cursor at start |
| Utf8.UTF8Iterator.AtEnd | src/backend/common/value.h:477-477 | atEnd: the cursor is at or beyond the end, which the cursor loops of `Utf8.UTF8Iterator.SkipCodePoints` and `Like.Liker.Like` test |
| Utf8.Next | src/backend/common/value.h:498-522 | the stand-in for utf8::unchecked::next: one decoded code point of at least one byte; used by `Utf8.UTF8Iterator.ExtractCodePoint` |
| Utf8.UTF8Iterator.ExtractCodePoint | src/backend/common/value.h:498-522 | the cursor moves ahead over one decoded sequence, at least one byte, and the code points from the old cursor are this one followed by those from the new cursor |
| Utf8.UTF8Iterator.SkipCodePoints | src/backend/common/value.h:479-490 | the cursor ends where skipping that many code points leads, and the result is the end when the text ran out |
| Utf8.SkipDropsCodePoints | src/backend/common/value.h:479-490 | skipping k code points drops exactly the first k of them, or reaches the end when there are fewer |
| Utf8.AsciiCodePoints | src/backend/common/value.h:498-522 | on 7-bit text the cursor yields every byte as its own code point |
| Like.LikeCodePoints | src/backend/common/value.h:3657-3723 | the matcher Liker::like computes; stated by `Like.LikeIsSqlLike`, `Like.DoubledPercentQuirk` and the pattern lemmas below |
| Like.Liker.constructor | src/backend/common/value.h:3652-3655 | the public Liker: two fresh, distinct iterators at the start of the value and the pattern |
| Like.Liker.Nested | src/backend/common/value.h:3646-3649 | the recursion context: two fresh, distinct iterators over the original buffers at the given cursors |
| Like.Liker.Like | src/backend/common/value.h:3657-3723 | the cursor loops with their nested restarts compute the matcher function on the value's and pattern's remaining code points |
| Like.LikeIsSqlLike | src/backend/common/value.h:3657-3723 | on patterns without a doubled `%` the matcher is the standard SQL LIKE (`_` one code point, `%` any run, literals equal) |
| Like.ScanIsSqlLike | src/backend/common/value.h:3657-3723 | the scan after a `%` succeeds exactly when some suffix of the value matches the rest of the pattern |
| Like.DoubledPercentQuirk | src/backend/common/value.h:3657-3723 | for every rest of the pattern q, `%%` followed by q fails on an exhausted value, while standard SQL reduces it to matching q |
| Like.LiteralPrefixDoubledPercent | src/backend/common/value.h:3657-3723 | a value u never matches the pattern u followed by `%%` and any rest, when u has no `%` |
| Like.TrailingPercent | src/backend/common/value.h:3657-3723 | appending `%` to a matching pattern matches the value extended by any remainder |
| Like.LiteralPattern | src/backend/common/value.h:3657-3723 | a pattern without wildcards matches exactly the equal value, so the value must be exhausted exactly when the pattern is |
| Like.UnderscorePattern | src/backend/common/value.h:3657-3723 | a pattern of `_` only matches exactly the values with that many code points |
| Like.LikeSpec | src/backend/common/value.h:3603-3732 | Value::like as a function: stated by `Like.AsciiLikeIsSqlLike` and `Like.EmptyValueDoubledPercent`, and computed by `Like.LikeValues` |
| Like.LikeValues | src/backend/common/value.h:3603-3732 | like rejects a non-VARCHAR side and otherwise returns the matcher's verdict as a boolean; an empty pattern matches only an empty value |
| Like.AsciiLikeIsSqlLike | src/backend/common/value.h:3603-3732 | on 7-bit text without a doubled `%` Value::like is the standard SQL LIKE over the bytes |
| Like.EmptyValueDoubledPercent | src/backend/common/value.h:3603-3732 | `'' LIKE '%%'` returns false |
| SqlFloat.TrimFraction | src/backend/common/value.h:184-191 | the kept mantissa digits are a prefix of at least one digit, everything dropped is '0', and the last kept digit is not '0' unless it is the only one |
| SqlFloat.TrimExponent | src/backend/common/value.h:193-202 | the kept exponent digits are a suffix of at least one digit, everything dropped is '0', and the first kept digit is not '0' unless it is the only one |
| SqlFloat.TrimFractionIdempotent | src/backend/common/value.h:184-191 | trimming the mantissa twice trims nothing more |
| SqlFloat.TrimExponentIdempotent | src/backend/common/value.h:193-202 | trimming the exponent twice trims nothing more |
| SqlFloat.DigitsValueAppend | src/backend/common/value.h:184-191 | appending a digit to a digit string multiplies its value by ten and adds the digit |
| SqlFloat.TrimFractionKeepsValue | src/backend/common/value.h:184-191 | the trimmed mantissa fraction has the same value: `0.f` equals `0.t`, that is f's number is t's number times 10 to the number of dropped digits |
| SqlFloat.TrimExponentKeepsValue | src/backend/common/value.h:193-202 | the trimmed exponent digits spell the same number |
| SqlFloat.SqlTextIsMinimal | src/backend/common/value.h:163-206 | the trimmed text is itself well-formed and formats to the same SQL text |
| SqlFloat.SignificantMantissaEnd | src/backend/common/value.h:184-191 | the backward loop stops at the end of the trimmed mantissa and never cuts down to the bare '.' |
| SqlFloat.SignificantExponentStart | src/backend/common/value.h:193-202 | the forward loop skips the sign and leading zeros and keeps at least one exponent digit |
| SqlFloat.StreamSqlFloatFormat | src/backend/common/value.h:163-206 | zero gives "0E0"; any other value gives the C++ text with the mantissa's trailing zeros, the '+' and the exponent's leading zeros removed and a '-' exponent sign kept |

## Left out

- Doubles: double arithmetic, double comparison, double casts and NaN/infinity checks are left out. They are floating-point behaviour. Every member excludes a DOUBLE operand in its `requires` (or, for `castAs` and the arithmetic dispatch, through `Cast.CastModelled` and `Cast.ArithModelled`).
- SqlFloat.StreamSqlFloatFormat: the double itself is not modelled. The C++ stream's scientific text is the model's input, and the `0.0 == floatValue` test is a flag.
- Text parsing and formatting are left out: `getNumberFromString`, `parseTimestampString`, decimal strings, and `castAsString` of numbers, decimals and timestamps. These are library calls defined outside `value.h`.
- Hashing (`hashCombine`, `murmurHash3`) is left out: it is a foreign hash function.
- The wire and export codecs (`serializeTo`, `deserializeFrom*`, `serializeToExport_withoutNull`) are left out. They are built on serializer classes outside `value.h`. Their length-prefix and size checks are the ones modelled here.
- Allocation and ownership are left out: `Varlen` pools, `allocateValueStorage`, `free`, `freeObjectsFromTupleStorage` and temporary string values. An out-of-line object is modelled as its owned length-prefixed byte buffer; which memory it lives in, and aliasing between Values that share it, are not modelled.
- TupleStorage.SerializeToTupleStorage: the `Varlen` reference of an out-of-line object is a parameter of 8 bytes, written to the start of the slot as the source does. Which address it holds is not modelled: it is the pool's choice, also when `allocateObjectFromInlinedValue` first copies an inlined source into the temporary pool. The buffer it refers to is handed back as `Stored.OutOfLine`.
- TupleStorage.InitFromTupleStorage: an inlined object slot is required to start with a NULL prefix or with a one-byte length, that is an inlined object of at most 63 bytes. A first byte of `0x80` or more without the null bit would be read by the source as a signed `char`, giving a negative length; that case is not modelled.
- Utf8.UTF8Iterator.ExtractCodePoint: the decoding itself is not modelled. The body of `utf8::unchecked::next` is not part of this model. A lead-byte decoder in its style stands in for it (`Utf8.Next`): lead bytes announce 1 to 4 bytes, an invalid lead byte counts as one. The contracts rely only on the width being at least one byte.
- The promotion tables `s_intPromotionTable`, `s_decimalPromotionTable` and `s_doublePromotionTable` are a `Cast.PromotionTables` parameter. Their contents are defined outside `value.h`.
- The decimal bounds `s_minDecimalValue`/`s_maxDecimalValue` and their int64-representable range are a `DecimalArith.DecimalBounds` parameter. Their values are defined outside `value.h`, and `DecimalArith.ValidBounds` only asks that they be ordered inside the 128-bit range.
- The sentinels `INTn_NULL`, `PELOTON_INTn_MIN` and `OBJECTLENGTH_NULL` are named constants with their usual values. `types.h` is not part of this model.
- BigIntArith.AddSubtractSpec: the integer operations are stated on mathematical integers. The CERT sign-bit tests are proved separately on `bv64` (`CertBits`). The bridge is not proved: that the `bv64` test on the two's-complement images equals the integer range test.
- BigIntArith.DivideSpec: `INT64_MIN / -1` is excluded by its `requires`. The source does not guard it either, and it is undefined behaviour in C++.
- BigIntArith.DecrementOfNullWraps: TINYINT and SMALLINT compute `n - 1` in `int` and cast back, which wraps the sentinel to the maximum. INTEGER, BIGINT and TIMESTAMP subtract in their own width, so decrementing `INT32_MIN` or `INT64_MIN` is undefined in C++; the model gives them the same two's-complement wrap.
- Cast.Arith: when both operands of an arithmetic operator fail to convert, the model reports the left operand's error. The order in which C++ evaluates the two arguments is unspecified.
- Cast.CastAs: each `castAs*` function asserts a non-NULL source, and the model follows a release build, where that assert is absent. A NULL source reaching `castAs` is answered with `getNullValue` before any of them runs.
- ADDRESS carries its 64-bit integer as a scalar payload, which `castAsBigInt` keeps. ARRAY carries no payload. `castAsAddress`, `getAddressValue` and the array functions are left out.
- Declared-only members are left out: `op_and`, `op_or`, `op_negate`, `inList`, `callUnary`/`call`, `trimWithOptions`, `setArrayElements`. They are defined outside `value.h`.
- Diagnostics are left out: exception message text, `snprintf` formatting and `LOG_TRACE`. Errors are identified by exception class and reason only.
- Debug-only `assert`s become `requires` clauses where a caller must meet them, for example the cursor bounds of `UTF8Iterator`.

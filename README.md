# storageunit in Dafny

This project models the Go package `storageunit`. The package has two unit-value types, each a 64-bit unsigned count of bits:

- `Bytes` (byte.go) uses binary prefixes: one byte is 8 bits, and K, M, G, T, P, E step by 1024 up to the exabyte, 2^63 bits.
- `Bits` (bit.go) uses decimal prefixes: K, M, G, T, P, E step by 1000 up to the exabit, 10^18 bits.

Each type has the following operations:

- A parser (`ParseBytes`, `ParseBits`). It reads a decimal count, an optional prefix letter and a marker letter (`B` or `b`).
- A formatter (`String`). It prints the count in the largest unit not above it.
- Conversions between the two types (`Bit`, `Byte`).
- Text and JSON marshalling, and unmarshalling into a variable.

The parsers and formatters of the two Go files are one algorithm. They differ only in these four things:

- the marker letter;
- the base unit;
- the ratio between successive units;
- the error text.

The model writes that algorithm once, in `units.dfy`, over a `Family` value that holds those four things. It proves the round-trip facts there once. `byte.dfy` and `bit.dfy` then instantiate the algorithm with the constants of each Go file, and state every property in that file's own terms.

The files differ in two further places:

- JSON: `Bytes.MarshalJSON` puts the text in double quotes (byte.go:119-121), and `Bits.MarshalJSON` does not (bit.go:116-118). `ByteUnit.JsonUnquote` and `BitUnit.JsonReread` state the consequences.
- Below the first prefixed unit, `Bytes.String` prints the count with `FormatUint` (byte.go:80) and `Bits.String` with `FormatInt` (bit.go:80). Both print the same digits for every count they receive there, which is below 8192.

The rest of the model is laid out as follows:

- `decimal.dfy` holds decimal digit strings. They stand for what `strconv.FormatUint`, `FormatInt` and `FormatFloat` print for an integral value. They also stand for the literals `strconv.ParseFloat` reads, restricted to unsigned digit strings.
- The unmarshal operations assign through a pointer receiver. They are methods of the classes `ByteUnit.BytesRef` and `BitUnit.BitsRef`, whose field `value` is the count.
- Everything else is a pure function.

Two facts about the code are easy to miss:

- `Bits.String` divides integers, so 1500 bits print as "1Kb" and not "1.5Kb" (bit.go:77-78). `BitUnit.StringTruncates` states this.
- `Bytes.Bit` and `Bits.Byte` keep the stored count unchanged; they do not multiply or divide by 8 (byte.go:83-85, bit.go:83-85). `ByteUnit.Bit`, `BitUnit.Byte` and `BitUnit.ByteOfBit` state this.

## Model

| member | source | states |
|---|---|---|
| Decimal.Value | byte.go:59-63 | the value a digit literal reads as, in place of ParseFloat; a leading zero does not change it |
| Decimal.Digits | byte.go:80 | the printed decimal text of n is canonical (no leading zero) and denotes n; it is one character exactly when n < 10 |
| Decimal.DigitsOfValue | bit.go:59-63 | every canonical digit literal is the printed text of its own value, so printing what was read gives the literal back |
| Units.Unit | byte.go:14-20 | the unit of rank k, base times ratio to the k; it is never below the base unit; ByteUnit.ByteUnitAt and BitUnit.BitUnitAt tie it to each file's constants |
| Units.UnitIncreasing | byte.go:14-20 | units grow strictly with their rank |
| Units.PrefixRank | byte.go:35-53 | exactly the letters K, M, G, T, P, E select a unit, of rank 1 to 6 in that order |
| Units.SplitUnit | byte.go:30-58 | the suffix is accepted iff the input has at least two characters, ends in the marker, and has a prefix letter or a digit before the marker; an accepted input is the literal followed by the spelling of the selected unit; a rejection is the family's "Invalid" error |
| Units.SplitSpelling | byte.go:33-58 | splitting the spelling of a literal and a unit gives that literal and unit back whenever a prefix is present or the literal ends in a digit |
| Units.Parse | byte.go:26-64 | the empty input reads as 0; for a non-empty input the "Invalid" error is returned exactly when the suffix check fails; every other failure is a syntax or out-of-range error |
| Units.ParseReadsSpelling | byte.go:26-64 | every non-empty input that reads as a count, or overflows, is the spelling of some digit literal and unit, and its result is that literal's value times that unit, or out of range at 2^64 |
| Units.ParseSyntaxError | byte.go:33-62 | the syntax error is returned exactly when the suffix check passes but the input is not the spelling of any non-empty digit literal and unit |
| Units.ParseSpelling | byte.go:59-63 | for every non-empty digit literal and every rank, literal, prefix and marker read as literal value times unit, or out of range |
| Units.ParseBarePrefix | byte.go:33-62 | a prefix letter with no digits before it is a syntax error |
| Units.Rank | byte.go:65-82 | the chosen rank is at most 6, its unit is not above b, and the next unit is above b |
| Units.RankUnique | byte.go:65-82 | those properties determine the rank: it is the only largest unit not above b |
| Units.Shown | byte.go:67-80 | below the first prefixed unit the printed number is b itself; above it the number is at least 1, times the unit it gives b less its remainder, and it is below the ratio for every rank but the last |
| Units.Format | byte.go:65-82 | the shared formatter prints a text that begins with a digit and passes the parser's suffix check; its round trips are Units.ParseFormat and Units.FormatParse |
| Units.FormatText | byte.go:65-82 | the formatted text is the count and the marker below the first prefixed unit, and otherwise the count divided by the largest unit not above it, that unit's prefix letter and the marker |
| Units.FormatEnds | byte.go:65-82 | every formatted count ends in the marker, preceded by a digit or a prefix letter, and it is two characters long exactly for a single-digit count in base units |
| Units.ParseFormat | byte.go:26-82 | reading back formatted text gives b times the base unit below the first prefixed unit, and b less its remainder modulo the chosen unit above it |
| Units.RankOfMultiple | byte.go:65-78 | n times a prefixed unit, with 1 <= n < ratio, is printed in that unit with quotient n |
| Units.ParseFormatExact | byte.go:26-78 | n times a prefixed unit, with 1 <= n < ratio, reads back exactly |
| Units.FormatParse | byte.go:26-78 | a canonical literal 1 to ratio - 1 with a prefix reads as a count that is printed as the same text |
| ByteUnit.ByteTable | byte.go:13-24 | the byte units are the unit family with base 8 and ratio 1024; the exabyte is 2^63 and every unit fits in 64 bits |
| ByteUnit.ByteUnitAt | byte.go:14-20 | the unit of rank k is the k-th constant, Byte to Exabyte |
| ByteUnit.ByteRankUnits | byte.go:65-82 | String uses the base unit exactly for counts below a kilobyte |
| ByteUnit.ParseBytes | byte.go:26-32 | the empty string is 0; an input shorter than two characters or not ending in 'B' is "Invalid Byte"; so is one whose character before the 'B' is neither a prefix letter nor a digit |
| ByteUnit.ParseBytesPrefix | byte.go:33-63 | a digit literal followed by 'B', or by a prefix letter and 'B', reads as literal value times 8, 8192, ..., 2^63, or is out of range |
| ByteUnit.ParseBytesCount | byte.go:59-63 | "5B" reads as 40 bits |
| ByteUnit.ParseBytesKilobyte | byte.go:36-38 | "1KB" reads as 8192 bits |
| ByteUnit.ParseBytesExabyte | byte.go:51-53 | "1EB" reads as 2^63 bits |
| ByteUnit.ParseBytesRejects | byte.go:30-61 | "KB" and "EB" are syntax errors; "5b", "B", "abc" and "1kB" are "Invalid Byte" |
| ByteUnit.String | byte.go:65-82 | String's text begins with a digit and passes ParseBytes' suffix check; ByteUnit.StringShape gives the text by range and ByteUnit.ParseStringSmall and ByteUnit.ParseStringLarge read it back |
| ByteUnit.StringShape | byte.go:65-82 | from a kilobyte up, String prints the whole number (1 to 1023) of the largest unit not above b, its prefix and 'B'; every count from an exabyte up prints "1EB"; below a kilobyte it prints the stored count and 'B' |
| ByteUnit.ParseStringSmall | byte.go:79-80 | below a kilobyte, reading back the printed text gives 8 times the count |
| ByteUnit.ParseStringLarge | byte.go:65-78 | from a kilobyte up, reading back the printed text gives b less its remainder modulo the printed unit |
| ByteUnit.ParseStringExact | byte.go:65-78 | n times a prefixed unit, 1 <= n <= 1023, reads back exactly |
| ByteUnit.StringOfParse | byte.go:26-78 | canonical text 1 to 1023 with a prefix reads as a count that String prints as the same text |
| ByteUnit.ByteCountMisread | byte.go:79-80 | one byte prints as "8B", which reads back as 64 bits |
| ByteUnit.StringInBytes | byte.go:65-82 | the corrected String reads back, at every count, as the count less its remainder modulo the printed unit; from a kilobyte up it prints what String prints |
| ByteUnit.ParseWholeBytes | byte.go:79-80 | below a kilobyte, the whole number of bytes followed by 'B' reads back as the count less its part of a byte |
| ByteUnit.Bit | byte.go:83-85 | Bit keeps the stored count |
| ByteUnit.MarshalText | byte.go:113-115 | the text is String's, so it begins with a digit and passes ParseBytes' suffix check |
| ByteUnit.MarshalJSON | byte.go:119-121 | the JSON is at least four characters, a double quote first and last, with MarshalText's text between them |
| ByteUnit.JsonUnquote | byte.go:113-121 | MarshalJSON is MarshalText in quotes, and UnmarshalJSON of it reads what UnmarshalText of MarshalText reads |
| ByteUnit.BytesRef.UnmarshalText | byte.go:105-112 | on success the variable holds the parsed count and no error is returned; on failure the parse error is returned and the variable is unchanged |
| ByteUnit.BytesRef.UnmarshalJSON | byte.go:116-118 | the same as UnmarshalText applied to the input without its first and last character |
| BitUnit.BitTable | bit.go:13-24 | the bit units are the unit family with base 1 and ratio 1000; the exabit is 10^18 and every unit fits in 64 bits |
| BitUnit.BitUnitAt | bit.go:14-20 | the unit of rank k is the k-th constant, Bit to Exabit |
| BitUnit.BitRankUnits | bit.go:65-82 | String uses the base unit exactly for counts below a kilobit |
| BitUnit.ParseBits | bit.go:26-32 | the empty string is 0; an input shorter than two characters or not ending in 'b' is "Invalid Bit"; so is one whose character before the 'b' is neither a prefix letter nor a digit |
| BitUnit.ParseBitsPrefix | bit.go:33-63 | a digit literal followed by 'b', or by a prefix letter and 'b', reads as literal value times 1, 1000, ..., 10^18, or is out of range |
| BitUnit.ParseBitsCount | bit.go:59-63 | "5b" reads as 5 bits |
| BitUnit.ParseBitsKilobits | bit.go:36-38 | "2Kb" reads as 2000 bits |
| BitUnit.ParseBitsRejects | bit.go:30-61 | "Kb" is a syntax error; "5" and "5B" are "Invalid Bit" |
| BitUnit.String | bit.go:65-82 | String's text begins with a digit and passes ParseBits' suffix check; BitUnit.StringShape gives the text by range and BitUnit.ParseString reads it back |
| BitUnit.StringShape | bit.go:65-82 | from a kilobit up, String prints the whole number of the largest unit not above b (1 to 999, and 1 to 18 exabits), its prefix and 'b'; below a kilobit it prints the count and 'b' |
| BitUnit.ParseString | bit.go:26-82 | reading back any printed count gives b less its remainder modulo the printed unit, and exactly b below a kilobit |
| BitUnit.ParseStringExact | bit.go:65-78 | n times a prefixed unit, 1 <= n <= 999, reads back exactly |
| BitUnit.StringOfParse | bit.go:26-78 | canonical text 1 to 999 with a prefix reads as a count that String prints as the same text |
| BitUnit.StringOfParseBase | bit.go:79-80 | canonical text below 1000 followed by 'b' reads as its value, which String prints as the same text |
| BitUnit.StringBelowKilobit | bit.go:79-80 | below a kilobit String prints the count and 'b' |
| BitUnit.StringTruncates | bit.go:77-78 | 1500 bits print as "1Kb": the quotient is truncated |
| BitUnit.Byte | bit.go:83-85 | Byte keeps the stored count |
| BitUnit.ByteOfBit | bit.go:83-85 | converting bytes to bits and back gives the same value |
| BitUnit.MarshalText | bit.go:113-115 | the text is String's, so it begins with a digit and passes ParseBits' suffix check |
| BitUnit.MarshalJSON | bit.go:116-118 | the JSON is MarshalText's text itself, unquoted: it begins with a digit and ends in 'b' |
| BitUnit.JsonReread | bit.go:116-121 | reading back a value's own JSON stores 0 for counts up to 9 and fails with "Invalid Bit" for every larger count |
| BitUnit.QuotedJSON | bit.go:116-118 | the corrected MarshalJSON is MarshalText in quotes, and reading it back gives b less its remainder modulo the printed unit |
| BitUnit.BitsRef.UnmarshalText | bit.go:105-112 | on success the variable holds the parsed count and no error is returned; on failure the parse error is returned and the variable is unchanged |
| BitUnit.BitsRef.UnmarshalJSON | bit.go:119-121 | the same as UnmarshalText applied to the input without its first and last character |

## Left out

- ByteUnit.ParseBytes: the literal is read by `strconv.ParseFloat`. Only unsigned decimal digit strings are accepted here, with their exact value. Fractions ("1.5KB"), signs, exponents, "Inf" and "NaN" give `InvalidSyntax`.
- BitUnit.ParseBits: the same restriction on the literal as ParseBytes.
- ByteUnit.ParseBytes: Go multiplies in float64 and converts to uint64. Results from 2^53 up are rounded there, and out-of-range conversions are implementation-defined. Here the product is exact, and a product of 2^64 or more is an `OutOfRange` error.
- BitUnit.ParseBits: the same exact product and `OutOfRange` error as ParseBytes.
- Error values: `ParseFloat`'s `*NumError` becomes `InvalidSyntax`. The messages "Invalid Byte" and "Invalid Bit" are kept.
- `strconv.FormatFloat`, `FormatUint` and `FormatInt` are modelled as printing the decimal digits of a natural number. Every value they receive is an integral quotient or a count below 8192, so the text is the same.
- The float accessors `Kilobytes` to `Exabytes` (byte.go:86-103) and `Kilobits` to `Exabits` (bit.go:86-103) are not modelled: they are floating-point division.
- `StringToBytesHookFunc` and `StringToBitsHookFunc`, with their `reflect` variables (byte.go:123-137, bit.go:123-137), are not modelled: they depend on the mapstructure library and runtime type inspection.
- ByteUnit.BytesRef.UnmarshalJSON: requires at least two characters of input; Go panics on shorter input when slicing.
- BitUnit.BitsRef.UnmarshalJSON: requires at least two characters, for the same reason.
- MarshalText and MarshalJSON return only their text. Their Go error result is always nil.
- Strings are sequences of characters, one per byte of the Go string.

## Findings

| source | as written | input that shows it | evidently intended | confidence | as-written member | corrected member |
|---|---|---|---|---|---|---|
| byte.go:79-80 | below a kilobyte, String prints the stored count of bits followed by "B" | one byte (8) prints "8B", which ParseBytes reads as 64 | print the count in bytes, as every other branch prints the count in its unit, so that reading back loses only a remainder | not executed | ByteUnit.ByteCountMisread | ByteUnit.StringInBytes |
| bit.go:116-121 | Bits.MarshalJSON emits String() without quotes, while UnmarshalJSON drops the first and last character | 10 bits marshal to `10b`; UnmarshalJSON parses "0" and fails with "Invalid Bit" | quote the text, as Bytes.MarshalJSON does, so that UnmarshalJSON reads back what UnmarshalText would | not executed | BitUnit.JsonReread | BitUnit.QuotedJSON |

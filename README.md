# tableschema-swift casting engine, in Dafny

This project models the casting core of tableschema-swift, a Swift
implementation of Frictionless Table Schema. A `Field` is a column
descriptor: a name, a type, a format, boolean literals and a `bareNumber`
flag. It casts one cell between its physical form (a `String`) and its
logical form (a Swift value). A cast goes forward, text to value, or in
reverse, value to text. A `Schema` is a list of fields plus the texts that
mean "missing". It casts whole records, either in its own field order or in
an order it is given. A `Table` pairs a row provider with an optional
schema. Its `CastIterator` resolves the provider's header against the
schema once. It then produces the rows one at a time, cast through the
schema, up to a limit.

Layout, one module per file:

- `wrappers.dfy` (`Wrappers`): `Option`, `Result`, and the two internal
  errors `BadCast` and `UnavailableCast`.
- `strings.dfy` (`Strings`): the standard-library text operations the casts
  use:
  - 64-bit `Int`, `Int(String)` and `String(Int)`;
  - `lowercased()`;
  - `trimmingCharacters(in: .whitespaces)`;
  - `split(separator:)`.
- `scanning.dfy` (`Scanning`): Foundation's `Scanner` with no skipped
  characters. It is a class with a text and a location, and its
  `scanCharacters` and `scanUpToCharacters` methods are proved against a
  run function.
- `integers.dfy` (`Integers`): the `digits(using:_:)` helper and the
  non-bare integer cast. Both are methods over a `Scanner`, each proved to
  compute a specification function.
- `duration.dfy` (`Durations`): the ISO 8601 duration cast:
  - the parser, as specification functions;
  - the `Scanner` method that is proved to compute them;
  - the nanosecond arithmetic;
  - the sign property.
- `duration_text.dfy` (`DurationTexts`): the designator texts the duration
  cast is meant to read, with the round-trip theorem and the rejection
  cases, and what the cast does with trailing text and with a designator
  that has no number.
- `values.dfy` (`Values`): the logical values (Swift's `Any`), and the
  Foundation services that are passed in as a parameter.
- `field.dfy` (`Fields`): formats, `Field`, and every forward and reverse
  cast.
- `schema.dfy` (`Schemas`):
  - casts of single values and of records;
  - missing values;
  - `unique`, `uniqueByName` and `groupByName`.
- `table.dfy` (`Tables`): header resolution, the `CastIterator` class and
  `Table.makeIterator`.

`Field`, `Schema` and `Table` are values here, because no casting operation
changes them. `CastIterator` and `Scanner` are classes, because their
`next()` and `scan…` operations advance state in place.

## Model

| member | source | states |
|---|---|---|
| Strings.Signed | Sources/Field.swift:350-354 | A digit run of magnitude m, read with or without a leading `-`, gives ±m, and gives nil exactly when ±m is outside the 64-bit `Int` range. |
| Strings.ParseDigits | Sources/Field.swift:350-354 | `Int(run)` and `Int("-" + run)` of a digit run are the unsigned and the negated value, nil on overflow. |
| Strings.NatTextDenotes | Sources/Field.swift:218-223 | The decimal text `String(n)` writes for a natural number is a non-empty digit run that denotes n. |
| Strings.DecimalText | Sources/Field.swift:218-223 | `String(n)` is a non-empty text that starts with `-` exactly when n is negative, and is digits otherwise. |
| Strings.ParseInt | Sources/Field.swift:400-403 | `Int(s)` succeeds only on an optional `+` or `-` followed by digits, with at least one digit, and gives a negative value only after `-`. |
| Strings.ParseDecimalText | Sources/Field.swift:218-223 | `Int(String(n)) == n` for every 64-bit n. The decimal text of any integer outside the range is rejected. |
| Strings.Lowercased | Sources/Field.swift:122-124 | `lowercased()` keeps the length and lowers each character on its own. |
| Strings.LowercasedIdempotent | Sources/Field.swift:122-124 | Lowercasing twice is lowercasing once, so a unique name is its own unique name. |
| Strings.TrimStart | Sources/Field.swift:642-645 | The result is a suffix of the text, everything dropped is whitespace, and a non-empty result does not start with whitespace. |
| Strings.TrimEnd | Sources/Field.swift:642-645 | The result is a prefix, everything dropped is whitespace, and a non-empty result does not end with whitespace. |
| Strings.Trim | Sources/Field.swift:642-645 | A non-empty trimmed text neither starts nor ends with whitespace. |
| Strings.TrimRemovesOnlyWhitespace | Sources/Field.swift:642-645 | The trimmed text is a contiguous slice of the original, and only whitespace lies outside that slice. |
| Strings.PieceLength | Sources/Field.swift:638 | The first piece ends at the first separator or at the end of the text. |
| Strings.WithoutAppend | Sources/Field.swift:638 | Deleting separators distributes over concatenation. |
| Strings.WithoutFree | Sources/Field.swift:638 | A text with no separator has nothing deleted. |
| Strings.Split | Sources/Field.swift:638 | `split(separator:)`: every piece is non-empty and free of the separator (empty pieces are dropped), and the pieces, concatenated, give the text with its separators deleted. |
| Strings.SplitPiece | Sources/Field.swift:638 | A non-empty text with no separator is one piece, itself. |
| Strings.SplitAt | Sources/Field.swift:638 | A separator cuts the text in two: the pieces of the text before it, followed by the pieces of the text after it. |
| Strings.SplitTwo | Sources/Field.swift:638 | Two non-empty separator-free texts joined by one separator split into exactly those two pieces. |
| Scanning.Run | Sources/Field.swift:341-357 | The scan of a character class stops at or before the end, and at the first character outside the class. |
| Scanning.RunMembers | Sources/Field.swift:341-357 | Every character passed over by a scan is in the class. |
| Scanning.RunIs | Sources/Field.swift:341-357 | The scan ends exactly at a position j when all characters before j are in the class and the one at j is not. |
| Scanning.RunReads | Sources/Field.swift:341-357 | A scan over a known remainder of the text is the same scan over that remainder, offset. |
| Scanning.RunExtend | Sources/Field.swift:341-357 | Appending text leaves a scan unchanged when the scan stopped inside the text, or when the appended text does not begin with a character of the class. |
| Scanning.Scanner.constructor | Sources/Field.swift:552-553 | `Scanner(string:)` with `charactersToBeSkipped = nil` starts at location 0 over the text. |
| Scanning.Scanner.ScanCharacters | Sources/Field.swift:344 | `scanCharacters(from:into:)` moves the location past the run of the set, and reports whether it moved. |
| Scanning.Scanner.ScanUpToCharacters | Sources/Field.swift:557 | `scanUpToCharacters(from:into:)` moves the location to the first character of the set, and reports whether it moved. |
| Integers.RunValueDenotes | Sources/Field.swift:341-357 | The value accumulated over a digit run is the decimal value of its text. |
| Integers.RunValueExtend | Sources/Field.swift:341-357 | The value of a digit run depends only on the digits it passes over. |
| Integers.Digits | Sources/Field.swift:341-357 | `digits(using:_:)` always consumes the whole digit run. It gives a value only when the run is non-empty. |
| Integers.DigitsExtend | Sources/Field.swift:341-357 | A digit scan that stops inside the text reads the same after text is appended. |
| Integers.NonBareInteger | Sources/Field.swift:383-404 | The non-bare integer cast fails only with a bad cast. It succeeds only when the text holds a digit, and gives a negative value only when the text holds a `-`. |
| Integers.ScanDigits | Sources/Field.swift:341-357 | The scanner method gives the same value and leaves the scanner where `Digits` says. |
| Integers.DigitsRead | Sources/Field.swift:341-357 | On a digit run followed by a non-digit, `digits` gives the run's value, negated when asked. It is nil on overflow, and the scan stops after the run. |
| Integers.NonBareIntegerCast | Sources/Field.swift:383-404 | The non-bare `integerCast` over a scanner computes `NonBareInteger`. |
| Integers.NonBarePrefix | Sources/Field.swift:389-392 | The skip to the first digit or `-`, then the run of `-`, end where the leading noise and the dashes end. |
| Integers.NonBareReadsFirstRun | Sources/Field.swift:383-404 | Noise, then dashes, then a digit run, then anything not starting with a digit, casts to the run's value. The value is negated when any dash is present, and overflow is a bad cast. |
| Integers.NonBareSigned | Sources/Field.swift:383-404 | The same outcome, expressed through `Signed`. |
| Integers.NonBareAfterPrefix | Sources/Field.swift:383-404 | Once the prefix is passed, the outcome is exactly the `digits` read at that point. |
| Integers.NonBareNeedsDigits | Sources/Field.swift:392-403 | Dashes followed by neither a digit nor another dash are a bad cast. |
| Integers.NonBareWithoutDigitsFails | Sources/Field.swift:383-404 | A text with no decimal digit is rejected. |
| Integers.NonBareReadsDecimalText | Sources/Field.swift:383-404 | The non-bare cast reads `String(n)` back as n for every 64-bit n. |
| Integers.NonBareExample | Tests/TableSchemaTests/FieldIntegerCastTests.swift:76-79 | `"asd10asd88"` casts to 10. |
| Durations.Pow10 | Sources/Field.swift:613 | Powers of ten are positive. |
| Durations.TruncDiv | Sources/Field.swift:611 | Swift's `/` truncates toward zero: \|q\| = \|a\| / b, with the sign of a. |
| Durations.NumDigits | Sources/Field.swift:607-612 | The number of decimal digits of n: 10^(k-1) <= n < 10^k, and 0 digits exactly for 0. |
| Durations.NumDigitsIs | Sources/Field.swift:607-612 | The digit count is the unique k with 10^(k-1) <= n < 10^k. |
| Durations.DigitCount | Sources/Field.swift:607-612 | The `while reduced != 0` loop computes `NumDigits` of \|decimals\| for a negative value too. |
| Durations.Nanoseconds | Sources/Field.swift:613 | In exact arithmetic, the nanoseconds are below one second in magnitude, have the sign of the decimals, and are zero only for zero. |
| Durations.ScaleBound | Sources/Field.swift:613 | In exact arithmetic, scaling the decimals to nine places, up by multiplying or down by truncating, stays below a second with the same sign. |
| Durations.ScaleUp | Sources/Field.swift:613 | In exact arithmetic, nine digits or fewer, multiplied up, stay below a second with the same sign. |
| Durations.ScaleDown | Sources/Field.swift:613 | In exact arithmetic, more than nine digits, truncated down, stay below a second with the same sign. |
| Durations.NanosecondsOdd | Sources/Field.swift:613 | Negating the decimals negates the nanoseconds. |
| Durations.After | Sources/Field.swift:563 | A designator scan stays within the text. |
| Durations.Designator | Sources/Field.swift:567-601 | A designator is seen exactly when the next character is that letter. The pending number then becomes its component, and the digits after the letter become pending. Otherwise nothing changes. The scan only moves forward. |
| Durations.DateFields | Sources/Field.swift:560-584 | The date scan moves forward and stays within the text. |
| Durations.FractionFields | Sources/Field.swift:603-614 | The fraction fails, as a bad cast, exactly when a run of `.` is followed by no digit or by digits that overflow. On success there is a nanosecond value exactly when the text there starts with `.`, and it is the nanoseconds of the digits read. |
| Durations.SecondsFields | Sources/Field.swift:603-619 | The seconds fail exactly when the fraction fails, as a bad cast. They keep the fraction's nanoseconds, and take the pending number as the seconds only when `S` was seen. |
| Durations.TimeFields | Sources/Field.swift:586-619 | The time part fails only as a bad cast. On success it has the `T` designator exactly when the text starts with `T` there, and any hour, minute or second it sets marks a time as present. |
| Durations.Body | Sources/Field.swift:560-629 | The body fails only as a bad cast. On success its year, month and day are the date part's. |
| Durations.Duration | Sources/Field.swift:550-633 | `durationCast` fails only as a bad cast, and succeeds only on a text containing `P`. |
| Durations.Assemble | Sources/Field.swift:621-629 | Success exactly when the `T` designator agrees with the presence of a time component and some component is set. It then holds exactly the components read; failure is a bad cast. |
| Durations.DurationPrefix | Sources/Field.swift:552-565 | The `P` run lies after the sign, within the text. |
| Durations.DurationCast | Sources/Field.swift:550-633 | `durationCast`, run over a `Scanner`, computes `Duration`. |
| Durations.ScanDesignator | Sources/Field.swift:569-573 | One designator step over the scanner computes `Designator`. |
| Durations.ScanDate | Sources/Field.swift:560-584 | The date steps over the scanner compute `DateFields`, and leave the scanner where it says. |
| Durations.ScanTime | Sources/Field.swift:586-619 | The time steps over the scanner compute `TimeFields`. |
| Durations.ScanSeconds | Sources/Field.swift:603-619 | The fraction and `S` steps compute `SecondsFields`. |
| Durations.ScanFraction | Sources/Field.swift:603-614 | The fraction step computes `FractionFields`. |
| Durations.Negate | Sources/Field.swift:350-354 | Negation keeps nil nil and negates a non-negative value. |
| Durations.DigitsSign | Sources/Field.swift:350-354 | When the run's value fits in an `Int`, reading it with the sign flag set gives the negation, at the same position. |
| Durations.DesignatorSign | Sources/Field.swift:567-601 | A designator step with the sign set is the unsigned step, negated. |
| Durations.DateSign | Sources/Field.swift:560-584 | The date part with the sign set is the unsigned date part, negated. |
| Durations.FractionSign | Sources/Field.swift:603-614 | The same for the fraction. |
| Durations.SecondsSign | Sources/Field.swift:603-619 | The same for the seconds. |
| Durations.TimeSign | Sources/Field.swift:586-619 | The same for the time part. |
| Durations.AssembleSign | Sources/Field.swift:621-629 | Assembling negated parts negates the outcome, and a failure stays the same failure. |
| Durations.BodySign | Sources/Field.swift:560-629 | Reading the designators with the sign set negates every component read without it. |
| Durations.DurationSigned | Sources/Field.swift:557-558 | A `-` before the `P` only negates the components: a negative text's result is the unsigned reading of the same designators, negated. |
| Durations.DesignatorExtend | Sources/Field.swift:567-601 | A designator step that stops inside the text is unchanged by appended text. |
| Durations.DateExtend | Sources/Field.swift:560-584 | A date scan that stops inside the text is unchanged by appended text. |
| Durations.FractionExtend | Sources/Field.swift:603-614 | A successful fraction scan that stops inside the text is unchanged by appended text. |
| Durations.SecondsExtend | Sources/Field.swift:603-619 | Seconds whose `S` was seen are unchanged by appended text that does not start with `S`. |
| Durations.TimeExtend | Sources/Field.swift:586-619 | A time part that reads seconds is unchanged by appended text that does not start with `S`. |
| Durations.BodyExtend | Sources/Field.swift:560-629 | A body that reads seconds is unchanged by appended text that does not start with `S`. |
| Durations.DurationExtend | Sources/Field.swift:550-633 | Trailing text is ignored: once a duration has read its seconds, appending anything that does not start with `S` gives the same result. |
| DurationTexts.DateRenders | Sources/Field.swift:560-584 | On a rendered date part, the scan reads exactly the numbers written, sets `hasDate` exactly when one is written, and stops at the `T` or the end. |
| DurationTexts.TimeRenders | Sources/Field.swift:586-619 | On a rendered time part, the scan reads exactly the hours, minutes, seconds and fraction written. |
| DurationTexts.PrefixRenders | Sources/Field.swift:552-565 | On a rendered text, the prefix scan sees the sign and exactly one `P`. |
| DurationTexts.BodyFromParts | Sources/Field.swift:560-629 | The body's outcome is the date and time parts assembled. |
| DurationTexts.DurationFromParts | Sources/Field.swift:550-633 | The whole outcome is the date and time parts read after the prefix, assembled. |
| DurationTexts.DurationReadsRender | Sources/Field.swift:550-633 | Round trip: every well-formed designator text `[-]PnYnMnDTnHnMn[.f]S` casts to exactly the numbers written in it, each negated after `-`, and the fraction to its nanoseconds. |
| DurationTexts.DurationTrailing | Sources/Field.swift:550-633 | A well-formed designator text with seconds, followed by anything that does not start with `S`, still casts to the numbers written in it. |
| DurationTexts.ReadSign | Sources/Field.swift:350-354 | A numeral read after a `-` is the negated numeral. |
| DurationTexts.FractionReadSign | Sources/Field.swift:603-614 | The fraction read after a `-` is the negated fraction. |
| DurationTexts.ExpectedSigned | Sources/Field.swift:557-558 | A text with `-` is `-` + the text without it, and its meant components are the others, negated. With the round trip, `-` + t casts to the components of t, each negated. |
| DurationTexts.EveryDesignatorText | Tests/TableSchemaTests/FieldForwardCastTests.swift:405 | The worked designators render as `P1Y1M1DT1H1M1.125S`, and as `-P1Y1M1DT1H1M1.125S` with a sign. |
| DurationTexts.EveryDesignatorExpected | Tests/TableSchemaTests/FieldForwardCastTests.swift:405-414 | They are well formed, and are meant to read as 1 for every component and 125000000 nanoseconds, negated with a sign. |
| DurationTexts.EveryDesignatorRead | Tests/TableSchemaTests/FieldForwardCastTests.swift:405-414 | `P1Y1M1DT1H1M1.125S` casts to 1, 1, 1, 1, 1, 1 and 125000000 ns; with `-`, to all of them negated. |
| DurationTexts.NanosecondExamples | Sources/Field.swift:607-613 | `.125` is 125000000 ns and `.5` is 500000000 ns. |
| DurationTexts.NanosecondsTruncate | Sources/Field.swift:607-613 | Ten fraction digits 1234567891 truncate to 123456789 ns. |
| DurationTexts.NanosecondsLongFraction | Tests/TableSchemaTests/FieldForwardCastTests.swift:424-429 | The fraction `.123456789987654321` of `PT1.123456789987654321S` gives 123456789 ns. |
| DurationTexts.LeadingZero | Sources/Field.swift:341-357 | A leading zero does not change a digit run's value. |
| DurationTexts.FractionLeadingZeros | Sources/Field.swift:607-613 | The fraction is scaled by the digits of its value, so `.05` reads exactly as `.5`. |
| DurationTexts.RejectNoP | Sources/Field.swift:563-565 | A text with no `P` is a bad cast. |
| DurationTexts.RejectSignAfterP | Sources/Field.swift:557-565 | A `-` after the `P` is a bad cast: the scan stops at the first capital letter or `-`. |
| DurationTexts.TimeAtEnd | Sources/Field.swift:586-619 | A `T` that ends the text opens a time part holding nothing. |
| DurationTexts.RejectEmptyTime | Sources/Field.swift:621-623 | A date followed by a bare `T` (like `P1Y1M1DT`) is a bad cast. |
| DurationTexts.RejectBareP | Tests/TableSchemaTests/FieldForwardCastTests.swift:399-402 | `P` alone is a bad cast. |
| DurationTexts.LoneYear | Sources/Field.swift:567-584 | A `Y` with no number before it, and no digit or date designator after it, sets no component but still marks the date part present. |
| DurationTexts.AcceptBareYear | Sources/Field.swift:550-633 | So `PY` is accepted, with every component unset. |
| DurationTexts.DotWithoutDigits | Sources/Field.swift:603-610 | A `.` followed by neither a digit nor another `.` is a bad cast. |
| DurationTexts.EmptyFractionTime | Sources/Field.swift:586-614 | The time part of `PT1.S` fails at its fraction. |
| DurationTexts.RejectEmptyFraction | Sources/Field.swift:603-610 | So `PT1.S`, a fraction with no digits, is a bad cast. |
| Fields.FormatNamed | Sources/Field.swift:46-67 | `Format(description:)` keeps the description, and gives a keyword format exactly for the eight keywords. |
| Fields.Description | Sources/Field.swift:69-90 | A pattern is described by its own text, and every other format by one of the eight keywords. |
| Fields.SameFormat | Sources/Field.swift:92-94 | `==` on formats is reflexive. Two keyword formats are `==` exactly when they are the same case, and two patterns exactly when their texts are equal. |
| Fields.FormatNamedDescription | Sources/Field.swift:46-90 | Naming a format's description gives the format back, except for a pattern spelled like a keyword. |
| Fields.SameFormatCanonical | Sources/Field.swift:92-94 | Formats are `==` exactly when they name the same format. |
| Fields.PatternKeywordEqual | Sources/Field.swift:92-94 | A pattern spelled `email` is `==` to `.email` without being the same case. |
| Fields.NewField | Sources/Field.swift:97-118 | A new field has the name and type given, the default format, the default boolean literals, and `bareNumber`. |
| Fields.UniqueName | Sources/Field.swift:122-124 | `uniqueName` is the name lowercased, character by character. It keeps the length, holds no capital letter, and is its own lowercase form. |
| Fields.SameField | Sources/Field.swift:679-681 | Fields are `==` exactly when their names have the same length and agree character by character up to case. Fields with the same name are therefore `==`. |
| Fields.SameFieldIgnoresCase | Sources/Field.swift:679-681 | Fields are `==` when their names agree up to case. |
| Fields.InternalCast | Sources/Field.swift:303-339 | nil casts to nil. A successful cast of a present text is present. |
| Fields.StringCast | Sources/Field.swift:359-381 | A default string field casts every text to itself. Only the email format is unavailable, and only the default, uri, binary and uuid formats can succeed. |
| Fields.IntegerCast | Sources/Field.swift:383-404 | A bare field gives exactly what `Int(String)` parses. A non-bare field succeeds exactly when the scanner reads an integer, and gives that integer. Every failure is a bad cast. |
| Fields.BooleanCast | Sources/Field.swift:406-413 | Success exactly for a text in either literal list. The value is true exactly when the text is a true literal, and every failure is a bad cast. |
| Fields.ObjectCast | Sources/Field.swift:415-426 | `objectCast` succeeds exactly when the text parses as JSON whose top level is an object, and gives its members. Every failure is a bad cast. |
| Fields.ArrayCast | Sources/Field.swift:428-439 | `arrayCast` succeeds exactly when the text parses as JSON whose top level is an array, and gives its items. Every failure is a bad cast. |
| Fields.IsoCast | Sources/Field.swift:516-548 | The ISO 8601 parse behind `yearCast` and `yearMonthCast` succeeds exactly when the formatter parses the text, and gives that date. Every failure is a bad cast. |
| Fields.CalendarCast | Sources/Field.swift:441-491 | `dateCast` and `timeCast` are unavailable exactly for the `any` and pattern formats. The default format is the ISO 8601 parse, and only it can succeed, with a date. |
| Fields.DateTimeCast | Sources/Field.swift:493-514 | `dateTimeCast` is unavailable exactly for the `any` format. The default format is the internet date-time parse, and only it can succeed, with a date. |
| Fields.DurationCast | Sources/Field.swift:330-331 | A duration field succeeds exactly when `Duration` does, with its components; a failure is a bad cast. |
| Fields.GeoPointCast | Sources/Field.swift:635-669 | A geopoint cast gives a point. In the default format that needs exactly two comma pieces, and formats other than default, array and object are a bad cast. |
| Fields.Cast | Sources/Field.swift:286-292 | `cast(nil)` is nil. |
| Fields.Test | Sources/Field.swift:294-301 | `test(nil)` is true. |
| Fields.InternalReverseCast | Sources/Field.swift:149-183 | nil gives nil. A successful reverse cast of a value is present. Types other than string, integer, boolean, array and datetime are unavailable. |
| Fields.Reversible | Sources/Field.swift:149-183 | Exactly number, object, date, time, year, yearmonth, duration, geopoint, geojson and any have no reverse cast. |
| Fields.ReverseStringCast | Sources/Field.swift:185-216 | A default string field reverse-casts exactly the texts, and the forward cast gives the value back. Only the email format is unavailable. |
| Fields.ReverseIntegerCast | Sources/Field.swift:218-223 | Exactly the integers reverse-cast, to a text that `Int(String)` parses back to the same integer. |
| Fields.ReverseArrayCast | Sources/Field.swift:241-252 | `reverseArrayCast` succeeds exactly for an array that serializes, and gives the serialized text. Every failure is a bad cast. |
| Fields.ReverseBooleanCast | Sources/Field.swift:225-239 | A boolean reverse-casts exactly when its literal list is non-empty, to a literal from that list. That literal casts back to the same boolean unless a false literal is also a true literal. |
| Fields.ReverseDateTimeCast | Sources/Field.swift:254-279 | Success exactly for a date in the default format, given as its ISO 8601 text. Unavailable exactly for the `any` and pattern formats. |
| Fields.ReverseCast | Sources/Field.swift:132-138 | `reverseCast(nil)` is nil. |
| Fields.ReverseTest | Sources/Field.swift:140-147 | `reverseTest(nil)` is true. |
| Fields.TestIffCast | Sources/Field.swift:286-301 | For present input, `test` succeeds exactly when `cast` returns a value, in both directions of cast. |
| Fields.UnavailableTypes | Sources/Field.swift:310-337 | `number`, `geojson` and `any` fields can never cast: the cast is unavailable, nil, and the test fails. |
| Fields.ReverseOnlyReversible | Sources/Field.swift:149-183 | A reverse test succeeds only for the reversible types, and other types reverse-cast to nil. |
| Fields.StringRoundTrip | Sources/Field.swift:185-191 | A default string field casts every text to itself, and reverse-casts it back. |
| Fields.EmailUnavailable | Sources/Field.swift:363-364 | The email format is unavailable in both directions. |
| Fields.UuidDoesNotReverse | Sources/Field.swift:373-376 | A uuid string field casts to the `uuidString` text, which its reverse cast does not accept. |
| Fields.BareIntegerCast | Sources/Field.swift:400-403 | A bare integer field casts exactly what `Int(String)` parses. |
| Fields.BareIntegerLiteral | Sources/Field.swift:400-403 | An optional `+` or `-` and a digit run cast to the signed value when it fits in 64 bits, and to nil otherwise. |
| Fields.BareIntegerOverflow | Sources/Field.swift:400-403 | 2^63 and -2^63-1 fail the test. |
| Fields.IntegerRoundTrip | Sources/Field.swift:218-223 | Every `Int` reverse-casts to its decimal text, which casts back to it, bare or not. |
| Fields.BooleanCastLiterals | Sources/Field.swift:406-413 | A boolean field casts a true literal to true, otherwise a false literal to false, and anything else to nil. |
| Fields.BooleanReverseFirst | Sources/Field.swift:225-239 | A boolean reverse-casts to the first literal of its list, nil when that list is empty or the value is not a boolean. |
| Fields.BooleanRoundTrip | Sources/Field.swift:225-239 | With both lists non-empty, the reverse then forward cast gives the boolean back, except false when the first false literal is also a true literal. |
| Fields.DefaultBooleanRoundTrip | Sources/Field.swift:106-107 | With the default literals, every boolean round-trips. |
| Fields.CalendarFormatGate | Sources/Field.swift:441-514 | Date, time and datetime fields with the `any` format are unavailable. A pattern is unavailable for date and time, and a bad cast for datetime. |
| Fields.DurationField | Sources/Field.swift:330-331 | A duration field casts exactly what `Duration` reads. |
| Fields.GeoPointPieces | Sources/Field.swift:635-648 | A default geopoint passes the test exactly when the text splits into two comma pieces that both parse as numbers once trimmed, and then casts to those two numbers. |
| Fields.GeoPointJoined | Sources/Field.swift:635-648 | Two non-empty comma-free texts joined by a comma are a geopoint exactly when both parse as numbers once trimmed, and the point is that pair. |
| Schemas.NewSchema | Sources/Schema.swift:1-15 | A new schema has the fields given, and `[""]` as missing values. |
| Schemas.MissingIsNil | Sources/Schema.swift:47-54 | A missing-value text casts to nil and passes the test, for every field. |
| Schemas.PresentAsField | Sources/Schema.swift:31-54 | Any other input gets exactly the field's `cast` and `test` outcomes. |
| Schemas.NotANumber | Tests/TableSchemaTests/SchemaTests.swift:18-23 | `NaN` is not missing by default, so an integer field rejects it. |
| Schemas.InternalCast | Sources/Schema.swift:47-54 | nil and every missing-value text become nil, which succeeds. Any other text gets exactly the field's own cast. |
| Schemas.Cast | Sources/Schema.swift:31-33 | A value is produced only for a text that is not a missing value, and it is the field's own cast of that text. |
| Schemas.Test | Sources/Schema.swift:38-45 | The test passes exactly for nil, a missing-value text, or a text the field's own test accepts. |
| Schemas.ReverseCast | Sources/Schema.swift:70-72 | nil gives the first missing value (nil if there is none). A present value gives exactly the field's own reverse cast. |
| Schemas.ReverseTest | Sources/Schema.swift:77-84 | The reverse test passes exactly when the field's own reverse test does. |
| Schemas.InternalReverseCast | Sources/Schema.swift:86-91 | nil reverse-casts to the first missing value (nil if there is none). A field failure is a failure. |
| Schemas.ReverseOutcomes | Sources/Schema.swift:67-91 | nil gives the first missing value and passes. A value the field cannot reverse gives nil and fails. Otherwise the result is the field's. |
| Schemas.CastRecord | Sources/Schema.swift:23-26 | As many values as the shorter of record and ordering (the schema's fields by default), each cell cast by its field. |
| Schemas.ReverseCastRecord | Sources/Schema.swift:62-65 | The same for the reverse cast. |
| Schemas.RecordRoundTrip | Sources/Schema.swift:23-65 | When every cell round-trips, reverse-casting a record and casting it back gives the record, truncated to the ordering. |
| Schemas.TextRoundTrips | Sources/Schema.swift:23-65 | Texts that are not missing values, and nil, round-trip through a default string field. |
| Schemas.UniqueByName | Sources/Schema.swift:101-110 | The keys are exactly the unique names of the fields. |
| Schemas.UniqueByNameKeeps | Sources/Schema.swift:101-110 | A later field never replaces an entry. |
| Schemas.UniqueByNameFirst | Sources/Schema.swift:101-110 | Each unique name maps to the first field carrying it. |
| Schemas.UniqueByNameSame | Sources/Schema.swift:101-110 | Each entry is a field of the list with that unique name. |
| Schemas.BuildUniqueByName | Sources/Schema.swift:101-110 | The `forEach` loop builds `UniqueByName`. |
| Schemas.Unique | Sources/Schema.swift:97-99 | `unique`: one representative per `==` class of the list, each drawn from the list, no two `==`. |
| Schemas.Named | Sources/Schema.swift:112-114 | Exactly the fields carrying that name. |
| Schemas.NamedOne | Sources/Schema.swift:112-114 | A single field is its own group for its name, and nothing for any other. |
| Schemas.NamedAppend | Sources/Schema.swift:112-114 | The group of a joined list is the first part's group followed by the second's, so groups keep the list order. |
| Schemas.NamedCount | Sources/Schema.swift:112-114 | A field occurs in its name's group as often as in the list, so duplicates are kept. |
| Schemas.GroupByName | Sources/Schema.swift:112-114 | One non-empty group per exact name. Each holds exactly the fields with that name, each as often as in the list. |
| Schemas.GroupByNameAppend | Sources/Schema.swift:112-114 | The group of a joined list is the first part's fields with that name, in order, then the second part's. |
| Tables.Resolve | Sources/Table.swift:49-50 | A header name resolves exactly when its lowercased form is a unique field name. |
| Tables.Resolved | Sources/Table.swift:45-57 | The ordering has at most as many fields as the header has names. |
| Tables.ResolvedOne | Sources/Table.swift:47-52 | One header name gives its field when it resolves, and nothing otherwise. |
| Tables.ResolvedAppend | Sources/Table.swift:47-52 | Resolution goes name by name: the ordering of a joined header is the two orderings joined. |
| Tables.OrderedFields | Sources/Table.swift:44-57 | An ordering exists exactly when keyed with both a schema and a header. It is no longer than the header and drawn from the schema's fields. |
| Tables.ResolveFirst | Sources/Table.swift:47-52 | Header names equal up to case resolve to the first schema field with that unique name. |
| Tables.ResolveNone | Sources/Table.swift:49-52 | A name carried by no field, up to case, is dropped. |
| Tables.ResolvedFromSchema | Sources/Table.swift:45-57 | Every resolved field is a field of the schema. |
| Tables.ResolvedAll | Sources/Table.swift:45-57 | When every name resolves, the ordering follows the header name by name. |
| Tables.CastIterator.constructor | Sources/Table.swift:41-59 | The header is resolved in one pass only when keyed and both a schema and a header exist. Nothing is produced yet, and min(limit, rows) rows are to come, none for a negative limit. |
| Tables.CastIterator.Next | Sources/Table.swift:61-75 | While rows remain, `next()` produces the provider's next row, raw without a schema and cast by the ordering with one, and counts it. Afterwards it gives nil and changes nothing. The remaining count drops by one. |
| Tables.MakeIterator | Sources/Table.swift:78-80 | A fresh keyed iterator with the `NSNotFound` limit, over the table's provider and schema. |

## Left out

- The Foundation services are a parameter (`Values.Foundation`), so every property holds whatever they do. These are `URL(string:)`, base64, `UUID(uuidString:)`, `JSONSerialization`, `ISO8601DateFormatter` and `Double(String)`. Their own behaviour is not modelled.
- The platform branches (`#if os(iOS) || os(macOS)`, `#available`) are resolved to the Apple branch, with a 64-bit `Int`. On other platforms the duration, date and non-bare integer casts are unavailable.
- Durations.Nanoseconds: Swift computes `Int(Double(decimals) * pow(10, Double(9 - length)))` in floating point. The model uses exact integer arithmetic, truncating toward zero. Binary rounding is not captured, so the bound "below one second" holds for the model, not for Swift. For instance `Double(9999999999999999)` rounds to 1e16, so `.9999999999999999` gives 1000000000 ns, a full second.
- Durations.ScaleBound: exact arithmetic, as for Durations.Nanoseconds; the floating-point rounding above is not captured.
- Durations.ScaleUp: exact arithmetic, as for Durations.Nanoseconds.
- Durations.ScaleDown: exact arithmetic, as for Durations.Nanoseconds; in Swift the division happens in `Double` before the truncation.
- Durations.DurationSigned: requires every digit run of the text to fit in an `Int`. A run of exactly 2^63 after `-` reads as `Int.min`, while without the sign it overflows to nil, so the sign property does not hold for it.
- Character classes are ASCII: `decimalDigits` is `0`-`9` and `uppercaseLetters` is `A`-`Z`, and `lowercased()` folds only `A`-`Z`. Unicode digits, letters and case mappings are not modelled.
- Texts are sequences of Unicode scalar values. They are compared, looked up and split scalar by scalar. Swift compares `String`s by canonical equivalence and splits them by grapheme clusters, and neither is modelled. This affects the literal lists at Sources/Field.swift:406-413, the missing values at Sources/Schema.swift:49, the `uniqueByName` keys, and `split(separator:)` at Sources/Field.swift:638. For example, Swift finds `"e\u{301}"` equal to `"é"`, and the model does not. Swift does not split `",\u{301}"` at its comma, because the comma and the accent form one character, and the model does.
- `Field.Constraints`, `title`, `description` and `rdfType` are not modelled; none of them affects a cast. The same goes for `Schema.primaryKeys` and `foreignKeys` (ForeignKey.swift is not part of this model).
- `Field.hash(into:)` is not modelled; `==` is.
- Schemas.Unique: Swift's `Set` keeps whichever member it meets first and has no order. The model keeps the first field of each unique name.
- `AnyTableProvider` and its type erasure: a provider is its header and the finite sequence of rows its iterator yields. A streaming or re-created iterator is not modelled.
- A value of a type no cast produces is `Values.Value.Other`. Swift's `as?` bridging between numeric types (an `NSNumber` passed as `Int`) is not modelled.
- A `PatternFormat` regular expression is never interpreted by the core, so none is modelled.

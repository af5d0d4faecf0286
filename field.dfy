/**
 * `Field`: one column descriptor, and the casts of a single value between
 * its physical form (text) and its logical form, in both directions. Two
 * kinds of failure exist inside (`BadCast`, `UnavailableCast`); the public
 * casts turn both into nil, and the tests into false.
 */
module Fields {
  import opened Wrappers
  import opened Strings
  import opened Integers
  import opened Durations
  import opened Values

  // ---------------------------------------------------------------------------
  // Types and formats

  datatype FieldType =
    | StringType | NumberType | IntegerType | BooleanType | ObjectType | ArrayType
    | DateType | TimeType | DateTimeType | YearType | YearMonthType | DurationType
    | GeoPointType | GeoJsonType | AnyType

  datatype Format =
    | DefaultFormat | EmailFormat | UriFormat | BinaryFormat | UuidFormat
    | AnyFormat | ArrayFormat | ObjectFormat | PatternFormat(pattern: string)

  /** The eight format keywords. */
  const Keywords: seq<string> := ["default", "email", "uri", "binary", "uuid", "any", "array", "object"]

  /** `Format.description`: the keyword of a keyword format, the pattern text of a pattern. */
  function Description(format: Format): (d: string)
    ensures format.PatternFormat? ==> d == format.pattern
    ensures !format.PatternFormat? ==> d in Keywords
  {
    match format
    case DefaultFormat => "default"
    case EmailFormat => "email"
    case UriFormat => "uri"
    case BinaryFormat => "binary"
    case UuidFormat => "uuid"
    case AnyFormat => "any"
    case ArrayFormat => "array"
    case ObjectFormat => "object"
    case PatternFormat(p) => p
  }

  /**
   * `Format.init(description:)`: a keyword gives its format, any other text a
   * pattern holding that text; it never declines, and its description is the
   * text it was given.
   */
  function FormatNamed(description: string): (format: Format)
    ensures Description(format) == description
    ensures description in Keywords <==> !format.PatternFormat?
  {
    if description == "default" then DefaultFormat
    else if description == "email" then EmailFormat
    else if description == "uri" then UriFormat
    else if description == "binary" then BinaryFormat
    else if description == "uuid" then UuidFormat
    else if description == "any" then AnyFormat
    else if description == "array" then ArrayFormat
    else if description == "object" then ObjectFormat
    else PatternFormat(description)
  }

  /** `Format ==`: equal descriptions. */
  predicate SameFormat(a: Format, b: Format): (same: bool)
    ensures a == b ==> same
    ensures !a.PatternFormat? && !b.PatternFormat? ==> (same <==> a == b)
    ensures a.PatternFormat? && b.PatternFormat? ==> (same <==> a.pattern == b.pattern)
  {
    Description(a) == Description(b)
  }

  /**
   * Reading a format's description back gives the same format, except for a
   * pattern whose text is a keyword, which reads back as that keyword's format.
   */
  lemma {:induction false} FormatNamedDescription(format: Format)
    ensures FormatNamed(Description(format)) == format <==> !(format.PatternFormat? && format.pattern in Keywords)
  {
    var back := FormatNamed(Description(format));
    if format.PatternFormat? && format.pattern in Keywords {
      assert !back.PatternFormat?;
    } else if !format.PatternFormat? {
      assert Description(format) in Keywords;
      assert Description(back) == Description(format);
    }
  }

  /** Two formats are `==` exactly when their descriptions read back as one and the same format. */
  lemma {:induction false} SameFormatCanonical(a: Format, b: Format)
    ensures SameFormat(a, b) <==> FormatNamed(Description(a)) == FormatNamed(Description(b))
  {
    if FormatNamed(Description(a)) == FormatNamed(Description(b)) {
      assert Description(FormatNamed(Description(a))) == Description(a);
    }
  }

  /** A pattern spelled like a keyword is `==` to that keyword's format although the two differ. */
  lemma {:induction false} PatternKeywordEqual()
    ensures SameFormat(PatternFormat("email"), EmailFormat) && PatternFormat("email") != EmailFormat
  {
  }

  // ---------------------------------------------------------------------------
  // The descriptor

  /**
   * The descriptor properties a cast consults. Title, description, RDF type
   * and constraints are stored metadata that no cast reads.
   */
  datatype Field = Field(
    name: string, fieldType: FieldType, format: Format,
    trueValues: seq<string>, falseValues: seq<string>, bareNumber: bool)

  const DefaultTrueValues: seq<string> := ["true", "True", "TRUE", "1"]
  const DefaultFalseValues: seq<string> := ["false", "False", "FALSE", "0"]

  /** `Field(name, type:)`: the default format, boolean literals and bare numbers. */
  function NewField(name: string, fieldType: FieldType := StringType): (f: Field)
    ensures f.name == name && f.fieldType == fieldType && f.format == DefaultFormat
    ensures f.trueValues == DefaultTrueValues && f.falseValues == DefaultFalseValues && f.bareNumber
  {
    Field(name, fieldType, DefaultFormat, DefaultTrueValues, DefaultFalseValues, true)
  }

  /** `uniqueName`: the name lowercased. */
  function UniqueName(f: Field): (u: string)
    ensures |u| == |f.name| && Lowercased(u) == u
    ensures forall i :: 0 <= i < |u| ==> !('A' <= u[i] <= 'Z')
    ensures forall i :: 0 <= i < |u| ==> u[i] == LowerChar(f.name[i])
  {
    LowercasedIdempotent(f.name);
    Lowercased(f.name)
  }

  /** `Field ==`: same unique name. */
  predicate SameField(a: Field, b: Field): (same: bool)
    ensures a.name == b.name ==> same
    ensures same ==> |a.name| == |b.name|
    ensures same <==> |a.name| == |b.name| && forall i :: 0 <= i < |a.name| ==> LowerChar(a.name[i]) == LowerChar(b.name[i])
  {
    assert UniqueName(a) == Lowercased(a.name) && UniqueName(b) == Lowercased(b.name);
    UniqueName(a) == UniqueName(b)
  }

  /** Field equality ignores the case of the name and everything but the name. */
  lemma {:induction false} SameFieldIgnoresCase(a: Field, b: Field)
    requires Lowercased(b.name) == Lowercased(a.name)
    ensures SameField(a, b) && SameField(a, a.(name := Lowercased(a.name)))
  {
    LowercasedIdempotent(a.name);
  }

  // ---------------------------------------------------------------------------
  // Forward casts, one per type (lines 359-669)

  function StringCast(f: Field, value: string, fd: Foundation): (r: Result<Value>)
    ensures f.format == DefaultFormat ==> r == Ok(Text(value))
    ensures r == Fail(UnavailableCast) <==> f.format == EmailFormat
    ensures r.Ok? ==> f.format in {DefaultFormat, UriFormat, BinaryFormat, UuidFormat}
  {
    match f.format
    case DefaultFormat => Ok(Text(value))
    case EmailFormat => Fail(UnavailableCast)
    case UriFormat => (var u := fd.url(value); if u.Some? then Ok(Link(u.value)) else Fail(BadCast))
    case BinaryFormat =>
      (var d := fd.base64Decode(value); if d.Some? then Ok(Text(d.value)) else Fail(BadCast))
    case UuidFormat => (var u := fd.uuid(value); if u.Some? then Ok(Text(u.value.uuidString)) else Fail(BadCast))
    case _ => Fail(BadCast)
  }

  function IntegerCast(f: Field, value: string): (r: Result<Value>)
    ensures r.Fail? ==> r.error == BadCast
    ensures f.bareNumber ==> r == if ParseInt(value).Some? then Ok(Integer(ParseInt(value).value)) else Fail(BadCast)
    ensures !f.bareNumber ==> (r.Ok? <==> NonBareInteger(value).Ok?)
    ensures !f.bareNumber && r.Ok? ==> r.value == Integer(NonBareInteger(value).value)
  {
    if !f.bareNumber then
      (var r := NonBareInteger(value); if r.Ok? then Ok(Integer(r.value)) else Fail(BadCast))
    else
      (var n := ParseInt(value); if n.Some? then Ok(Integer(n.value)) else Fail(BadCast))
  }

  function BooleanCast(f: Field, value: string): (r: Result<Value>)
    ensures r.Ok? <==> value in f.trueValues || value in f.falseValues
    ensures r.Ok? ==> r.value == Boolean(value in f.trueValues)
    ensures r.Fail? ==> r.error == BadCast
  {
    if value in f.trueValues then Ok(Boolean(true))
    else if value in f.falseValues then Ok(Boolean(false))
    else Fail(BadCast)
  }

  function ObjectCast(value: string, fd: Foundation): (r: Result<Value>)
    ensures r.Ok? <==> fd.json(value).Some? && fd.json(value).value.JsonObject?
    ensures r.Ok? ==> r.value == Dictionary(fd.json(value).value.members)
    ensures r.Fail? ==> r.error == BadCast
  {
    var j := fd.json(value);
    if j.Some? && j.value.JsonObject? then Ok(Dictionary(j.value.members)) else Fail(BadCast)
  }

  function ArrayCast(value: string, fd: Foundation): (r: Result<Value>)
    ensures r.Ok? <==> fd.json(value).Some? && fd.json(value).value.JsonArray?
    ensures r.Ok? ==> r.value == List(fd.json(value).value.items)
    ensures r.Fail? ==> r.error == BadCast
  {
    var j := fd.json(value);
    if j.Some? && j.value.JsonArray? then Ok(List(j.value.items)) else Fail(BadCast)
  }

  /** The ISO 8601 parse with the given options. */
  function IsoCast(options: IsoOptions, value: string, fd: Foundation): (r: Result<Value>)
    ensures r.Ok? <==> fd.parseIso(options, value).Some?
    ensures r.Ok? ==> r.value == Instant(fd.parseIso(options, value).value)
    ensures r.Fail? ==> r.error == BadCast
  {
    var d := fd.parseIso(options, value);
    if d.Some? then Ok(Instant(d.value)) else Fail(BadCast)
  }

  /** `dateCast` and `timeCast`: parse in the default format; `any` and patterns are unavailable. */
  function CalendarCast(f: Field, options: IsoOptions, value: string, fd: Foundation): (r: Result<Value>)
    ensures r == Fail(UnavailableCast) <==> f.format.AnyFormat? || f.format.PatternFormat?
    ensures f.format == DefaultFormat ==> r == IsoCast(options, value, fd)
    ensures r.Ok? ==> f.format == DefaultFormat && r.value.Instant?
  {
    match f.format
    case DefaultFormat => IsoCast(options, value, fd)
    case AnyFormat => Fail(UnavailableCast)
    case PatternFormat(_) => Fail(UnavailableCast)
    case _ => Fail(BadCast)
  }

  /** `dateTimeCast`: like `dateCast`, but a pattern is a bad cast. */
  function DateTimeCast(f: Field, value: string, fd: Foundation): (r: Result<Value>)
    ensures r == Fail(UnavailableCast) <==> f.format.AnyFormat?
    ensures f.format == DefaultFormat ==> r == IsoCast(InternetDateTime, value, fd)
    ensures r.Ok? ==> f.format == DefaultFormat && r.value.Instant?
  {
    match f.format
    case DefaultFormat => IsoCast(InternetDateTime, value, fd)
    case AnyFormat => Fail(UnavailableCast)
    case _ => Fail(BadCast)
  }

  function DurationCast(value: string): (r: Result<Value>)
    ensures r.Ok? <==> Duration(value).Ok?
    ensures r.Ok? ==> r.value == Span(Duration(value).value)
    ensures r.Fail? ==> r.error == BadCast
  {
    var d := Duration(value);
    if d.Ok? then Ok(Span(d.value)) else Fail(d.error)
  }

  /**
   * `geoPointCast`. Default format: exactly two non-empty pieces between
   * commas, each a number once trimmed. Array format: a JSON array of two.
   * Object format: a JSON object with `lon` and `lat`.
   */
  function GeoPointCast(f: Field, value: string, fd: Foundation): (r: Result<Value>)
    ensures r.Ok? ==> r.value.Point?
    ensures f.format == DefaultFormat && r.Ok? ==> |Split(value, ',')| == 2
    ensures f.format !in {DefaultFormat, ArrayFormat, ObjectFormat} ==> r == Fail(BadCast)
  {
    match f.format
    case DefaultFormat =>
      var pieces := Split(value, ',');
      if |pieces| != 2 then Fail(BadCast)
      else
        var lon, lat := fd.double(Trim(pieces[0])), fd.double(Trim(pieces[1]));
        if lon.None? || lat.None? then Fail(BadCast)
        else Ok(Point(JsonNumber(lon.value), JsonNumber(lat.value)))
    case ArrayFormat =>
      var a := ArrayCast(value, fd);
      if a.Ok? && |a.value.items| == 2 then Ok(Point(a.value.items[0], a.value.items[1])) else Fail(BadCast)
    case ObjectFormat =>
      var o := ObjectCast(value, fd);
      if o.Fail? then Fail(o.error)
      else if "lon" !in o.value.members || "lat" !in o.value.members then Fail(BadCast)
      else Ok(Point(o.value.members["lon"], o.value.members["lat"]))
    case _ => Fail(BadCast)
  }

  /** A successful cast of a present value. */
  function Present(r: Result<Value>): Result<Option<Value>>
  {
    if r.Ok? then Ok(Some(r.value)) else Fail(r.error)
  }

  /**
   * `internalCast`: nil stays nil; otherwise the cast of the field's type.
   * `number`, `geojson` and `any` are never available.
   */
  function InternalCast(f: Field, value: Option<string>, fd: Foundation): (r: Result<Option<Value>>)
    ensures value.None? ==> r == Ok(None)
    ensures value.Some? && r.Ok? ==> r.value.Some?
  {
    if value.None? then Ok(None)
    else
      var v := value.value;
      match f.fieldType
      case StringType => Present(StringCast(f, v, fd))
      case NumberType => Fail(UnavailableCast)
      case IntegerType => Present(IntegerCast(f, v))
      case BooleanType => Present(BooleanCast(f, v))
      case ObjectType => Present(ObjectCast(v, fd))
      case ArrayType => Present(ArrayCast(v, fd))
      case DateType => Present(CalendarCast(f, FullDate, v, fd))
      case TimeType => Present(CalendarCast(f, FullTime, v, fd))
      case DateTimeType => Present(DateTimeCast(f, v, fd))
      case YearType => Present(IsoCast(YearOnly, v, fd))
      case YearMonthType => Present(IsoCast(YearAndMonth, v, fd))
      case DurationType => Present(DurationCast(v))
      case GeoPointType => Present(GeoPointCast(f, v, fd))
      case GeoJsonType => Fail(UnavailableCast)
      case AnyType => Fail(UnavailableCast)
  }

  /** `cast`: the value, or nil on any failure. */
  function Cast(f: Field, value: Option<string>, fd: Foundation): (r: Option<Value>)
    ensures value.None? ==> r.None?
  {
    var c := InternalCast(f, value, fd);
    if c.Ok? then c.value else None
  }

  /** `test`: whether the cast does not fail. */
  function Test(f: Field, value: Option<string>, fd: Foundation): (ok: bool)
    ensures value.None? ==> ok
  {
    InternalCast(f, value, fd).Ok?
  }

  // ---------------------------------------------------------------------------
  // Reverse casts (lines 132-275)

  function ReverseStringCast(f: Field, value: Value, fd: Foundation): (r: Result<string>)
    ensures f.format == DefaultFormat ==> (r.Ok? <==> value.Text?)
    ensures f.format == DefaultFormat && r.Ok? ==> StringCast(f, r.value, fd) == Ok(value)
    ensures r == Fail(UnavailableCast) <==> f.format == EmailFormat
  {
    match f.format
    case DefaultFormat => if value.Text? then Ok(value.text) else Fail(BadCast)
    case EmailFormat => Fail(UnavailableCast)
    case UriFormat => if value.Link? then Ok(value.url.absoluteString) else Fail(BadCast)
    case BinaryFormat =>
      if !value.Text? then Fail(BadCast)
      else (var e := fd.base64Encode(value.text); if e.Some? then Ok(e.value) else Fail(BadCast))
    case UuidFormat => if value.Identifier? then Ok(value.uuid.uuidString) else Fail(BadCast)
    case _ => Fail(BadCast)
  }

  function ReverseIntegerCast(value: Value): (r: Result<string>)
    ensures r.Ok? <==> value.Integer?
    ensures r.Ok? ==> ParseInt(r.value) == Some(value.integer)
  {
    if value.Integer? then
      ParseDecimalText(value.integer);
      Ok(DecimalText(value.integer))
    else Fail(BadCast)
  }

  function ReverseBooleanCast(f: Field, value: Value): (r: Result<string>)
    ensures r.Ok? <==> value.Boolean? && |if value.boolean then f.trueValues else f.falseValues| > 0
    ensures r.Ok? ==> r.value in (if value.boolean then f.trueValues else f.falseValues)
    ensures r.Ok? && (value.boolean || r.value !in f.trueValues) ==> BooleanCast(f, r.value) == Ok(value)
  {
    if !value.Boolean? then Fail(BadCast)
    else
      var literals := if value.boolean then f.trueValues else f.falseValues;
      if |literals| == 0 then Fail(BadCast) else Ok(literals[0])
  }

  function ReverseArrayCast(value: Value, fd: Foundation): (r: Result<string>)
    ensures r.Ok? <==> value.List? && fd.serialize(value.items).Some?
    ensures r.Ok? ==> r.value == fd.serialize(value.items).value
    ensures r.Fail? ==> r.error == BadCast
  {
    if !value.List? then Fail(BadCast)
    else (var t := fd.serialize(value.items); if t.Some? then Ok(t.value) else Fail(BadCast))
  }

  function ReverseDateTimeCast(f: Field, value: Value, fd: Foundation): (r: Result<string>)
    ensures r.Ok? <==> f.format == DefaultFormat && value.Instant?
    ensures r.Ok? ==> r.value == fd.formatIso(value.date)
    ensures r == Fail(UnavailableCast) <==> f.format == AnyFormat || f.format.PatternFormat?
  {
    match f.format
    case DefaultFormat => if value.Instant? then Ok(fd.formatIso(value.date)) else Fail(BadCast)
    case AnyFormat => Fail(UnavailableCast)
    case PatternFormat(_) => Fail(UnavailableCast)
    case _ => Fail(BadCast)
  }

  function PresentText(r: Result<string>): Result<Option<string>>
  {
    if r.Ok? then Ok(Some(r.value)) else Fail(r.error)
  }

  /** The types a reverse cast exists for. */
  predicate Reversible(t: FieldType): (r: bool)
    ensures !r <==> t in {NumberType, ObjectType, DateType, TimeType, YearType, YearMonthType,
                          DurationType, GeoPointType, GeoJsonType, AnyType}
  {
    t == StringType || t == IntegerType || t == BooleanType || t == ArrayType || t == DateTimeType
  }

  /** `internalReverseCast`: nil stays nil; only five types have a reverse cast. */
  function InternalReverseCast(f: Field, value: Option<Value>, fd: Foundation): (r: Result<Option<string>>)
    ensures value.None? ==> r == Ok(None)
    ensures value.Some? && r.Ok? ==> r.value.Some?
    ensures value.Some? && !Reversible(f.fieldType) ==> r == Fail(UnavailableCast)
  {
    if value.None? then Ok(None)
    else
      var v := value.value;
      match f.fieldType
      case StringType => PresentText(ReverseStringCast(f, v, fd))
      case IntegerType => PresentText(ReverseIntegerCast(v))
      case BooleanType => PresentText(ReverseBooleanCast(f, v))
      case ArrayType => PresentText(ReverseArrayCast(v, fd))
      case DateTimeType => PresentText(ReverseDateTimeCast(f, v, fd))
      case _ => Fail(UnavailableCast)
  }

  /** `reverseCast`: the text, or nil on any failure. */
  function ReverseCast(f: Field, value: Option<Value>, fd: Foundation): (r: Option<string>)
    ensures value.None? ==> r.None?
  {
    var c := InternalReverseCast(f, value, fd);
    if c.Ok? then c.value else None
  }

  /** `reverseTest`: whether the reverse cast does not fail. */
  function ReverseTest(f: Field, value: Option<Value>, fd: Foundation): (ok: bool)
    ensures value.None? ==> ok
  {
    InternalReverseCast(f, value, fd).Ok?
  }

  // ---------------------------------------------------------------------------
  // What the public casts promise

  /** For a present value, the test holds exactly when the cast is not nil; in both directions. */
  lemma {:induction false} TestIffCast(f: Field, text: string, value: Value, fd: Foundation)
    ensures Test(f, Some(text), fd) <==> Cast(f, Some(text), fd).Some?
    ensures ReverseTest(f, Some(value), fd) <==> ReverseCast(f, Some(value), fd).Some?
  {
    var c := InternalCast(f, Some(text), fd);
    var r := InternalReverseCast(f, Some(value), fd);
    assert c.Ok? ==> c.value.Some?;
    assert r.Ok? ==> r.value.Some?;
  }

  /** `number`, `geojson` and `any` never cast a present value, whatever the text. */
  lemma {:induction false} UnavailableTypes(f: Field, text: string, fd: Foundation)
    requires f.fieldType == NumberType || f.fieldType == GeoJsonType || f.fieldType == AnyType
    ensures InternalCast(f, Some(text), fd) == Fail(UnavailableCast)
    ensures Cast(f, Some(text), fd).None? && !Test(f, Some(text), fd)
  {
  }

  /** Only string, integer, boolean, array and datetime fields reverse-cast a present value. */
  lemma {:induction false} ReverseOnlyReversible(f: Field, value: Value, fd: Foundation)
    ensures ReverseTest(f, Some(value), fd) ==> Reversible(f.fieldType)
    ensures !Reversible(f.fieldType) ==> ReverseCast(f, Some(value), fd).None?
  {
  }

  /** Text under the default string format casts to itself and reverse-casts back to the same text. */
  lemma {:induction false} StringRoundTrip(f: Field, text: string, fd: Foundation)
    requires f.fieldType == StringType && f.format == DefaultFormat
    ensures Cast(f, Some(text), fd) == Some(Text(text))
    ensures ReverseCast(f, Some(Text(text)), fd) == Some(text)
  {
  }

  /** The email format is never available, in either direction. */
  lemma {:induction false} EmailUnavailable(f: Field, text: string, value: Value, fd: Foundation)
    requires f.fieldType == StringType && f.format == EmailFormat
    ensures InternalCast(f, Some(text), fd) == Fail(UnavailableCast)
    ensures InternalReverseCast(f, Some(value), fd) == Fail(UnavailableCast)
  {
  }

  /**
   * A UUID field casts to the UUID's text rather than to a UUID, and the
   * reverse cast accepts only a UUID: what the cast produces does not reverse.
   */
  lemma {:induction false} UuidDoesNotReverse(f: Field, text: string, fd: Foundation)
    requires f.fieldType == StringType && f.format == UuidFormat && fd.uuid(text).Some?
    ensures Cast(f, Some(text), fd) == Some(Text(fd.uuid(text).value.uuidString))
    ensures ReverseCast(f, Cast(f, Some(text), fd), fd).None?
  {
  }

  /** A bare integer field casts a text exactly as `Int(_:)` parses it. */
  lemma {:induction false} BareIntegerCast(f: Field, text: string, fd: Foundation)
    requires f.fieldType == IntegerType && f.bareNumber
    ensures Cast(f, Some(text), fd) == if ParseInt(text).Some? then Some(Integer(ParseInt(text).value)) else None
  {
  }

  /**
   * A sign (none, `+` or `-`) and a run of digits cast to their signed value
   * under a bare integer field exactly when it fits in 64 bits.
   */
  lemma {:induction false} BareIntegerLiteral(f: Field, sign: string, digits: string, fd: Foundation)
    requires f.fieldType == IntegerType && f.bareNumber
    requires sign == "" || sign == "+" || sign == "-"
    requires |digits| > 0 && AllDigits(digits)
    ensures var v: int := if sign == "-" then -(DecimalValue(digits) as int) else DecimalValue(digits);
            Cast(f, Some(sign + digits), fd) == if InInt64(v) then Some(Integer(v)) else None
  {
    var s := sign + digits;
    if sign == "" {
      assert s == digits;
      assert s[0] == digits[0];
    } else {
      assert s[1..] == digits;
    }
  }

  /** One past either end of the 64-bit range does not cast under a bare integer field. */
  lemma {:induction false} BareIntegerOverflow(f: Field, fd: Foundation)
    requires f.fieldType == IntegerType && f.bareNumber
    ensures !Test(f, Some(DecimalText(MaxInt + 1)), fd)
    ensures !Test(f, Some(DecimalText(MinInt - 1)), fd)
  {
    ParseDecimalText(MaxInt + 1);
    ParseDecimalText(MinInt - 1);
  }

  /**
   * The reverse cast of an integer is its decimal text, and casting that text
   * gives the integer back, with bare numbers or without.
   */
  lemma {:induction false} IntegerRoundTrip(f: Field, n: Int64, fd: Foundation)
    requires f.fieldType == IntegerType
    ensures ReverseCast(f, Some(Integer(n)), fd) == Some(DecimalText(n))
    ensures Cast(f, Some(DecimalText(n)), fd) == Some(Integer(n))
  {
    if f.bareNumber {
      ParseDecimalText(n);
    } else {
      NonBareReadsDecimalText(n);
    }
  }

  /** A text listed in the true literals casts to true, else one in the false literals to false, else nothing. */
  lemma {:induction false} BooleanCastLiterals(f: Field, text: string, fd: Foundation)
    requires f.fieldType == BooleanType
    ensures Cast(f, Some(text), fd) == if text in f.trueValues then Some(Boolean(true))
                                      else if text in f.falseValues then Some(Boolean(false))
                                      else None
  {
  }

  /**
   * A boolean reverse-casts to the first literal of its list, or fails when
   * that list is empty; anything but a boolean fails.
   */
  lemma {:induction false} BooleanReverseFirst(f: Field, value: Value, fd: Foundation)
    requires f.fieldType == BooleanType
    ensures var literals := if value.Boolean? && value.boolean then f.trueValues else f.falseValues;
            ReverseCast(f, Some(value), fd) == if value.Boolean? && |literals| > 0 then Some(literals[0]) else None
  {
  }

  /**
   * The round trip through the literal lists: true always comes back when
   * there is a true literal; false comes back when there is a false literal
   * and the first one is not also a true literal (those are checked first).
   */
  lemma {:induction false} BooleanRoundTrip(f: Field, b: bool, fd: Foundation)
    requires f.fieldType == BooleanType
    requires |f.trueValues| > 0 && |f.falseValues| > 0
    ensures b || f.falseValues[0] !in f.trueValues ==>
              Cast(f, ReverseCast(f, Some(Boolean(b)), fd), fd) == Some(Boolean(b))
    ensures !b && f.falseValues[0] in f.trueValues ==>
              Cast(f, ReverseCast(f, Some(Boolean(b)), fd), fd) == Some(Boolean(true))
  {
    assert f.trueValues[0] in f.trueValues;
    assert f.falseValues[0] in f.falseValues;
  }

  /** With the default literals both booleans survive the round trip. */
  lemma {:induction false} DefaultBooleanRoundTrip(name: string, b: bool, fd: Foundation)
    ensures var f := NewField(name, BooleanType);
            Cast(f, ReverseCast(f, Some(Boolean(b)), fd), fd) == Some(Boolean(b))
  {
    var f := NewField(name, BooleanType);
    assert f.falseValues[0] !in f.trueValues;
    BooleanRoundTrip(f, b, fd);
  }

  /**
   * `date` and `time` fields: the `any` format and patterns are unavailable;
   * `datetime` fields: `any` is unavailable but a pattern is a bad cast.
   */
  lemma {:induction false} CalendarFormatGate(f: Field, text: string, fd: Foundation)
    requires f.fieldType == DateType || f.fieldType == TimeType || f.fieldType == DateTimeType
    requires f.format.AnyFormat? || f.format.PatternFormat?
    ensures InternalCast(f, Some(text), fd)
            == if f.fieldType == DateTimeType && f.format.PatternFormat? then Fail(BadCast) else Fail(UnavailableCast)
  {
  }

  /** A duration field casts exactly the durations the designator scanner reads. */
  lemma {:induction false} DurationField(f: Field, text: string, fd: Foundation)
    requires f.fieldType == DurationType
    ensures Cast(f, Some(text), fd) == if Duration(text).Ok? then Some(Span(Duration(text).value)) else None
  {
  }

  /**
   * A default-format geo point needs exactly two non-empty comma-separated
   * pieces, and then is the pair of numbers the trimmed pieces parse as.
   */
  lemma {:induction false} GeoPointPieces(f: Field, text: string, fd: Foundation)
    requires f.fieldType == GeoPointType && f.format == DefaultFormat
    ensures Test(f, Some(text), fd) <==>
              var pieces := Split(text, ',');
              |pieces| == 2 && fd.double(Trim(pieces[0])).Some? && fd.double(Trim(pieces[1])).Some?
    ensures var pieces := Split(text, ',');
            |pieces| == 2 && fd.double(Trim(pieces[0])).Some? && fd.double(Trim(pieces[1])).Some? ==>
              Cast(f, Some(text), fd)
              == Some(Point(JsonNumber(fd.double(Trim(pieces[0])).value), JsonNumber(fd.double(Trim(pieces[1])).value)))
  {
    assert InternalCast(f, Some(text), fd) == Present(GeoPointCast(f, text, fd));
  }

  /**
   * Two comma-free, non-empty texts joined by one comma are a geo point
   * exactly when both parse as numbers once trimmed, and then the point is
   * that pair.
   */
  lemma {:induction false} GeoPointJoined(f: Field, lon: string, lat: string, fd: Foundation)
    requires f.fieldType == GeoPointType && f.format == DefaultFormat
    requires |lon| > 0 && ',' !in lon && |lat| > 0 && ',' !in lat
    ensures Test(f, Some(lon + "," + lat), fd) <==> fd.double(Trim(lon)).Some? && fd.double(Trim(lat)).Some?
    ensures Test(f, Some(lon + "," + lat), fd) ==>
              Cast(f, Some(lon + "," + lat), fd)
              == Some(Point(JsonNumber(fd.double(Trim(lon)).value), JsonNumber(fd.double(Trim(lat)).value)))
  {
    SplitTwo(lon, lat, ',');
    assert lon + "," + lat == lon + [','] + lat;
    GeoPointPieces(f, lon + "," + lat, fd);
  }
}

/**
 * The values a cast produces or a reverse cast consumes (Swift's `Any`), and
 * the Foundation services the casts call but that are not part of this
 * model: URL, UUID and base64 handling, JSON (de)serialisation, ISO 8601
 * date formatting and `Double(String)`. Those services are a parameter, so
 * every property proved holds whatever they do.
 */
module Values {
  import opened Wrappers
  import opened Strings
  import opened Durations

  /** What `JSONSerialization` yields: JSON values with numbers as reals. */
  datatype Json =
    | JsonNull
    | JsonBool(b: bool)
    | JsonNumber(n: real)
    | JsonString(s: string)
    | JsonArray(items: seq<Json>)
    | JsonObject(members: map<string, Json>)

  /** A Foundation `URL`, known by its `absoluteString`. */
  datatype Url = Url(absoluteString: string)

  /** A Foundation `UUID`, known by its `uuidString`. */
  datatype Uuid = Uuid(uuidString: string)

  /** A Foundation `Date`: seconds since the reference date. */
  datatype Date = Date(sinceReferenceDate: real)

  /** The `formatOptions` an `ISO8601DateFormatter` is configured with in each cast. */
  datatype IsoOptions =
    | FullDate        // [.withFullDate, .withDashSeparatorInDate]
    | FullTime        // [.withTime, .withColonSeparatorInTime]
    | InternetDateTime // the formatter's default options
    | YearOnly        // [.withYear, .withDashSeparatorInDate]
    | YearAndMonth    // [.withYear, .withMonth, .withDashSeparatorInDate]

  /** The Foundation calls the casts make, each as a total function that may decline. */
  datatype Foundation = Foundation(
    url: string -> Option<Url>,                   // URL(string:)
    base64Decode: string -> Option<string>,       // Data(base64Encoded:), then String(data:encoding: .utf8)
    base64Encode: string -> Option<string>,       // data(using: .utf8), then base64EncodedString()
    uuid: string -> Option<Uuid>,                 // UUID(uuidString:)
    json: string -> Option<Json>,                 // JSONSerialization.jsonObject(with:)
    serialize: seq<Json> -> Option<string>,       // JSONSerialization.data(withJSONObject:), then UTF-8 text
    parseIso: (IsoOptions, string) -> Option<Date>, // ISO8601DateFormatter.date(from:)
    formatIso: Date -> string,                    // ISO8601DateFormatter.string(from:)
    double: string -> Option<real>)               // Double(String)

  /** A logical value: what a cast returns and what a reverse cast accepts. */
  datatype Value =
    | Text(text: string)
    | Integer(integer: Int64)
    | Boolean(boolean: bool)
    | Link(url: Url)
    | Identifier(uuid: Uuid)
    | Dictionary(members: map<string, Json>)
    | List(items: seq<Json>)
    | Instant(date: Date)
    | Span(components: DateComponents)
    | Point(lon: Json, lat: Json)
    | Other // any value of a type no cast produces
}

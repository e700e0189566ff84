/** The already-decoded JSON value the inference walks over, as produced by a
    generic decoder into `any`. */
module JsonValues {

  datatype Json =
    | Null
    | Bool(b: bool)
    /** A decoded float64; every finite float64 is a real number. */
    | Number(n: real)
    | Str(s: string)
    | Array(items: seq<Json>)
    /** Object members in a fixed order. */
    | Object(members: seq<Member>)
    /** Any other dynamic value a caller may hand in (the `default` branch). */
    | Other

  datatype Member = Member(key: string, value: Json)

  const Int64Min: real := -9223372036854775808.0
  const Int64Max: real := 9223372036854775807.0

  /** The float64 survives a round trip through int64: it has no fractional
      part and lies in the int64 range. */
  predicate IsIntegral(n: real)
  {
    n.Floor as real == n && Int64Min <= n <= Int64Max
  }
}

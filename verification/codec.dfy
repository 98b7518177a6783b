/** What the JSON codec hands to the chaincode. JSON text is not modelled:
    only the decoded shape and the decoder's observable failure modes. */
module Codec {

  /** The outcome of `gson.fromJson(text, T.class)`: a syntax error, the
      literal `null` (or blank text), or a decoded record. Inside a record an
      unparsable date or integer and an unknown enum literal decode to null,
      which the record types carry as `None`. */
  datatype Decoded<+T> = Malformed | JsonNull | Parsed(value: T)

  /** A calendar date (`LocalDate`); only the year takes part in any rule. */
  datatype Date = Date(year: int, month: int, day: int)

  /** A boxed Java `Integer`. */
  type Int32 = n: int | -0x8000_0000 <= n < 0x8000_0000
}

/** Clock times, calendar dates and the text formats the decoders hand to their
    date/time and floating-point libraries.

    The libraries themselves are outside the model: each format is a partial
    function from text to a value, passed to the decoders as a parameter, and
    nothing is assumed about which texts it accepts. */
module Formats {
  import opened Wrappers

  /** A time of day, in seconds since midnight (`NaiveTime` without fractions). */
  type Time = t: int | 0 <= t < 86400

  /** A calendar day, as a day number (`NaiveDate`). */
  type Date = int

  /** One second before midnight, the value the schedule decoder uses for 12:00:00 AM. */
  const LastSecond: Time := 86399

  /** The text parsers the decoders call, by the format string they pass. */
  datatype Parsers = Parsers(
    hms: string -> Option<Time>,      // NaiveTime, "%T"
    hm: string -> Option<Time>,       // NaiveTime, "%H:%M"
    clock12: string -> Option<Time>,  // NaiveTime, "%r"
    dmy: string -> Option<Date>,      // NaiveDate, "%d/%m/%Y"
    single: string -> Option<int>,    // f32 from_str, as a coordinate key
    double: string -> Option<int>)    // f64 from_str, as a coordinate key
}

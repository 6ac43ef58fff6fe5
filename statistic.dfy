/** The record the service stores and serves: one day of data for the
    configured country (src/model/statistics.ts). */
module Statistics {

  datatype Option<+T> = None | Some(value: T)

  /** A JavaScript number as `Number(...)` produces it from CSV text.
      `Value` holds the exact value of an integer or plain decimal numeral;
      `Unparsed` stands for every other outcome (NaN for malformed text, and
      the exponent, hexadecimal and Infinity forms the model does not
      evaluate), keeping the text it came from. */
  datatype Num = Value(value: real) | Unparsed(text: string)

  datatype Statistic = Statistic(
    date: string,
    vaccinations: Num,
    deaths: Num,
    confirmed: Num,
    totalVaccinations: Num,
    totalConfirmed: Num,
    totalDeaths: Num
  )
}

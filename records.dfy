/**
 * The entities the analyzer works on. `Crypto` is the persisted price
 * observation (its JPA class is not part of this model: only its three
 * columns are); `NormalizedCrypto` is the result value the service builds.
 */
module Records {
  import opened Wrappers

  /** A price observation: ticker symbol, epoch milliseconds (UTC), nullable exact price. */
  datatype Crypto = Crypto(symbol: string, timestamp: int, price: Option<real>)

  /** The identity of an observation in the store: (symbol, timestamp). */
  type Key = (string, int)

  function KeyOf(c: Crypto): Key
  {
    (c.symbol, c.timestamp)
  }

  /**
   * A symbol with its normalized value. Min and max prices are filled in by
   * the ranking and left null by the two-argument constructor the day query uses.
   */
  datatype NormalizedCrypto = NormalizedCrypto(
    symbol: string,
    maxPrice: Option<real>,
    minPrice: Option<real>,
    normalizedValue: real)

  /** The sentinel returned for a day without records: symbol "N/A", value 0. */
  const NotFound: NormalizedCrypto := NormalizedCrypto("N/A", None, None, 0.0)
}

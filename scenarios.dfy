/**
 * The repository's unit-test scenarios, stated about the model: the
 * statistics over three BTC quotes, the comparison of BTC with ETH, and
 * the day query called with the test's "01-01-2022".
 */
module Scenarios {
  import opened Wrappers
  import opened Decimals
  import opened Records
  import opened Calendar
  import opened IsoFormat
  import opened CryptoService

  function Btc(): (r: seq<Crypto>)
    ensures |r| == 3
  {
    [ Crypto("BTC", 1641009600000, Some(46813.21)),
      Crypto("BTC", 1641042000000, Some(34875.00)),
      Crypto("BTC", 1643695200000, Some(47222.66)) ]
  }

  function Eth(): (r: seq<Crypto>)
    ensures |r| == 3
  {
    [ Crypto("ETH", 1641024000000, Some(3715.32)),
      Crypto("ETH", 1641042000000, Some(2336.52)),
      Crypto("ETH", 1643695200000, Some(3823.82)) ]
  }

  /** The oldest of three BTC quotes is the first one, priced 46813.21. */
  lemma OldestQuote()
    ensures var cryptos := [Crypto("BTC", 1641009600000, Some(46813.21)),
                            Crypto("BTC", 1641020400000, Some(46797.61)),
                            Crypto("BTC", 1641042000000, Some(41743.58))];
            GetOldestCrypto(cryptos).Some? && GetOldestCrypto(cryptos).value.price == Some(46813.21)
  {
    var cryptos := [Crypto("BTC", 1641009600000, Some(46813.21)),
                    Crypto("BTC", 1641020400000, Some(46797.61)),
                    Crypto("BTC", 1641042000000, Some(41743.58))];
    OldestIsFirstMinimal(cryptos, 0);
  }

  /** The newest of three BTC quotes is the last one, priced 38416.79. */
  lemma NewestQuote()
    ensures var cryptos := [Crypto("BTC", 1641009600000, Some(46813.21)),
                            Crypto("BTC", 1641020400000, Some(46797.61)),
                            Crypto("BTC", 1643695200000, Some(38416.79))];
            GetNewestCrypto(cryptos).Some? && GetNewestCrypto(cryptos).value.price == Some(38416.79)
  {
    var cryptos := [Crypto("BTC", 1641009600000, Some(46813.21)),
                    Crypto("BTC", 1641020400000, Some(46797.61)),
                    Crypto("BTC", 1643695200000, Some(38416.79))];
    NewestIsFirstMaximal(cryptos, 2);
  }

  /** Min 34875.00 and max 47222.66. */
  lemma MinAndMaxOfBtc()
    ensures CalculateMinPrice(Btc()) == 34875.00
    ensures CalculateMaxPrice(Btc()) == 47222.66
  {
    var b := Btc();
    assert b[1..][1..] == [b[2]];
    assert Prices(b) == [46813.21, 34875.00, 47222.66];
  }

  /** (47222.66 - 34875.00) / 34875.00 = 0.35405... rounds half-up to 0.354. */
  lemma NormalizedRangeOfBtc()
    ensures CalculateNormalizedRange(Btc()) == 0.354
  {
    MinAndMaxOfBtc();
    var q := (47222.66 - 34875.00) / 34875.00;
    assert Pow10(3) == 1000;
    HalfUpUnitsUnique(q, 3, 354);
  }

  /** Min 2336.52 and max 3823.82. */
  lemma MinAndMaxOfEth()
    ensures CalculateMinPrice(Eth()) == 2336.52
    ensures CalculateMaxPrice(Eth()) == 3823.82
  {
    var e := Eth();
    assert e[1..][1..] == [e[2]];
    assert Prices(e) == [3715.32, 2336.52, 3823.82];
  }

  /** ETH's range (3823.82 - 2336.52) / 2336.52 = 0.6365... rounds half-up to 0.637. */
  lemma NormalizedRangeOfEth()
    ensures CalculateNormalizedRange(Eth()) == 0.637
  {
    MinAndMaxOfEth();
    var q := (3823.82 - 2336.52) / 2336.52;
    assert Pow10(3) == 1000;
    HalfUpUnitsUnique(q, 3, 637);
  }

  /** ETH's range exceeds BTC's. */
  lemma EthRangeExceedsBtc()
    ensures CalculateNormalizedRange(Eth()) > CalculateNormalizedRange(Btc())
  {
    NormalizedRangeOfBtc();
    NormalizedRangeOfEth();
  }

  /** The day-month-year text of the test is not ISO_LOCAL_DATE: the query throws. */
  lemma DayMonthYearTextRejected(rows: seq<Crypto>)
    ensures ParseIsoLocalDate("01-01-2022") == None
    ensures GetCryptoWithHighestNormalizedRangeForDay(rows, "01-01-2022") == Failure(InvalidDateFormat)
  {
    assert DigitPrefix("01-01-2022", 10) == 2;
  }

  /** "2022-01-01" is what ISO_LOCAL_DATE prints for 1 January 2022, so it is read back as that date. */
  lemma IsoDateOfTestDay()
    ensures FormatIsoLocalDate(Date(2022, 1, 1)) == "2022-01-01"
    ensures ParseIsoLocalDate("2022-01-01") == Some(Date(2022, 1, 1))
  {
    assert PadDigits(2, 1) == "2";
    assert PadDigits(20, 2) == "20";
    assert PadDigits(202, 3) == "202";
    assert PadDigits(2022, 4) == "2022";
    assert PadDigits(0, 1) == "0";
    assert PadDigits(1, 2) == "01";
    DateRoundTrip(Date(2022, 1, 1));
  }

  /** 1 January 2022 is epoch day 18993; its window runs from 1640995200000 to 1641081599000. */
  lemma WindowOfTestDay()
    ensures EpochDay(Date(2022, 1, 1)) == 18993
    ensures DayWindow(Date(2022, 1, 1)) == Success((1640995200000, 1641081599000))
  {
  }
}

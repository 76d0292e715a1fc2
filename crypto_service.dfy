/**
 * The statistics engine of CryptoService: min/max price, oldest/newest
 * record, the normalized range (max - min) / min, the ranking of all
 * symbols and the per-day winner. Every operation is a pure function of the
 * rows the repository hands over.
 */
module CryptoService {
  import opened Wrappers
  import opened Decimals
  import opened Records
  import opened Repository
  import opened Calendar
  import opened IsoFormat

  // ---------------------------------------------------------------------
  // Min / max price
  // ---------------------------------------------------------------------

  /** The non-null prices of the records, in order (`map(getPrice).filter(nonNull)`). */
  function Prices(cryptos: seq<Crypto>): (ps: seq<real>)
    ensures forall p :: p in ps <==> Some(p) in PriceOptions(cryptos)
  {
    if cryptos == [] then []
    else
      (if cryptos[0].price.Some? then [cryptos[0].price.value] else []) + Prices(cryptos[1..])
  }

  /** The price column, nulls included. */
  function PriceOptions(cryptos: seq<Crypto>): (r: seq<Option<real>>)
    ensures |r| == |cryptos| && forall i :: 0 <= i < |r| ==> r[i] == cryptos[i].price
  {
    seq(|cryptos|, i requires 0 <= i < |cryptos| => cryptos[i].price)
  }

  /** The least element of a non-empty list of prices. */
  function MinOf(ps: seq<real>): (m: real)
    requires ps != []
    ensures m in ps && forall p :: p in ps ==> m <= p
  {
    if |ps| == 1 then ps[0]
    else
      var rest := MinOf(ps[1..]);
      assert forall p :: p in ps ==> p == ps[0] || p in ps[1..];
      if ps[0] <= rest then ps[0] else rest
  }

  /** The greatest element of a non-empty list of prices. */
  function MaxOf(ps: seq<real>): (m: real)
    requires ps != []
    ensures m in ps && forall p :: p in ps ==> p <= m
  {
    if |ps| == 1 then ps[0]
    else
      var rest := MaxOf(ps[1..]);
      assert forall p :: p in ps ==> p == ps[0] || p in ps[1..];
      if ps[0] >= rest then ps[0] else rest
  }

  /** calculateMinPrice: the least non-null price, or zero when there is none. */
  function CalculateMinPrice(cryptos: seq<Crypto>): (r: real)
    ensures (forall c :: c in cryptos ==> c.price.None?) ==> r == 0.0
    ensures (exists c :: c in cryptos && c.price.Some?) ==>
              Some(r) in PriceOptions(cryptos)
              && forall c :: c in cryptos && c.price.Some? ==> r <= c.price.value
  {
    var ps := Prices(cryptos);
    PricesCoverRecords(cryptos);
    if ps == [] then 0.0 else MinOf(ps)
  }

  /** calculateMaxPrice: the greatest non-null price, or zero when there is none. */
  function CalculateMaxPrice(cryptos: seq<Crypto>): (r: real)
    ensures (forall c :: c in cryptos ==> c.price.None?) ==> r == 0.0
    ensures (exists c :: c in cryptos && c.price.Some?) ==>
              Some(r) in PriceOptions(cryptos)
              && forall c :: c in cryptos && c.price.Some? ==> c.price.value <= r
  {
    var ps := Prices(cryptos);
    PricesCoverRecords(cryptos);
    if ps == [] then 0.0 else MaxOf(ps)
  }

  /** Every non-null price of a record is among Prices, and Prices is empty exactly when all prices are null. */
  lemma PricesCoverRecords(cryptos: seq<Crypto>)
    ensures forall c :: c in cryptos && c.price.Some? ==> c.price.value in Prices(cryptos)
    ensures Prices(cryptos) == [] <==> forall c :: c in cryptos ==> c.price.None?
  {
    var po := PriceOptions(cryptos);
    forall c | c in cryptos && c.price.Some?
      ensures c.price.value in Prices(cryptos)
    {
      var i :| 0 <= i < |cryptos| && cryptos[i] == c;
      assert po[i] == c.price;
    }
    if Prices(cryptos) != [] {
      var p := Prices(cryptos)[0];
      assert Some(p) in po;
      var i :| 0 <= i < |po| && po[i] == Some(p);
      assert cryptos[i] in cryptos && cryptos[i].price.Some?;
    }
  }

  /** Over the same records the minimum never exceeds the maximum. */
  lemma MinPriceAtMostMaxPrice(cryptos: seq<Crypto>)
    ensures CalculateMinPrice(cryptos) <= CalculateMaxPrice(cryptos)
  {
    PricesCoverRecords(cryptos);
    if Prices(cryptos) != [] {
      var p := Prices(cryptos)[0];
      assert Some(p) in PriceOptions(cryptos);
      var i :| 0 <= i < |cryptos| && PriceOptions(cryptos)[i] == Some(p);
      assert cryptos[i] in cryptos;
    }
  }

  // ---------------------------------------------------------------------
  // Oldest / newest record
  // ---------------------------------------------------------------------

  /**
   * getOldestCrypto: the record with the smallest timestamp, None (null) for
   * an empty list. Like Stream.min, the first of several equal minima wins.
   */
  function GetOldestCrypto(cryptos: seq<Crypto>): (r: Option<Crypto>)
    ensures r.None? <==> cryptos == []
    ensures r.Some? ==> r.value in cryptos && forall c :: c in cryptos ==> r.value.timestamp <= c.timestamp
  {
    if cryptos == [] then None
    else
      assert forall c :: c in cryptos ==> c == cryptos[0] || c in cryptos[1..];
      match GetOldestCrypto(cryptos[1..])
      case None => Some(cryptos[0])
      case Some(o) => if cryptos[0].timestamp <= o.timestamp then Some(cryptos[0]) else Some(o)
  }

  /**
   * getNewestCrypto: the record with the largest timestamp, None (null) for
   * an empty list. Like Stream.max, the first of several equal maxima wins.
   */
  function GetNewestCrypto(cryptos: seq<Crypto>): (r: Option<Crypto>)
    ensures r.None? <==> cryptos == []
    ensures r.Some? ==> r.value in cryptos && forall c :: c in cryptos ==> c.timestamp <= r.value.timestamp
  {
    if cryptos == [] then None
    else
      assert forall c :: c in cryptos ==> c == cryptos[0] || c in cryptos[1..];
      match GetNewestCrypto(cryptos[1..])
      case None => Some(cryptos[0])
      case Some(n) => if cryptos[0].timestamp >= n.timestamp then Some(cryptos[0]) else Some(n)
  }

  /** The oldest record is the first one whose timestamp no other record undercuts. */
  lemma {:induction false} OldestIsFirstMinimal(cryptos: seq<Crypto>, i: nat)
    requires i < |cryptos|
    requires forall j :: 0 <= j < |cryptos| ==> cryptos[i].timestamp <= cryptos[j].timestamp
    requires forall j :: 0 <= j < i ==> cryptos[j].timestamp > cryptos[i].timestamp
    ensures GetOldestCrypto(cryptos) == Some(cryptos[i])
  {
    if i > 0 {
      OldestIsFirstMinimal(cryptos[1..], i - 1);
    } else if |cryptos| > 1 {
      var o := GetOldestCrypto(cryptos[1..]);
      assert o.value in cryptos;
    }
  }

  /** The newest record is the first one whose timestamp no other record exceeds. */
  lemma {:induction false} NewestIsFirstMaximal(cryptos: seq<Crypto>, i: nat)
    requires i < |cryptos|
    requires forall j :: 0 <= j < |cryptos| ==> cryptos[j].timestamp <= cryptos[i].timestamp
    requires forall j :: 0 <= j < i ==> cryptos[j].timestamp < cryptos[i].timestamp
    ensures GetNewestCrypto(cryptos) == Some(cryptos[i])
  {
    if i > 0 {
      NewestIsFirstMaximal(cryptos[1..], i - 1);
    } else if |cryptos| > 1 {
      var n := GetNewestCrypto(cryptos[1..]);
      assert n.value in cryptos;
    }
  }

  // ---------------------------------------------------------------------
  // Normalized range
  // ---------------------------------------------------------------------

  /**
   * (max - min) / min rounded half-up to `scale` places when min > 0, and
   * exactly zero otherwise (the division-by-zero guard).
   */
  function NormalizedValue(minPrice: real, maxPrice: real, scale: nat): (r: real)
    ensures minPrice <= 0.0 ==> r == 0.0
    ensures minPrice > 0.0 ==>
              r * Pow10(scale) as real == HalfUpUnits((maxPrice - minPrice) / minPrice, scale) as real
    ensures minPrice <= maxPrice ==> r >= 0.0
  {
    if minPrice > 0.0 then
      var q := (maxPrice - minPrice) / minPrice;
      assert minPrice <= maxPrice ==> RoundHalfUp(q, scale) >= 0.0 by {
        if minPrice <= maxPrice {
          assert q * minPrice == maxPrice - minPrice;
          RoundHalfUpNonNegative(q, scale);
        }
      }
      RoundHalfUp(q, scale)
    else 0.0
  }

  /**
   * calculateNormalizedRange: the range ratio of the records, rounded half-up
   * to 3 places (`NormalizedRangeRounds`), and zero unless the min price is positive.
   */
  function CalculateNormalizedRange(cryptos: seq<Crypto>): (r: real)
    ensures r >= 0.0
    ensures CalculateMinPrice(cryptos) <= 0.0 ==> r == 0.0
  {
    MinPriceAtMostMaxPrice(cryptos);
    ThreePlaces(CalculateMinPrice(cryptos), CalculateMaxPrice(cryptos))
  }

  /** With a positive min price the range is (max - min) / min rounded half-up to thousandths. */
  lemma NormalizedRangeRounds(cryptos: seq<Crypto>)
    ensures var lo, hi := CalculateMinPrice(cryptos), CalculateMaxPrice(cryptos);
            lo > 0.0 ==> CalculateNormalizedRange(cryptos) * 1000.0 == HalfUpUnits((hi - lo) / lo, 3) as real
  {
    RangeOfBounds(cryptos);
    ThreePlacesRounds(CalculateMinPrice(cryptos), CalculateMaxPrice(cryptos), CalculateNormalizedRange(cryptos));
  }

  /** The range is the three-place ratio of the records' min and max prices, which are ordered. */
  lemma RangeOfBounds(cryptos: seq<Crypto>)
    ensures var lo, hi := CalculateMinPrice(cryptos), CalculateMaxPrice(cryptos);
            lo <= hi && CalculateNormalizedRange(cryptos) == ThreePlaces(lo, hi)
  {
    MinPriceAtMostMaxPrice(cryptos);
  }

  /** The rounding clause of ThreePlaces, stated over plain reals. */
  lemma ThreePlacesRounds(lo: real, hi: real, r: real)
    requires lo <= hi && r == ThreePlaces(lo, hi)
    ensures lo > 0.0 ==> r * 1000.0 == HalfUpUnits((hi - lo) / lo, 3) as real
  {
  }

  /** The normalized value at scale 3, whose unit is a thousandth. */
  function ThreePlaces(minPrice: real, maxPrice: real): (r: real)
    requires minPrice <= maxPrice
    ensures r >= 0.0
    ensures minPrice <= 0.0 ==> r == 0.0
    ensures minPrice > 0.0 ==> r * 1000.0 == HalfUpUnits((maxPrice - minPrice) / minPrice, 3) as real
  {
    assert Pow10(3) == 1000;
    NormalizedValue(minPrice, maxPrice, 3)
  }

  // ---------------------------------------------------------------------
  // Grouping by symbol and ranking
  // ---------------------------------------------------------------------

  /**
   * The distinct symbols of the rows: the keys of `groupingBy(getSymbol)`.
   * Java leaves their order to the HashMap; here it is first appearance.
   */
  function Symbols(rows: seq<Crypto>): (syms: seq<string>)
    ensures forall sym :: sym in syms <==> exists c :: c in rows && c.symbol == sym
    ensures forall i, j :: 0 <= i < j < |syms| ==> syms[i] != syms[j]
  {
    if rows == [] then []
    else
      var init := rows[..|rows| - 1];
      var last := rows[|rows| - 1];
      assert forall c :: c in rows <==> c in init || c == last;
      var syms := Symbols(init);
      if last.symbol in syms then syms else syms + [last.symbol]
  }

  /** The ranking ratio of one symbol's group: 10 places, zero unless its min price is positive. */
  function GroupRatio(rows: seq<Crypto>, symbol: string): (r: real)
    ensures r >= 0.0
  {
    var group := FindBySymbol(rows, symbol);
    MinPriceAtMostMaxPrice(group);
    NormalizedValue(CalculateMinPrice(group), CalculateMaxPrice(group), 10)
  }

  /** The NormalizedCrypto built for one group: its symbol, max, min and 10-place ratio. */
  function NormalizeGroup(rows: seq<Crypto>, symbol: string): (n: NormalizedCrypto)
    ensures n.symbol == symbol && n.normalizedValue >= 0.0
  {
    var group := FindBySymbol(rows, symbol);
    NormalizedCrypto(symbol, Some(CalculateMaxPrice(group)), Some(CalculateMinPrice(group)), GroupRatio(rows, symbol))
  }

  /** One NormalizedCrypto per group, in group order (before sorting). */
  function NormalizeAll(rows: seq<Crypto>): (entries: seq<NormalizedCrypto>)
    ensures |entries| == |Symbols(rows)|
    ensures forall i :: 0 <= i < |entries| ==> entries[i] == NormalizeGroup(rows, Symbols(rows)[i])
  {
    var syms := Symbols(rows);
    seq(|syms|, i requires 0 <= i < |syms| => NormalizeGroup(rows, syms[i]))
  }

  /** Non-increasing by normalized value. */
  ghost predicate SortedDescending(s: seq<NormalizedCrypto>)
  {
    forall i, j :: 0 <= i < j < |s| ==> s[i].normalizedValue >= s[j].normalizedValue
  }

  /** Places x in front of the first element whose value does not exceed x's. */
  function InsertDescending(x: NormalizedCrypto, s: seq<NormalizedCrypto>): (r: seq<NormalizedCrypto>)
    requires SortedDescending(s)
    ensures SortedDescending(r)
    ensures multiset(r) == multiset(s) + multiset{x}
    ensures |r| == |s| + 1 && (r[0] == x || (s != [] && r[0] == s[0]))
  {
    if s == [] || s[0].normalizedValue <= x.normalizedValue then
      ConsDescending(x, s);
      [x] + s
    else
      var tail := InsertDescending(x, s[1..]);
      KeepHead(s, x, tail);
      [s[0]] + tail
  }

  /** The head of s, larger than x, stays in front of the tail with x inserted. */
  lemma KeepHead(s: seq<NormalizedCrypto>, x: NormalizedCrypto, tail: seq<NormalizedCrypto>)
    requires s != [] && SortedDescending(s) && x.normalizedValue < s[0].normalizedValue
    requires SortedDescending(tail) && multiset(tail) == multiset(s[1..]) + multiset{x}
    requires |tail| == |s| && (tail[0] == x || (|s| > 1 && tail[0] == s[1]))
    ensures SortedDescending([s[0]] + tail)
    ensures multiset([s[0]] + tail) == multiset(s) + multiset{x}
  {
    assert s == [s[0]] + s[1..];
    assert multiset(s) == multiset{s[0]} + multiset(s[1..]);
    assert multiset([s[0]] + tail) == multiset{s[0]} + multiset(tail);
    ConsDescending(s[0], tail);
  }

  /** An element at least as large as a descending list's head can go in front of it. */
  lemma ConsDescending(a: NormalizedCrypto, t: seq<NormalizedCrypto>)
    requires SortedDescending(t)
    requires t != [] ==> t[0].normalizedValue <= a.normalizedValue
    ensures SortedDescending([a] + t)
  {
    var r := [a] + t;
    forall i, j | 0 <= i < j < |r|
      ensures r[i].normalizedValue >= r[j].normalizedValue
    {
      assert r[j] == t[j - 1];
      if i > 0 {
        assert r[i] == t[i - 1];
      }
    }
  }

  /**
   * `sorted(comparing(getNormalizedValue).reversed())`: a stable sort into
   * non-increasing order of normalized value.
   */
  function SortDescending(s: seq<NormalizedCrypto>): (r: seq<NormalizedCrypto>)
    ensures SortedDescending(r)
    ensures multiset(r) == multiset(s)
  {
    if s == [] then []
    else
      assert s == [s[0]] + s[1..];
      InsertDescending(s[0], SortDescending(s[1..]))
  }

  /** `Stream.max(comparing(getNormalizedValue))`: the first entry with the largest value. */
  function MaxByValue(s: seq<NormalizedCrypto>): (m: NormalizedCrypto)
    requires s != []
    ensures m in s && forall x :: x in s ==> x.normalizedValue <= m.normalizedValue
  {
    if |s| == 1 then s[0]
    else
      var rest := MaxByValue(s[1..]);
      assert forall x :: x in s ==> x == s[0] || x in s[1..];
      if s[0].normalizedValue >= rest.normalizedValue then s[0] else rest
  }

  /** The symbols that occur among some NormalizedCrypto entries. */
  function EntrySymbols(entries: seq<NormalizedCrypto>): set<string>
  {
    set e | e in entries :: e.symbol
  }

  /** The symbols that occur in the store. */
  function RowSymbols(rows: seq<Crypto>): set<string>
  {
    set c | c in rows :: c.symbol
  }

  /**
   * getSortedCryptosByNormalizedValue: one entry per distinct symbol of the
   * store, each carrying its group's max, min and 10-place ratio, in
   * non-increasing order of that ratio.
   */
  function GetSortedCryptosByNormalizedValue(rows: seq<Crypto>): (r: seq<NormalizedCrypto>)
    ensures SortedDescending(r)
    ensures |r| == |Symbols(rows)|
    ensures EntrySymbols(r) == RowSymbols(rows)
    ensures forall i, j :: 0 <= i < j < |r| ==> r[i].symbol != r[j].symbol
    ensures forall i :: 0 <= i < |r| ==> r[i] == NormalizeGroup(rows, r[i].symbol)
  {
    var entries := NormalizeAll(rows);
    var r := SortDescending(entries);
    RankingFacts(rows, entries, r);
    r
  }

  /** What a permutation of the per-group entries keeps. */
  lemma RankingFacts(rows: seq<Crypto>, entries: seq<NormalizedCrypto>, r: seq<NormalizedCrypto>)
    requires entries == NormalizeAll(rows)
    requires multiset(r) == multiset(entries)
    ensures |r| == |Symbols(rows)|
    ensures EntrySymbols(r) == RowSymbols(rows)
    ensures forall i, j :: 0 <= i < j < |r| ==> r[i].symbol != r[j].symbol
    ensures forall i :: 0 <= i < |r| ==> r[i] == NormalizeGroup(rows, r[i].symbol)
  {
    SameElements(r, entries);
    EntriesAreGroups(rows, entries);
    EntriesCoverSymbols(rows, entries);
    assert EntrySymbols(r) == EntrySymbols(entries);
    DistinctEntries(rows, entries);
    DistinctMultiset(entries);
    forall i, j | 0 <= i < j < |r|
      ensures r[i].symbol != r[j].symbol
    {
      if r[i].symbol == r[j].symbol {
        assert r[i] in entries && r[j] in entries;
        TwiceInMultiset(r, i, j);
      }
    }
  }

  /** A permutation has the same length and the same elements. */
  lemma SameElements<T>(r: seq<T>, s: seq<T>)
    requires multiset(r) == multiset(s)
    ensures |r| == |s|
    ensures forall y :: y in r <==> y in s
  {
    assert |r| == |multiset(r)| == |multiset(s)| == |s|;
    forall y ensures y in r <==> y in s {
      assert y in r <==> y in multiset(r);
      assert y in s <==> y in multiset(s);
    }
  }

  /** Each per-group entry is its own symbol's group, and the entries cover exactly the store's symbols. */
  lemma EntriesAreGroups(rows: seq<Crypto>, entries: seq<NormalizedCrypto>)
    requires entries == NormalizeAll(rows)
    ensures forall e :: e in entries ==> e == NormalizeGroup(rows, e.symbol)
  {
    var syms := Symbols(rows);
    forall e | e in entries
      ensures e == NormalizeGroup(rows, e.symbol)
    {
      var k :| 0 <= k < |entries| && entries[k] == e;
      assert e == NormalizeGroup(rows, syms[k]);
    }
  }

  /** The per-group entries cover exactly the store's symbols. */
  lemma EntriesCoverSymbols(rows: seq<Crypto>, entries: seq<NormalizedCrypto>)
    requires entries == NormalizeAll(rows)
    ensures EntrySymbols(entries) == RowSymbols(rows)
  {
    RowSymbolsHaveEntries(rows, entries);
    EntrySymbolsAreRowSymbols(rows, entries);
  }

  /** Every symbol of the store has an entry. */
  lemma RowSymbolsHaveEntries(rows: seq<Crypto>, entries: seq<NormalizedCrypto>)
    requires entries == NormalizeAll(rows)
    ensures RowSymbols(rows) <= EntrySymbols(entries)
  {
    var syms := Symbols(rows);
    EntrySymbolAt(rows, entries);
    forall sym | sym in RowSymbols(rows)
      ensures sym in EntrySymbols(entries)
    {
      RowSymbolListed(rows, sym);
      var k :| 0 <= k < |syms| && syms[k] == sym;
      assert entries[k] in entries;
    }
  }

  /** Every entry's symbol occurs in the store. */
  lemma EntrySymbolsAreRowSymbols(rows: seq<Crypto>, entries: seq<NormalizedCrypto>)
    requires entries == NormalizeAll(rows)
    ensures EntrySymbols(entries) <= RowSymbols(rows)
  {
    var syms := Symbols(rows);
    EntrySymbolAt(rows, entries);
    forall sym | sym in EntrySymbols(entries)
      ensures sym in RowSymbols(rows)
    {
      var k :| 0 <= k < |entries| && entries[k].symbol == sym;
      assert syms[k] in syms;
      var c :| c in rows && c.symbol == sym;
    }
  }

  /** The k-th per-group entry carries the k-th grouping key. */
  lemma EntrySymbolAt(rows: seq<Crypto>, entries: seq<NormalizedCrypto>)
    requires entries == NormalizeAll(rows)
    ensures |entries| == |Symbols(rows)|
    ensures forall k :: 0 <= k < |entries| ==> entries[k].symbol == Symbols(rows)[k]
  {
  }

  /** A symbol of the store is one of the grouping keys. */
  lemma RowSymbolListed(rows: seq<Crypto>, sym: string)
    requires sym in RowSymbols(rows)
    ensures sym in Symbols(rows)
  {
    var c :| c in rows && c.symbol == sym;
  }

  /** Entries built from distinct symbols are distinct. */
  lemma DistinctEntries(rows: seq<Crypto>, entries: seq<NormalizedCrypto>)
    requires entries == NormalizeAll(rows)
    ensures forall i, j :: 0 <= i < j < |entries| ==> entries[i] != entries[j]
  {
    var syms := Symbols(rows);
    forall i, j | 0 <= i < j < |entries| ensures entries[i] != entries[j] {
      assert entries[i].symbol == syms[i] && entries[j].symbol == syms[j];
    }
  }

  /** A sequence without repeated elements holds each element at most once. */
  lemma {:induction false} DistinctMultiset<T>(s: seq<T>)
    requires forall i, j :: 0 <= i < j < |s| ==> s[i] != s[j]
    ensures forall x :: multiset(s)[x] <= 1
  {
    if s != [] {
      DistinctMultiset(s[1..]);
      assert s == [s[0]] + s[1..];
      assert s[0] !in s[1..];
    }
  }

  /** Two equal elements at different positions occur at least twice. */
  lemma TwiceInMultiset<T>(s: seq<T>, i: nat, j: nat)
    requires i < j < |s| && s[i] == s[j]
    ensures multiset(s)[s[i]] >= 2
  {
    assert s == s[..i] + [s[i]] + s[i+1..j] + [s[j]] + s[j+1..];
  }

  /** The head of the ranking is the entry Stream.max would pick from the unsorted entries. */
  lemma {:induction false} SortHeadIsMax(s: seq<NormalizedCrypto>)
    requires s != []
    ensures SortDescending(s)[0] == MaxByValue(s)
  {
    if |s| > 1 {
      SortHeadIsMax(s[1..]);
    }
  }

  // ---------------------------------------------------------------------
  // GMT conversions
  // ---------------------------------------------------------------------

  /** The exceptions the conversions and the day query let escape. */
  datatype ServiceError =
    | DateTimeParse       // DateTimeParseException from LocalDateTime.parse
    | InvalidDateFormat   // the IllegalArgumentException the day query throws for an unparsable date
    | ArithmeticOverflow  // ArithmeticException from Instant.toEpochMilli

  /** The second of the epoch (in UTC) at which t begins. */
  function EpochSecond(t: LocalDateTime): int
    requires 1 <= t.date.month <= 12
  {
    EpochDay(t.date) * SecondsPerDay + t.hour * 3600 + t.minute * 60 + t.second
  }

  /**
   * convertGMTToMillis: the text read as an ISO local date-time in UTC, as
   * epoch milliseconds (sub-millisecond digits dropped), or the exception
   * raised on unparsable text or on a count outside a Java long.
   */
  function ConvertGMTToMillis(s: string): (r: Result<int, ServiceError>)
    ensures r == Failure(DateTimeParse) <==> ParseIsoLocalDateTime(s).None?
    ensures ParseIsoLocalDateTime(s).Some? ==>
              var t := ParseIsoLocalDateTime(s).value;
              var exact := EpochSecond(t) * 1000 + t.nano / 1_000_000;
              (r.Success? <==> LongMin <= exact <= LongMax) && (r.Success? ==> r.value == exact)
    ensures r.Failure? ==> r.error == DateTimeParse || r.error == ArithmeticOverflow
  {
    match ParseIsoLocalDateTime(s)
    case None => Failure(DateTimeParse)
    case Some(t) =>
      match ToEpochMilli(EpochSecond(t), t.nano)
      case None => Failure(ArithmeticOverflow)
      case Some(millis) => Success(millis)
  }

  /**
   * LocalDateTime.ofInstant(Instant.ofEpochMilli(millis), UTC): the UTC
   * date-time of an epoch millisecond. Java's floorDiv/floorMod are Dafny's
   * `/` and `%` here, since every divisor is positive.
   */
  function MillisToDateTime(millis: Long): (t: LocalDateTime)
    ensures ValidDateTime(t)
    ensures EpochSecond(t) * 1000 + t.nano / 1_000_000 == millis
    ensures t.nano % 1_000_000 == 0
  {
    var seconds := millis / 1000;
    var day := seconds / SecondsPerDay;
    var secondOfDay := seconds % SecondsPerDay;
    MillisSplit(millis, seconds, day, secondOfDay);
    TimeOfDaySplit(secondOfDay);
    OfEpochDayYearRange(day);
    EpochDayOfEpochDay(day);
    LocalDateTime(OfEpochDay(day), secondOfDay / 3600, secondOfDay / 60 % 60, secondOfDay % 60,
                  (millis % 1000) * 1_000_000)
  }

  /** A millisecond count splits into a day, a second of that day and a millisecond of that second. */
  lemma MillisSplit(millis: Long, seconds: int, day: int, secondOfDay: int)
    requires seconds == millis / 1000 && day == seconds / SecondsPerDay && secondOfDay == seconds % SecondsPerDay
    ensures -200_000_000_000 <= day <= 200_000_000_000
    ensures 0 <= secondOfDay < SecondsPerDay
    ensures (day * SecondsPerDay + secondOfDay) * 1000 + millis % 1000 == millis
    ensures (millis % 1000) * 1_000_000 / 1_000_000 == millis % 1000
    ensures (millis % 1000) * 1_000_000 % 1_000_000 == 0
    ensures 0 <= (millis % 1000) * 1_000_000 < 1_000_000_000
  {
  }

  /** A second of the day splits into hour, minute and second. */
  lemma TimeOfDaySplit(secondOfDay: int)
    requires 0 <= secondOfDay < SecondsPerDay
    ensures 0 <= secondOfDay / 3600 < 24 && 0 <= secondOfDay / 60 % 60 < 60 && 0 <= secondOfDay % 60 < 60
    ensures (secondOfDay / 3600) * 3600 + (secondOfDay / 60 % 60) * 60 + secondOfDay % 60 == secondOfDay
  {
  }

  /** convertMillisToGMT: the UTC date-time of the millisecond, printed as ISO_LOCAL_DATE_TIME. */
  function ConvertMillisToGMT(millis: Long): (s: string)
    ensures ParseIsoLocalDateTime(s) == Some(MillisToDateTime(millis))
  {
    var t := MillisToDateTime(millis);
    DateTimeRoundTrip(t);
    FormatIsoLocalDateTime(t)
  }

  /** Converting a millisecond to GMT text and back gives the millisecond. */
  lemma MillisRoundTrip(millis: Long)
    ensures ConvertGMTToMillis(ConvertMillisToGMT(millis)) == Success(millis)
  {
    ConvertParsed(ConvertMillisToGMT(millis), MillisToDateTime(millis), millis);
  }

  /** What convertGMTToMillis returns for text that parses to t, when t's millisecond fits a long. */
  lemma ConvertParsed(s: string, t: LocalDateTime, millis: int)
    requires ParseIsoLocalDateTime(s) == Some(t)
    requires LongMin <= millis <= LongMax && EpochSecond(t) * 1000 + t.nano / 1_000_000 == millis
    ensures ConvertGMTToMillis(s) == Success(millis)
  {
    var r := ConvertGMTToMillis(s);
    assert r.Success? && r.value == millis;
  }

  /**
   * Text naming a whole millisecond converts to that millisecond, and
   * converting back prints the text in its canonical form.
   */
  lemma GMTRoundTrip(s: string, millis: int)
    requires ConvertGMTToMillis(s) == Success(millis)
    requires ParseIsoLocalDateTime(s).value.nano % 1_000_000 == 0
    ensures LongMin <= millis <= LongMax
    ensures ConvertMillisToGMT(millis) == FormatIsoLocalDateTime(ParseIsoLocalDateTime(s).value)
  {
    var t := ParseIsoLocalDateTime(s).value;
    var u := MillisToDateTime(millis);
    SameInstant(t, u);
  }

  /** Two valid date-times on whole milliseconds with the same epoch millisecond are equal. */
  lemma SameInstant(t: LocalDateTime, u: LocalDateTime)
    requires ValidDateTime(t) && ValidDateTime(u)
    requires t.nano % 1_000_000 == 0 && u.nano % 1_000_000 == 0
    requires EpochSecond(t) * 1000 + t.nano / 1_000_000 == EpochSecond(u) * 1000 + u.nano / 1_000_000
    ensures t == u
  {
    ClockUnique(EpochDay(t.date), t.hour, t.minute, t.second, t.nano,
                EpochDay(u.date), u.hour, u.minute, u.second, u.nano);
    OfEpochDayOfDate(t.date);
    OfEpochDayOfDate(u.date);
  }

  /** A millisecond count determines its day, hour, minute, second and (whole-millisecond) nano. */
  lemma ClockUnique(d: int, h: int, m: int, s: int, n: int, d': int, h': int, m': int, s': int, n': int)
    requires 0 <= h < 24 && 0 <= m < 60 && 0 <= s < 60 && 0 <= n < 1_000_000_000 && n % 1_000_000 == 0
    requires 0 <= h' < 24 && 0 <= m' < 60 && 0 <= s' < 60 && 0 <= n' < 1_000_000_000 && n' % 1_000_000 == 0
    requires (d * SecondsPerDay + h * 3600 + m * 60 + s) * 1000 + n / 1_000_000
             == (d' * SecondsPerDay + h' * 3600 + m' * 60 + s') * 1000 + n' / 1_000_000
    ensures d == d' && h == h' && m == m' && s == s' && n == n'
  {
    var st, st' := d * SecondsPerDay + h * 3600 + m * 60 + s, d' * SecondsPerDay + h' * 3600 + m' * 60 + s';
    DivUnique(st * 1000 + n / 1_000_000, 1000, st, n / 1_000_000);
    DivUnique(st' * 1000 + n' / 1_000_000, 1000, st', n' / 1_000_000);
    DivUnique(st, SecondsPerDay, d, h * 3600 + m * 60 + s);
    DivUnique(st', SecondsPerDay, d', h' * 3600 + m' * 60 + s');
    DivUnique(h * 3600 + m * 60 + s, 3600, h, m * 60 + s);
    DivUnique(h' * 3600 + m' * 60 + s', 3600, h', m' * 60 + s');
    DivUnique(m * 60 + s, 60, m, s);
    DivUnique(m' * 60 + s', 60, m', s');
  }

  // ---------------------------------------------------------------------
  // The day with the highest normalized range
  // ---------------------------------------------------------------------

  /**
   * What the day window means: t's UTC calendar date is d, and t is no
   * later than 23:59:59.000 on it (the window's inclusive end).
   */
  ghost predicate InDay(t: int, d: Date)
  {
    OfEpochDay(t / MillisPerDay) == d && t % MillisPerDay <= 86_399_000
  }

  /** [start of d, d at 23:59:59] in epoch milliseconds is exactly the set of instants InDay(_, d). */
  lemma WindowMeaning(d: Date, t: int)
    requires ValidDate(d)
    ensures EpochDay(d) * MillisPerDay <= t <= EpochDay(d) * MillisPerDay + 86_399_000 <==> InDay(t, d)
  {
    var e := EpochDay(d);
    OfEpochDayOfDate(d);
    if e * MillisPerDay <= t <= e * MillisPerDay + 86_399_000 {
      DivUnique(t, MillisPerDay, e, t - e * MillisPerDay);
    }
    if InDay(t, d) {
      EpochDayOfEpochDay(t / MillisPerDay);
    }
  }

  /**
   * The day's bounds as the query computes them: atStartOfDay and
   * atTime(23, 59, 59) in UTC, each through toEpochMilli, which may overflow.
   */
  function DayWindow(d: Date): (r: Result<(int, int), ServiceError>)
    requires ValidDate(d)
    ensures r.Success? <==>
              LongMin <= EpochDay(d) * MillisPerDay && EpochDay(d) * MillisPerDay + 86_399_000 <= LongMax
    ensures r.Failure? ==> r.error == ArithmeticOverflow
    ensures r.Success? ==> forall t :: r.value.0 <= t <= r.value.1 <==> InDay(t, d)
  {
    var startSecond := EpochDay(d) * SecondsPerDay;
    match ToEpochMilli(startSecond, 0)
    case None => Failure(ArithmeticOverflow)
    case Some(start) =>
      match ToEpochMilli(startSecond + 86_399, 0)
      case None => Failure(ArithmeticOverflow)
      case Some(end) =>
        assert forall t :: start <= t <= end <==> InDay(t, d) by {
          forall t ensures start <= t <= end <==> InDay(t, d) {
            WindowMeaning(d, t);
          }
        }
        Success((start, end))
  }

  /** The records, in table order, stamped on day d (UTC). */
  ghost function DayRecords(rows: seq<Crypto>, d: Date): (r: seq<Crypto>)
    ensures forall c :: c in r ==> c in rows
  {
    if rows == [] then []
    else (if InDay(rows[0].timestamp, d) then [rows[0]] else []) + DayRecords(rows[1..], d)
  }

  /** findByTimestampBetween over the day's bounds selects exactly the day's records. */
  lemma {:induction false} WindowIsDay(rows: seq<Crypto>, d: Date, start: int, end: int)
    requires forall t :: start <= t <= end <==> InDay(t, d)
    ensures FindByTimestampBetween(rows, start, end) == DayRecords(rows, d)
  {
    if rows != [] {
      WindowIsDay(rows[1..], d, start, end);
      assert start <= rows[0].timestamp <= end <==> InDay(rows[0].timestamp, d);
    }
  }

  /** The day query's entry for a group: symbol and ratio only, the prices left null. */
  function WithoutPrices(n: NormalizedCrypto): (r: NormalizedCrypto)
    ensures r.symbol == n.symbol && r.normalizedValue == n.normalizedValue
    ensures r.maxPrice.None? && r.minPrice.None?
  {
    NormalizedCrypto(n.symbol, None, None, n.normalizedValue)
  }

  function WithoutPricesAll(entries: seq<NormalizedCrypto>): (r: seq<NormalizedCrypto>)
    ensures |r| == |entries| && forall i :: 0 <= i < |r| ==> r[i] == WithoutPrices(entries[i])
  {
    seq(|entries|, i requires 0 <= i < |entries| => WithoutPrices(entries[i]))
  }

  /**
   * The day's winner: NotFound when there are no records, else the first
   * group (in group order) whose 10-place ratio no other group exceeds.
   */
  function HighestInWindow(window: seq<Crypto>): (n: NormalizedCrypto)
    ensures window == [] ==> n == NotFound
    ensures window != [] ==>
              n.symbol in RowSymbols(window) && n.maxPrice.None? && n.minPrice.None?
              && n.normalizedValue == GroupRatio(window, n.symbol)
              && forall c :: c in window ==> GroupRatio(window, c.symbol) <= n.normalizedValue
  {
    if window == [] then NotFound
    else
      var syms := Symbols(window);
      var entries := WithoutPricesAll(NormalizeAll(window));
      assert window[0] in window && window[0].symbol in syms;
      var n := MaxByValue(entries);
      WinnerFacts(window, entries, n);
      n
  }

  lemma WinnerFacts(window: seq<Crypto>, entries: seq<NormalizedCrypto>, n: NormalizedCrypto)
    requires entries == WithoutPricesAll(NormalizeAll(window))
    requires n in entries && forall x :: x in entries ==> x.normalizedValue <= n.normalizedValue
    ensures n.symbol in RowSymbols(window) && n.maxPrice.None? && n.minPrice.None?
    ensures n.normalizedValue == GroupRatio(window, n.symbol)
    ensures forall c :: c in window ==> GroupRatio(window, c.symbol) <= n.normalizedValue
  {
    var syms := Symbols(window);
    var k :| 0 <= k < |entries| && entries[k] == n;
    DayEntryAt(window, entries, k);
    assert syms[k] in syms;
    forall c | c in window
      ensures GroupRatio(window, c.symbol) <= n.normalizedValue
    {
      assert c.symbol in syms;
      var j :| 0 <= j < |syms| && syms[j] == c.symbol;
      DayEntryAt(window, entries, j);
      assert entries[j] in entries;
    }
  }

  /** The j-th entry of the day query belongs to the j-th symbol and carries its group's ratio. */
  lemma DayEntryAt(window: seq<Crypto>, entries: seq<NormalizedCrypto>, j: nat)
    requires entries == WithoutPricesAll(NormalizeAll(window)) && j < |entries|
    ensures j < |Symbols(window)|
    ensures entries[j] == NormalizedCrypto(Symbols(window)[j], None, None, GroupRatio(window, Symbols(window)[j]))
  {
  }

  /** Dropping the prices does not change which entry Stream.max picks. */
  lemma {:induction false} MaxWithoutPrices(entries: seq<NormalizedCrypto>)
    requires entries != []
    ensures MaxByValue(WithoutPricesAll(entries)) == WithoutPrices(MaxByValue(entries))
  {
    var w := WithoutPricesAll(entries);
    assert w[0] == WithoutPrices(entries[0]);
    if |entries| > 1 {
      MaxWithoutPrices(entries[1..]);
      assert w[1..] == WithoutPricesAll(entries[1..]);
      MaxStep(entries);
      MaxStep(w);
    }
  }

  /** One step of Stream.max: the head wins unless the rest holds a larger value. */
  lemma MaxStep(s: seq<NormalizedCrypto>)
    requires |s| > 1
    ensures MaxByValue(s) == if s[0].normalizedValue >= MaxByValue(s[1..]).normalizedValue then s[0] else MaxByValue(s[1..])
  {
  }

  /** The day's winner is the head of the ranking computed over that day's records. */
  lemma DayWinnerHeadsRanking(window: seq<Crypto>)
    requires window != []
    ensures GetSortedCryptosByNormalizedValue(window) != []
    ensures HighestInWindow(window) == WithoutPrices(GetSortedCryptosByNormalizedValue(window)[0])
  {
    var entries := NormalizeAll(window);
    assert window[0] in window && window[0].symbol in Symbols(window);
    SortHeadIsMax(entries);
    MaxWithoutPrices(entries);
  }

  /**
   * getCryptoWithHighestNormalizedRangeForDay: the date is read as
   * ISO_LOCAL_DATE (an IllegalArgumentException otherwise), its UTC bounds
   * may overflow a long, and the winner is taken among the day's records.
   */
  function GetCryptoWithHighestNormalizedRangeForDay(rows: seq<Crypto>, dateString: string)
    : (r: Result<NormalizedCrypto, ServiceError>)
    ensures r == Failure(InvalidDateFormat) <==> ParseIsoLocalDate(dateString).None?
    ensures ParseIsoLocalDate(dateString).Some? ==>
              var d := ParseIsoLocalDate(dateString).value;
              var start := EpochDay(d) * MillisPerDay;
              (r == Failure(ArithmeticOverflow) <==> !(LongMin <= start && start + 86_399_000 <= LongMax))
              && (r.Success? <==> LongMin <= start && start + 86_399_000 <= LongMax)
              && (r.Success? ==> r.value == HighestInWindow(DayRecords(rows, d)))
    ensures r.Failure? ==> r.error == InvalidDateFormat || r.error == ArithmeticOverflow
  {
    match ParseIsoLocalDate(dateString)
    case None => Failure(InvalidDateFormat)
    case Some(day) =>
      match DayWindow(day)
      case Failure(e) => Failure(e)
      case Success(w) =>
        WindowIsDay(rows, day, w.0, w.1);
        Success(HighestInWindow(FindByTimestampBetween(rows, w.0, w.1)))
  }
}

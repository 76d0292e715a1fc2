/**
 * The price store. The JPA repository interface is replaced by in-memory
 * queries over the table's rows (`findAll` is the row sequence itself) and a
 * class whose two writes are the ones the loader performs. An entity is
 * identified by its row position.
 */
module Repository {
  import opened Wrappers
  import opened Records

  /** findBySymbol: the rows with exactly this symbol (case-sensitive), in table order. */
  function FindBySymbol(rows: seq<Crypto>, symbol: string): (r: seq<Crypto>)
    ensures forall c :: c in r <==> c in rows && c.symbol == symbol
    ensures forall c :: multiset(r)[c] == if c.symbol == symbol then multiset(rows)[c] else 0
  {
    if rows == [] then []
    else
      assert rows == [rows[0]] + rows[1..];
      (if rows[0].symbol == symbol then [rows[0]] else []) + FindBySymbol(rows[1..], symbol)
  }

  /** findByTimestampBetween: the rows whose timestamp lies in [start, end], both ends inclusive. */
  function FindByTimestampBetween(rows: seq<Crypto>, start: int, end: int): (r: seq<Crypto>)
    ensures forall c :: c in r <==> c in rows && start <= c.timestamp <= end
    ensures forall c :: multiset(r)[c] == if start <= c.timestamp <= end then multiset(rows)[c] else 0
  {
    if rows == [] then []
    else
      assert rows == [rows[0]] + rows[1..];
      (if start <= rows[0].timestamp <= end then [rows[0]] else []) + FindByTimestampBetween(rows[1..], start, end)
  }

  /**
   * findBySymbolAndTimestamp: the positions of the rows with this key, in
   * ascending order (so the first element is the entity `get(0)` returns).
   */
  function FindBySymbolAndTimestamp(rows: seq<Crypto>, symbol: string, timestamp: int): (ids: seq<nat>)
    ensures forall i: nat :: i in ids <==> i < |rows| && KeyOf(rows[i]) == (symbol, timestamp)
    ensures forall j, k :: 0 <= j < k < |ids| ==> ids[j] < ids[k]
  {
    if rows == [] then []
    else
      var n := |rows| - 1;
      var ids := FindBySymbolAndTimestamp(rows[..n], symbol, timestamp);
      assert forall j :: 0 <= j < |ids| ==> ids[j] in ids;
      assert forall i: nat :: i in ids ==> i < n && rows[..n][i] == rows[i];
      if KeyOf(rows[n]) == (symbol, timestamp) then ids + [n] else ids
  }

  /** The table behind the repository. */
  class CryptoRepository {
    var rows: seq<Crypto>

    constructor (initial: seq<Crypto>)
      ensures rows == initial
    {
      rows := initial;
    }

    /** `setPrice` on a managed entity followed by `save`: only that row's price changes. */
    method UpdatePrice(id: nat, price: Option<real>)
      requires id < |rows|
      modifies this
      ensures rows == old(rows)[id := old(rows)[id].(price := price)]
    {
      rows := rows[id := rows[id].(price := price)];
    }

    /** `save` of a new entity: it is appended to the table. */
    method Save(c: Crypto)
      modifies this
      ensures rows == old(rows) + [c]
    {
      rows := rows + [c];
    }
  }
}

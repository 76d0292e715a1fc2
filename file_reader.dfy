/**
 * FileReaderToDatabase: turning CSV rows into price records and writing
 * them to the store. The CSV files arrive already split into rows of fields
 * (one sequence per file, header row included); Long.parseLong and
 * new BigDecimal(String) are the partial parsers passed in.
 */
module Loader {
  import opened Wrappers
  import opened Records
  import opened Repository

  // ---------------------------------------------------------------------
  // Which rows become records
  // ---------------------------------------------------------------------

  /** Drops the leading characters at or below ' ' (the first half of String.trim). */
  function TrimStart(s: string): (r: string)
    ensures |r| <= |s| && r == s[|s| - |r|..]
    ensures forall i :: 0 <= i < |s| - |r| ==> s[i] <= ' '
    ensures r != [] ==> r[0] > ' '
  {
    if s != [] && s[0] <= ' ' then TrimStart(s[1..]) else s
  }

  /** Drops the trailing characters at or below ' ' (the second half of String.trim). */
  function TrimEnd(s: string): (r: string)
    ensures |r| <= |s| && r == s[..|r|]
    ensures forall i :: |r| <= i < |s| ==> s[i] <= ' '
    ensures r != [] ==> r[|r| - 1] > ' '
  {
    if s != [] && s[|s| - 1] <= ' ' then
      var r := TrimEnd(s[..|s| - 1]);
      assert s[..|s| - 1][..|r|] == s[..|r|];
      r
    else s
  }

  /** String.trim. */
  function Trim(s: string): (t: string)
    ensures |t| <= |s|
    ensures t != [] ==> t[0] > ' ' && t[|t| - 1] > ' '
  {
    TrimEnd(TrimStart(s))
  }

  /** A field is blank (trims to "") exactly when all its characters are at or below ' '. */
  lemma TrimEmptyIffBlank(s: string)
    ensures Trim(s) == [] <==> Blank(s)
  {
  }

  /** A field that String.trim empties: every character is at or below ' ' (see TrimEmptyIffBlank). */
  predicate Blank(s: string)
  {
    forall i :: 0 <= i < |s| ==> s[i] <= ' '
  }

  /** A row the loop skips: no fields, or a first field that trims to "". */
  predicate BlankRow(values: seq<string>)
  {
    |values| == 0 || Blank(values[0])
  }

  /** The loop's blank test on a row is BlankRow. */
  lemma BlankTest(values: seq<string>)
    ensures (|values| == 0 || Trim(values[0]) == []) <==> BlankRow(values)
  {
    if |values| > 0 {
      TrimEmptyIffBlank(values[0]);
    }
  }

  /** A row that reaches record construction, with its file and its line (0 is the header). */
  datatype Row = Row(file: nat, line: nat, fields: seq<string>)

  /** The rows of file f that become records: every line but the first, minus blank ones, in order. */
  function FileRows(f: nat, lines: seq<seq<string>>): (rows: seq<Row>)
  {
    if lines == [] then []
    else
      var j := |lines| - 1;
      var rows := FileRows(f, lines[..j]);
      if j == 0 || BlankRow(lines[j]) then rows else rows + [Row(f, j, lines[j])]
  }

  /** The rows of a file keep the file's line order, each line at most once. */
  lemma {:induction false} FileRowsOrdered(f: nat, lines: seq<seq<string>>)
    ensures forall a, b :: 0 <= a < b < |FileRows(f, lines)| ==> FileRows(f, lines)[a].line < FileRows(f, lines)[b].line
  {
    if lines != [] {
      var j := |lines| - 1;
      var rows := FileRows(f, lines[..j]);
      FileRowsOrdered(f, lines[..j]);
      forall a | 0 <= a < |rows| ensures rows[a].line < j {
        FileRowsMembers(f, lines[..j], rows[a]);
      }
    }
  }

  /**
   * A row of file f reaches record construction exactly when it is not the
   * header, it is not blank, and it carries that line's fields.
   */
  lemma {:induction false} FileRowsMembers(f: nat, lines: seq<seq<string>>, r: Row)
    ensures r in FileRows(f, lines) <==>
              r.file == f && 1 <= r.line < |lines| && lines[r.line] == r.fields && !BlankRow(r.fields)
  {
    if lines != [] {
      var j := |lines| - 1;
      var init := lines[..j];
      FileRowsMembers(f, init, r);
      var rows := FileRows(f, init);
      if j == 0 || BlankRow(lines[j]) {
        assert FileRows(f, lines) == rows;
      } else {
        assert FileRows(f, lines) == rows + [Row(f, j, lines[j])];
      }
      if r.line < j {
        assert init[r.line] == lines[r.line];
      }
    }
  }

  /** The header line is never read: whatever it holds, the file yields the same rows. */
  lemma {:induction false} HeaderIgnored(f: nat, lines: seq<seq<string>>, header: seq<string>)
    requires |lines| > 0
    ensures FileRows(f, lines[0 := header]) == FileRows(f, lines)
  {
    var j := |lines| - 1;
    if j > 0 {
      assert lines[0 := header][..j] == lines[..j][0 := header];
      HeaderIgnored(f, lines[..j], header);
    }
  }

  /** The rows of all files, file after file. */
  function DataRows(files: seq<seq<seq<string>>>): (rows: seq<Row>)
  {
    if files == [] then []
    else
      var i := |files| - 1;
      DataRows(files[..i]) + FileRows(i, files[i])
  }

  /** The data rows of all files are those of each file, nothing more. */
  lemma {:induction false} DataRowsMembers(files: seq<seq<seq<string>>>, r: Row)
    ensures r in DataRows(files) <==> r.file < |files| && r in FileRows(r.file, files[r.file])
  {
    if files != [] {
      var i := |files| - 1;
      DataRowsMembers(files[..i], r);
      FileRowsMembers(i, files[i], r);
    }
  }

  // ---------------------------------------------------------------------
  // Building the records
  // ---------------------------------------------------------------------

  /** The exception that aborts readCryptoData, with the row that raised it. */
  datatype LoadError =
    | BadTimestamp(file: nat, line: nat)  // NumberFormatException from Long.parseLong(values[0])
    | MissingField(file: nat, line: nat)  // ArrayIndexOutOfBoundsException on values[1] or values[2]
    | BadPrice(file: nat, line: nat)      // NumberFormatException from new BigDecimal(values[2])

  /**
   * The record a row yields: timestamp from field 0, symbol field 1, price
   * field 2, or the first exception in the order the Java statements run.
   */
  function BuildRecord(row: Row, parseLong: string -> Option<int>, parseDecimal: string -> Option<real>)
    : (r: Result<Crypto, LoadError>)
    ensures r.Success? <==>
              |row.fields| >= 3 && parseLong(row.fields[0]).Some? && parseDecimal(row.fields[2]).Some?
    ensures r.Success? ==>
              r.value == Crypto(row.fields[1], parseLong(row.fields[0]).value, Some(parseDecimal(row.fields[2]).value))
    ensures r.Failure? ==> r.error.file == row.file && r.error.line == row.line
    ensures r.Failure? && |row.fields| > 0 && parseLong(row.fields[0]).None? ==> r.error.BadTimestamp?
    ensures r.Failure? && r.error.BadPrice? ==> |row.fields| >= 3 && parseDecimal(row.fields[2]).None?
  {
    var fields := row.fields;
    if |fields| == 0 then Failure(MissingField(row.file, row.line))
    else
    match parseLong(fields[0])
    case None => Failure(BadTimestamp(row.file, row.line))
    case Some(timestamp) =>
      if |fields| < 3 then Failure(MissingField(row.file, row.line))
      else
        match parseDecimal(fields[2])
        case None => Failure(BadPrice(row.file, row.line))
        case Some(price) => Success(Crypto(fields[1], timestamp, Some(price)))
  }

  /**
   * The records of all rows in order, or the error of the first row that
   * fails: one record per row, nothing after a failure.
   */
  function BuildAll(rows: seq<Row>, parseLong: string -> Option<int>, parseDecimal: string -> Option<real>)
    : (r: Result<seq<Crypto>, LoadError>)
  {
    if rows == [] then Success([])
    else
      var n := |rows| - 1;
      match BuildAll(rows[..n], parseLong, parseDecimal)
      case Failure(e) => Failure(e)
      case Success(cs) =>
        match BuildRecord(rows[n], parseLong, parseDecimal)
        case Failure(e) => Failure(e)
        case Success(c) => Success(cs + [c])
  }

  /** A successful build yields exactly one record per row, each the one its row builds. */
  lemma {:induction false} BuildAllEach(rows: seq<Row>, parseLong: string -> Option<int>, parseDecimal: string -> Option<real>)
    ensures var r := BuildAll(rows, parseLong, parseDecimal);
            r.Success? ==>
              |r.value| == |rows|
              && forall i :: 0 <= i < |rows| ==> BuildRecord(rows[i], parseLong, parseDecimal) == Success(r.value[i])
  {
    if rows != [] {
      var n := |rows| - 1;
      BuildAllEach(rows[..n], parseLong, parseDecimal);
    }
  }

  /** a is an initial segment of b. */
  predicate IsPrefix<T(==)>(a: seq<T>, b: seq<T>)
  {
    |a| <= |b| && b[..|a|] == a
  }

  /** Once a row fails, the rows after it change nothing: the first failure is the outcome. */
  lemma {:induction false} FailureIsFinal(a: seq<Row>, b: seq<Row>,
                                         parseLong: string -> Option<int>, parseDecimal: string -> Option<real>)
    requires IsPrefix(a, b)
    requires BuildAll(a, parseLong, parseDecimal).Failure?
    ensures BuildAll(b, parseLong, parseDecimal) == BuildAll(a, parseLong, parseDecimal)
    decreases |b|
  {
    if |b| > |a| {
      var n := |b| - 1;
      assert b[..n][..|a|] == a;
      FailureIsFinal(a, b[..n], parseLong, parseDecimal);
    } else {
      assert a == b;
    }
  }

  /** BuildAll fails exactly at the first row whose record cannot be built. */
  lemma {:induction false} FirstFailingRow(rows: seq<Row>,
                                           parseLong: string -> Option<int>, parseDecimal: string -> Option<real>)
    requires BuildAll(rows, parseLong, parseDecimal).Failure?
    ensures exists i :: 0 <= i < |rows| && BuildRecord(rows[i], parseLong, parseDecimal) == Failure(BuildAll(rows, parseLong, parseDecimal).error)
              && forall j :: 0 <= j < i ==> BuildRecord(rows[j], parseLong, parseDecimal).Success?
  {
    var n := |rows| - 1;
    var init := rows[..n];
    assert forall j :: 0 <= j < n ==> init[j] == rows[j];
    var e := BuildAll(rows, parseLong, parseDecimal).error;
    if BuildAll(init, parseLong, parseDecimal).Failure? {
      assert BuildAll(init, parseLong, parseDecimal).error == e;
      FirstFailingRow(init, parseLong, parseDecimal);
      var i :| 0 <= i < n && BuildRecord(init[i], parseLong, parseDecimal) == Failure(e)
               && forall j :: 0 <= j < i ==> BuildRecord(init[j], parseLong, parseDecimal).Success?;
      assert BuildRecord(rows[i], parseLong, parseDecimal) == Failure(e);
      assert forall j :: 0 <= j < i ==> BuildRecord(rows[j], parseLong, parseDecimal).Success?;
    } else {
      BuildAllEach(init, parseLong, parseDecimal);
      assert BuildRecord(rows[n], parseLong, parseDecimal) == Failure(e);
      assert forall j :: 0 <= j < n ==> BuildRecord(rows[j], parseLong, parseDecimal).Success?;
    }
  }

  lemma {:induction false} FileRowsPrefix(f: nat, lines: seq<seq<string>>, j: nat)
    requires j <= |lines|
    ensures IsPrefix(FileRows(f, lines[..j]), FileRows(f, lines))
    decreases |lines| - j
  {
    if j < |lines| {
      var n := |lines| - 1;
      assert lines[..n][..j] == lines[..j];
      FileRowsPrefix(f, lines[..n], j);
    } else {
      assert lines[..j] == lines;
    }
  }

  lemma {:induction false} DataRowsPrefix(files: seq<seq<seq<string>>>, i: nat)
    requires i <= |files|
    ensures IsPrefix(DataRows(files[..i]), DataRows(files))
    decreases |files| - i
  {
    if i < |files| {
      var n := |files| - 1;
      assert files[..n][..i] == files[..i];
      DataRowsPrefix(files[..n], i);
    } else {
      assert files[..i] == files;
    }
  }

  /** The rows the reading loop has passed when it stands at line j of file i. */
  function ReadSoFar(files: seq<seq<seq<string>>>, i: nat, j: nat): (rows: seq<Row>)
    requires i < |files| && j <= |files[i]|
  {
    DataRows(files[..i]) + FileRows(i, files[i][..j])
  }

  /** The rows read so far begin the full row list. */
  lemma ReadSoFarIsPrefix(files: seq<seq<seq<string>>>, i: nat, j: nat)
    requires i < |files| && j <= |files[i]|
    ensures IsPrefix(ReadSoFar(files, i, j), DataRows(files))
  {
    var a, b, c := DataRows(files[..i]), FileRows(i, files[i][..j]), FileRows(i, files[i]);
    FileRowsPrefix(i, files[i], j);
    DataRowsPrefix(files, i + 1);
    assert files[..i + 1][..i] == files[..i];
    assert DataRows(files[..i + 1]) == a + c;
    assert (a + c)[..|a + b|] == a + b;
  }

  /** Reading the header or a blank line adds no row. */
  lemma SkippedLine(files: seq<seq<seq<string>>>, i: nat, j: nat)
    requires i < |files| && j < |files[i]|
    requires j == 0 || BlankRow(files[i][j])
    ensures ReadSoFar(files, i, j + 1) == ReadSoFar(files, i, j)
  {
    assert files[i][..j + 1][..j] == files[i][..j];
  }

  /** Reading a data line adds its row. */
  lemma DataLineRow(files: seq<seq<seq<string>>>, i: nat, j: nat)
    requires i < |files| && 1 <= j < |files[i]| && !BlankRow(files[i][j])
    ensures ReadSoFar(files, i, j + 1) == ReadSoFar(files, i, j) + [Row(i, j, files[i][j])]
  {
    assert files[i][..j + 1][..j] == files[i][..j];
  }

  /** One more row: its record is appended, or its failure is the outcome. */
  lemma BuildOneMore(rows: seq<Row>, row: Row, cryptos: seq<Crypto>,
                     parseLong: string -> Option<int>, parseDecimal: string -> Option<real>)
    requires BuildAll(rows, parseLong, parseDecimal) == Success(cryptos)
    ensures var b := BuildRecord(row, parseLong, parseDecimal);
            BuildAll(rows + [row], parseLong, parseDecimal) ==
              if b.Success? then Success(cryptos + [b.value]) else Failure(b.error)
  {
    assert (rows + [row])[..|rows|] == rows;
  }

  /** Reading a data line adds its row; a failing row is the outcome of the whole read. */
  lemma DataLine(files: seq<seq<seq<string>>>, i: nat, j: nat, cryptos: seq<Crypto>,
                 parseLong: string -> Option<int>, parseDecimal: string -> Option<real>)
    requires i < |files| && 1 <= j < |files[i]| && !BlankRow(files[i][j])
    requires BuildAll(ReadSoFar(files, i, j), parseLong, parseDecimal) == Success(cryptos)
    ensures var b := BuildRecord(Row(i, j, files[i][j]), parseLong, parseDecimal);
            (b.Success? ==> BuildAll(ReadSoFar(files, i, j + 1), parseLong, parseDecimal) == Success(cryptos + [b.value]))
            && (b.Failure? ==> BuildAll(DataRows(files), parseLong, parseDecimal) == Failure(b.error))
  {
    var row := Row(i, j, files[i][j]);
    DataLineRow(files, i, j);
    BuildOneMore(ReadSoFar(files, i, j), row, cryptos, parseLong, parseDecimal);
    if BuildRecord(row, parseLong, parseDecimal).Failure? {
      ReadSoFarIsPrefix(files, i, j + 1);
      FailureIsFinal(ReadSoFar(files, i, j + 1), DataRows(files), parseLong, parseDecimal);
    }
  }

  /** Finishing file i is having read the first i + 1 files. */
  lemma FileDone(files: seq<seq<seq<string>>>, i: nat)
    requires i < |files|
    ensures ReadSoFar(files, i, |files[i]|) == DataRows(files[..i + 1])
  {
    assert files[i][..|files[i]|] == files[i];
    assert files[..i + 1][..i] == files[..i];
  }

  // ---------------------------------------------------------------------
  // The upsert
  // ---------------------------------------------------------------------

  /** Some row has key k. */
  ghost predicate HasKey(rows: seq<Crypto>, k: Key)
  {
    exists i :: 0 <= i < |rows| && KeyOf(rows[i]) == k
  }

  /** Row i is the first row with key k. */
  ghost predicate FirstMatch(rows: seq<Crypto>, k: Key, i: int)
  {
    0 <= i < |rows| && KeyOf(rows[i]) == k && forall j :: 0 <= j < i ==> KeyOf(rows[j]) != k
  }

  /** No two rows share a key. */
  ghost predicate UniqueKeys(rows: seq<Crypto>)
  {
    forall i, j :: 0 <= i < j < |rows| ==> KeyOf(rows[i]) != KeyOf(rows[j])
  }

  /** `get(0)` of findBySymbolAndTimestamp is the first row with the key; the list is empty when none has it. */
  lemma FirstId(rows: seq<Crypto>, k: Key)
    ensures var ids := FindBySymbolAndTimestamp(rows, k.0, k.1);
            (ids != [] <==> HasKey(rows, k)) && (ids != [] ==> FirstMatch(rows, k, ids[0]))
  {
    var ids := FindBySymbolAndTimestamp(rows, k.0, k.1);
    if HasKey(rows, k) {
      var i :| 0 <= i < |rows| && KeyOf(rows[i]) == k;
      assert i in ids;
    }
    if ids != [] {
      assert ids[0] in ids;
      assert forall m :: 0 <= m < |ids| ==> ids[0] <= ids[m];
      assert forall j: nat :: j in ids ==> ids[0] <= j;
    }
  }

  /**
   * One iteration of saveOrUpdateCryptoData: the first row with c's key gets
   * c's price, or c is appended when no row has its key.
   */
  function Upsert(rows: seq<Crypto>, c: Crypto): (r: seq<Crypto>)
    ensures |r| == if HasKey(rows, KeyOf(c)) then |rows| else |rows| + 1
    ensures forall i :: 0 <= i < |rows| ==>
              r[i] == if FirstMatch(rows, KeyOf(c), i) then rows[i].(price := c.price) else rows[i]
    ensures !HasKey(rows, KeyOf(c)) ==> r == rows + [c]
  {
    var ids := FindBySymbolAndTimestamp(rows, c.symbol, c.timestamp);
    FirstId(rows, KeyOf(c));
    if ids != [] then
      assert forall i :: 0 <= i < |rows| ==> (FirstMatch(rows, KeyOf(c), i) <==> i == ids[0]);
      rows[ids[0] := rows[ids[0]].(price := c.price)]
    else rows + [c]
  }

  /** saveOrUpdateCryptoData over a whole list: the records are written one after another. */
  function UpsertAll(rows: seq<Crypto>, cryptos: seq<Crypto>): (r: seq<Crypto>)
    ensures |r| >= |rows|
    ensures forall i :: 0 <= i < |rows| ==> KeyOf(r[i]) == KeyOf(rows[i])
  {
    if cryptos == [] then rows
    else Upsert(UpsertAll(rows, cryptos[..|cryptos| - 1]), cryptos[|cryptos| - 1])
  }

  /** The price stored under key k: that of the first row with the key, None when there is none. */
  function Lookup(rows: seq<Crypto>, k: Key): (r: Option<Option<real>>)
  {
    if rows == [] then None
    else if KeyOf(rows[0]) == k then Some(rows[0].price)
    else Lookup(rows[1..], k)
  }

  /** The price of the last record in the list with key k, None when none has it. */
  function LastPrice(cryptos: seq<Crypto>, k: Key): (r: Option<Option<real>>)
    ensures r.None? <==> forall c :: c in cryptos ==> KeyOf(c) != k
  {
    if cryptos == [] then None
    else if KeyOf(cryptos[|cryptos| - 1]) == k then Some(cryptos[|cryptos| - 1].price)
    else
      var init := cryptos[..|cryptos| - 1];
      assert forall c :: c in cryptos ==> c in init || c == cryptos[|cryptos| - 1];
      LastPrice(init, k)
  }

  /** Lookup reads the first row with the key. */
  lemma {:induction false} LookupFirst(rows: seq<Crypto>, k: Key)
    ensures !HasKey(rows, k) ==> Lookup(rows, k) == None
    ensures forall i :: FirstMatch(rows, k, i) ==> Lookup(rows, k) == Some(rows[i].price)
  {
    if rows != [] {
      LookupFirst(rows[1..], k);
      forall i | FirstMatch(rows, k, i) && i > 0 ensures FirstMatch(rows[1..], k, i - 1) {
      }
      if HasKey(rows[1..], k) {
        var i :| 0 <= i < |rows| - 1 && KeyOf(rows[1..][i]) == k;
        assert KeyOf(rows[i + 1]) == k;
      }
    }
  }

  /** After writing c, c's key holds c's price and every other key reads as before. */
  lemma UpsertLookup(rows: seq<Crypto>, c: Crypto, k: Key)
    ensures Lookup(Upsert(rows, c), k) == if k == KeyOf(c) then Some(c.price) else Lookup(rows, k)
  {
    var r := Upsert(rows, c);
    LookupFirst(rows, k);
    LookupFirst(r, k);
    if HasKey(rows, k) {
      var i :| 0 <= i < |rows| && KeyOf(rows[i]) == k;
      var f := FirstOf(rows, k, i);
      assert FirstMatch(r, k, f);
    } else if k == KeyOf(c) {
      assert FirstMatch(r, k, |rows|);
    } else {
      assert !HasKey(r, k);
    }
  }

  /** A row with key k has a first such row at or before it. */
  lemma {:induction false} FirstOf(rows: seq<Crypto>, k: Key, i: nat) returns (f: nat)
    requires i < |rows| && KeyOf(rows[i]) == k
    ensures f <= i && FirstMatch(rows, k, f)
  {
    if forall j :: 0 <= j < i ==> KeyOf(rows[j]) != k {
      f := i;
    } else {
      var j :| 0 <= j < i && KeyOf(rows[j]) == k;
      f := FirstOf(rows, k, j);
    }
  }

  /**
   * After the whole list is written, a key the list carries holds the price
   * of its last record with that key; any other key reads as before.
   */
  lemma {:induction false} UpsertAllLookup(rows: seq<Crypto>, cryptos: seq<Crypto>, k: Key)
    ensures Lookup(UpsertAll(rows, cryptos), k) ==
              if LastPrice(cryptos, k).Some? then LastPrice(cryptos, k) else Lookup(rows, k)
  {
    if cryptos != [] {
      var n := |cryptos| - 1;
      UpsertAllLookup(rows, cryptos[..n], k);
      UpsertLookup(UpsertAll(rows, cryptos[..n]), cryptos[n], k);
    }
  }

  /** A stored row whose key no written record carries is left exactly as it was. */
  lemma {:induction false} UpsertAllUntouched(rows: seq<Crypto>, cryptos: seq<Crypto>, i: nat)
    requires i < |rows|
    requires forall c :: c in cryptos ==> KeyOf(c) != KeyOf(rows[i])
    ensures UpsertAll(rows, cryptos)[i] == rows[i]
  {
    if cryptos != [] {
      var n := |cryptos| - 1;
      assert forall c :: c in cryptos[..n] ==> c in cryptos;
      assert cryptos[n] in cryptos;
      UpsertAllUntouched(rows, cryptos[..n], i);
    }
  }

  /** Writing records never gives two rows the same key. */
  lemma UpsertKeepsKeysUnique(rows: seq<Crypto>, c: Crypto)
    requires UniqueKeys(rows)
    ensures UniqueKeys(Upsert(rows, c))
  {
    var r := Upsert(rows, c);
    forall i, j | 0 <= i < j < |r| ensures KeyOf(r[i]) != KeyOf(r[j]) {
      if j < |rows| {
        assert KeyOf(r[i]) == KeyOf(rows[i]) && KeyOf(r[j]) == KeyOf(rows[j]);
      } else {
        assert r[j] == c && KeyOf(r[i]) == KeyOf(rows[i]);
      }
    }
  }

  lemma {:induction false} UpsertAllKeepsKeysUnique(rows: seq<Crypto>, cryptos: seq<Crypto>)
    requires UniqueKeys(rows)
    ensures UniqueKeys(UpsertAll(rows, cryptos))
  {
    if cryptos != [] {
      var n := |cryptos| - 1;
      UpsertAllKeepsKeysUnique(rows, cryptos[..n]);
      UpsertKeepsKeysUnique(UpsertAll(rows, cryptos[..n]), cryptos[n]);
    }
  }

  /** Row i after a list is written whose keys are all already stored. */
  ghost function Rewritten(rows: seq<Crypto>, cryptos: seq<Crypto>, i: nat): Crypto
    requires i < |rows|
  {
    var k := KeyOf(rows[i]);
    if FirstMatch(rows, k, i) && LastPrice(cryptos, k).Some? then rows[i].(price := LastPrice(cryptos, k).value)
    else rows[i]
  }

  /** Keys are compared position by position, so equal keys give equal first matches. */
  lemma SameKeysSameMatches(rows: seq<Crypto>, w: seq<Crypto>, k: Key)
    requires |w| == |rows| && forall j :: 0 <= j < |rows| ==> KeyOf(w[j]) == KeyOf(rows[j])
    ensures HasKey(w, k) <==> HasKey(rows, k)
    ensures forall i :: FirstMatch(w, k, i) <==> FirstMatch(rows, k, i)
  {
  }

  lemma RewriteStep(rows: seq<Crypto>, init: seq<Crypto>, c: Crypto, w: seq<Crypto>, i: nat)
    requires |w| == |rows| && forall j :: 0 <= j < |rows| ==> w[j] == Rewritten(rows, init, j)
    requires HasKey(rows, KeyOf(c)) && i < |rows|
    ensures |Upsert(w, c)| == |rows|
    ensures Upsert(w, c)[i] == Rewritten(rows, init + [c], i)
  {
    assert forall j :: 0 <= j < |rows| ==> KeyOf(w[j]) == KeyOf(rows[j]);
    SameKeysSameMatches(rows, w, KeyOf(c));
    var cs := init + [c];
    assert cs[..|cs| - 1] == init;
    var k := KeyOf(rows[i]);
    assert LastPrice(cs, k) == if k == KeyOf(c) then Some(c.price) else LastPrice(init, k);
    assert Upsert(w, c)[i] == if FirstMatch(rows, KeyOf(c), i) then w[i].(price := c.price) else w[i];
  }

  /**
   * Writing a list whose keys the store already has only sets prices: the
   * first row of each such key takes the key's last price in the list.
   */
  lemma {:induction false} RewriteExisting(rows: seq<Crypto>, cryptos: seq<Crypto>)
    requires forall c :: c in cryptos ==> HasKey(rows, KeyOf(c))
    ensures |UpsertAll(rows, cryptos)| == |rows|
    ensures forall i :: 0 <= i < |rows| ==> UpsertAll(rows, cryptos)[i] == Rewritten(rows, cryptos, i)
  {
    if cryptos == [] {
      forall i | 0 <= i < |rows| ensures rows[i] == Rewritten(rows, cryptos, i) {
      }
    } else {
      var n := |cryptos| - 1;
      var init, c := cryptos[..n], cryptos[n];
      assert forall x :: x in init ==> x in cryptos;
      assert c in cryptos;
      assert cryptos == init + [c];
      RewriteExisting(rows, init);
      var w := UpsertAll(rows, init);
      forall i | 0 <= i < |rows| ensures Upsert(w, c)[i] == Rewritten(rows, cryptos, i) {
        RewriteStep(rows, init, c, w, i);
      }
      RewriteStep(rows, init, c, w, 0);
    }
  }

  /** Loading the same list twice leaves the store as loading it once. */
  lemma UpsertAllIdempotent(rows: seq<Crypto>, cryptos: seq<Crypto>)
    ensures UpsertAll(UpsertAll(rows, cryptos), cryptos) == UpsertAll(rows, cryptos)
  {
    var u := UpsertAll(rows, cryptos);
    forall c | c in cryptos ensures HasKey(u, KeyOf(c)) {
      UpsertAllLookup(rows, cryptos, KeyOf(c));
      LookupFirst(u, KeyOf(c));
    }
    RewriteExisting(u, cryptos);
    forall i | 0 <= i < |u| ensures Rewritten(u, cryptos, i) == u[i] {
      UpsertAllLookup(rows, cryptos, KeyOf(u[i]));
      LookupFirst(u, KeyOf(u[i]));
    }
  }

  // ---------------------------------------------------------------------
  // The component
  // ---------------------------------------------------------------------

  class FileReaderToDatabase {
    const cryptoRepository: CryptoRepository

    constructor (repository: CryptoRepository)
      ensures cryptoRepository == repository
    {
      cryptoRepository := repository;
    }

    /**
     * The loop of readCryptoData: every file's rows in order, the header
     * skipped through the isFirstLine flag, blank rows skipped, every other
     * row turned into a record; the first failing row aborts the read.
     */
    method BuildRecords(files: seq<seq<seq<string>>>,
                        parseLong: string -> Option<int>, parseDecimal: string -> Option<real>)
      returns (r: Result<seq<Crypto>, LoadError>)
      ensures r == BuildAll(DataRows(files), parseLong, parseDecimal)
    {
      var cryptos: seq<Crypto> := [];
      for i := 0 to |files|
        invariant BuildAll(DataRows(files[..i]), parseLong, parseDecimal) == Success(cryptos)
      {
        var lines := files[i];
        var isFirstLine := true;
        assert files[i][..0] == [];
        assert ReadSoFar(files, i, 0) == DataRows(files[..i]);
        for j := 0 to |lines|
          invariant isFirstLine <==> j == 0
          invariant BuildAll(ReadSoFar(files, i, j), parseLong, parseDecimal) == Success(cryptos)
        {
          var values := lines[j];
          if isFirstLine {
            isFirstLine := false;
            SkippedLine(files, i, j);
          } else if |values| == 0 || Trim(values[0]) == [] {
            BlankTest(values);
            SkippedLine(files, i, j);
          } else {
            BlankTest(values);
            DataLine(files, i, j, cryptos, parseLong, parseDecimal);
            var record := BuildRow(values, i, j, parseLong, parseDecimal);
            if record.Failure? {
              return Failure(record.error);
            }
            cryptos := cryptos + [record.value];
          }
        }
        FileDone(files, i);
      }
      assert files[..|files|] == files;
      r := Success(cryptos);
    }

    /**
     * The body of the inner loop for a data row: Long.parseLong of field 0,
     * then fields 1 and 2, then new BigDecimal of field 2, each failure
     * raised as the exception of the statement that throws it.
     */
    method BuildRow(values: seq<string>, file: nat, line: nat,
                    parseLong: string -> Option<int>, parseDecimal: string -> Option<real>)
      returns (r: Result<Crypto, LoadError>)
      ensures r == BuildRecord(Row(file, line, values), parseLong, parseDecimal)
    {
      if |values| == 0 {
        return Failure(MissingField(file, line));
      }
      var timestamp := parseLong(values[0]);
      if timestamp.None? {
        return Failure(BadTimestamp(file, line));
      }
      if |values| < 2 {
        return Failure(MissingField(file, line));
      }
      var symbol := values[1];
      if |values| < 3 {
        return Failure(MissingField(file, line));
      }
      var price := parseDecimal(values[2]);
      if price.None? {
        return Failure(BadPrice(file, line));
      }
      r := Success(Crypto(symbol, timestamp.value, Some(price.value)));
    }

    /**
     * saveOrUpdateCryptoData: for each record in order, the first stored
     * row with its (symbol, timestamp) takes its price, or it is saved as
     * a new row.
     */
    method SaveOrUpdateCryptoData(cryptos: seq<Crypto>)
      modifies cryptoRepository
      ensures cryptoRepository.rows == UpsertAll(old(cryptoRepository.rows), cryptos)
    {
      for k := 0 to |cryptos|
        invariant cryptoRepository.rows == UpsertAll(old(cryptoRepository.rows), cryptos[..k])
      {
        var crypto := cryptos[k];
        var existingCrypto := FindBySymbolAndTimestamp(cryptoRepository.rows, crypto.symbol, crypto.timestamp);
        assert cryptos[..k + 1][..k] == cryptos[..k];
        if existingCrypto != [] {
          assert existingCrypto[0] in existingCrypto;
          cryptoRepository.UpdatePrice(existingCrypto[0], crypto.price);
        } else {
          cryptoRepository.Save(crypto);
        }
      }
      assert cryptos[..|cryptos|] == cryptos;
    }

    /**
     * readCryptoData: build the records of all files, then write them; the
     * records are returned. A row that throws aborts before anything is written.
     */
    method ReadCryptoData(files: seq<seq<seq<string>>>,
                          parseLong: string -> Option<int>, parseDecimal: string -> Option<real>)
      returns (r: Result<seq<Crypto>, LoadError>)
      modifies cryptoRepository
      ensures r == BuildAll(DataRows(files), parseLong, parseDecimal)
      ensures r.Success? ==> cryptoRepository.rows == UpsertAll(old(cryptoRepository.rows), r.value)
      ensures r.Failure? ==> cryptoRepository.rows == old(cryptoRepository.rows)
    {
      r := BuildRecords(files, parseLong, parseDecimal);
      if r.Success? {
        SaveOrUpdateCryptoData(r.value);
      }
    }
  }
}

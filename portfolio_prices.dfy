/** update_portfolio.py, first half: read_watchlist picks the latest price of
    every asset from the watchlist, and update_portfolio copies those prices
    into the last_price column of the portfolio. */
module PortfolioPrices {
  import opened Text
  import opened Sheets
  import opened Dates

  // ---------------------------------------------------------------------------
  // read_watchlist

  /** The row has a cell under column c and that cell is not blank. */
  predicate Usable(row: Row, c: DateColumn)
  {
    c.index < |row| && !IsBlank(row[c.index])
  }

  /** The position, from k on, of the first column in cols under which row
      holds a usable cell. */
  function UsableFrom(row: Row, cols: seq<DateColumn>, k: nat): (r: Option<nat>)
    ensures r.Some? ==> k <= r.value < |cols| && Usable(row, cols[r.value])
    ensures r.Some? ==> forall j :: k <= j < r.value ==> !Usable(row, cols[j])
    ensures r.None? ==> forall j :: k <= j < |cols| ==> !Usable(row, cols[j])
    decreases |cols| - k
  {
    if k >= |cols| then None
    else if Usable(row, cols[k]) then Some(k)
    else UsableFrom(row, cols, k + 1)
  }

  /** The first column of cols (newest first) where row has a price. */
  function LatestColumn(row: Row, cols: seq<DateColumn>): Option<DateColumn>
  {
    match UsableFrom(row, cols, 0)
    case None => None
    case Some(k) => Some(cols[k])
  }

  /** The price read_watchlist takes from row. */
  function LatestCell(row: Row, cols: seq<DateColumn>): Option<string>
  {
    match UsableFrom(row, cols, 0)
    case None => None
    case Some(k) => Some(row[cols[k].index])
  }

  /** A data row that contributes an entry: more than three cells and a price
      under some date column. */
  predicate Priced(row: Row, cols: seq<DateColumn>)
  {
    |row| > 3 && UsableFrom(row, cols, 0).Some?
  }

  /** The dictionary after the data rows 1 .. n-1 have been read. */
  function PricesBelow(rows: Table, cols: seq<DateColumn>, n: nat): map<string, string>
    requires 1 <= n <= |rows|
  {
    if n == 1 then map[]
    else
      var m := PricesBelow(rows, cols, n - 1);
      var row := rows[n - 1];
      if Priced(row, cols) then m[row[1] := LatestCell(row, cols).value] else m
  }

  /** read_watchlist minus the file read: no rows or no dated column gives an
      empty dictionary. */
  function LatestPrices(rows: Table): map<string, string>
  {
    if rows == [] then map[]
    else
      var cols := SortNewestFirst(DateColumns(rows[0]));
      if cols == [] then map[] else PricesBelow(rows, cols, |rows|)
  }

  /** The inner loop with its break: the first usable column, newest first. */
  method FindLatest(row: Row, cols: seq<DateColumn>) returns (cell: Option<string>)
    ensures cell == LatestCell(row, cols)
  {
    var k := 0;
    while k < |cols|
      invariant k <= |cols|
      invariant UsableFrom(row, cols, k) == UsableFrom(row, cols, 0)
    {
      var c := cols[k];
      if c.index < |row| && Strip(row[c.index]) != "" {
        return Some(row[c.index]);
      }
      k := k + 1;
    }
    return None;
  }

  method ReadWatchlist(rows: Table) returns (prices: map<string, string>)
    ensures prices == LatestPrices(rows)
  {
    if rows == [] {
      return map[];
    }
    var found := CollectDateColumns(rows[0]);
    var cols := SortNewestFirst(found);
    if cols == [] {
      return map[];
    }
    prices := ReadPrices(rows, cols);
  }

  /** The loop over the data rows. */
  method ReadPrices(rows: Table, cols: seq<DateColumn>) returns (prices: map<string, string>)
    requires rows != []
    ensures prices == PricesBelow(rows, cols, |rows|)
  {
    prices := map[];
    var i := 1;
    while i < |rows|
      invariant 1 <= i <= |rows|
      invariant prices == PricesBelow(rows, cols, i)
    {
      var row := rows[i];
      if |row| > 3 {
        var cell := FindLatest(row, cols);
        if cell.Some? {
          prices := prices[row[1] := cell.value];
        }
      }
      i := i + 1;
    }
  }

  /** The dated columns are newest first. */
  lemma {:induction false} SortedDateColumns(header: Row)
    ensures NewestFirst(SortNewestFirst(DateColumns(header)))
    ensures multiset(SortNewestFirst(DateColumns(header))) == multiset(DateColumns(header))
  {
    var cs := DateColumns(header);
    DateColumnsSpec(header);
    assert DistinctIndices(cs);
    SortSorted(cs);
  }

  /** A row with a non-blank cell under any dated column gets a price; the
      price is the cell under a dated header column, the newest one under
      which the row has a non-blank cell (the leftmost among equal dates). */
  lemma {:induction false} LatestColumnNewest(header: Row, row: Row, c: DateColumn)
    requires c in DateColumns(header) && Usable(row, c)
    ensures var l := LatestColumn(row, SortNewestFirst(DateColumns(header)));
      l.Some? && l.value in DateColumns(header) && Usable(row, l.value)
      && (l.value == c || Precedes(l.value, c))
      && LatestCell(row, SortNewestFirst(DateColumns(header))) == Some(row[l.value.index])
  {
    var cols := SortNewestFirst(DateColumns(header));
    SortedDateColumns(header);
    assert c in multiset(cols);
    var k :| 0 <= k < |cols| && cols[k] == c;
    var k0 := UsableFrom(row, cols, 0).value;
    assert k0 <= k;
    assert cols[k0] in multiset(DateColumns(header));
  }

  /** An id has an entry exactly when some data row with that id is priced. */
  lemma {:induction false} PricesKeys(rows: Table, cols: seq<DateColumn>, n: nat, id: string)
    requires 1 <= n <= |rows|
    ensures id in PricesBelow(rows, cols, n) <==>
      exists i :: 1 <= i < n && Priced(rows[i], cols) && rows[i][1] == id
  {
    if n > 1 {
      PricesKeys(rows, cols, n - 1, id);
      if id in PricesBelow(rows, cols, n) && id !in PricesBelow(rows, cols, n - 1) {
        assert Priced(rows[n - 1], cols) && rows[n - 1][1] == id;
      }
    }
  }

  /** The entry of an id comes from the last priced row with that id. */
  lemma {:induction false} PricesLastWins(rows: Table, cols: seq<DateColumn>, n: nat, i: nat)
    requires 1 <= i < n <= |rows| && Priced(rows[i], cols)
    requires forall j :: i < j < n && Priced(rows[j], cols) ==> rows[j][1] != rows[i][1]
    ensures rows[i][1] in PricesBelow(rows, cols, n)
    ensures PricesBelow(rows, cols, n)[rows[i][1]] == LatestCell(rows[i], cols).value
  {
    if i < n - 1 {
      PricesLastWins(rows, cols, n - 1, i);
    }
  }

  // ---------------------------------------------------------------------------
  // update_portfolio

  /** A data row whose id has a price: more than one cell and the id in the
      dictionary. */
  predicate HasQuote(row: Row, prices: map<string, string>)
  {
    |row| > 1 && row[1] in prices
  }

  /** The row after `row[k] = latest_prices[row[1]]`. */
  function QuotedRow(row: Row, k: nat, prices: map<string, string>): Row
    requires HasQuote(row, prices) ==> k < |row|
  {
    if HasQuote(row, prices) then row[k := prices[row[1]]] else row
  }

  /** update_portfolio minus the file I/O: nothing happens without rows or
      without a last_price column (the first one counts); a quoted row too
      short for that column raises IndexError. */
  function LastPriceUpdate(rows: Table, prices: map<string, string>): Outcome
  {
    if rows == [] then Skipped
    else match FirstIndex(rows[0], "last_price")
      case None => Skipped
      case Some(k) =>
        if exists i :: 1 <= i < |rows| && HasQuote(rows[i], prices) && |rows[i]| <= k then Raised
        else Written([rows[0]] + seq(|rows| - 1, i requires 0 <= i < |rows| - 1 =>
                                       QuotedRow(rows[i + 1], k, prices)))
  }

  method UpdatePortfolio(rows: Table, prices: map<string, string>) returns (out: Outcome)
    ensures out == LastPriceUpdate(rows, prices)
  {
    if rows == [] {
      return Skipped;
    }
    var found := ScanFirst(rows[0], "last_price");
    if found.None? {
      return Skipped;
    }
    var k := found.value;
    var table := rows;
    var i := 1;
    while i < |rows|
      invariant 1 <= i <= |rows| && |table| == |rows| && table[0] == rows[0]
      invariant forall j :: 1 <= j < i ==> !(HasQuote(rows[j], prices) && |rows[j]| <= k)
      invariant forall j :: 1 <= j < i ==> table[j] == QuotedRow(rows[j], k, prices)
      invariant forall j :: i <= j < |rows| ==> table[j] == rows[j]
    {
      var row := table[i];
      if |row| > 1 && row[1] in prices {
        if k >= |row| {
          return Raised;
        }
        table := table[i := row[k := prices[row[1]]]];
      }
      assert table[i] == QuotedRow(rows[i], k, prices);
      i := i + 1;
    }
    QuotedRows(rows, prices, k, table);
    out := Written(table);
  }

  /** The header and each data row quoted in place make the updated table. */
  lemma {:induction false} QuotedRows(rows: Table, prices: map<string, string>, k: nat, table: Table)
    requires rows != [] && FirstIndex(rows[0], "last_price") == Some(k)
    requires |table| == |rows| && table[0] == rows[0]
    requires forall j :: 1 <= j < |rows| ==> !(HasQuote(rows[j], prices) && |rows[j]| <= k)
    requires forall j :: 1 <= j < |rows| ==> table[j] == QuotedRow(rows[j], k, prices)
    ensures LastPriceUpdate(rows, prices) == Written(table)
  {
    assert table == [rows[0]] + seq(|rows| - 1, j requires 0 <= j < |rows| - 1 =>
                                      QuotedRow(rows[j + 1], k, prices));
  }

  /** Only the last_price cell of the rows whose id has a price changes; the
      header, the row count, every row length and every other cell stay. */
  lemma {:induction false} LastPriceCells(rows: Table, prices: map<string, string>, i: nat, j: nat)
    requires LastPriceUpdate(rows, prices).Written? && i < |rows|
    ensures var out := LastPriceUpdate(rows, prices).rows;
      var k := FirstIndex(rows[0], "last_price").value;
      |out| == |rows| && out[0] == rows[0] && |out[i]| == |rows[i]|
      && (j < |rows[i]| ==>
            out[i][j] == if i >= 1 && j == k && HasQuote(rows[i], prices)
                         then prices[rows[i][1]] else rows[i][j])
  {
    var out := LastPriceUpdate(rows, prices).rows;
    var k := FirstIndex(rows[0], "last_price").value;
    if i >= 1 {
      assert out[i] == QuotedRow(rows[i], k, prices);
    }
  }

  /** Copying the prices a second time changes nothing, unless the
      last_price column is the id column itself. */
  lemma {:induction false} LastPriceIdempotent(rows: Table, prices: map<string, string>)
    requires LastPriceUpdate(rows, prices).Written?
    requires FirstIndex(rows[0], "last_price").value != 1
    ensures LastPriceUpdate(LastPriceUpdate(rows, prices).rows, prices)
            == LastPriceUpdate(rows, prices)
  {
    var out := LastPriceUpdate(rows, prices).rows;
    var k := FirstIndex(rows[0], "last_price").value;
    assert out[0] == rows[0];
    forall i | 1 <= i < |out|
      ensures HasQuote(out[i], prices) == HasQuote(rows[i], prices) && |out[i]| == |rows[i]|
      ensures QuotedRow(out[i], k, prices) == out[i]
    {
      assert out[i] == QuotedRow(rows[i], k, prices);
      if HasQuote(rows[i], prices) {
        assert out[i][1] == rows[i][1];
      }
    }
    var again := LastPriceUpdate(out, prices);
    assert again.Written?;
    assert again.rows == out;
  }
}

/** add_portfolio.py: a new asset is appended to the watchlist (its price
    taken from the newest dated column when another asset has one there) and
    to the portfolio (with fixed starting values). */
module AddAsset {
  import opened Text
  import opened Sheets
  import opened Dates
  import opened CreatePortfolio

  // ---------------------------------------------------------------------------
  // get_latest_date_column

  /** The column of the newest date among the header cells from index 3 on
      that parse as dates; the leftmost one among equal dates. */
  function LatestDateColumn(header: Row): Option<nat>
  {
    var cs := SortNewestFirst(DateColumns(header));
    if cs == [] then None else Some(cs[0].index)
  }

  method GetLatestDateColumn(header: Row) returns (latest: Option<nat>)
    ensures latest == LatestDateColumn(header)
  {
    var found := CollectDateColumns(header);
    var cs := SortNewestFirst(found);
    if cs == [] {
      return None;
    }
    return Some(cs[0].index);
  }

  /** None exactly when no header cell from index 3 on parses as a date;
      otherwise a dated cell from index 3 on, no other dated cell is newer,
      and every other cell with the same date lies to its right. */
  lemma {:induction false} LatestDateColumnSpec(header: Row)
    ensures LatestDateColumn(header).None? <==>
      forall k :: 3 <= k < |header| ==> ParseDate(header[k]).None?
    ensures LatestDateColumn(header).Some? ==>
      var l := LatestDateColumn(header).value;
      3 <= l < |header| && ParseDate(header[l]).Some?
      && forall k :: 3 <= k < |header| && k != l && ParseDate(header[k]).Some? ==>
           Precedes(DateColumn(l, ParseDate(header[l]).value), DateColumn(k, ParseDate(header[k]).value))
  {
    DateColumnsSpec(header);
    var sorted := SortNewestFirst(DateColumns(header));
    if sorted != [] {
      LatestIsNewest(header);
    } else {
      forall k | 3 <= k < |header|
        ensures ParseDate(header[k]).None?
      {
        assert multiset(sorted) == multiset(DateColumns(header));
      }
    }
  }

  lemma {:induction false} LatestIsNewest(header: Row)
    requires SortNewestFirst(DateColumns(header)) != []
    ensures var c := SortNewestFirst(DateColumns(header))[0];
      3 <= c.index < |header| && ParseDate(header[c.index]) == Some(c.date)
      && forall k :: 3 <= k < |header| && k != c.index && ParseDate(header[k]).Some? ==>
           Precedes(c, DateColumn(k, ParseDate(header[k]).value))
  {
    var cs := DateColumns(header);
    DateColumnsSpec(header);
    SortSorted(cs);
    var sorted := SortNewestFirst(cs);
    assert sorted[0] in multiset(cs);
    forall k | 3 <= k < |header| && k != sorted[0].index && ParseDate(header[k]).Some?
      ensures Precedes(sorted[0], DateColumn(k, ParseDate(header[k]).value))
    {
      var e := DateColumn(k, ParseDate(header[k]).value);
      assert e in multiset(sorted);
      NewestFirstHead(sorted, e);
    }
  }

  // ---------------------------------------------------------------------------
  // add_asset_to_watchlist

  /** A data row with a non-empty cell under column col. */
  predicate HasCell(row: Row, col: nat)
  {
    |row| > col && row[col] != ""
  }

  /** The search for a price from data row i on: the cell of the first row
      that has a non-empty cell under col, or "" when none has. */
  function FirstCellFrom(rows: Table, col: nat, i: nat): (cell: string)
    ensures cell != "" ==> exists j :: i <= j < |rows| && HasCell(rows[j], col) && rows[j][col] == cell
                                       && forall m :: i <= m < j ==> !HasCell(rows[m], col)
    ensures cell == "" ==> forall j :: i <= j < |rows| ==> !HasCell(rows[j], col)
    decreases |rows| - i
  {
    if i >= |rows| then ""
    else if HasCell(rows[i], col) then rows[i][col]
    else FirstCellFrom(rows, col, i + 1)
  }

  /** [name, id, type], then one empty cell per header cell from index 3
      on. */
  function BlankAssetRow(name: string, id: string, kind: string, header: Row): (r: Row)
    ensures |r| == 3 + (if |header| >= 3 then |header| - 3 else 0)
  {
    [name, id, kind] + Blanks(if |header| >= 3 then |header| - 3 else 0)
  }

  /** The row add_asset_to_watchlist appends. */
  function NewWatchlistRow(name: string, id: string, kind: string, rows: Table): Row
    requires rows != []
  {
    var row := BlankAssetRow(name, id, kind, rows[0]);
    match LatestDateColumn(rows[0])
    case None => row
    case Some(l) =>
      LatestDateColumnSpec(rows[0]);
      row[l := FirstCellFrom(rows, l, 1)]
  }

  /** add_asset_to_watchlist: an empty watchlist has no header and raises
      IndexError. */
  function WatchlistAdd(name: string, id: string, kind: string, rows: Table): Outcome
  {
    if rows == [] then Raised else Written(rows + [NewWatchlistRow(name, id, kind, rows)])
  }

  method AddAssetToWatchlist(name: string, id: string, kind: string, rows: Table)
    returns (out: Outcome)
    ensures out == WatchlistAdd(name, id, kind, rows)
  {
    if rows == [] {
      return Raised;
    }
    var header := rows[0];
    var latest := GetLatestDateColumn(header);
    var newRow := BlankRowFor(name, id, kind, header);
    if latest.Some? {
      var l := latest.value;
      LatestDateColumnSpec(header);
      var price := FindPrice(rows, l);
      newRow := newRow[l := price];
    }
    return Written(rows + [newRow]);
  }

  /** The new row before its price: name, id, type and one empty cell per
      header cell from index 3 on. */
  method BlankRowFor(name: string, id: string, kind: string, header: Row) returns (newRow: Row)
    ensures newRow == BlankAssetRow(name, id, kind, header)
  {
    newRow := [name, id, kind];
    var i := 3;
    while i < |header|
      invariant 3 <= i && (i == 3 || i <= |header|)
      invariant newRow == [name, id, kind] + Blanks(i - 3)
    {
      newRow := newRow + [""];
      i := i + 1;
    }
  }

  /** The search down column l for the first non-empty price. */
  method FindPrice(rows: Table, l: nat) returns (price: string)
    requires rows != []
    ensures price == FirstCellFrom(rows, l, 1)
  {
    price := "";
    var j := 1;
    while j < |rows|
      invariant 1 <= j <= |rows|
      invariant FirstCellFrom(rows, l, j) == FirstCellFrom(rows, l, 1)
    {
      var row := rows[j];
      if |row| > l && row[l] != "" {
        return row[l];
      }
      j := j + 1;
    }
  }

  /** The watchlist grows by one row and keeps every row it had. The new row
      is as wide as a header of three or more cells, starts with name, id and
      type, and is empty under every header cell from index 3 on except the
      newest dated column, which holds the first non-empty cell of that
      column among the data rows (or "" when there is none). */
  lemma {:induction false} WatchlistAddShape(name: string, id: string, kind: string, rows: Table)
    requires rows != [] && |rows[0]| >= 3
    ensures var out := WatchlistAdd(name, id, kind, rows).rows;
      var r := out[|rows|];
      var l := LatestDateColumn(rows[0]);
      |out| == |rows| + 1 && out[..|rows|] == rows
      && |r| == |rows[0]| && r[..3] == [name, id, kind]
      && (forall k :: 3 <= k < |r| && (l.None? || k != l.value) ==> r[k] == "")
      && (l.Some? ==>
            3 <= l.value < |r|
            && (r[l.value] == "" <==> forall j :: 1 <= j < |rows| ==> !HasCell(rows[j], l.value))
            && (r[l.value] != "" ==> exists j :: 1 <= j < |rows| && HasCell(rows[j], l.value)
                                                && rows[j][l.value] == r[l.value]
                                                && forall m :: 1 <= m < j ==> !HasCell(rows[m], l.value)))
  {
    LatestDateColumnSpec(rows[0]);
    var out := WatchlistAdd(name, id, kind, rows).rows;
    assert out[..|rows|] == rows;
  }

  // ---------------------------------------------------------------------------
  // add_asset_to_portfolio

  /** The starting values of last_price, holdings, holding_price,
      holding_earnings, total_value, percentage, annual_return and risk. */
  const PortfolioDefaults: seq<string> := ["", "0", "", "", "0", "0%", "0%", "0%"]

  function NewPortfolioRow(name: string, id: string, kind: string): Row
  {
    [name, id, kind] + PortfolioDefaults
  }

  /** add_asset_to_portfolio: the row is appended whatever the table holds. */
  function PortfolioAdd(name: string, id: string, kind: string, rows: Table): Table
  {
    rows + [NewPortfolioRow(name, id, kind)]
  }

  method AddAssetToPortfolio(name: string, id: string, kind: string, rows: Table)
    returns (out: Table)
    ensures out == PortfolioAdd(name, id, kind, rows)
  {
    var newRow := [name, id, kind, "", "0", "", "", "0", "0%", "0%", "0%"];
    assert newRow == NewPortfolioRow(name, id, kind);
    out := rows + [newRow];
  }

  /** Under a header create_portfolio_file writes from a watchlist header of
      three or more cells, the new row fits exactly: eleven cells, and under
      each portfolio column its starting value from PortfolioDefaults
      (holdings and total_value "0", percentage, annual_return and risk
      "0%", the three price columns empty); the rows already there stay. */
  lemma {:induction false} PortfolioAddFits(name: string, id: string, kind: string, watchHeader: Row, rows: Table)
    requires |watchHeader| >= 3 && rows != [] && rows[0] == CreatedHeader(watchHeader)
    ensures var out := PortfolioAdd(name, id, kind, rows);
      var r := out[|rows|];
      |out| == |rows| + 1 && out[..|rows|] == rows && |r| == |rows[0]| == 11
      && r[..3] == [name, id, kind]
      && forall j :: 0 <= j < |PortfolioColumns| ==>
           LastIndex(rows[0], PortfolioColumns[j]) == Some(3 + j) && r[3 + j] == PortfolioDefaults[j]
  {
    var out := PortfolioAdd(name, id, kind, rows);
    var r := NewPortfolioRow(name, id, kind);
    assert out[..|rows|] == rows;
    assert out[|rows|] == r;
    assert r[..3] == [name, id, kind];
    forall j | 0 <= j < |PortfolioColumns|
      ensures LastIndex(rows[0], PortfolioColumns[j]) == Some(3 + j)
    {
      PortfolioColumnAt(watchHeader, j);
    }
  }
}

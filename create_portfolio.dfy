/** create_portfolio.py: a new portfolio table is shaped from the watchlist
    (name, id and type of every asset, then the portfolio columns), and an
    existing portfolio gets the name, id and type of its assets refreshed
    from the watchlist, matched by id. */
module CreatePortfolio {
  import opened Text
  import opened Sheets

  // ---------------------------------------------------------------------------
  // create_portfolio_file

  /** The columns a portfolio adds after name, id and type. */
  const PortfolioColumns: seq<string> :=
    ["last_price", "holdings", "holding_price", "holding_earnings",
     "total_value", "percentage", "annual_return", "risk"]

  /** The portfolio header: the watchlist's first three header cells, then
      the portfolio columns. */
  function CreatedHeader(watchHeader: Row): Row
  {
    Take3(watchHeader) + PortfolioColumns
  }

  /** n empty cells. */
  function Blanks(n: nat): (r: Row)
    ensures |r| == n && forall i :: 0 <= i < n ==> r[i] == ""
  {
    seq(n, _ => "")
  }

  /** A data row of the new portfolio, as written: name, id and type, then
      nine empty cells; a row with fewer than three cells is copied. */
  function CreatedRow(row: Row): Row
  {
    if |row| >= 3 then row[..3] + Blanks(9) else row
  }

  /** create_portfolio_file minus the file I/O, as written; an empty
      watchlist gives no table. */
  function CreatedTable(watch: Table): Option<Table>
  {
    if watch == [] then None
    else Some([CreatedHeader(watch[0])]
              + seq(|watch| - 1, i requires 0 <= i < |watch| - 1 => CreatedRow(watch[i + 1])))
  }

  /** The loop body: `row[:3] + [''] * 9`, or the row itself. */
  method ShapeRow(row: Row) returns (shaped: Row)
    ensures shaped == CreatedRow(row)
  {
    if |row| >= 3 {
      shaped := row[..3] + Blanks(9);
    } else {
      shaped := row;
    }
  }

  method CreatePortfolioFile(watch: Table) returns (out: Option<Table>)
    ensures out == CreatedTable(watch)
  {
    if watch == [] {
      return None;
    }
    var rows := [CreatedHeader(watch[0])];
    var i := 1;
    while i < |watch|
      invariant 1 <= i <= |watch| && |rows| == i && rows[0] == CreatedHeader(watch[0])
      invariant forall j :: 1 <= j < i ==> rows[j] == CreatedRow(watch[j])
    {
      var shaped := ShapeRow(watch[i]);
      rows := rows + [shaped];
      i := i + 1;
    }
    CreatedRows(watch, rows);
    return Some(rows);
  }

  /** A table with the created header and each watchlist data row shaped in
      place is the created table. */
  lemma {:induction false} CreatedRows(watch: Table, rows: Table)
    requires watch != [] && |rows| == |watch| && rows[0] == CreatedHeader(watch[0])
    requires forall j :: 1 <= j < |rows| ==> rows[j] == CreatedRow(watch[j])
    ensures CreatedTable(watch) == Some(rows)
  {
    assert rows == [CreatedHeader(watch[0])]
                   + seq(|watch| - 1, j requires 0 <= j < |watch| - 1 => CreatedRow(watch[j + 1]));
  }

  /** The table has one row per watchlist row, the header has eight columns
      after the first three watchlist header cells, and every data row keeps
      the watchlist's name, id and type. */
  lemma {:induction false} CreatedShape(watch: Table, i: nat)
    requires watch != [] && 1 <= i < |watch|
    ensures var t := CreatedTable(watch).value;
      |t| == |watch| && t[0] == Take3(watch[0]) + PortfolioColumns
      && |t[0]| == |Take3(watch[0])| + 8
      && (|watch[i]| >= 3 ==> t[i][..3] == watch[i][..3] && forall j :: 3 <= j < |t[i]| ==> t[i][j] == "")
      && (|watch[i]| < 3 ==> t[i] == watch[i])
  {
  }

  /** As written, a data row of three or more cells is one cell wider than
      a header built from a three-cell watchlist header. */
  lemma {:induction false} CreatedRowTooWide()
    ensures var t := CreatedTable([["name", "id", "type"], ["a", "1", "fund"]]).value;
      |t[0]| == 11 && |t[1]| == 12
  {
    var t := CreatedTable([["name", "id", "type"], ["a", "1", "fund"]]).value;
    assert t[1] == CreatedRow(["a", "1", "fund"]);
  }

  /** A data row with one empty cell per portfolio column. */
  function AlignedCreatedRow(row: Row): Row
  {
    if |row| >= 3 then row[..3] + Blanks(|PortfolioColumns|) else row
  }

  /** create_portfolio_file with eight empty cells per data row. */
  function AlignedCreatedTable(watch: Table): Option<Table>
  {
    if watch == [] then None
    else Some([CreatedHeader(watch[0])]
              + seq(|watch| - 1, i requires 0 <= i < |watch| - 1 => AlignedCreatedRow(watch[i + 1])))
  }

  /** With eight empty cells, every data row of three or more cells is as
      wide as the header of a watchlist whose header has three cells or more,
      and each portfolio column of the row is empty. */
  lemma {:induction false} AlignedCreatedFits(watch: Table, i: nat)
    requires watch != [] && |watch[0]| >= 3 && 1 <= i < |watch| && |watch[i]| >= 3
    ensures var t := AlignedCreatedTable(watch).value;
      |t| == |watch| && |t[i]| == |t[0]| == 11 && t[i][..3] == watch[i][..3]
      && forall j :: 0 <= j < |PortfolioColumns| ==>
           LastIndex(t[0], PortfolioColumns[j]) == Some(3 + j) && t[i][3 + j] == ""
  {
    var t := AlignedCreatedTable(watch).value;
    forall j | 0 <= j < |PortfolioColumns|
      ensures LastIndex(t[0], PortfolioColumns[j]) == Some(3 + j)
    {
      PortfolioColumnAt(watch[0], j);
    }
  }

  /** In a created header, each portfolio column is found at its own place
      behind the three watchlist cells, whatever those cells hold. */
  lemma {:induction false} PortfolioColumnAt(watchHeader: Row, j: nat)
    requires |watchHeader| >= 3 && j < |PortfolioColumns|
    ensures LastIndex(CreatedHeader(watchHeader), PortfolioColumns[j]) == Some(3 + j)
  {
    var h := CreatedHeader(watchHeader);
    assert h[3 + j] == PortfolioColumns[j];
    assert forall m :: 3 + j < m < |h| ==> h[m] == PortfolioColumns[m - 3];
  }

  // ---------------------------------------------------------------------------
  // update_portfolio_file

  /** The dictionary from id to row[:3] after watchlist rows 1 .. n-1; rows
      with fewer than three cells are skipped and later rows win. */
  function IdsBelow(watch: Table, n: nat): map<string, Row>
    requires 1 <= n <= |watch|
  {
    if n == 1 then map[]
    else
      var m := IdsBelow(watch, n - 1);
      var row := watch[n - 1];
      if |row| >= 3 then m[row[1] := row[..3]] else m
  }

  /** Every entry is three cells whose id cell is the key. */
  lemma {:induction false} IdsBelowEntries(watch: Table, n: nat, id: string)
    requires 1 <= n <= |watch| && id in IdsBelow(watch, n)
    ensures |IdsBelow(watch, n)[id]| == 3 && IdsBelow(watch, n)[id][1] == id
  {
    var row := watch[n - 1];
    if n > 1 && !(|row| >= 3 && row[1] == id) {
      IdsBelowEntries(watch, n - 1, id);
    }
  }

  /** An id has an entry exactly when some watchlist data row of three or
      more cells carries it, and the entry comes from the last such row. */
  lemma {:induction false} IdsBelowLastWins(watch: Table, n: nat, i: nat)
    requires 1 <= i < n <= |watch| && |watch[i]| >= 3
    requires forall j :: i < j < n && |watch[j]| >= 3 ==> watch[j][1] != watch[i][1]
    ensures watch[i][1] in IdsBelow(watch, n) && IdsBelow(watch, n)[watch[i][1]] == watch[i][..3]
  {
    if i < n - 1 {
      IdsBelowLastWins(watch, n - 1, i);
    }
  }

  lemma {:induction false} IdsBelowKeys(watch: Table, n: nat, id: string)
    requires 1 <= n <= |watch|
    ensures id in IdsBelow(watch, n) <==> exists i :: 1 <= i < n && |watch[i]| >= 3 && watch[i][1] == id
  {
    if n > 1 {
      IdsBelowKeys(watch, n - 1, id);
      if id in IdsBelow(watch, n) && id !in IdsBelow(watch, n - 1) {
        assert |watch[n - 1]| >= 3 && watch[n - 1][1] == id;
      }
    }
  }

  /** `row[:3] = ids[row[1]]` for a row of three or more cells whose id has
      an entry; any other row stays. */
  function Relabeled(row: Row, ids: map<string, Row>): Row
  {
    if |row| >= 3 && row[1] in ids then ids[row[1]] + row[3..] else row
  }

  /** update_portfolio_file minus the file I/O. An empty watchlist, a missing
      portfolio file (None) or an empty portfolio leave nothing written. */
  function IdentityUpdate(watch: Table, portfolio: Option<Table>): Outcome
  {
    if watch == [] || portfolio.None? || portfolio.value == [] then Skipped
    else
      var rows := portfolio.value;
      var ids := IdsBelow(watch, |watch|);
      Written([rows[0]] + seq(|rows| - 1, i requires 0 <= i < |rows| - 1 => Relabeled(rows[i + 1], ids)))
  }

  /** The dictionary loop. */
  method CollectIds(watch: Table) returns (ids: map<string, Row>)
    requires watch != []
    ensures ids == IdsBelow(watch, |watch|)
  {
    ids := map[];
    var i := 1;
    while i < |watch|
      invariant 1 <= i <= |watch| && ids == IdsBelow(watch, i)
    {
      var row := watch[i];
      if |row| >= 3 {
        ids := ids[row[1] := row[..3]];
      }
      i := i + 1;
    }
  }

  method UpdatePortfolioFile(watch: Table, portfolio: Option<Table>) returns (out: Outcome)
    ensures out == IdentityUpdate(watch, portfolio)
  {
    if watch == [] || portfolio.None? || portfolio.value == [] {
      return Skipped;
    }
    var ids := CollectIds(watch);
    var rows := portfolio.value;
    var i := 1;
    while i < |rows|
      invariant 1 <= i <= |rows|
      invariant |rows| == |portfolio.value| && rows[0] == portfolio.value[0]
      invariant forall j :: 1 <= j < i ==> rows[j] == Relabeled(portfolio.value[j], ids)
      invariant forall j :: i <= j < |rows| ==> rows[j] == portfolio.value[j]
    {
      var row := rows[i];
      if |row| >= 3 {
        var key := row[1];
        if key in ids {
          rows := rows[i := ids[key] + row[3..]];
        }
      }
      assert rows[i] == Relabeled(portfolio.value[i], ids);
      i := i + 1;
    }
    RelabeledRows(watch, portfolio.value, rows);
    return Written(rows);
  }

  /** A table with the portfolio's header and each data row relabeled in
      place is the refreshed table. */
  lemma {:induction false} RelabeledRows(watch: Table, portfolio: Table, rows: Table)
    requires watch != [] && portfolio != []
    requires |rows| == |portfolio| && rows[0] == portfolio[0]
    requires forall j :: 1 <= j < |rows| ==> rows[j] == Relabeled(portfolio[j], IdsBelow(watch, |watch|))
    ensures IdentityUpdate(watch, Some(portfolio)) == Written(rows)
  {
    var ids := IdsBelow(watch, |watch|);
    assert rows == [rows[0]] + seq(|rows| - 1, j requires 0 <= j < |rows| - 1 =>
                                     Relabeled(portfolio[j + 1], ids));
  }

  /** Only the first three cells of a row whose id the watchlist knows
      change; they become that watchlist row's first three cells, from the
      last watchlist row with the id. The id itself, the row length, every
      other cell, the header and every other row stay. */
  lemma {:induction false} IdentityCells(watch: Table, rows: Table, i: nat)
    requires IdentityUpdate(watch, Some(rows)).Written? && 1 <= i < |rows|
    ensures var out := IdentityUpdate(watch, Some(rows)).rows;
      var ids := IdsBelow(watch, |watch|);
      |out| == |rows| && out[0] == rows[0] && |out[i]| == |rows[i]|
      && (|rows[i]| >= 3 ==> out[i][1] == rows[i][1] && out[i][3..] == rows[i][3..])
      && (|rows[i]| >= 3 && rows[i][1] in ids ==> out[i][..3] == ids[rows[i][1]])
      && (!(|rows[i]| >= 3 && rows[i][1] in ids) ==> out[i] == rows[i])
  {
    var ids := IdsBelow(watch, |watch|);
    var out := IdentityUpdate(watch, Some(rows)).rows;
    assert out[i] == Relabeled(rows[i], ids);
    if |rows[i]| >= 3 && rows[i][1] in ids {
      IdsBelowEntries(watch, |watch|, rows[i][1]);
      assert out[i][..3] == ids[rows[i][1]];
    }
  }

  /** Refreshing twice is refreshing once. */
  lemma {:induction false} IdentityIdempotent(watch: Table, rows: Table)
    requires IdentityUpdate(watch, Some(rows)).Written?
    ensures IdentityUpdate(watch, Some(IdentityUpdate(watch, Some(rows)).rows))
            == IdentityUpdate(watch, Some(rows))
  {
    var out := IdentityUpdate(watch, Some(rows)).rows;
    var ids := IdsBelow(watch, |watch|);
    forall i | 1 <= i < |out|
      ensures Relabeled(out[i], ids) == out[i]
    {
      IdentityCells(watch, rows, i);
      if |rows[i]| >= 3 && rows[i][1] in ids {
        IdsBelowEntries(watch, |watch|, rows[i][1]);
        assert out[i] == ids[rows[i][1]] + rows[i][3..];
      }
    }
    var again := IdentityUpdate(watch, Some(out)).rows;
    assert again == out;
  }
}

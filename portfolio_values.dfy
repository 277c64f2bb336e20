/** update_portfolio.py, the per-row value columns: total_value,
    holding_earnings and percentage, each recomputed from other columns of the
    same portfolio table. */
module PortfolioValues {
  import opened Text
  import opened Sheets

  // ---------------------------------------------------------------------------
  // update_total_value

  /** The value of a position. */
  function Product(price: real, holdings: real): real
  {
    price * holdings
  }

  /** The total_value cell: last_price * holdings with two decimals, or "0"
      when a cell is empty or float() refuses it. */
  function ValueCell(price: string, holdings: string): string
  {
    if price == "" || holdings == "" then "0"
    else match ParseReal(price)
      case None => "0"
      case Some(p) =>
        match ParseReal(holdings)
        case None => "0"
        case Some(h) => Fixed(Product(p, h), 2)
  }

  /** What the cell says: when both cells are non-empty numbers it reads
      back as their product rounded to cents, otherwise it is "0". */
  lemma {:induction false} ValueCellMeaning(price: string, holdings: string)
    ensures var ok := price != "" && holdings != ""
                      && ParseReal(price).Some? && ParseReal(holdings).Some?;
      (ok ==> ParseReal(ValueCell(price, holdings))
                == Some(RoundTo(Product(ParseReal(price).value, ParseReal(holdings).value), 2)))
      && (!ok ==> ValueCell(price, holdings) == "0")
  {
    if price != "" && holdings != "" && ParseReal(price).Some? && ParseReal(holdings).Some? {
      FixedRoundTrip(Product(ParseReal(price).value, ParseReal(holdings).value), 2);
    }
  }

  function ValueRow(row: Row, lp: nat, h: nat, tv: nat): Row
  {
    if |row| > Max(lp, Max(h, tv)) then row[tv := ValueCell(row[lp], row[h])] else row
  }

  /** The loop body of update_total_value as a function of the row. */
  function ValueStep(lp: nat, h: nat, tv: nat): (nat, Row) -> Row
  {
    (_, row) => ValueRow(row, lp, h, tv)
  }

  /** update_total_value minus the file I/O: nothing happens without rows or
      without all three columns; rows too short for one of them are left
      alone. */
  function TotalValueUpdate(rows: Table): Outcome
  {
    if rows == [] then Skipped
    else
      var lp := LastIndex(rows[0], "last_price");
      var h := LastIndex(rows[0], "holdings");
      var tv := LastIndex(rows[0], "total_value");
      if lp.None? || h.None? || tv.None? then Skipped
      else Written(MapData(rows, ValueStep(lp.value, h.value, tv.value), |rows|))
  }

  method UpdateTotalValue(rows: Table) returns (out: Outcome)
    ensures out == TotalValueUpdate(rows)
  {
    if rows == [] {
      return Skipped;
    }
    var ks := ScanLastAll(rows[0], ["last_price", "holdings", "total_value"]);
    if ks[0].None? || ks[1].None? || ks[2].None? {
      return Skipped;
    }
    var lp, h, tv := ks[0].value, ks[1].value, ks[2].value;
    var table := FillValues(rows, lp, h, tv);
    out := Written(table);
  }

  /** The row loop of update_total_value. */
  method FillValues(rows: Table, lp: nat, h: nat, tv: nat) returns (table: Table)
    requires rows != []
    ensures table == MapData(rows, ValueStep(lp, h, tv), |rows|)
  {
    ghost var f := ValueStep(lp, h, tv);
    table := rows;
    var i := 1;
    while i < |rows|
      invariant 1 <= i <= |rows|
      invariant table == MapData(rows, f, i) + rows[i..]
    {
      var row := table[i];
      MapDataNext(rows, f, i, table);
      if |row| > Max(lp, Max(h, tv)) {
        table := table[i := row[tv := ValueCell(row[lp], row[h])]];
      }
      i := i + 1;
    }
    assert rows[i..] == [];
  }

  /** Only the total_value cell of the rows long enough for all three columns
      changes, and it becomes the ValueCell of that row's price and holdings. */
  lemma {:induction false} TotalValueCells(rows: Table, i: nat, j: nat)
    requires TotalValueUpdate(rows).Written? && i < |rows|
    ensures var out := TotalValueUpdate(rows).rows;
      var lp := LastIndex(rows[0], "last_price").value;
      var h := LastIndex(rows[0], "holdings").value;
      var tv := LastIndex(rows[0], "total_value").value;
      |out| == |rows| && out[0] == rows[0] && |out[i]| == |rows[i]|
      && (j < |rows[i]| ==>
            out[i][j] == if i >= 1 && j == tv && |rows[i]| > Max(lp, Max(h, tv))
                         then ValueCell(rows[i][lp], rows[i][h]) else rows[i][j])
  {
    if i >= 1 {
      MapDataAt(rows, ValueStep(LastIndex(rows[0], "last_price").value,
                                LastIndex(rows[0], "holdings").value,
                                LastIndex(rows[0], "total_value").value), |rows|, i);
    }
  }

  /** Recomputing the totals a second time changes nothing: the total_value
      column is neither of the columns it is computed from. */
  lemma {:induction false} TotalValueIdempotent(rows: Table)
    requires TotalValueUpdate(rows).Written?
    ensures TotalValueUpdate(TotalValueUpdate(rows).rows) == TotalValueUpdate(rows)
  {
    var out := TotalValueUpdate(rows).rows;
    var lp := LastIndex(rows[0], "last_price").value;
    var h := LastIndex(rows[0], "holdings").value;
    var tv := LastIndex(rows[0], "total_value").value;
    var f := ValueStep(lp, h, tv);
    assert tv != lp && tv != h;
    forall i | 1 <= i < |out|
      ensures f(i, out[i]) == out[i]
    {
      MapDataAt(rows, f, |rows|, i);
    }
    MapDataFixed(out, f, |out|);
    assert out[..|out|] == out;
  }

  // ---------------------------------------------------------------------------
  // update_holding_earnings

  /** The gain of a position over its average cost. */
  function Earnings(price: real, cost: real, holdings: real): real
  {
    (price - cost) * holdings
  }

  /** The holding_earnings cell: (last_price - holding_price) * holdings with
      two decimals, or "0" when a cell is empty or float() refuses it. */
  function EarningsCell(price: string, cost: string, holdings: string): string
  {
    if price == "" || cost == "" || holdings == "" then "0"
    else match ParseReal(price)
      case None => "0"
      case Some(p) =>
        match ParseReal(cost)
        case None => "0"
        case Some(c) =>
          match ParseReal(holdings)
          case None => "0"
          case Some(h) => Fixed(Earnings(p, c, h), 2)
  }

  lemma {:induction false} EarningsCellMeaning(price: string, cost: string, holdings: string)
    ensures var ok := price != "" && cost != "" && holdings != ""
                      && ParseReal(price).Some? && ParseReal(cost).Some? && ParseReal(holdings).Some?;
      (ok ==> ParseReal(EarningsCell(price, cost, holdings))
                == Some(RoundTo(Earnings(ParseReal(price).value, ParseReal(cost).value,
                                         ParseReal(holdings).value), 2)))
      && (!ok ==> EarningsCell(price, cost, holdings) == "0")
  {
    if price != "" && cost != "" && holdings != ""
       && ParseReal(price).Some? && ParseReal(cost).Some? && ParseReal(holdings).Some? {
      FixedRoundTrip(Earnings(ParseReal(price).value, ParseReal(cost).value, ParseReal(holdings).value), 2);
    }
  }

  /** The four columns update_holding_earnings works with. */
  datatype EarningsColumns = EarningsColumns(price: nat, cost: nat, holdings: nat, earnings: nat)
  {
    function Width(): nat
    {
      Max(Max(price, cost), Max(holdings, earnings))
    }
  }

  function FindEarningsColumns(header: Row): Option<EarningsColumns>
  {
    var lp := LastIndex(header, "last_price");
    var hp := LastIndex(header, "holding_price");
    var h := LastIndex(header, "holdings");
    var he := LastIndex(header, "holding_earnings");
    if lp.None? || hp.None? || h.None? || he.None? then None
    else Some(EarningsColumns(lp.value, hp.value, h.value, he.value))
  }

  function EarningsRow(row: Row, c: EarningsColumns): Row
  {
    if |row| > c.Width()
    then row[c.earnings := EarningsCell(row[c.price], row[c.cost], row[c.holdings])]
    else row
  }

  function EarningsStep(c: EarningsColumns): (nat, Row) -> Row
  {
    (_, row) => EarningsRow(row, c)
  }

  /** update_holding_earnings minus the file I/O. */
  function HoldingEarningsUpdate(rows: Table): Outcome
  {
    if rows == [] then Skipped
    else match FindEarningsColumns(rows[0])
      case None => Skipped
      case Some(c) => Written(MapData(rows, EarningsStep(c), |rows|))
  }

  method UpdateHoldingEarnings(rows: Table) returns (out: Outcome)
    ensures out == HoldingEarningsUpdate(rows)
  {
    if rows == [] {
      return Skipped;
    }
    var ks := ScanLastAll(rows[0], ["last_price", "holding_price", "holdings", "holding_earnings"]);
    if ks[0].None? || ks[1].None? || ks[2].None? || ks[3].None? {
      return Skipped;
    }
    var c := EarningsColumns(ks[0].value, ks[1].value, ks[2].value, ks[3].value);
    assert FindEarningsColumns(rows[0]) == Some(c);
    var table := FillEarnings(rows, c);
    out := Written(table);
  }

  /** The row loop of update_holding_earnings. */
  method FillEarnings(rows: Table, c: EarningsColumns) returns (table: Table)
    requires rows != []
    ensures table == MapData(rows, EarningsStep(c), |rows|)
  {
    ghost var f := EarningsStep(c);
    table := rows;
    var i := 1;
    while i < |rows|
      invariant 1 <= i <= |rows|
      invariant table == MapData(rows, f, i) + rows[i..]
    {
      var row := table[i];
      MapDataNext(rows, f, i, table);
      if |row| > c.Width() {
        table := table[i := row[c.earnings := EarningsCell(row[c.price], row[c.cost], row[c.holdings])]];
      }
      i := i + 1;
    }
    assert rows[i..] == [];
  }

  /** Only the holding_earnings cell of the rows long enough for all four
      columns changes, and it becomes the EarningsCell of that row. */
  lemma {:induction false} HoldingEarningsCells(rows: Table, i: nat, j: nat)
    requires HoldingEarningsUpdate(rows).Written? && i < |rows|
    ensures var out := HoldingEarningsUpdate(rows).rows;
      var c := FindEarningsColumns(rows[0]).value;
      |out| == |rows| && out[0] == rows[0] && |out[i]| == |rows[i]|
      && (j < |rows[i]| ==>
            out[i][j] == if i >= 1 && j == c.earnings && |rows[i]| > c.Width()
                         then EarningsCell(rows[i][c.price], rows[i][c.cost], rows[i][c.holdings])
                         else rows[i][j])
  {
    if i >= 1 {
      MapDataAt(rows, EarningsStep(FindEarningsColumns(rows[0]).value), |rows|, i);
    }
  }

  /** Recomputing the earnings a second time changes nothing. */
  lemma {:induction false} HoldingEarningsIdempotent(rows: Table)
    requires HoldingEarningsUpdate(rows).Written?
    ensures HoldingEarningsUpdate(HoldingEarningsUpdate(rows).rows) == HoldingEarningsUpdate(rows)
  {
    var out := HoldingEarningsUpdate(rows).rows;
    var c := FindEarningsColumns(rows[0]).value;
    var f := EarningsStep(c);
    assert c.earnings != c.price && c.earnings != c.cost && c.earnings != c.holdings;
    forall i | 1 <= i < |out|
      ensures f(i, out[i]) == out[i]
    {
      MapDataAt(rows, f, |rows|, i);
    }
    MapDataFixed(out, f, |out|);
    assert out[..|out|] == out;
  }

  // ---------------------------------------------------------------------------
  // update_percentage

  /** The amount a row adds to total_sum: its total_value when the row has
      that cell, the cell is not empty and float() accepts it. */
  function Counted(row: Row, tv: nat): Option<real>
  {
    if |row| > tv && row[tv] != "" then ParseReal(row[tv]) else None
  }

  function Amount(o: Option<real>): real
  {
    if o.Some? then o.value else 0.0
  }

  /** total_sum after the data rows 1 .. n-1. */
  function TotalBelow(rows: Table, tv: nat, n: nat): real
    requires n <= |rows|
  {
    if n <= 1 then 0.0 else TotalBelow(rows, tv, n - 1) + Amount(Counted(rows[n - 1], tv))
  }

  /** A value as a percentage of sum. */
  function Share(v: real, sum: real): real
    requires sum != 0.0
  {
    v / sum * 100.0
  }

  /** The percentage cell: the share of total_sum in percent with two
      decimals and a '%', or "0%" for an empty or unreadable total_value. */
  function ShareCell(value: string, sum: real): string
    requires sum != 0.0
  {
    if value == "" then "0%"
    else match ParseReal(value)
      case None => "0%"
      case Some(v) => Fixed(Share(v, sum), 2) + "%"
  }

  lemma {:induction false} ShareCellMeaning(value: string, sum: real)
    requires sum != 0.0
    ensures var ok := value != "" && ParseReal(value).Some?;
      (ok ==> ParsePercent(ShareCell(value, sum)) == Some(RoundTo(Share(ParseReal(value).value, sum), 2)))
      && (!ok ==> ShareCell(value, sum) == "0%")
  {
    if value != "" && ParseReal(value).Some? {
      FixedPercentRoundTrip(Share(ParseReal(value).value, sum), 2);
    }
  }

  function ShareRow(row: Row, tv: nat, pct: nat, sum: real): Row
    requires sum != 0.0
  {
    if |row| > Max(tv, pct) then row[pct := ShareCell(row[tv], sum)] else row
  }

  function ShareStep(tv: nat, pct: nat, sum: real): (nat, Row) -> Row
    requires sum != 0.0
  {
    (_, row) => ShareRow(row, tv, pct, sum)
  }

  /** update_percentage minus the file I/O: nothing happens without rows,
      without both columns, or when the counted total_values sum to zero. */
  function PercentageUpdate(rows: Table): Outcome
  {
    if rows == [] then Skipped
    else
      var tv := LastIndex(rows[0], "total_value");
      var pct := LastIndex(rows[0], "percentage");
      if tv.None? || pct.None? then Skipped
      else
        var sum := TotalBelow(rows, tv.value, |rows|);
        if sum == 0.0 then Skipped
        else Written(MapData(rows, ShareStep(tv.value, pct.value, sum), |rows|))
  }

  /** The first loop of update_percentage. */
  method SumTotalValues(rows: Table, tv: nat) returns (sum: real)
    ensures sum == TotalBelow(rows, tv, |rows|)
  {
    sum := 0.0;
    var i := 1;
    if |rows| <= 1 {
      return;
    }
    while i < |rows|
      invariant 1 <= i <= |rows|
      invariant sum == TotalBelow(rows, tv, i)
    {
      var row := rows[i];
      if |row| > tv && row[tv] != "" {
        var v := ParseReal(row[tv]);
        if v.Some? {
          sum := sum + v.value;
        }
      }
      i := i + 1;
    }
  }

  method UpdatePercentage(rows: Table) returns (out: Outcome)
    ensures out == PercentageUpdate(rows)
  {
    if rows == [] {
      return Skipped;
    }
    var ks := ScanLastAll(rows[0], ["total_value", "percentage"]);
    if ks[0].None? || ks[1].None? {
      return Skipped;
    }
    var tv, pct := ks[0].value, ks[1].value;
    var sum := SumTotalValues(rows, tv);
    if sum == 0.0 {
      return Skipped;
    }
    var table := FillShares(rows, tv, pct, sum);
    out := Written(table);
  }

  /** The second row loop of update_percentage. */
  method FillShares(rows: Table, tv: nat, pct: nat, sum: real) returns (table: Table)
    requires rows != [] && sum != 0.0
    ensures table == MapData(rows, ShareStep(tv, pct, sum), |rows|)
  {
    ghost var f := ShareStep(tv, pct, sum);
    table := rows;
    var i := 1;
    while i < |rows|
      invariant 1 <= i <= |rows|
      invariant table == MapData(rows, f, i) + rows[i..]
    {
      var row := table[i];
      MapDataNext(rows, f, i, table);
      if |row| > Max(tv, pct) {
        table := table[i := row[pct := ShareCell(row[tv], sum)]];
      }
      i := i + 1;
    }
    assert rows[i..] == [];
  }

  /** The exact shares of the counted rows 1 .. n-1, in percent. */
  function SharesBelow(rows: Table, tv: nat, sum: real, n: nat): real
    requires n <= |rows| && sum != 0.0
  {
    if n <= 1 then 0.0
    else SharesBelow(rows, tv, sum, n - 1) + Share(Amount(Counted(rows[n - 1], tv)), sum)
  }

  lemma {:induction false} ShareAdds(a: real, v: real, sum: real)
    requires sum != 0.0
    ensures Share(a, sum) + Share(v, sum) == Share(a + v, sum)
    ensures Share(sum, sum) == 100.0
  {
    assert sum / sum == 1.0;
  }

  lemma {:induction false} SharesBelowTotal(rows: Table, tv: nat, sum: real, n: nat)
    requires n <= |rows| && sum != 0.0
    ensures SharesBelow(rows, tv, sum, n) == Share(TotalBelow(rows, tv, n), sum)
  {
    if n > 1 {
      SharesBelowTotal(rows, tv, sum, n - 1);
      ShareAdds(TotalBelow(rows, tv, n - 1), Amount(Counted(rows[n - 1], tv)), sum);
    }
  }

  /** Before rounding, the shares of the counted rows add up to 100. */
  lemma {:induction false} SharesSumTo100(rows: Table)
    requires PercentageUpdate(rows).Written?
    ensures var tv := LastIndex(rows[0], "total_value").value;
      SharesBelow(rows, tv, TotalBelow(rows, tv, |rows|), |rows|) == 100.0
  {
    var tv := LastIndex(rows[0], "total_value").value;
    var sum := TotalBelow(rows, tv, |rows|);
    SharesBelowTotal(rows, tv, sum, |rows|);
    ShareAdds(0.0, sum, sum);
  }

  /** Only the percentage cell of the rows long enough for both columns
      changes, and it becomes the ShareCell of that row's total_value. */
  lemma {:induction false} PercentageCells(rows: Table, i: nat, j: nat)
    requires PercentageUpdate(rows).Written? && i < |rows|
    ensures var out := PercentageUpdate(rows).rows;
      var tv := LastIndex(rows[0], "total_value").value;
      var pct := LastIndex(rows[0], "percentage").value;
      var sum := TotalBelow(rows, tv, |rows|);
      sum != 0.0 && |out| == |rows| && out[0] == rows[0] && |out[i]| == |rows[i]|
      && (j < |rows[i]| ==>
            out[i][j] == if i >= 1 && j == pct && |rows[i]| > Max(tv, pct)
                         then ShareCell(rows[i][tv], sum) else rows[i][j])
  {
    var tv := LastIndex(rows[0], "total_value").value;
    var pct := LastIndex(rows[0], "percentage").value;
    var sum := TotalBelow(rows, tv, |rows|);
    var out := MapData(rows, ShareStep(tv, pct, sum), |rows|);
    assert PercentageUpdate(rows) == Written(out);
    if i >= 1 {
      MapDataAt(rows, ShareStep(tv, pct, sum), |rows|, i);
      assert out[i] == ShareRow(rows[i], tv, pct, sum);
    }
  }
}

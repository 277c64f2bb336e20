/** calculate_percentage_change.py: from a watchlist of daily prices to a table
    of day-over-day percentage changes. */
module PercentChange {
  import opened Text
  import opened Sheets

  /** The change from prev to curr in percent. */
  function Change(prev: real, curr: real): real
    requires prev != 0.0
  {
    (curr - prev) / prev * 100.0
  }

  /** The change is relative to prev: applying it to prev gives back curr. */
  lemma {:induction false} ChangeRecoversPrice(prev: real, curr: real)
    requires prev != 0.0
    ensures prev + prev * Change(prev, curr) / 100.0 == curr
  {
    var q := (curr - prev) / prev;
    assert q * prev == curr - prev;
    assert Change(prev, curr) / 100.0 == q;
  }

  /** One cell of the change row: f"{change:.4f}%" when both prices parse and
      the previous one is not zero, and "" otherwise. */
  function ChangeCell(prev: string, curr: string): string
  {
    match ParseReal(prev)
    case None => ""
    case Some(p) =>
      match ParseReal(curr)
      case None => ""
      case Some(c) => if p == 0.0 then "" else Fixed(Change(p, c), 4) + "%"
  }

  /** A cell is empty exactly when a price does not parse or the previous
      price is zero; otherwise it reads back (float of the text before the
      '%') as the change rounded to four places. */
  lemma {:induction false} ChangeCellMeaning(prev: string, curr: string)
    ensures var cell := ChangeCell(prev, curr);
      var p, c := ParseReal(prev), ParseReal(curr);
      (cell == "" <==> p.None? || c.None? || p.value == 0.0)
      && (cell != "" ==> ParsePercent(cell) == Some(RoundTo(Change(p.value, c.value), 4)))
  {
    var p, c := ParseReal(prev), ParseReal(curr);
    if p.Some? && c.Some? && p.value != 0.0 {
      FixedPercentRoundTrip(Change(p.value, c.value), 4);
    }
  }

  /** calculate_percentage_change(prices) as a value: one cell per pair of
      neighbouring prices, nothing for fewer than two prices. */
  function ChangeRow(prices: seq<string>): seq<string>
  {
    if |prices| < 2 then []
    else ChangeRow(prices[..|prices| - 1]) + [ChangeCell(prices[|prices| - 2], prices[|prices| - 1])]
  }

  /** The row has one cell fewer than there are prices, none for fewer than two. */
  lemma {:induction false} ChangeRowLength(prices: seq<string>)
    ensures |ChangeRow(prices)| == if |prices| < 2 then 0 else |prices| - 1
  {
    if |prices| >= 2 {
      ChangeRowLength(prices[..|prices| - 1]);
    }
  }

  /** Cell i is the change from price i to price i + 1, whatever the other
      prices are. */
  lemma {:induction false} ChangeRowAt(prices: seq<string>, i: nat)
    requires i < |prices| - 1
    ensures |ChangeRow(prices)| == |prices| - 1
    ensures ChangeRow(prices)[i] == ChangeCell(prices[i], prices[i + 1])
  {
    var front := prices[..|prices| - 1];
    ChangeRowLength(prices);
    ChangeRowLength(front);
    if i < |prices| - 2 {
      ChangeRowAt(front, i);
      assert front[i] == prices[i] && front[i + 1] == prices[i + 1];
    }
  }

  /** The loop of calculate_percentage_change. */
  method CalculatePercentageChange(prices: seq<string>) returns (changes: seq<string>)
    ensures changes == ChangeRow(prices)
  {
    if |prices| < 2 {
      return [];
    }
    changes := [];
    var i := 1;
    assert ChangeRow(prices[..1]) == [];
    while i < |prices|
      invariant 1 <= i <= |prices|
      invariant changes == ChangeRow(prices[..i])
    {
      var cell := ChangeCell(prices[i - 1], prices[i]);
      assert prices[..i + 1][..i] == prices[..i];
      changes := changes + [cell];
      i := i + 1;
    }
    assert prices[..i] == prices;
  }

  /** The output header: the first three input cells, then "chg_" + d for every
      date column but the first. */
  function ChangeHeader(header: Row): Row
  {
    var dates := if |header| <= 3 then [] else header[3..];
    header[..if |header| < 3 then |header| else 3]
      + (if |dates| < 2 then [] else seq(|dates| - 1, i requires 0 <= i < |dates| - 1 => "chg_" + dates[i + 1]))
  }

  /** The header loop of generate_percentage_change_csv. */
  method BuildChangeHeader(header: Row) returns (h: Row)
    ensures h == ChangeHeader(header)
  {
    var dates := if |header| <= 3 then [] else header[3..];
    var columns: seq<string> := [];
    var i := 1;
    while i < |dates|
      invariant 1 <= i && (i == 1 || i <= |dates|)
      invariant |columns| == i - 1
      invariant forall k :: 0 <= k < i - 1 ==> columns[k] == "chg_" + dates[k + 1]
    {
      columns := columns + ["chg_" + dates[i]];
      i := i + 1;
    }
    h := header[..if |header| < 3 then |header| else 3] + columns;
  }

  /** generate_percentage_change_csv minus the file I/O: nothing to do for an
      empty watchlist; a data row with fewer than three cells makes the
      `name, id, type = row[:3]` unpacking raise; otherwise the header and one
      change row per data row. */
  function ChangeTable(rows: Table): Outcome
  {
    if rows == [] then Skipped
    else if exists i :: 1 <= i < |rows| && |rows[i]| < 3 then Raised
    else Written([ChangeHeader(rows[0])]
                 + seq(|rows| - 1, i requires 0 <= i < |rows| - 1 =>
                         rows[i + 1][..3] + ChangeRow(rows[i + 1][3..])))
  }

  method GeneratePercentageChangeTable(rows: Table) returns (out: Outcome)
    ensures out == ChangeTable(rows)
  {
    if rows == [] {
      return Skipped;
    }
    var header := BuildChangeHeader(rows[0]);
    var output: Table := [header];
    var i := 1;
    while i < |rows|
      invariant 1 <= i <= |rows|
      invariant |output| == i && output[0] == ChangeHeader(rows[0])
      invariant forall k :: 1 <= k < i ==> |rows[k]| >= 3
      invariant forall k :: 1 <= k < i ==> output[k] == rows[k][..3] + ChangeRow(rows[k][3..])
    {
      if |rows[i]| < 3 {
        return Raised;
      }
      var changes := CalculatePercentageChange(rows[i][3..]);
      output := output + [rows[i][..3] + changes];
      i := i + 1;
    }
    ChangedRows(rows, output);
    out := Written(output);
  }

  /** The header and each data row's change row, in order, make the change
      table. */
  lemma {:induction false} ChangedRows(rows: Table, output: Table)
    requires rows != [] && |output| == |rows| && output[0] == ChangeHeader(rows[0])
    requires forall k :: 1 <= k < |rows| ==> |rows[k]| >= 3
    requires forall k :: 1 <= k < |rows| ==> output[k] == rows[k][..3] + ChangeRow(rows[k][3..])
    ensures ChangeTable(rows) == Written(output)
  {
    assert output[1..] == seq(|rows| - 1, k requires 0 <= k < |rows| - 1 =>
                                rows[k + 1][..3] + ChangeRow(rows[k + 1][3..]));
    assert output == [output[0]] + output[1..];
  }

  /** One output row per input row; every data row keeps its name, id and type
      and carries the change row of its prices. */
  lemma {:induction false} ChangeTableRows(rows: Table, i: nat)
    requires ChangeTable(rows).Written? && 1 <= i < |rows|
    ensures |ChangeTable(rows).rows| == |rows|
    ensures ChangeTable(rows).rows[i][..3] == rows[i][..3]
    ensures ChangeTable(rows).rows[i][3..] == ChangeRow(rows[i][3..])
  {
    var r := ChangeTable(rows).rows[i];
    assert r == rows[i][..3] + ChangeRow(rows[i][3..]);
  }

  /** A rectangular watchlist of width w with at least one date column gives a
      rectangular change table of width w - 1. */
  lemma {:induction false} ChangeTableRectangular(rows: Table, w: nat)
    requires w >= 4 && rows != []
    requires forall i :: 0 <= i < |rows| ==> |rows[i]| == w
    ensures ChangeTable(rows).Written?
    ensures forall i :: 0 <= i < |rows| ==> |ChangeTable(rows).rows[i]| == w - 1
  {
    var out := ChangeTable(rows).rows;
    forall i | 0 <= i < |rows|
      ensures |out[i]| == w - 1
    {
      if i > 0 {
        assert out[i] == rows[i][..3] + ChangeRow(rows[i][3..]);
        ChangeRowLength(rows[i][3..]);
      }
    }
  }
}

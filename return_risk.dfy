/** update_portfolio.py, update_annual_return_and_risk: the portfolio and the
    percentage-change table must list the same assets in the same order; then
    every asset gets an annualised compound return and an annualised standard
    deviation of its daily changes. The real power x ** y and the square root
    x ** 0.5 are parameters (pow and root). */
module ReturnRisk {
  import opened Text
  import opened Sheets

  // ---------------------------------------------------------------------------
  // Statistics of one asset

  /** The daily changes as fractions: r / 100 for every change r in percent. */
  function Decimals(rs: seq<real>): (ds: seq<real>)
    ensures |ds| == |rs|
  {
    seq(|rs|, i requires 0 <= i < |rs| => rs[i] / 100.0)
  }

  /** The compounded growth factor: the product of (1 + d). */
  function Growth(ds: seq<real>): real
  {
    if ds == [] then 1.0 else Growth(ds[..|ds| - 1]) * (1.0 + ds[|ds| - 1])
  }

  function Sum(xs: seq<real>): real
  {
    if xs == [] then 0.0 else Sum(xs[..|xs| - 1]) + xs[|xs| - 1]
  }

  function Mean(xs: seq<real>): real
    requires xs != []
  {
    Sum(xs) / |xs| as real
  }

  function Square(x: real): real
  {
    x * x
  }

  /** The sum of the squared deviations from m. */
  function SquaredDeviations(xs: seq<real>, m: real): real
  {
    if xs == [] then 0.0 else SquaredDeviations(xs[..|xs| - 1], m) + Square(xs[|xs| - 1] - m)
  }

  /** The sample variance (divided by n - 1). */
  function Variance(xs: seq<real>): real
    requires |xs| > 1
  {
    SquaredDeviations(xs, Mean(xs)) / (|xs| - 1) as real
  }

  const TradingDays: real := 252.0

  /** (cumulative ** (252 / n) - 1) * 100 for the n daily changes rs (in
      percent). */
  function AnnualReturn(rs: seq<real>, pow: (real, real) -> real): real
    requires rs != []
  {
    (pow(Growth(Decimals(rs)), TradingDays / |rs| as real) - 1.0) * 100.0
  }

  /** The daily standard deviation scaled by sqrt(252), in percent; 0 for a
      single change. */
  function Risk(rs: seq<real>, root: real -> real): real
  {
    if |rs| > 1 then root(Variance(Decimals(rs))) * root(TradingDays) * 100.0 else 0.0
  }

  lemma {:induction false} SquareNonNegative(x: real)
    ensures Square(x) >= 0.0
  {
  }

  lemma {:induction false} SquaredDeviationsNonNegative(xs: seq<real>, m: real)
    ensures SquaredDeviations(xs, m) >= 0.0
  {
    if xs != [] {
      SquaredDeviationsNonNegative(xs[..|xs| - 1], m);
      SquareNonNegative(xs[|xs| - 1] - m);
    }
  }

  /** The square root is only ever taken of a non-negative variance. */
  lemma {:induction false} VarianceNonNegative(xs: seq<real>)
    requires |xs| > 1
    ensures Variance(xs) >= 0.0
  {
    SquaredDeviationsNonNegative(xs, Mean(xs));
  }

  /** Growth compounds: the growth over two stretches is the product of the
      growths over each. */
  lemma {:induction false} GrowthConcat(a: seq<real>, b: seq<real>)
    ensures Growth(a + b) == Growth(a) * Growth(b)
  {
    if b != [] {
      var b' := b[..|b| - 1];
      assert (a + b)[..|a + b| - 1] == a + b';
      GrowthConcat(a, b');
    } else {
      assert a + b == a;
    }
  }

  lemma {:induction false} SumConstant(xs: seq<real>, c: real)
    requires forall i :: 0 <= i < |xs| ==> xs[i] == c
    ensures Sum(xs) == |xs| as real * c
  {
    if xs != [] {
      SumConstant(xs[..|xs| - 1], c);
    }
  }

  lemma {:induction false} DeviationsOfConstant(xs: seq<real>, c: real)
    requires forall i :: 0 <= i < |xs| ==> xs[i] == c
    ensures SquaredDeviations(xs, c) == 0.0
  {
    if xs != [] {
      DeviationsOfConstant(xs[..|xs| - 1], c);
    }
  }

  /** Changes that are all the same carry no risk (when the square root of 0
      is 0). */
  lemma {:induction false} SteadyChangesNoRisk(rs: seq<real>, c: real, root: real -> real)
    requires forall i :: 0 <= i < |rs| ==> rs[i] == c
    requires root(0.0) == 0.0
    ensures Risk(rs, root) == 0.0
  {
    if |rs| > 1 {
      var ds := Decimals(rs);
      SumConstant(ds, c / 100.0);
      assert Mean(ds) == c / 100.0;
      DeviationsOfConstant(ds, c / 100.0);
    }
  }

  /** With exactly a year of trading days the annual return is the
      cumulative return (when x ** 1 is x). */
  lemma {:induction false} AnnualReturnOfAYear(rs: seq<real>, pow: (real, real) -> real)
    requires |rs| == 252
    requires forall x :: pow(x, 1.0) == x
    ensures AnnualReturn(rs, pow) == (Growth(Decimals(rs)) - 1.0) * 100.0
  {
    assert TradingDays / |rs| as real == 1.0;
  }

  // ---------------------------------------------------------------------------
  // Reading the changes of one asset

  /** A change cell counts when it is not empty and float(cell.rstrip('%'))
      accepts it. */
  function Reading(cell: string): seq<real>
  {
    if cell != "" && ParsePercent(cell).Some? then [ParsePercent(cell).value] else []
  }

  /** pct_changes for the cells, left to right. */
  function Changes(cells: seq<string>): seq<real>
  {
    if cells == [] then [] else Changes(cells[..|cells| - 1]) + Reading(cells[|cells| - 1])
  }

  /** The changes of a percentage-change row: its cells from index 3 on. */
  function RowChanges(row: Row): seq<real>
  {
    if |row| <= 3 then [] else Changes(row[3..])
  }

  /** Every readable cell contributes its value; n_days never exceeds the
      number of cells. */
  lemma {:induction false} ChangesComplete(cells: seq<string>)
    ensures |Changes(cells)| <= |cells|
    ensures forall k :: 0 <= k < |cells| && cells[k] != "" && ParsePercent(cells[k]).Some? ==>
      ParsePercent(cells[k]).value in Changes(cells)
  {
    if cells != [] {
      var init := cells[..|cells| - 1];
      var last := cells[|cells| - 1];
      ChangesComplete(init);
      assert Changes(cells) == Changes(init) + Reading(last);
      forall k | 0 <= k < |cells| && cells[k] != "" && ParsePercent(cells[k]).Some?
        ensures ParsePercent(cells[k]).value in Changes(cells)
      {
        if k < |init| {
          assert init[k] == cells[k];
        }
      }
    }
  }

  /** Every value comes from a readable cell. */
  lemma {:induction false} ChangesSound(cells: seq<string>)
    ensures forall r :: r in Changes(cells) ==>
      exists k :: 0 <= k < |cells| && cells[k] != "" && ParsePercent(cells[k]) == Some(r)
  {
    if cells != [] {
      var init := cells[..|cells| - 1];
      var last := cells[|cells| - 1];
      ChangesSound(init);
      assert Changes(cells) == Changes(init) + Reading(last);
      forall r | r in Changes(cells)
        ensures exists k :: 0 <= k < |cells| && cells[k] != "" && ParsePercent(cells[k]) == Some(r)
      {
        if r in Changes(init) {
          var k :| 0 <= k < |init| && init[k] != "" && ParsePercent(init[k]) == Some(r);
          assert cells[k] == init[k];
        } else {
          assert r in Reading(last);
        }
      }
    }
  }

  // ---------------------------------------------------------------------------
  // The two cells of one asset

  /** f"{annual_return:.2f}%", or "0%" without any change. */
  function ReturnCell(rs: seq<real>, pow: (real, real) -> real): string
  {
    if rs == [] then "0%" else Fixed(AnnualReturn(rs, pow), 2) + "%"
  }

  /** f"{risk:.2f}%", or "0%" without any change. */
  function RiskCell(rs: seq<real>, root: real -> real): string
  {
    if rs == [] then "0%" else Fixed(Risk(rs, root), 2) + "%"
  }

  /** The annual return cell is "0%" without changes and otherwise reads
      back as the annual return rounded to two places. */
  lemma {:induction false} ReturnCellMeaning(rs: seq<real>, pow: (real, real) -> real)
    ensures rs == [] ==> ReturnCell(rs, pow) == "0%"
    ensures rs != [] ==> ParsePercent(ReturnCell(rs, pow)) == Some(RoundTo(AnnualReturn(rs, pow), 2))
  {
    if rs != [] {
      FixedPercentRoundTrip(AnnualReturn(rs, pow), 2);
    }
  }

  /** The risk cell is "0%" without changes and otherwise reads back as the
      risk rounded to two places, which is 0 for a single change. */
  lemma {:induction false} RiskCellMeaning(rs: seq<real>, root: real -> real)
    ensures rs == [] ==> RiskCell(rs, root) == "0%"
    ensures rs != [] ==> ParsePercent(RiskCell(rs, root)) == Some(RoundTo(Risk(rs, root), 2))
    ensures |rs| == 1 ==> ParsePercent(RiskCell(rs, root)) == Some(0.0)
  {
    if rs != [] {
      FixedPercentRoundTrip(Risk(rs, root), 2);
      if |rs| == 1 {
        ZeroRounds();
      }
    }
  }

  lemma {:induction false} ZeroRounds()
    ensures RoundTo(0.0, 2) == 0.0
  {
    assert Scaled(0.0, 2) == 0;
  }

  /** The loop that collects pct_changes. */
  method CollectChanges(row: Row) returns (rs: seq<real>)
    ensures rs == RowChanges(row)
  {
    rs := [];
    if |row| <= 3 {
      return;
    }
    var cells := row[3..];
    var j := 0;
    while j < |cells|
      invariant 0 <= j <= |cells|
      invariant rs == Changes(cells[..j])
    {
      assert cells[..j + 1][..j] == cells[..j];
      var cell := cells[j];
      if cell != "" {
        var v := ParsePercent(cell);
        if v.Some? {
          rs := rs + [v.value];
        }
      }
      j := j + 1;
    }
    assert cells[..j] == cells;
  }

  /** The loop `cumulative_return *= (1 + r)`. */
  method Compound(ds: seq<real>) returns (g: real)
    ensures g == Growth(ds)
  {
    g := 1.0;
    var k := 0;
    while k < |ds|
      invariant 0 <= k <= |ds|
      invariant g == Growth(ds[..k])
    {
      assert ds[..k + 1][..k] == ds[..k];
      g := g * (1.0 + ds[k]);
      k := k + 1;
    }
    assert ds[..k] == ds;
  }

  /** The annual return and risk cells of one asset from its
      percentage-change row. */
  method AssetCells(pctRow: Row, pow: (real, real) -> real, root: real -> real)
    returns (ret: string, risk: string)
    ensures ret == ReturnCell(RowChanges(pctRow), pow)
    ensures risk == RiskCell(RowChanges(pctRow), root)
  {
    var rs := CollectChanges(pctRow);
    if rs == [] {
      return "0%", "0%";
    }
    var annual, r := Figures(rs, pow, root);
    ret := Fixed(annual, 2) + "%";
    risk := Fixed(r, 2) + "%";
  }

  /** The annual return and the risk of a non-empty list of changes. */
  method Figures(rs: seq<real>, pow: (real, real) -> real, root: real -> real)
    returns (annual: real, risk: real)
    requires rs != []
    ensures annual == AnnualReturn(rs, pow) && risk == Risk(rs, root)
  {
    var ds := seq(|rs|, i requires 0 <= i < |rs| => rs[i] / 100.0);
    assert ds == Decimals(rs);
    var cumulative := Compound(ds);
    var nDays := |ds|;
    annual := (pow(cumulative, TradingDays / nDays as real) - 1.0) * 100.0;
    risk := 0.0;
    if |ds| > 1 {
      var avg := Sum(ds) / |ds| as real;
      var variance := SquaredDeviations(ds, avg) / (|ds| - 1) as real;
      risk := root(variance) * root(TradingDays) * 100.0;
    }
  }

  // ---------------------------------------------------------------------------
  // The alignment checks

  /** Blank rows (every cell empty after strip) are dropped, the others kept
      in order. */
  function NonBlankRows(rows: Table): (t: Table)
    ensures |t| <= |rows|
  {
    if rows == [] then []
    else NonBlankRows(rows[..|rows| - 1])
         + (if BlankRow(rows[|rows| - 1]) then [] else [rows[|rows| - 1]])
  }

  /** The result of `a[0] != b[0] or a[1] != b[1] or a[2] != b[2]` from
      position k on: equal, different, or an IndexError first. */
  datatype Comparison = Same | Differs | Fails

  function CompareFrom(a: Row, b: Row, k: nat): Comparison
    decreases 3 - k
  {
    if k >= 3 then Same
    else if k >= |a| || k >= |b| then Fails
    else if a[k] != b[k] then Differs
    else CompareFrom(a, b, k + 1)
  }

  function CompareFirst3(a: Row, b: Row): Comparison
  {
    CompareFrom(a, b, 0)
  }

  /** The comparison finds the rows equal exactly when both have three cells
      and those agree; it reports a difference exactly when the first
      position where they part is a cell both rows have. */
  lemma {:induction false} CompareFirst3Spec(a: Row, b: Row)
    ensures CompareFirst3(a, b) == Same <==> |a| >= 3 && |b| >= 3 && a[..3] == b[..3]
    ensures CompareFirst3(a, b) == Differs <==>
      exists k :: 0 <= k < 3 && k < |a| && k < |b| && a[k] != b[k] && a[..k] == b[..k]
  {
    if |a| >= 3 && |b| >= 3 && a[..3] == b[..3] {
      assert a[0] == b[0] && a[1] == b[1] && a[2] == b[2];
    }
    if CompareFirst3(a, b) == Same {
      assert |a| >= 3 && |b| >= 3 && a[0] == b[0] && a[1] == b[1] && a[2] == b[2];
      assert a[..3] == b[..3];
    }
    if CompareFirst3(a, b) == Differs {
      if 0 < |a| && 0 < |b| && a[0] != b[0] {
        assert a[..0] == b[..0];
      } else if 1 < |a| && 1 < |b| && a[1] != b[1] {
        assert a[..1] == b[..1];
      } else {
        assert a[..2] == b[..2];
      }
    }
    if exists k :: 0 <= k < 3 && k < |a| && k < |b| && a[k] != b[k] && a[..k] == b[..k] {
      var k :| 0 <= k < 3 && k < |a| && k < |b| && a[k] != b[k] && a[..k] == b[..k];
      assert forall j :: 0 <= j < k ==> a[j] == a[..k][j] && b[j] == b[..k][j];
    }
  }

  /** The data-row comparison loop from row i on: the first row that does not
      compare Same decides. */
  function CompareRowsFrom(f: Table, p: Table, i: nat): Comparison
    requires |f| == |p|
    decreases |f| - i
  {
    if i >= |f| then Same
    else match CompareFirst3(f[i], p[i])
      case Same => CompareRowsFrom(f, p, i + 1)
      case other => other
  }

  lemma {:induction false} CompareRowsFromSame(f: Table, p: Table, i: nat)
    requires |f| == |p|
    ensures CompareRowsFrom(f, p, i) == Same <==>
      forall k :: i <= k < |f| ==> CompareFirst3(f[k], p[k]) == Same
    decreases |f| - i
  {
    if i < |f| {
      CompareRowsFromSame(f, p, i + 1);
    }
  }

  method CheckRows(f: Table, p: Table) returns (c: Comparison)
    requires |f| == |p|
    ensures c == CompareRowsFrom(f, p, 1)
  {
    var i := 1;
    while i < |f|
      invariant 1 <= i && (i == 1 || i <= |f|)
      invariant CompareRowsFrom(f, p, i) == CompareRowsFrom(f, p, 1)
    {
      var r := CompareFirst3(f[i], p[i]);
      if r != Same {
        return r;
      }
      i := i + 1;
    }
    return Same;
  }

  // ---------------------------------------------------------------------------
  // update_annual_return_and_risk as written

  /** Row `row` with its annual_return and risk cells set from pctRow. */
  function StatsRow(row: Row, pctRow: Row, ar: nat, rk: nat,
                    pow: (real, real) -> real, root: real -> real): Row
    requires |row| > Max(ar, rk)
  {
    var rs := RowChanges(pctRow);
    row[ar := ReturnCell(rs, pow)][rk := RiskCell(rs, root)]
  }

  /** A portfolio row the update loop visits that is too short for one of the
      two columns (the assignment raises IndexError). */
  predicate ShortAt(portfolio: Table, pct: Table, ar: nat, rk: nat, i: nat)
  {
    1 <= i < |portfolio| && i < |pct| && |portfolio[i]| <= Max(ar, rk)
  }

  /** The update loop's body for row i: the statistics of
      percentage-change row i, whatever portfolio row i is. */
  function StatsStep(pct: Table, ar: nat, rk: nat,
                     pow: (real, real) -> real, root: real -> real): (nat, Row) -> Row
  {
    (i, row) => StatsAt(pct, i, row, ar, rk, pow, root)
  }

  /** Row i after the update loop's body, when that body does not raise. */
  function StatsAt(pct: Table, i: int, row: Row, ar: nat, rk: nat,
                   pow: (real, real) -> real, root: real -> real): Row
  {
    if 0 <= i < |pct| && |row| > Max(ar, rk) then StatsRow(row, pct[i], ar, rk, pow, root) else row
  }

  /** The update loop: a row too short raises, otherwise every row with a
      percentage-change row of the same position gets its statistics. */
  function FillStats(portfolio: Table, pct: Table, ar: nat, rk: nat,
                     pow: (real, real) -> real, root: real -> real): Outcome
    requires portfolio != []
  {
    if exists i :: 1 <= i < |portfolio| && ShortAt(portfolio, pct, ar, rk, i) then Raised
    else Written(MapData(portfolio, StatsStep(pct, ar, rk, pow, root), |portfolio|))
  }

  /** Where the checks of update_annual_return_and_risk leave the update:
      either it goes on with the annual_return and risk columns, or it ends
      with the given outcome. */
  datatype Gate = Proceed(ar: nat, rk: nat) | Stop(result: Outcome)

  /** The checks before the update loop. Nothing is written when either table
      is empty, when the first three header names differ, when the non-blank
      portfolio rows and the percentage-change rows differ in number, when a
      data row's first three cells differ, or when a column is missing; an
      IndexError escapes when every portfolio row is blank or a compared row
      has fewer than three cells. */
  function ReturnRiskGate(portfolio: Table, pct: Table): (g: Gate)
    ensures g.Stop? ==> !g.result.Written?
    ensures g.Proceed? ==>
      portfolio != [] && pct != [] && |NonBlankRows(portfolio)| == |pct|
      && CompareFirst3(NonBlankRows(portfolio)[0], pct[0]) == Same
      && CompareRowsFrom(NonBlankRows(portfolio), pct, 1) == Same
      && LastIndex(portfolio[0], "annual_return") == Some(g.ar)
      && LastIndex(portfolio[0], "risk") == Some(g.rk)
  {
    if portfolio == [] || pct == [] then Stop(Skipped)
    else
      var filtered := NonBlankRows(portfolio);
      if filtered == [] then Stop(Raised)
      else match CompareFirst3(filtered[0], pct[0])
        case Fails => Stop(Raised)
        case Differs => Stop(Skipped)
        case Same =>
          if |filtered| != |pct| then Stop(Skipped)
          else match CompareRowsFrom(filtered, pct, 1)
            case Fails => Stop(Raised)
            case Differs => Stop(Skipped)
            case Same =>
              var ar := LastIndex(portfolio[0], "annual_return");
              var rk := LastIndex(portfolio[0], "risk");
              if ar.None? || rk.None? then Stop(Skipped)
              else Proceed(ar.value, rk.value)
  }

  /** update_annual_return_and_risk minus the file I/O, as written: after the
      checks, which run on the portfolio without its blank rows, the update
      loop pairs the rows of the unfiltered portfolio with the
      percentage-change rows by position. */
  function ReturnRiskUpdate(portfolio: Table, pct: Table,
                            pow: (real, real) -> real, root: real -> real): Outcome
  {
    match ReturnRiskGate(portfolio, pct)
    case Stop(result) => result
    case Proceed(ar, rk) => FillStats(portfolio, pct, ar, rk, pow, root)
  }

  /** One asset: its statistics are computed, then written into its row. */
  method UpdateRow(pct: Table, i: nat, row: Row, ar: nat, rk: nat,
                   pow: (real, real) -> real, root: real -> real) returns (updated: Row)
    requires i < |pct| && |row| > Max(ar, rk)
    ensures updated == StatsAt(pct, i, row, ar, rk, pow, root)
  {
    var ret, risk := AssetCells(pct[i], pow, root);
    updated := row[ar := ret][rk := risk];
  }

  /** The update loop of update_annual_return_and_risk. */
  method UpdateRows(portfolio: Table, pct: Table, ar: nat, rk: nat,
                    pow: (real, real) -> real, root: real -> real) returns (out: Outcome)
    requires portfolio != []
    ensures out == FillStats(portfolio, pct, ar, rk, pow, root)
  {
    var filled := RunUpdates(portfolio, pct, ar, rk, pow, root, StatsStep(pct, ar, rk, pow, root));
    if filled.None? {
      return Raised;
    }
    out := Written(filled.value);
  }

  /** f computes, for each data row, what the update loop's body leaves in
      it. Stated through StatsAt so that the loop's proof does not unfold
      the statistics themselves. */
  ghost predicate IsStatsStep(f: (nat, Row) -> Row, pct: Table, ar: nat, rk: nat,
                              pow: (real, real) -> real, root: real -> real)
  {
    forall j: nat, row: Row {:trigger StatsAt(pct, j, row, ar, rk, pow, root)} ::
      f(j, row) == StatsAt(pct, j, row, ar, rk, pow, root)
  }

  /** The update loop itself: None when some data row is too short. */
  method RunUpdates(portfolio: Table, pct: Table, ar: nat, rk: nat,
                    pow: (real, real) -> real, root: real -> real,
                    ghost f: (nat, Row) -> Row) returns (filled: Option<Table>)
    requires portfolio != []
    requires IsStatsStep(f, pct, ar, rk, pow, root)
    ensures filled.None? <==> exists j :: 1 <= j < |portfolio| && ShortAt(portfolio, pct, ar, rk, j)
    ensures filled.Some? ==> filled.value == MapData(portfolio, f, |portfolio|)
  {
    var table := portfolio;
    var i := 1;
    while i < |portfolio|
      invariant 1 <= i <= |portfolio|
      invariant forall j :: 1 <= j < i ==> !ShortAt(portfolio, pct, ar, rk, j)
      invariant table == MapData(portfolio, f, i) + portfolio[i..]
    {
      var next := UpdateStep(portfolio, pct, ar, rk, pow, root, f, i, table);
      if next.None? {
        return None;
      }
      table := next.value;
      i := i + 1;
    }
    assert portfolio[i..] == [];
    return Some(table);
  }

  /** One pass of the update loop over data row i: None for the IndexError
      a row too short for either column raises. */
  method UpdateStep(portfolio: Table, pct: Table, ar: nat, rk: nat,
                    pow: (real, real) -> real, root: real -> real,
                    ghost f: (nat, Row) -> Row, i: nat, table: Table)
    returns (next: Option<Table>)
    requires IsStatsStep(f, pct, ar, rk, pow, root)
    requires 1 <= i < |portfolio|
    requires table == MapData(portfolio, f, i) + portfolio[i..]
    ensures next.None? <==> ShortAt(portfolio, pct, ar, rk, i)
    ensures next.Some? ==> next.value == MapData(portfolio, f, i + 1) + portfolio[i + 1..]
  {
    var row := table[i];
    MapDataNext(portfolio, f, i, table);
    assert f(i, row) == StatsAt(pct, i, row, ar, rk, pow, root);
    if i < |pct| {
      if ar >= |row| || rk >= |row| {
        return None;
      }
      var updated := UpdateRow(pct, i, row, ar, rk, pow, root);
      return Some(table[i := updated]);
    }
    return Some(table);
  }

  method UpdateAnnualReturnAndRisk(portfolio: Table, pct: Table,
                                   pow: (real, real) -> real, root: real -> real)
    returns (out: Outcome)
    ensures out == ReturnRiskUpdate(portfolio, pct, pow, root)
  {
    if portfolio == [] || pct == [] {
      return Skipped;
    }
    var filtered := NonBlankRows(portfolio);
    if filtered == [] {
      return Raised;
    }
    var head := CompareFirst3(filtered[0], pct[0]);
    if head == Fails {
      return Raised;
    } else if head == Differs {
      return Skipped;
    }
    if |filtered| != |pct| {
      return Skipped;
    }
    var rowsCheck := CheckRows(filtered, pct);
    if rowsCheck == Fails {
      return Raised;
    } else if rowsCheck == Differs {
      return Skipped;
    }
    var ks := ScanLastAll(portfolio[0], ["annual_return", "risk"]);
    if ks[0].None? || ks[1].None? {
      return Skipped;
    }
    out := UpdateRows(portfolio, pct, ks[0].value, ks[1].value, pow, root);
  }

  /** As written, data row i takes the statistics of percentage-change row i
      when there is one and is left alone otherwise; the header and the row
      count stay. */
  lemma {:induction false} ReturnRiskCells(portfolio: Table, pct: Table,
                        pow: (real, real) -> real, root: real -> real, i: nat)
    requires ReturnRiskUpdate(portfolio, pct, pow, root).Written?
    requires 1 <= i < |portfolio|
    ensures var out := ReturnRiskUpdate(portfolio, pct, pow, root).rows;
      var g := ReturnRiskGate(portfolio, pct);
      g.Proceed? && |out| == |portfolio| && out[0] == portfolio[0]
      && (i < |pct| ==> |portfolio[i]| > Max(g.ar, g.rk)
                        && out[i] == StatsRow(portfolio[i], pct[i], g.ar, g.rk, pow, root))
      && (i >= |pct| ==> out[i] == portfolio[i])
  {
    var g := ReturnRiskGate(portfolio, pct);
    MapDataAt(portfolio, StatsStep(pct, g.ar, g.rk, pow, root), |portfolio|, i);
    assert !ShortAt(portfolio, pct, g.ar, g.rk, i);
  }

  /** A portfolio whose two assets are separated by the given row, and the
      percentage-change table of those assets (no daily changes yet). */
  function GapWith(between: Row): Table
  {
    [["name", "id", "type", "annual_return", "risk"],
     ["a", "1", "s", "", ""],
     between,
     ["b", "2", "s", "", ""]]
  }

  /** A line of empty cells (",,,,") between the assets. */
  function GapPortfolio(): Table
  {
    GapWith(["", "", "", "", ""])
  }

  /** A truly empty line between the assets, which csv.reader reads as []. */
  function EmptyLinePortfolio(): Table
  {
    GapWith([])
  }

  function GapChanges(): Table
  {
    [["name", "id", "type"], ["a", "1", "s"], ["b", "2", "s"]]
  }

  /** With a blank row between the assets, the example passes every check. */
  lemma {:induction false} GapPasses(between: Row)
    requires BlankRow(between)
    ensures ReturnRiskGate(GapWith(between), GapChanges()) == Proceed(3, 4)
  {
    var portfolio := GapWith(between);
    var pct := GapChanges();
    GapFiltered(between);
    var f := NonBlankRows(portfolio);
    assert f == [portfolio[0], portfolio[1], portfolio[3]];
    assert CompareFirst3(f[0], pct[0]) == Same;
    assert CompareFirst3(f[1], pct[1]) == Same;
    assert CompareFirst3(f[2], pct[2]) == Same;
    assert CompareRowsFrom(f, pct, 3) == Same;
    assert CompareRowsFrom(f, pct, 2) == Same;
    assert CompareRowsFrom(f, pct, 1) == Same;
    assert LastIndex(portfolio[0], "annual_return") == Some(3);
    assert LastIndex(portfolio[0], "risk") == Some(4);
  }

  /** The checks see the example without its blank row. */
  lemma {:induction false} GapFiltered(between: Row)
    requires BlankRow(between)
    ensures NonBlankRows(GapWith(between)) == [GapWith(between)[0], GapWith(between)[1], GapWith(between)[3]]
  {
    var portfolio := GapWith(between);
    assert Strip("name") == "name" && Strip("a") == "a" && Strip("b") == "b";
    assert !IsBlank(portfolio[0][0]) && !IsBlank(portfolio[1][0]) && !IsBlank(portfolio[3][0]);
    assert BlankRow(portfolio[2]);
    assert portfolio[..4][..3] == portfolio[..3];
    assert portfolio[..3][..2] == portfolio[..2];
    assert portfolio[..2][..1] == portfolio[..1];
    assert portfolio[..1][..0] == [];
    assert NonBlankRows(portfolio[..1]) == [portfolio[0]];
    assert NonBlankRows(portfolio[..2]) == [portfolio[0], portfolio[1]];
    assert NonBlankRows(portfolio[..3]) == [portfolio[0], portfolio[1]];
    assert portfolio[..4] == portfolio;
  }

  /** A truly empty line between the assets passes the checks too, but the
      update loop then writes into the empty row: IndexError. */
  lemma {:induction false} EmptyLineRaises(pow: (real, real) -> real, root: real -> real)
    ensures ReturnRiskGate(EmptyLinePortfolio(), GapChanges()).Proceed?
    ensures ReturnRiskUpdate(EmptyLinePortfolio(), GapChanges(), pow, root) == Raised
  {
    GapPasses([]);
    assert ShortAt(EmptyLinePortfolio(), GapChanges(), 3, 4, 2);
  }

  /** A line of empty cells between two assets shifts the statistics: the
      checks skip the blank row, the update loop does not, so the blank row
      gets the second asset's figures and the second asset keeps its old
      cells. */
  lemma {:induction false} MisalignedBlankRow(pow: (real, real) -> real, root: real -> real)
    ensures var out := ReturnRiskUpdate(GapPortfolio(), GapChanges(), pow, root);
      out.Written? && out.rows[2] == ["", "", "", "0%", "0%"]
      && out.rows[3] == GapPortfolio()[3]
  {
    var portfolio := GapPortfolio();
    var pct := GapChanges();
    MisalignedWritten(pow, root);
    GapStats(portfolio[2], pow, root);
    ReturnRiskCells(portfolio, pct, pow, root, 2);
    ReturnRiskCells(portfolio, pct, pow, root, 3);
  }

  /** The update as written writes the example. */
  lemma {:induction false} MisalignedWritten(pow: (real, real) -> real, root: real -> real)
    ensures ReturnRiskUpdate(GapPortfolio(), GapChanges(), pow, root).Written?
  {
    var portfolio := GapPortfolio();
    var pct := GapChanges();
    GapPasses(portfolio[2]);
    forall i | 1 <= i < |portfolio|
      ensures !ShortAt(portfolio, pct, 3, 4, i)
    {
    }
  }

  // ---------------------------------------------------------------------------
  // update_annual_return_and_risk with the rows paired as the checks pair them

  /** The position of portfolio row i among the non-blank rows. */
  function Rank(rows: Table, i: nat): nat
    requires i <= |rows|
  {
    |NonBlankRows(rows[..i])|
  }

  /** The non-blank rows of a prefix are a prefix of the non-blank rows. */
  lemma {:induction false} NonBlankPrefix(rows: Table, i: nat)
    requires i <= |rows|
    ensures Rank(rows, i) <= |NonBlankRows(rows)|
    ensures NonBlankRows(rows)[..Rank(rows, i)] == NonBlankRows(rows[..i])
    decreases |rows|
  {
    if i < |rows| {
      var init := rows[..|rows| - 1];
      assert init[..i] == rows[..i];
      NonBlankPrefix(init, i);
    } else {
      assert rows[..i] == rows;
    }
  }

  /** A non-blank row sits in the filtered table at its rank. */
  lemma {:induction false} NonBlankRank(rows: Table, i: nat)
    requires i < |rows| && !BlankRow(rows[i])
    ensures Rank(rows, i) < |NonBlankRows(rows)|
    ensures NonBlankRows(rows)[Rank(rows, i)] == rows[i]
  {
    var pre := rows[..i + 1];
    assert pre[..|pre| - 1] == rows[..i];
    assert NonBlankRows(pre) == NonBlankRows(rows[..i]) + [rows[i]];
    NonBlankPrefix(rows, i + 1);
    assert NonBlankRows(rows)[..Rank(rows, i + 1)][Rank(rows, i)] == rows[i];
  }

  /** Without blank rows, every row keeps its position. */
  lemma {:induction false} NoBlankRows(rows: Table)
    requires forall i :: 0 <= i < |rows| ==> !BlankRow(rows[i])
    ensures NonBlankRows(rows) == rows
  {
    if rows != [] {
      NoBlankRows(rows[..|rows| - 1]);
      assert rows[..|rows| - 1] + [rows[|rows| - 1]] == rows;
    }
  }

  /** Row i after the corrected update: a non-blank data row takes the
      statistics of the percentage-change row at its own position among the
      non-blank rows; blank rows stay as they are. */
  function AlignedAt(portfolio: Table, pct: Table, i: int, row: Row, ar: nat, rk: nat,
                     pow: (real, real) -> real, root: real -> real): Row
  {
    if 0 <= i <= |portfolio| && !BlankRow(row) && 1 <= Rank(portfolio, i) < |pct|
       && |row| > Max(ar, rk)
    then StatsRow(row, pct[Rank(portfolio, i)], ar, rk, pow, root)
    else row
  }

  function AlignedStep(portfolio: Table, pct: Table, ar: nat, rk: nat,
                       pow: (real, real) -> real, root: real -> real): (nat, Row) -> Row
  {
    (i, row) => AlignedAt(portfolio, pct, i, row, ar, rk, pow, root)
  }

  /** A non-blank data row the corrected loop visits that is too short for
      one of the two columns. */
  predicate AlignedShortAt(portfolio: Table, pct: Table, ar: nat, rk: nat, i: nat)
  {
    1 <= i < |portfolio| && !BlankRow(portfolio[i]) && 1 <= Rank(portfolio, i) < |pct|
    && |portfolio[i]| <= Max(ar, rk)
  }

  function AlignedFill(portfolio: Table, pct: Table, ar: nat, rk: nat,
                       pow: (real, real) -> real, root: real -> real): Outcome
    requires portfolio != []
  {
    if exists i :: 1 <= i < |portfolio| && AlignedShortAt(portfolio, pct, ar, rk, i) then Raised
    else Written(MapData(portfolio, AlignedStep(portfolio, pct, ar, rk, pow, root), |portfolio|))
  }

  /** update_annual_return_and_risk with the update loop running over the
      same non-blank rows the checks compared. */
  function AlignedReturnRisk(portfolio: Table, pct: Table,
                             pow: (real, real) -> real, root: real -> real): Outcome
  {
    match ReturnRiskGate(portfolio, pct)
    case Stop(result) => result
    case Proceed(ar, rk) => AlignedFill(portfolio, pct, ar, rk, pow, root)
  }

  /** Every asset row gets the statistics of the percentage-change row with
      the same name, id and type; blank rows stay blank. */
  lemma {:induction false} AlignedCells(portfolio: Table, pct: Table,
                     pow: (real, real) -> real, root: real -> real, i: nat)
    requires AlignedReturnRisk(portfolio, pct, pow, root).Written?
    requires 1 <= i < |portfolio|
    ensures var out := AlignedReturnRisk(portfolio, pct, pow, root).rows;
      var g := ReturnRiskGate(portfolio, pct);
      g.Proceed? && |out| == |portfolio| && out[0] == portfolio[0]
      && (BlankRow(portfolio[i]) ==> out[i] == portfolio[i])
      && (!BlankRow(portfolio[i]) && Rank(portfolio, i) >= 1 ==>
            var r := Rank(portfolio, i);
            r < |pct| && |portfolio[i]| >= 3 && |pct[r]| >= 3
            && portfolio[i][..3] == pct[r][..3]
            && |portfolio[i]| > Max(g.ar, g.rk)
            && out[i] == StatsRow(portfolio[i], pct[r], g.ar, g.rk, pow, root))
  {
    var g := ReturnRiskGate(portfolio, pct);
    MapDataAt(portfolio, AlignedStep(portfolio, pct, g.ar, g.rk, pow, root), |portfolio|, i);
    if !BlankRow(portfolio[i]) && Rank(portfolio, i) >= 1 {
      var filtered := NonBlankRows(portfolio);
      var r := Rank(portfolio, i);
      NonBlankRank(portfolio, i);
      CompareRowsFromSame(filtered, pct, 1);
      CompareFirst3Spec(filtered[r], pct[r]);
      assert !AlignedShortAt(portfolio, pct, g.ar, g.rk, i);
    }
  }

  /** On the example with a blank line, the corrected update leaves the blank
      row alone and gives the second asset its own figures. */
  lemma {:induction false} AlignedGap(pow: (real, real) -> real, root: real -> real)
    ensures var out := AlignedReturnRisk(GapPortfolio(), GapChanges(), pow, root);
      out.Written? && out.rows[2] == GapPortfolio()[2]
      && out.rows[3] == ["b", "2", "s", "0%", "0%"]
  {
    var portfolio := GapPortfolio();
    var pct := GapChanges();
    AlignedGapWritten(pow, root);
    GapRanks();
    GapStats(portfolio[3], pow, root);
    AlignedCells(portfolio, pct, pow, root, 2);
    AlignedCells(portfolio, pct, pow, root, 3);
  }

  /** The two assets of the example rank first and second. */
  lemma {:induction false} GapRanks()
    ensures BlankRow(GapPortfolio()[2]) && !BlankRow(GapPortfolio()[3])
    ensures Rank(GapPortfolio(), 1) == 1 && Rank(GapPortfolio(), 3) == 2
  {
    var portfolio := GapPortfolio();
    GapFiltered(portfolio[2]);
    assert BlankRow(portfolio[2]);
    assert Strip("a") == "a" && Strip("b") == "b";
    assert !IsBlank(portfolio[1][0]) && !IsBlank(portfolio[3][0]);
    NonBlankPrefix(portfolio, 1);
    NonBlankPrefix(portfolio, 3);
  }

  /** The corrected update writes the example. */
  lemma {:induction false} AlignedGapWritten(pow: (real, real) -> real, root: real -> real)
    ensures AlignedReturnRisk(GapPortfolio(), GapChanges(), pow, root).Written?
  {
    var portfolio := GapPortfolio();
    var pct := GapChanges();
    GapPasses(portfolio[2]);
    GapRanks();
    forall i | 1 <= i < |portfolio|
      ensures !AlignedShortAt(portfolio, pct, 3, 4, i)
    {
    }
  }

  /** A row of five cells given the statistics of the example's second
      asset, which has no daily changes, gets 0% for both. */
  lemma {:induction false} GapStats(row: Row, pow: (real, real) -> real, root: real -> real)
    requires |row| == 5
    ensures StatsRow(row, GapChanges()[2], 3, 4, pow, root) == row[..3] + ["0%", "0%"]
  {
    assert RowChanges(GapChanges()[2]) == [];
  }

  /** Without blank rows the correction changes nothing. */
  lemma {:induction false} AlignedAgrees(portfolio: Table, pct: Table,
                      pow: (real, real) -> real, root: real -> real)
    requires forall i :: 0 <= i < |portfolio| ==> !BlankRow(portfolio[i])
    ensures AlignedReturnRisk(portfolio, pct, pow, root) == ReturnRiskUpdate(portfolio, pct, pow, root)
  {
    var g := ReturnRiskGate(portfolio, pct);
    if g.Proceed? {
      forall i | 0 <= i <= |portfolio|
        ensures Rank(portfolio, i) == i
      {
        NoBlankRows(portfolio[..i]);
      }
      forall i | 1 <= i < |portfolio|
        ensures AlignedShortAt(portfolio, pct, g.ar, g.rk, i) == ShortAt(portfolio, pct, g.ar, g.rk, i)
        ensures AlignedStep(portfolio, pct, g.ar, g.rk, pow, root)(i, portfolio[i])
                == StatsStep(pct, g.ar, g.rk, pow, root)(i, portfolio[i])
      {
      }
      MapDataSame(portfolio, AlignedStep(portfolio, pct, g.ar, g.rk, pow, root),
                  StatsStep(pct, g.ar, g.rk, pow, root), |portfolio|);
    }
  }
}

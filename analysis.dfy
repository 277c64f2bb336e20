/** portfolio_analysis.py: the Pearson correlation between the daily changes
    of every pair of assets, the weighted annual return of the portfolio, and
    its risk as the square root of the mean-variance double sum. math.sqrt is
    the parameter root. */
module Analysis {
  import opened Text
  import opened Sheets
  import opened ReturnRisk

  // ---------------------------------------------------------------------------
  // calculate_correlation

  function Product(x: real, y: real): real
  {
    x * y
  }

  /** The sum over the first n positions of the products of the deviations of
      a from ma and of b from mb. */
  function CrossDeviations(a: seq<real>, b: seq<real>, ma: real, mb: real, n: nat): real
    requires n <= |a| && n <= |b|
  {
    if n == 0 then 0.0
    else CrossDeviations(a, b, ma, mb, n - 1) + Product(a[n - 1] - ma, b[n - 1] - mb)
  }

  /** What is assumed of math.sqrt: a positive argument has a positive root. */
  ghost predicate PositiveRoot(root: real -> real)
  {
    forall x: real :: x > 0.0 ==> root(x) > 0.0
  }

  /** What a true square root does besides: it is the non-negative number
      whose square is x. */
  ghost predicate IsSquareRoot(root: real -> real)
  {
    forall x: real :: x >= 0.0 ==> root(x) >= 0.0 && Product(root(x), root(x)) == x
  }

  lemma {:induction false} ProductPositive(x: real, y: real)
    requires x > 0.0 && y > 0.0
    ensures Product(x, y) > 0.0
  {
  }

  /** calculate_correlation: the covariance over the product of the roots of
      the two sums of squared deviations; 0.0 for series of different or zero
      length and for a series that never moves. */
  function Correlation(a: seq<real>, b: seq<real>, root: real -> real): (r: real)
    requires PositiveRoot(root)
    ensures |a| != |b| || |a| == 0 ==> r == 0.0
    ensures |a| == |b| > 0 && (SquaredDeviations(a, Mean(a)) == 0.0 || SquaredDeviations(b, Mean(b)) == 0.0)
            ==> r == 0.0
  {
    if |a| != |b| || |a| == 0 then 0.0
    else
      var ma := Mean(a);
      var mb := Mean(b);
      var va := SquaredDeviations(a, ma);
      var vb := SquaredDeviations(b, mb);
      if va == 0.0 || vb == 0.0 then 0.0
      else
        SquaredDeviationsNonNegative(a, ma);
        SquaredDeviationsNonNegative(b, mb);
        ProductPositive(root(va), root(vb));
        CrossDeviations(a, b, ma, mb, |a|) / Product(root(va), root(vb))
  }

  lemma {:induction false} CrossDeviationsSymmetric(a: seq<real>, b: seq<real>, ma: real, mb: real, n: nat)
    requires n <= |a| && n <= |b|
    ensures CrossDeviations(a, b, ma, mb, n) == CrossDeviations(b, a, mb, ma, n)
  {
    if n > 0 {
      CrossDeviationsSymmetric(a, b, ma, mb, n - 1);
    }
  }

  /** The correlation does not depend on the order of the two series. */
  lemma {:induction false} CorrelationSymmetric(a: seq<real>, b: seq<real>, root: real -> real)
    requires PositiveRoot(root)
    ensures Correlation(a, b, root) == Correlation(b, a, root)
  {
    if |a| == |b| && |a| > 0 {
      CrossDeviationsSymmetric(a, b, Mean(a), Mean(b), |a|);
    }
  }

  lemma {:induction false} CrossDeviationsSelf(a: seq<real>, m: real, n: nat)
    requires n <= |a|
    ensures CrossDeviations(a, a, m, m, n) == SquaredDeviations(a[..n], m)
  {
    if n > 0 {
      CrossDeviationsSelf(a, m, n - 1);
      assert a[..n][..n - 1] == a[..n - 1];
    }
  }

  lemma {:induction false} SquareRootPositive(root: real -> real)
    requires IsSquareRoot(root)
    ensures PositiveRoot(root)
  {
    forall x: real | x > 0.0
      ensures root(x) > 0.0
    {
      assert Product(root(x), root(x)) == x;
    }
  }

  /** With a true square root, a series that moves is perfectly correlated
      with itself: the 1.0 the matrix puts on its diagonal is what
      calculate_correlation would give there. */
  lemma {:induction false} SelfCorrelation(a: seq<real>, root: real -> real)
    requires IsSquareRoot(root) && a != [] && SquaredDeviations(a, Mean(a)) != 0.0
    ensures PositiveRoot(root) && Correlation(a, a, root) == 1.0
  {
    SquareRootPositive(root);
    var m := Mean(a);
    var v := SquaredDeviations(a, m);
    CrossDeviationsSelf(a, m, |a|);
    assert a[..|a|] == a;
    SquaredDeviationsNonNegative(a, m);
    assert Product(root(v), root(v)) == v;
    assert CrossDeviations(a, a, m, m, |a|) == v;
    assert Correlation(a, a, root) == v / Product(root(v), root(v));
    assert v / v == 1.0;
  }

  // ---------------------------------------------------------------------------
  // asset_correlation_analysis: reading the changes

  /** A change cell as a number: empty and unreadable cells count as 0.0. */
  function ChangeValue(cell: string): real
  {
    if cell == "" then 0.0
    else match ParsePercent(cell)
      case Some(x) => x
      case None => 0.0
  }

  /** The numbers read from the cells 3 .. k - 1 of a row. */
  function SeriesUpTo(row: Row, k: nat): (s: seq<real>)
    requires k <= |row|
    ensures |s| == if k > 3 then k - 3 else 0
  {
    if k <= 3 then [] else SeriesUpTo(row, k - 1) + [ChangeValue(row[k - 1])]
  }

  /** Entry j of the series is the change read from cell 3 + j. */
  lemma {:induction false} SeriesAt(row: Row, k: nat, j: nat)
    requires k <= |row| && j < |SeriesUpTo(row, k)|
    ensures SeriesUpTo(row, k)[j] == ChangeValue(row[3 + j])
  {
    if j < k - 4 {
      SeriesAt(row, k - 1, j);
    }
  }

  /** The changes of one asset: one number per cell from index 3 on. */
  function Series(row: Row): seq<real>
  {
    SeriesUpTo(row, |row|)
  }

  method ReadSeries(row: Row) returns (s: seq<real>)
    ensures s == Series(row)
  {
    s := [];
    var i := 3;
    while i < |row|
      invariant 3 <= i && (i == 3 || i <= |row|)
      invariant s == SeriesUpTo(row, if i <= |row| then i else |row|)
    {
      var v := ReadChange(row[i]);
      s := s + [v];
      i := i + 1;
    }
  }

  method ReadChange(cell: string) returns (v: real)
    ensures v == ChangeValue(cell)
  {
    if cell != "" {
      var p := ParsePercent(cell);
      if p.Some? {
        return p.value;
      }
    }
    return 0.0;
  }

  /** The assets_data dictionary: the names in the order they were first
      inserted, and the series each name maps to. */
  datatype Assets = Assets(names: seq<string>, data: map<string, seq<real>>)

  predicate WellFormed(a: Assets)
  {
    Distinct(a.names)
    && (forall n :: n in a.data ==> n in a.names)
    && (forall n :: n in a.names ==> n in a.data)
  }

  /** assets_data[row[0]] = returns: a new name goes to the end of the key
      order, a name seen before keeps its place and takes the new series. */
  function Record(a: Assets, row: Row): Assets
    requires row != []
  {
    Assets(if row[0] in a.data then a.names else a.names + [row[0]], a.data[row[0] := Series(row)])
  }

  /** The dictionary after the data rows 1 .. k - 1; None once one of them is
      empty, where row[0] raises IndexError. Otherwise every key is listed
      once among the names. */
  function AssetsUpTo(rows: Table, k: nat): (r: Option<Assets>)
    requires 1 <= k <= |rows|
    ensures r.None? <==> exists j :: 1 <= j < k && rows[j] == []
    ensures r.Some? ==> WellFormed(r.value)
  {
    if k == 1 then Some(Assets([], map[]))
    else match AssetsUpTo(rows, k - 1)
      case None => None
      case Some(a) => if rows[k - 1] == [] then None else Some(Record(a, rows[k - 1]))
  }

  /** The last of the data rows 1 .. k - 1 whose name is n. */
  function LastRow(rows: Table, k: nat, n: string): (r: Option<nat>)
    requires k <= |rows|
    ensures r.Some? ==> 1 <= r.value < k && rows[r.value] != [] && rows[r.value][0] == n
                        && forall m :: r.value < m < k ==> rows[m] == [] || rows[m][0] != n
    ensures r.None? ==> forall j :: 1 <= j < k && rows[j] != [] ==> rows[j][0] != n
  {
    if k <= 1 then None
    else if rows[k - 1] != [] && rows[k - 1][0] == n then Some(k - 1)
    else LastRow(rows, k - 1, n)
  }

  /** Duplicate names collapse: n is a key exactly when a data row has that
      name, and its series is that of the last such row. */
  lemma {:induction false} AssetsLookup(rows: Table, k: nat, n: string)
    requires 1 <= k <= |rows| && AssetsUpTo(rows, k).Some?
    ensures var a := AssetsUpTo(rows, k).value;
      (n in a.data <==> LastRow(rows, k, n).Some?)
      && (n in a.data ==> a.data[n] == Series(rows[LastRow(rows, k, n).value]))
  {
    if k > 1 {
      assert AssetsUpTo(rows, k - 1).Some?;
      AssetsLookup(rows, k - 1, n);
      var prev := AssetsUpTo(rows, k - 1).value;
      assert AssetsUpTo(rows, k).value == Record(prev, rows[k - 1]);
    }
  }

  method CollectAssets(rows: Table) returns (r: Option<Assets>)
    requires rows != []
    ensures r == AssetsUpTo(rows, |rows|)
  {
    var assets := Assets([], map[]);
    var i := 1;
    while i < |rows|
      invariant 1 <= i <= |rows|
      invariant AssetsUpTo(rows, i) == Some(assets)
    {
      var row := rows[i];
      if row == [] {
        assert AssetsUpTo(rows, i + 1).None?;
        AssetsNoneStays(rows, i + 1, |rows|);
        return None;
      }
      AssetsStep(rows, i + 1, assets);
      assets := RecordRow(assets, row);
      i := i + 1;
    }
    return Some(assets);
  }

  /** One iteration of the loop: the row's series under the row's name. */
  method RecordRow(a: Assets, row: Row) returns (b: Assets)
    requires row != []
    ensures b == Record(a, row)
  {
    var series := ReadSeries(row);
    var names := a.names;
    if row[0] !in a.data {
      names := names + [row[0]];
    }
    b := Assets(names, a.data[row[0] := series]);
  }

  lemma {:induction false} AssetsStep(rows: Table, k: nat, a: Assets)
    requires 2 <= k <= |rows| && AssetsUpTo(rows, k - 1) == Some(a) && rows[k - 1] != []
    ensures AssetsUpTo(rows, k) == Some(Record(a, rows[k - 1]))
  {
  }

  lemma {:induction false} AssetsNoneStays(rows: Table, k: nat, l: nat)
    requires 1 <= k <= l <= |rows| && AssetsUpTo(rows, k).None?
    ensures AssetsUpTo(rows, l).None?
  {
  }

  // ---------------------------------------------------------------------------
  // asset_correlation_analysis: the matrix

  /** Entry (i, j): 1.0 on the diagonal, the correlation elsewhere. */
  function Entry(series: seq<seq<real>>, root: real -> real, i: nat, j: nat): real
    requires i < |series| && j < |series| && PositiveRoot(root)
  {
    if i == j then 1.0 else Correlation(series[i], series[j], root)
  }

  function MatrixRow(series: seq<seq<real>>, root: real -> real, i: nat): (row: seq<real>)
    requires i < |series| && PositiveRoot(root)
    ensures |row| == |series|
  {
    seq(|series|, j requires 0 <= j < |series| => Entry(series, root, i, j))
  }

  function CorrelationMatrix(series: seq<seq<real>>, root: real -> real): (m: seq<seq<real>>)
    requires PositiveRoot(root)
    ensures |m| == |series|
  {
    seq(|series|, i requires 0 <= i < |series| => MatrixRow(series, root, i))
  }

  /** The matrix is n by n with 1.0 on its diagonal, holds the pairwise
      correlations off it, and is symmetric. */
  lemma {:induction false} MatrixShape(series: seq<seq<real>>, root: real -> real)
    requires PositiveRoot(root)
    ensures var m := CorrelationMatrix(series, root);
      |m| == |series|
      && (forall i :: 0 <= i < |m| ==> |m[i]| == |series| && m[i][i] == 1.0)
      && (forall i, j :: 0 <= i < |m| && 0 <= j < |m| && i != j ==>
            m[i][j] == Correlation(series[i], series[j], root))
      && (forall i, j :: 0 <= i < |m| && 0 <= j < |m| ==> m[i][j] == m[j][i])
  {
    var m := CorrelationMatrix(series, root);
    forall i, j | 0 <= i < |m| && 0 <= j < |m|
      ensures m[i][j] == m[j][i]
    {
      CorrelationSymmetric(series[i], series[j], root);
    }
  }

  function Zeros(n: nat): (z: seq<real>)
    ensures |z| == n && forall k :: 0 <= k < n ==> z[k] == 0.0
  {
    seq(n, _ => 0.0)
  }

  /** The nested loops that fill a matrix of zeros entry by entry. */
  method BuildMatrix(series: seq<seq<real>>, root: real -> real) returns (m: seq<seq<real>>)
    requires PositiveRoot(root)
    ensures m == CorrelationMatrix(series, root)
  {
    var n := |series|;
    m := seq(n, _ => Zeros(n));
    var i := 0;
    while i < n
      invariant 0 <= i <= n && |m| == n
      invariant forall r :: 0 <= r < i ==> m[r] == MatrixRow(series, root, r)
      invariant forall r :: i <= r < n ==> m[r] == Zeros(n)
    {
      var j := 0;
      while j < n
        invariant 0 <= j <= n && |m| == n && |m[i]| == n
        invariant forall r :: 0 <= r < i ==> m[r] == MatrixRow(series, root, r)
        invariant forall r :: i < r < n ==> m[r] == Zeros(n)
        invariant forall c :: 0 <= c < j ==> m[i][c] == Entry(series, root, i, c)
      {
        if i == j {
          m := m[i := m[i][j := 1.0]];
        } else {
          var c := Correlation(series[i], series[j], root);
          m := m[i := m[i][j := c]];
        }
        j := j + 1;
      }
      assert m[i] == MatrixRow(series, root, i);
      i := i + 1;
    }
  }

  // ---------------------------------------------------------------------------
  // asset_correlation_analysis: the whole operation

  /** The returned pair: the asset names and the matrix. */
  datatype Correlations = Correlations(names: seq<string>, matrix: seq<seq<real>>)

  function SeriesOf(a: Assets): (s: seq<seq<real>>)
    requires WellFormed(a)
    ensures |s| == |a.names| && forall i :: 0 <= i < |s| ==> s[i] == a.data[a.names[i]]
  {
    seq(|a.names|, i requires 0 <= i < |a.names| => a.data[a.names[i]])
  }

  /** None when the table has fewer than two rows (the early return) or a data
      row is empty (the exception the function catches). */
  function AssetCorrelation(rows: Table, root: real -> real): Option<Correlations>
    requires PositiveRoot(root)
  {
    if |rows| < 2 then None
    else match AssetsUpTo(rows, |rows|)
      case None => None
      case Some(a) => Some(Correlations(a.names, CorrelationMatrix(SeriesOf(a), root)))
  }

  /** The numbers of a matrix row written with four decimals. */
  function FixedCells(xs: seq<real>): (cs: seq<string>)
    ensures |cs| == |xs|
  {
    seq(|xs|, j requires 0 <= j < |xs| => Fixed(xs[j], 4))
  }

  /** asset_correlationship.csv: a header of "" and the names, then one row
      per asset, its name and its correlations. */
  function CorrelationTable(c: Correlations): (t: Table)
    requires |c.matrix| == |c.names|
  {
    [[""] + c.names] + seq(|c.names|, i requires 0 <= i < |c.names| => [c.names[i]] + FixedCells(c.matrix[i]))
  }

  /** The analysis fails exactly on a table of fewer than two rows or one with
      an empty data row. Otherwise every name of a data row appears once among
      the names, the matrix is square over them with 1.0 on the diagonal, and
      entry (i, j) is the correlation of the series of the last rows named
      names[i] and names[j]; it equals entry (j, i). */
  lemma {:induction false} AssetCorrelationSpec(rows: Table, root: real -> real)
    requires PositiveRoot(root)
    ensures var r := AssetCorrelation(rows, root);
      r.None? <==> |rows| < 2 || exists j :: 1 <= j < |rows| && rows[j] == []
    ensures var r := AssetCorrelation(rows, root);
      r.Some? ==>
        var a := AssetsUpTo(rows, |rows|).value;
        var m := r.value.matrix;
        r.value.names == a.names && Distinct(a.names)
        && (forall j :: 1 <= j < |rows| ==> rows[j][0] in a.names)
        && |m| == |a.names|
        && (forall i :: 0 <= i < |m| ==> |m[i]| == |m| && m[i][i] == 1.0)
        && (forall i, j :: 0 <= i < |m| && 0 <= j < |m| && i != j ==>
              m[i][j] == Correlation(a.data[a.names[i]], a.data[a.names[j]], root))
        && (forall i, j :: 0 <= i < |m| && 0 <= j < |m| ==> m[i][j] == m[j][i])
  {
    if |rows| >= 2 && AssetsUpTo(rows, |rows|).Some? {
      var a := AssetsUpTo(rows, |rows|).value;
      MatrixShape(SeriesOf(a), root);
      forall j | 1 <= j < |rows|
        ensures rows[j][0] in a.names
      {
        AssetsLookup(rows, |rows|, rows[j][0]);
      }
    }
  }

  method AssetCorrelationAnalysis(rows: Table, root: real -> real)
    returns (r: Option<Correlations>, written: Option<Table>)
    requires PositiveRoot(root)
    ensures r == AssetCorrelation(rows, root)
    ensures r.None? ==> written.None?
    ensures r.Some? ==> |r.value.matrix| == |r.value.names| && written == Some(CorrelationTable(r.value))
  {
    if |rows| < 2 {
      return None, None;
    }
    var assets := CollectAssets(rows);
    if assets.None? {
      return None, None;
    }
    var a := assets.value;
    var m := BuildMatrix(SeriesOf(a), root);
    r := Some(Correlations(a.names, m));
    written := Some(CorrelationTable(r.value));
  }

  // ---------------------------------------------------------------------------
  // portfolio_annual_return_analysis

  /** weight * annual_return with both read as fractions of 100. */
  function Weighted(w: real, r: real): real
  {
    (w / 100.0) * (r / 100.0)
  }

  /** What one pass of the loop makes of a data row: IndexError when the row
      is too short for one of the two columns, a skipped ValueError when a
      cell does not parse, otherwise the weighted return it adds. */
  datatype Share = TooShort | Unparsed | Adds(amount: real)

  function RowShare(row: Row, pi: nat, ai: nat): Share
  {
    if |row| <= Max(pi, ai) then TooShort
    else
      var w := ParsePercent(row[pi]);
      var r := ParsePercent(row[ai]);
      if w.Some? && r.Some? then Adds(Weighted(w.value, r.value)) else Unparsed
  }

  /** The share of every row of the table, row by row. */
  function SharesOf(rows: Table, pi: nat, ai: nat): (ss: seq<Share>)
    ensures |ss| == |rows|
  {
    if rows == [] then [] else SharesOf(rows[..|rows| - 1], pi, ai) + [RowShare(rows[|rows| - 1], pi, ai)]
  }

  lemma {:induction false} ShareAt(rows: Table, pi: nat, ai: nat, j: nat)
    requires j < |rows|
    ensures SharesOf(rows, pi, ai)[j] == RowShare(rows[j], pi, ai)
  {
    var init := rows[..|rows| - 1];
    if j < |init| {
      ShareAt(init, pi, ai, j);
    }
  }

  /** The running sum over rows 1 .. k - 1; None once a row is too short
      (IndexError, which ends the function). */
  function WeightedSum(ss: seq<Share>, k: nat): (s: Option<real>)
    requires 1 <= k <= |ss|
  {
    if k == 1 then Some(0.0)
    else match WeightedSum(ss, k - 1)
      case None => None
      case Some(acc) =>
        match ss[k - 1]
        case TooShort => None
        case Unparsed => Some(acc)
        case Adds(c) => Some(acc + c)
  }

  /** The sum fails exactly when some row is too short. */
  lemma {:induction false} WeightedSumFails(ss: seq<Share>, k: nat)
    requires 1 <= k <= |ss|
    ensures WeightedSum(ss, k).None? <==> exists j :: 1 <= j < k && ss[j].TooShort?
  {
    if k > 1 {
      WeightedSumFails(ss, k - 1);
    }
  }

  /** The portfolio return in percent: 100 times the sum of the weighted
      returns of the rows that parse. */
  function PortfolioReturn(rows: Table): Option<real>
  {
    if |rows| < 2 then None
    else
      var pi := LastIndex(rows[0], "percentage");
      var ai := LastIndex(rows[0], "annual_return");
      if pi.None? || ai.None? then None
      else match WeightedSum(SharesOf(rows, pi.value, ai.value), |rows|)
        case None => None
        case Some(s) => Some(s * 100.0)
  }

  /** There is a return exactly when the table has a data row, both columns
      are in the header, and every data row reaches both. */
  lemma {:induction false} PortfolioReturnDefined(rows: Table)
    ensures PortfolioReturn(rows).Some? <==>
      |rows| >= 2 && "percentage" in rows[0] && "annual_return" in rows[0]
      && forall j :: 1 <= j < |rows| ==>
           |rows[j]| > Max(LastIndex(rows[0], "percentage").value, LastIndex(rows[0], "annual_return").value)
  {
    if |rows| >= 2 && "percentage" in rows[0] && "annual_return" in rows[0] {
      var pi := LastIndex(rows[0], "percentage").value;
      var ai := LastIndex(rows[0], "annual_return").value;
      var ss := SharesOf(rows, pi, ai);
      WeightedSumFails(ss, |rows|);
      forall j | 1 <= j < |rows|
        ensures ss[j].TooShort? <==> |rows[j]| <= Max(pi, ai)
      {
        ShareAt(rows, pi, ai, j);
      }
    }
  }

  method PortfolioAnnualReturn(rows: Table) returns (r: Option<real>)
    ensures r == PortfolioReturn(rows)
  {
    if |rows| < 2 {
      return None;
    }
    var ks := ScanLastAll(rows[0], ["percentage", "annual_return"]);
    if ks[0].None? || ks[1].None? {
      return None;
    }
    var total := SumShares(rows, ks[0].value, ks[1].value);
    if total.None? {
      return None;
    }
    return Some(total.value * 100.0);
  }

  /** The loop over the data rows. */
  method SumShares(rows: Table, pi: nat, ai: nat) returns (total: Option<real>)
    requires rows != []
    ensures total == WeightedSum(SharesOf(rows, pi, ai), |rows|)
  {
    ghost var ss := SharesOf(rows, pi, ai);
    var sum := 0.0;
    var i := 1;
    while i < |rows|
      invariant 1 <= i <= |rows|
      invariant WeightedSum(ss, i) == Some(sum)
    {
      var share := ReadShare(rows[i], pi, ai);
      ShareAt(rows, pi, ai, i);
      if share.TooShort? {
        ReturnNoneStays(ss, i + 1, |rows|);
        return None;
      }
      if share.Adds? {
        sum := sum + share.amount;
      }
      i := i + 1;
    }
    return Some(sum);
  }

  /** The body of one pass: float of both cells, Unparsed for ValueError. */
  method ReadShare(row: Row, pi: nat, ai: nat) returns (s: Share)
    ensures s == RowShare(row, pi, ai)
  {
    if |row| <= pi || |row| <= ai {
      return TooShort;
    }
    var w := ParsePercent(row[pi]);
    var a := ParsePercent(row[ai]);
    if w.Some? && a.Some? {
      return Adds(Weighted(w.value, a.value));
    }
    return Unparsed;
  }

  lemma {:induction false} ReturnNoneStays(ss: seq<Share>, k: nat, l: nat)
    requires 1 <= k <= l <= |ss| && WeightedSum(ss, k).None?
    ensures WeightedSum(ss, l).None?
    decreases l
  {
    if l > k {
      ReturnNoneStays(ss, k, l - 1);
    }
  }

  /** The sum of the weights of data rows 1 .. k - 1, in percent. */
  function TotalWeight(rows: Table, pi: nat, k: nat): real
    requires 1 <= k <= |rows|
    requires forall j :: 1 <= j < |rows| ==> pi < |rows[j]| && ParsePercent(rows[j][pi]).Some?
  {
    if k == 1 then 0.0 else TotalWeight(rows, pi, k - 1) + ParsePercent(rows[k - 1][pi]).value
  }

  lemma {:induction false} EqualReturnsSum(rows: Table, pi: nat, ai: nat, ret: real, k: nat)
    requires 1 <= k <= |rows|
    requires forall j :: 1 <= j < |rows| ==>
      pi < |rows[j]| && ai < |rows[j]| && ParsePercent(rows[j][pi]).Some? && ParsePercent(rows[j][ai]) == Some(ret)
    ensures WeightedSum(SharesOf(rows, pi, ai), k) == Some(Weighted(TotalWeight(rows, pi, k), ret))
  {
    if k > 1 {
      EqualReturnsSum(rows, pi, ai, ret, k - 1);
      var w := ParsePercent(rows[k - 1][pi]).value;
      var t := TotalWeight(rows, pi, k - 1);
      EqualShareAt(rows, pi, ai, ret, k - 1);
      assert TotalWeight(rows, pi, k) == t + w;
      EqualStep(SharesOf(rows, pi, ai), k, t, w, ret);
    }
  }

  /** One more row with return ret adds its weight to the total. */
  lemma {:induction false} EqualStep(ss: seq<Share>, k: nat, t: real, w: real, ret: real)
    requires 2 <= k <= |ss| && WeightedSum(ss, k - 1) == Some(Weighted(t, ret))
    requires ss[k - 1] == Adds(Weighted(w, ret))
    ensures WeightedSum(ss, k) == Some(Weighted(t + w, ret))
  {
    SumAdds(ss, k, Weighted(t, ret), Weighted(w, ret));
    WeightedAdd(t, w, ret);
  }

  /** A row whose return is ret adds its weight times ret. */
  lemma {:induction false} EqualShareAt(rows: Table, pi: nat, ai: nat, ret: real, j: nat)
    requires j < |rows| && pi < |rows[j]| && ai < |rows[j]|
    requires ParsePercent(rows[j][pi]).Some? && ParsePercent(rows[j][ai]) == Some(ret)
    ensures SharesOf(rows, pi, ai)[j] == Adds(Weighted(ParsePercent(rows[j][pi]).value, ret))
  {
    ShareAt(rows, pi, ai, j);
  }

  lemma {:induction false} SumAdds(ss: seq<Share>, k: nat, t: real, c: real)
    requires 2 <= k <= |ss| && WeightedSum(ss, k - 1) == Some(t) && ss[k - 1] == Adds(c)
    ensures WeightedSum(ss, k) == Some(t + c)
  {
  }

  lemma {:induction false} WeightedAdd(t: real, w: real, r: real)
    ensures Weighted(t, r) + Weighted(w, r) == Weighted(t + w, r)
  {
  }

  lemma {:induction false} WeightedWhole(r: real)
    ensures Weighted(100.0, r) * 100.0 == r
  {
  }

  /** When every asset has the same annual return and the weights add up to
      100%, the portfolio has that return. */
  lemma {:induction false} EqualReturns(rows: Table, ret: real)
    requires |rows| >= 2 && "percentage" in rows[0] && "annual_return" in rows[0]
    requires var pi := LastIndex(rows[0], "percentage").value;
      var ai := LastIndex(rows[0], "annual_return").value;
      forall j :: 1 <= j < |rows| ==>
        pi < |rows[j]| && ai < |rows[j]| && ParsePercent(rows[j][pi]).Some? && ParsePercent(rows[j][ai]) == Some(ret)
    requires TotalWeight(rows, LastIndex(rows[0], "percentage").value, |rows|) == 100.0
    ensures PortfolioReturn(rows) == Some(ret)
  {
    var pi := LastIndex(rows[0], "percentage").value;
    var ai := LastIndex(rows[0], "annual_return").value;
    var sum := WeightedSum(SharesOf(rows, pi, ai), |rows|);
    EqualReturnsSum(rows, pi, ai, ret, |rows|);
    WholeReturn(sum, ret);
  }

  /** One more data row at the end of the portfolio: a row too short for
      either column makes the analysis fail, a row whose weight or return
      does not parse leaves the return as it was, and any other row adds
      (weight / 100) * (return / 100) * 100 percentage points. */
  lemma {:induction false} ReturnAppend(rows: Table, row: Row)
    requires |rows| >= 2 && "percentage" in rows[0] && "annual_return" in rows[0]
    requires PortfolioReturn(rows).Some?
    ensures var pi := LastIndex(rows[0], "percentage").value;
      var ai := LastIndex(rows[0], "annual_return").value;
      |row| <= Max(pi, ai) ==> PortfolioReturn(rows + [row]).None?
    ensures var pi := LastIndex(rows[0], "percentage").value;
      var ai := LastIndex(rows[0], "annual_return").value;
      |row| > Max(pi, ai) && (ParsePercent(row[pi]).None? || ParsePercent(row[ai]).None?) ==>
        PortfolioReturn(rows + [row]) == PortfolioReturn(rows)
    ensures var pi := LastIndex(rows[0], "percentage").value;
      var ai := LastIndex(rows[0], "annual_return").value;
      |row| > Max(pi, ai) && ParsePercent(row[pi]).Some? && ParsePercent(row[ai]).Some? ==>
        PortfolioReturn(rows + [row])
        == Some(PortfolioReturn(rows).value + Weighted(ParsePercent(row[pi]).value, ParsePercent(row[ai]).value) * 100.0)
  {
    var pi := LastIndex(rows[0], "percentage").value;
    var ai := LastIndex(rows[0], "annual_return").value;
    var before := PortfolioReturn(rows).value;
    ReturnAppendShare(rows, row, pi, ai);
    match RowShare(row, pi, ai)
    case TooShort =>
      assert |row| <= Max(pi, ai);
    case Unparsed =>
      assert |row| > Max(pi, ai) && (ParsePercent(row[pi]).None? || ParsePercent(row[ai]).None?);
    case Adds(c) =>
      var w := ParsePercent(row[pi]).value;
      var r := ParsePercent(row[ai]).value;
      assert c == Weighted(w, r);
      WeightedPoints(before, w, r);
  }

  /** The same step in terms of what the loop makes of the new row. */
  lemma {:induction false} ReturnAppendShare(rows: Table, row: Row, pi: nat, ai: nat)
    requires |rows| >= 2 && PortfolioReturn(rows).Some?
    requires LastIndex(rows[0], "percentage") == Some(pi) && LastIndex(rows[0], "annual_return") == Some(ai)
    ensures PortfolioReturn(rows + [row]) ==
      match RowShare(row, pi, ai)
      case TooShort => None
      case Unparsed => PortfolioReturn(rows)
      case Adds(c) => Some((PortfolioReturn(rows).value / 100.0 + c) * 100.0)
  {
    SumAppend(rows, row, pi, ai);
    assert (rows + [row])[0] == rows[0];
  }

  /** Appending a row leaves the sum over the earlier rows as it was. */
  lemma {:induction false} SumAppend(rows: Table, row: Row, pi: nat, ai: nat)
    requires rows != []
    ensures WeightedSum(SharesOf(rows + [row], pi, ai), |rows|) == WeightedSum(SharesOf(rows, pi, ai), |rows|)
    ensures SharesOf(rows + [row], pi, ai)[|rows|] == RowShare(row, pi, ai)
  {
    var ss := SharesOf(rows, pi, ai);
    var tt := SharesOf(rows + [row], pi, ai);
    assert (rows + [row])[..|rows|] == rows;
    assert tt == ss + [RowShare(row, pi, ai)];
    assert tt[..|rows|] == ss[..|rows|];
    WeightedSumPrefix(ss, tt, |rows|);
  }

  /** The running sum depends only on the shares it has passed. */
  lemma {:induction false} WeightedSumPrefix(ss: seq<Share>, tt: seq<Share>, k: nat)
    requires 1 <= k <= |ss| && k <= |tt| && ss[..k] == tt[..k]
    ensures WeightedSum(ss, k) == WeightedSum(tt, k)
  {
    if k > 1 {
      assert ss[..k - 1] == ss[..k][..k - 1] && tt[..k - 1] == tt[..k][..k - 1];
      assert ss[k - 1] == ss[..k][k - 1] && tt[k - 1] == tt[..k][k - 1];
      WeightedSumPrefix(ss, tt, k - 1);
    }
  }

  lemma {:induction false} WeightedPoints(p: real, w: real, r: real)
    ensures (p / 100.0 + Weighted(w, r)) * 100.0 == p + Weighted(w, r) * 100.0
  {
  }

  /** Weights adding up to 100% give back the common return. */
  lemma {:induction false} WholeReturn(sum: Option<real>, ret: real)
    requires sum == Some(Weighted(100.0, ret))
    ensures sum.value * 100.0 == ret
  {
    WeightedWhole(ret);
  }

  // ---------------------------------------------------------------------------
  // portfolio_risk_analysis

  /** A data row the reading loop accepts: it reaches both columns and both
      cells parse. */
  predicate Readable(row: Row, pi: nat, ri: nat)
  {
    |row| > Max(pi, ri) && ParsePercent(row[pi]).Some? && ParsePercent(row[ri]).Some?
  }

  /** The asset names, weights and risks read from the portfolio, the last
      two as fractions. */
  datatype Holdings = Holdings(names: seq<string>, weights: seq<real>, risks: seq<real>)

  /** A percentage cell as a fraction. */
  function Fraction(cell: string): real
    requires ParsePercent(cell).Some?
  {
    ParsePercent(cell).value / 100.0
  }

  /** What the reading loop has gathered from data rows 1 .. k - 1; None once
      one of them cannot be read (IndexError or ValueError, both of which end
      the function). */
  function HoldingsUpTo(rows: Table, pi: nat, ri: nat, k: nat): (h: Option<Holdings>)
    requires 1 <= k <= |rows|
    ensures h.Some? ==> |h.value.names| == |h.value.weights| == |h.value.risks| == k - 1
  {
    if k == 1 then Some(Holdings([], [], []))
    else match HoldingsUpTo(rows, pi, ri, k - 1)
      case None => None
      case Some(h) =>
        var row := rows[k - 1];
        if !Readable(row, pi, ri) then None
        else Some(Holdings(h.names + [row[0]], h.weights + [Fraction(row[pi])], h.risks + [Fraction(row[ri])]))
  }

  /** Entry i of what was read comes from data row i + 1, a row the loop
      could read: its name. */
  lemma {:induction false} HoldingsAt(rows: Table, pi: nat, ri: nat, k: nat, i: nat)
    requires 1 <= k <= |rows| && HoldingsUpTo(rows, pi, ri, k).Some? && i < k - 1
    ensures Readable(rows[i + 1], pi, ri) && HoldingsUpTo(rows, pi, ri, k).value.names[i] == rows[i + 1][0]
  {
    var prev := HoldingsUpTo(rows, pi, ri, k - 1);
    assert prev.Some? && Readable(rows[k - 1], pi, ri);
    var p := prev.value;
    HoldingsStep(rows, pi, ri, k, p);
    if i < k - 2 {
      HoldingsAt(rows, pi, ri, k - 1, i);
      assert HoldingsUpTo(rows, pi, ri, k).value.names[i] == p.names[i];
    }
  }

  /** ... and its weight and risk, as fractions. */
  lemma {:induction false} HoldingsValueAt(rows: Table, pi: nat, ri: nat, k: nat, i: nat)
    requires 1 <= k <= |rows| && HoldingsUpTo(rows, pi, ri, k).Some? && i < k - 1
    requires Readable(rows[i + 1], pi, ri)
    ensures var h := HoldingsUpTo(rows, pi, ri, k).value;
      h.weights[i] == Fraction(rows[i + 1][pi]) && h.risks[i] == Fraction(rows[i + 1][ri])
  {
    var prev := HoldingsUpTo(rows, pi, ri, k - 1);
    assert prev.Some? && Readable(rows[k - 1], pi, ri);
    var p := prev.value;
    HoldingsStep(rows, pi, ri, k, p);
    var h := HoldingsUpTo(rows, pi, ri, k).value;
    if i < k - 2 {
      HoldingsValueAt(rows, pi, ri, k - 1, i);
      assert h.weights[i] == p.weights[i] && h.risks[i] == p.risks[i];
    }
  }

  lemma {:induction false} HoldingsStep(rows: Table, pi: nat, ri: nat, k: nat, h: Holdings)
    requires 2 <= k <= |rows| && HoldingsUpTo(rows, pi, ri, k - 1) == Some(h) && Readable(rows[k - 1], pi, ri)
    ensures HoldingsUpTo(rows, pi, ri, k)
         == Some(Holdings(h.names + [rows[k - 1][0]], h.weights + [Fraction(rows[k - 1][pi])],
                          h.risks + [Fraction(rows[k - 1][ri])]))
  {
  }

  /** The reading fails exactly when some data row cannot be read. */
  lemma {:induction false} HoldingsFail(rows: Table, pi: nat, ri: nat, k: nat)
    requires 1 <= k <= |rows|
    ensures HoldingsUpTo(rows, pi, ri, k).None? <==> exists j :: 1 <= j < k && !Readable(rows[j], pi, ri)
  {
    if k > 1 {
      HoldingsFail(rows, pi, ri, k - 1);
    }
  }

  lemma {:induction false} HoldingsNoneStays(rows: Table, pi: nat, ri: nat, k: nat, l: nat)
    requires 1 <= k <= l <= |rows| && HoldingsUpTo(rows, pi, ri, k).None?
    ensures HoldingsUpTo(rows, pi, ri, l).None?
    decreases l
  {
    if l > k {
      HoldingsNoneStays(rows, pi, ri, k, l - 1);
    }
  }

  /** One pass of the reading loop: None for a row it cannot read. */
  method ReadHolding(row: Row, pi: nat, ri: nat) returns (r: Option<(real, real)>)
    ensures r.None? <==> !Readable(row, pi, ri)
    ensures r.Some? ==> r.value == (Fraction(row[pi]), Fraction(row[ri]))
  {
    if |row| <= pi || |row| <= ri {
      return None;
    }
    var w := ParsePercent(row[pi]);
    var s := ParsePercent(row[ri]);
    if w.None? || s.None? {
      return None;
    }
    return Some((w.value / 100.0, s.value / 100.0));
  }

  method ReadHoldings(rows: Table, pi: nat, ri: nat) returns (h: Option<Holdings>)
    requires rows != []
    ensures h == HoldingsUpTo(rows, pi, ri, |rows|)
  {
    var names: seq<string> := [];
    var weights: seq<real> := [];
    var risks: seq<real> := [];
    var i := 1;
    while i < |rows|
      invariant 1 <= i <= |rows|
      invariant HoldingsUpTo(rows, pi, ri, i) == Some(Holdings(names, weights, risks))
    {
      var row := rows[i];
      var read := ReadHolding(row, pi, ri);
      if read.None? {
        assert !Readable(rows[i], pi, ri);
        assert HoldingsUpTo(rows, pi, ri, i + 1).None?;
        HoldingsNoneStays(rows, pi, ri, i + 1, |rows|);
        return None;
      }
      HoldingsStep(rows, pi, ri, i + 1, Holdings(names, weights, risks));
      names := names + [row[0]];
      weights := weights + [read.value.0];
      risks := risks + [read.value.1];
      i := i + 1;
    }
    h := Some(Holdings(names, weights, risks));
  }

  /** A correlation cell: float(cell), or 0.0 when it does not parse. */
  function CorrelationValue(cell: string): real
  {
    match ParseReal(cell)
    case Some(x) => x
    case None => 0.0
  }

  /** The correlations read back: one list per row after the header, one
      number per cell after the name. */
  function ReadMatrix(crows: Table): (m: seq<seq<real>>)
    ensures |m| == if crows == [] then 0 else |crows| - 1
    ensures forall i :: 0 <= i < |m| ==> m[i] == ReadMatrixRow(crows[i + 1])
  {
    if crows == [] then [] else MatrixRowsUpTo(crows, |crows|)
  }

  /** The rows 1 .. k - 1 read back. */
  function MatrixRowsUpTo(crows: Table, k: nat): (m: seq<seq<real>>)
    requires 1 <= k <= |crows|
    ensures |m| == k - 1
    ensures forall i :: 0 <= i < k - 1 ==> m[i] == ReadMatrixRow(crows[i + 1])
  {
    if k == 1 then [] else MatrixRowsUpTo(crows, k - 1) + [ReadMatrixRow(crows[k - 1])]
  }

  function ReadMatrixRow(row: Row): seq<real>
  {
    if row == [] then [] else CellsUpTo(row, |row|)
  }

  /** The cells 1 .. k - 1 of a row read back. */
  function CellsUpTo(row: Row, k: nat): (cs: seq<real>)
    requires 1 <= k <= |row|
    ensures |cs| == k - 1
  {
    if k == 1 then [] else CellsUpTo(row, k - 1) + [CorrelationValue(row[k - 1])]
  }

  /** Entry j is the number read from cell j + 1. */
  lemma {:induction false} CellAt(row: Row, k: nat, j: nat)
    requires 1 <= k <= |row| && j < k - 1
    ensures CellsUpTo(row, k)[j] == CorrelationValue(row[j + 1])
  {
    if j < k - 2 {
      CellAt(row, k - 1, j);
    }
  }

  method ReadCorrelationRow(row: Row) returns (cs: seq<real>)
    ensures cs == ReadMatrixRow(row)
  {
    cs := [];
    if row == [] {
      return;
    }
    var j := 1;
    while j < |row|
      invariant 1 <= j <= |row|
      invariant cs == CellsUpTo(row, j)
    {
      var v := ParseReal(row[j]);
      if v.Some? {
        cs := cs + [v.value];
      } else {
        cs := cs + [0.0];
      }
      j := j + 1;
    }
  }

  method ReadCorrelations(crows: Table) returns (m: seq<seq<real>>)
    ensures m == ReadMatrix(crows)
  {
    m := [];
    if crows == [] {
      return;
    }
    var i := 1;
    while i < |crows|
      invariant 1 <= i <= |crows|
      invariant m == MatrixRowsUpTo(crows, i)
    {
      var cs := ReadCorrelationRow(crows[i]);
      m := m + [cs];
      i := i + 1;
    }
  }

  /** A correlation matrix large enough for n assets. */
  predicate Covers(c: seq<seq<real>>, n: nat)
  {
    |c| >= n && forall i :: 0 <= i < n ==> |c[i]| >= n
  }

  function Term(w: seq<real>, s: seq<real>, c: seq<seq<real>>, i: nat, j: nat): real
    requires i < |w| && j < |w| && |s| == |w| && Covers(c, |w|)
  {
    w[i] * w[j] * s[i] * s[j] * c[i][j]
  }

  /** The inner sum: the terms (i, j) for j < m. */
  function RowTerms(w: seq<real>, s: seq<real>, c: seq<seq<real>>, i: nat, m: nat): real
    requires i < |w| && m <= |w| && |s| == |w| && Covers(c, |w|)
  {
    if m == 0 then 0.0 else RowTerms(w, s, c, i, m - 1) + Term(w, s, c, i, m - 1)
  }

  /** The double sum over i < k and every j. */
  function VarianceSum(w: seq<real>, s: seq<real>, c: seq<seq<real>>, k: nat): real
    requires k <= |w| && |s| == |w| && Covers(c, |w|)
  {
    if k == 0 then 0.0 else VarianceSum(w, s, c, k - 1) + RowTerms(w, s, c, k - 1, |w|)
  }

  method SumVariance(w: seq<real>, s: seq<real>, c: seq<seq<real>>) returns (v: real)
    requires |s| == |w| && Covers(c, |w|)
    ensures v == VarianceSum(w, s, c, |w|)
  {
    v := 0.0;
    var i := 0;
    while i < |w|
      invariant 0 <= i <= |w|
      invariant v == VarianceSum(w, s, c, i)
    {
      var j := 0;
      while j < |w|
        invariant 0 <= j <= |w|
        invariant v == VarianceSum(w, s, c, i) + RowTerms(w, s, c, i, j)
      {
        v := v + w[i] * w[j] * s[i] * s[j] * c[i][j];
        j := j + 1;
      }
      i := i + 1;
    }
  }

  /** The IndexError the double loop would meet, checked in advance. */
  method CheckCovers(c: seq<seq<real>>, n: nat) returns (ok: bool)
    ensures ok == Covers(c, n)
  {
    if |c| < n {
      return false;
    }
    var i := 0;
    while i < n
      invariant 0 <= i <= n
      invariant forall k :: 0 <= k < i ==> |c[k]| >= n
    {
      if |c[i]| < n {
        return false;
      }
      i := i + 1;
    }
    return true;
  }

  /** The header names of the correlation table, after its first cell. */
  function CorrelationNames(crows: Table): seq<string>
    requires crows != []
  {
    if crows[0] == [] then [] else crows[0][1..]
  }

  /** portfolio_risk_analysis: the risk in percent, or None when the
      portfolio has no data row or lacks a column, a data row cannot be read,
      the correlation table has no data row or names other assets (or the
      same ones in another order), the matrix is too small (IndexError), or
      the variance is negative (math.sqrt raises ValueError). */
  function PortfolioRisk(rows: Table, crows: Table, root: real -> real): Option<real>
  {
    if |rows| < 2 then None
    else
      var pi := LastIndex(rows[0], "percentage");
      var ri := LastIndex(rows[0], "risk");
      if pi.None? || ri.None? then None
      else match HoldingsUpTo(rows, pi.value, ri.value, |rows|)
        case None => None
        case Some(h) => HoldingsRisk(h, crows, root)
  }

  /** The part after the portfolio is read: the name check, the matrix, the
      double sum and its root. */
  function HoldingsRisk(h: Holdings, crows: Table, root: real -> real): Option<real>
    requires |h.risks| == |h.weights|
  {
    if |crows| < 2 || CorrelationNames(crows) != h.names then None
    else
      var c := ReadMatrix(crows);
      if !Covers(c, |h.weights|) then None
      else
        RiskOfVariance(VarianceSum(h.weights, h.risks, c, |h.weights|), root)
  }

  /** The last step: math.sqrt of the double sum, in percent; a negative sum
      makes math.sqrt raise ValueError, which gives None. */
  function RiskOfVariance(v: real, root: real -> real): (r: Option<real>)
    ensures r.Some? <==> v >= 0.0
    ensures v >= 0.0 ==> r.value / 100.0 == root(v)
  {
    if v < 0.0 then None else Some(root(v) * 100.0)
  }

  method PortfolioRiskAnalysis(rows: Table, crows: Table, root: real -> real) returns (r: Option<real>)
    ensures r == PortfolioRisk(rows, crows, root)
  {
    if |rows| < 2 {
      return None;
    }
    var ks := ScanLastAll(rows[0], ["percentage", "risk"]);
    if ks[0].None? || ks[1].None? {
      return None;
    }
    var h := ReadHoldings(rows, ks[0].value, ks[1].value);
    assert ks[0] == LastIndex(rows[0], "percentage") && ks[1] == LastIndex(rows[0], "risk");
    if h.None? {
      return None;
    }
    r := RiskOfHoldings(h.value, crows, root);
  }

  method RiskOfHoldings(h: Holdings, crows: Table, root: real -> real) returns (r: Option<real>)
    requires |h.risks| == |h.weights|
    ensures r == HoldingsRisk(h, crows, root)
  {
    if |crows| < 2 || CorrelationNames(crows) != h.names {
      return None;
    }
    var c := ReadCorrelations(crows);
    var covers := CheckCovers(c, |h.weights|);
    if !covers {
      return None;
    }
    var v := SumVariance(h.weights, h.risks, c);
    HoldingsRiskValue(h, crows, root);
    if v < 0.0 {
      return None;
    }
    return Some(root(v) * 100.0);
  }

  /** A risk comes out only when the portfolio has a data row and both
      columns, every data row can be read, the correlation table has a data
      row and names exactly the portfolio's assets in order, and its matrix
      covers them. */
  lemma {:induction false} PortfolioRiskNeeds(rows: Table, crows: Table, root: real -> real)
    ensures PortfolioRisk(rows, crows, root).Some? ==>
      |rows| >= 2 && "percentage" in rows[0] && "risk" in rows[0] && |crows| >= 2
      && (forall j :: 1 <= j < |rows| ==>
            Readable(rows[j], LastIndex(rows[0], "percentage").value, LastIndex(rows[0], "risk").value))
      && |CorrelationNames(crows)| == |rows| - 1
      && (forall i :: 0 <= i < |rows| - 1 ==> CorrelationNames(crows)[i] == rows[i + 1][0])
      && Covers(ReadMatrix(crows), |rows| - 1)
  {
    if PortfolioRisk(rows, crows, root).Some? {
      var pi := LastIndex(rows[0], "percentage").value;
      var ri := LastIndex(rows[0], "risk").value;
      var h := HoldingsUpTo(rows, pi, ri, |rows|);
      assert h.Some?;
      HoldingsFail(rows, pi, ri, |rows|);
      forall i | 0 <= i < |rows| - 1
        ensures CorrelationNames(crows)[i] == rows[i + 1][0]
      {
        HoldingsAt(rows, pi, ri, |rows|, i);
      }
    }
  }

  /** When every data row can be read and the correlation table names the
      rows' assets in order, the holdings are read and carry those names. */
  lemma {:induction false} HoldingsNamed(rows: Table, crows: Table, pi: nat, ri: nat)
    requires |rows| >= 2 && crows != [] && |CorrelationNames(crows)| == |rows| - 1
    requires forall j :: 1 <= j < |rows| ==>
      Readable(rows[j], pi, ri) && CorrelationNames(crows)[j - 1] == rows[j][0]
    ensures HoldingsUpTo(rows, pi, ri, |rows|).Some?
    ensures HoldingsUpTo(rows, pi, ri, |rows|).value.names == CorrelationNames(crows)
  {
    HoldingsFail(rows, pi, ri, |rows|);
    var h := HoldingsUpTo(rows, pi, ri, |rows|).value;
    forall i | 0 <= i < |rows| - 1
      ensures h.names[i] == CorrelationNames(crows)[i]
    {
      HoldingsAt(rows, pi, ri, |rows|, i);
      assert Readable(rows[i + 1], pi, ri) && CorrelationNames(crows)[i] == rows[i + 1][0];
    }
  }

  /** Conversely, when the portfolio has a data row and both columns, every
      data row can be read, and the correlation table names exactly the
      portfolio's assets in order with a matrix that covers them, the risk
      comes out exactly when the double sum is not negative, and it is 100
      times the root of that sum. */
  lemma {:induction false} PortfolioRiskExists(rows: Table, crows: Table, root: real -> real)
    requires |rows| >= 2 && "percentage" in rows[0] && "risk" in rows[0] && |crows| >= 2
    requires |CorrelationNames(crows)| == |rows| - 1
    requires forall j :: 1 <= j < |rows| ==>
      Readable(rows[j], LastIndex(rows[0], "percentage").value, LastIndex(rows[0], "risk").value)
      && CorrelationNames(crows)[j - 1] == rows[j][0]
    requires Covers(ReadMatrix(crows), |rows| - 1)
    ensures var h := HoldingsUpTo(rows, LastIndex(rows[0], "percentage").value,
                                  LastIndex(rows[0], "risk").value, |rows|);
      h.Some?
      && PortfolioRisk(rows, crows, root)
         == RiskOfVariance(VarianceSum(h.value.weights, h.value.risks, ReadMatrix(crows), |rows| - 1), root)
  {
    var pi := LastIndex(rows[0], "percentage").value;
    var ri := LastIndex(rows[0], "risk").value;
    HoldingsNamed(rows, crows, pi, ri);
    var h := HoldingsUpTo(rows, pi, ri, |rows|).value;
    HoldingsRiskValue(h, crows, root);
    RiskThroughHoldings(rows, crows, root, pi, ri);
  }

  lemma {:induction false} RiskThroughHoldings(rows: Table, crows: Table, root: real -> real, pi: nat, ri: nat)
    requires |rows| >= 2 && LastIndex(rows[0], "percentage") == Some(pi) && LastIndex(rows[0], "risk") == Some(ri)
    requires HoldingsUpTo(rows, pi, ri, |rows|).Some?
    ensures PortfolioRisk(rows, crows, root) == HoldingsRisk(HoldingsUpTo(rows, pi, ri, |rows|).value, crows, root)
  {
  }

  lemma {:induction false} HoldingsRiskValue(h: Holdings, crows: Table, root: real -> real)
    requires |h.risks| == |h.weights| && |crows| >= 2 && CorrelationNames(crows) == h.names
    requires Covers(ReadMatrix(crows), |h.weights|)
    ensures HoldingsRisk(h, crows, root)
            == RiskOfVariance(VarianceSum(h.weights, h.risks, ReadMatrix(crows), |h.weights|), root)
  {
  }

  /** The sum of weight times risk over the first k assets. */
  function WeightedRisk(w: seq<real>, s: seq<real>, k: nat): real
    requires k <= |w| && |s| == |w|
  {
    if k == 0 then 0.0 else WeightedRisk(w, s, k - 1) + Product(w[k - 1], s[k - 1])
  }

  predicate PerfectlyCorrelated(c: seq<seq<real>>, n: nat)
    requires Covers(c, n)
  {
    forall i, j :: 0 <= i < n && 0 <= j < n ==> c[i][j] == 1.0
  }

  lemma {:induction false} RowTermsPerfect(w: seq<real>, s: seq<real>, c: seq<seq<real>>, i: nat, m: nat)
    requires i < |w| && m <= |w| && |s| == |w| && Covers(c, |w|) && PerfectlyCorrelated(c, |w|)
    ensures RowTerms(w, s, c, i, m) == Product(Product(w[i], s[i]), WeightedRisk(w, s, m))
  {
    if m > 0 {
      RowTermsPerfect(w, s, c, i, m - 1);
      var a := Product(w[i], s[i]);
      var b := Product(w[m - 1], s[m - 1]);
      assert Term(w, s, c, i, m - 1) == Product(a, b);
      assert Product(a, WeightedRisk(w, s, m - 1)) + Product(a, b) == Product(a, WeightedRisk(w, s, m - 1) + b);
    }
  }

  lemma {:induction false} VarianceSumPerfect(w: seq<real>, s: seq<real>, c: seq<seq<real>>, k: nat)
    requires k <= |w| && |s| == |w| && Covers(c, |w|) && PerfectlyCorrelated(c, |w|)
    ensures VarianceSum(w, s, c, k) == Product(WeightedRisk(w, s, k), WeightedRisk(w, s, |w|))
  {
    if k > 0 {
      VarianceSumPerfect(w, s, c, k - 1);
      RowTermsPerfect(w, s, c, k - 1, |w|);
      var t := WeightedRisk(w, s, |w|);
      var p := WeightedRisk(w, s, k - 1);
      var a := Product(w[k - 1], s[k - 1]);
      assert Product(p, t) + Product(a, t) == Product(p + a, t);
    }
  }

  /** Perfectly correlated assets do not diversify: the variance is the
      square of the weighted sum of the individual risks. */
  lemma {:induction false} PerfectCorrelationVariance(w: seq<real>, s: seq<real>, c: seq<seq<real>>)
    requires |s| == |w| && Covers(c, |w|) && PerfectlyCorrelated(c, |w|)
    ensures VarianceSum(w, s, c, |w|) == Square(WeightedRisk(w, s, |w|))
  {
    VarianceSumPerfect(w, s, c, |w|);
  }

  // ---------------------------------------------------------------------------
  // From the written correlation table to the one read back

  /** The table asset_correlation_analysis writes passes the name check of
      portfolio_risk_analysis for the same names, covers them, and reads back
      as the matrix rounded to four decimals. */
  lemma {:induction false} CorrelationTableReadBack(c: Correlations)
    requires |c.matrix| == |c.names| && forall i :: 0 <= i < |c.matrix| ==> |c.matrix[i]| == |c.names|
    ensures var t := CorrelationTable(c);
      var m := ReadMatrix(t);
      CorrelationNames(t) == c.names && Covers(m, |c.names|) && |m| == |c.names|
      && forall i, j :: 0 <= i < |c.names| && 0 <= j < |c.names| ==> m[i][j] == RoundTo(c.matrix[i][j], 4)
  {
    var t := CorrelationTable(c);
    var m := ReadMatrix(t);
    assert t[0] == [""] + c.names;
    forall i | 0 <= i < |c.names|
      ensures |m[i]| == |c.names|
      && forall j :: 0 <= j < |c.names| ==> m[i][j] == RoundTo(c.matrix[i][j], 4)
    {
      TableRowReadBack(c, i);
    }
  }

  lemma {:induction false} TableRowReadBack(c: Correlations, i: nat)
    requires |c.matrix| == |c.names| && i < |c.names| && |c.matrix[i]| == |c.names|
    ensures var m := ReadMatrix(CorrelationTable(c));
      |m| == |c.names| && |m[i]| == |c.names|
      && forall j :: 0 <= j < |c.names| ==> m[i][j] == RoundTo(c.matrix[i][j], 4)
  {
    var t := CorrelationTable(c);
    var m := ReadMatrix(t);
    assert |t| == |c.names| + 1;
    assert t[i + 1] == [c.names[i]] + FixedCells(c.matrix[i]);
    assert m[i] == ReadMatrixRow(t[i + 1]);
    RowReadBack(c.names[i], c.matrix[i]);
  }

  /** A written row reads back as its entries rounded. */
  lemma {:induction false} RowReadBack(name: string, xs: seq<real>)
    ensures var cs := ReadMatrixRow([name] + FixedCells(xs));
      |cs| == |xs| && forall j :: 0 <= j < |xs| ==> cs[j] == RoundTo(xs[j], 4)
  {
    forall j | 0 <= j < |xs|
      ensures ReadMatrixRow([name] + FixedCells(xs))[j] == RoundTo(xs[j], 4)
    {
      RowCellReadBack(name, xs, j);
    }
    if xs == [] {
      assert [name] + FixedCells(xs) == [name];
    } else {
      RowCellReadBack(name, xs, 0);
    }
  }

  /** Cell j of a written row reads back as entry j rounded. */
  lemma {:induction false} RowCellReadBack(name: string, xs: seq<real>, j: nat)
    requires j < |xs|
    ensures |ReadMatrixRow([name] + FixedCells(xs))| == |xs|
    ensures ReadMatrixRow([name] + FixedCells(xs))[j] == RoundTo(xs[j], 4)
  {
    var row := [name] + FixedCells(xs);
    assert row[j + 1] == Fixed(xs[j], 4);
    CellAt(row, |row|, j);
    CellReadBack(xs[j]);
  }

  lemma {:induction false} CellReadBack(x: real)
    ensures CorrelationValue(Fixed(x, 4)) == RoundTo(x, 4)
  {
    FixedRoundTrip(x, 4);
  }

  // ---------------------------------------------------------------------------
  // portfolio_analysis

  /** What portfolio_analysis ends with: the annual return and the risk it
      reports, or a TypeError that ends it before either is computed. */
  datatype Summary = Summary(ret: Option<real>, risk: Option<real>) | Crashed

  /** The correlation table the risk analysis then reads: the one just
      written, or else the file left by an earlier run (None when there is no
      such file). */
  function CorrelationFile(pct: Table, previous: Option<Table>, root: real -> real): Option<Table>
    requires PositiveRoot(root)
  {
    match AssetCorrelation(pct, root)
    case Some(c) => Some(CorrelationTable(c))
    case None => previous
  }

  /** The risk analysis on that file; a missing file raises inside the
      function's try and gives None. */
  function RiskFrom(portfolio: Table, file: Option<Table>, root: real -> real): Option<real>
  {
    match file
    case None => None
    case Some(crows) => PortfolioRisk(portfolio, crows, root)
  }

  /** portfolio_analysis as written. On a change table of fewer than two rows
      asset_correlation_analysis returns a bare None (its early return), and
      unpacking it into two names raises TypeError; on every other path it
      returns a pair and both analyses run. */
  function PortfolioAnalysis(pct: Table, portfolio: Table, previous: Option<Table>,
                             root: real -> real): Summary
    requires PositiveRoot(root)
  {
    if |pct| < 2 then Crashed
    else Summary(PortfolioReturn(portfolio), RiskFrom(portfolio, CorrelationFile(pct, previous, root), root))
  }

  /** As written, the whole analysis ends exactly when the change table has
      fewer than two rows, even when the portfolio has a return. */
  lemma {:induction false} ShortChangesCrash(pct: Table, portfolio: Table, previous: Option<Table>,
                                             root: real -> real)
    requires PositiveRoot(root)
    ensures PortfolioAnalysis(pct, portfolio, previous, root).Crashed? <==> |pct| < 2
  {
  }

  /** A header-only change table and a portfolio with a return: the return
      is lost. */
  lemma {:induction false} HeaderOnlyChangesCrash(root: real -> real)
    requires PositiveRoot(root)
    ensures var portfolio := [["name", "percentage", "annual_return"], ["a", "100%", "5%"]];
      PortfolioReturn(portfolio).Some?
      && PortfolioAnalysis([["name", "id", "type"]], portfolio, None, root) == Crashed
  {
    var portfolio := [["name", "percentage", "annual_return"], ["a", "100%", "5%"]];
    PortfolioReturnDefined(portfolio);
    assert LastIndex(portfolio[0], "percentage") == Some(1);
    assert LastIndex(portfolio[0], "annual_return") == Some(2);
  }

  /** portfolio_analysis with the early return giving (None, None), like the
      function's exception path: both analyses always run. */
  function AlignedPortfolioAnalysis(pct: Table, portfolio: Table, previous: Option<Table>,
                                    root: real -> real): Summary
    requires PositiveRoot(root)
  {
    Summary(PortfolioReturn(portfolio), RiskFrom(portfolio, CorrelationFile(pct, previous, root), root))
  }

  /** The corrected analysis always reports. Its return depends on the
      portfolio alone and is there exactly when the portfolio has one; when
      no correlation table is written the risk comes from the earlier file.
      Whenever the analysis as written reports, the two agree. */
  lemma {:induction false} AlignedAnalysisReports(pct: Table, portfolio: Table, previous: Option<Table>,
                                                  root: real -> real)
    requires PositiveRoot(root)
    ensures var a := AlignedPortfolioAnalysis(pct, portfolio, previous, root);
      a.Summary? && a.ret == PortfolioReturn(portfolio)
      && (a.ret.Some? <==>
            |portfolio| >= 2 && "percentage" in portfolio[0] && "annual_return" in portfolio[0]
            && forall j :: 1 <= j < |portfolio| ==>
                 |portfolio[j]| > Max(LastIndex(portfolio[0], "percentage").value,
                                      LastIndex(portfolio[0], "annual_return").value))
      && (AssetCorrelation(pct, root).None? ==> a.risk == RiskFrom(portfolio, previous, root))
      && (AssetCorrelation(pct, root).Some? ==>
            a.risk == PortfolioRisk(portfolio, CorrelationTable(AssetCorrelation(pct, root).value), root))
      && (PortfolioAnalysis(pct, portfolio, previous, root).Summary? ==>
            PortfolioAnalysis(pct, portfolio, previous, root) == a)
  {
    PortfolioReturnDefined(portfolio);
  }
}

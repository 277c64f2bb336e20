# isportfolio, table core in Dafny

isportfolio is a set of Python scripts that keep a small investment portfolio in CSV files:

- a **watchlist** of daily prices (name, id, type, then one column per date);
- a **percentage-change** table derived from the watchlist;
- a **portfolio** table (name, id, type, last_price, holdings, holding_price, holding_earnings, total_value, percentage, annual_return, risk);
- an **asset-correlation** table.

Once reading and writing the files is stripped away, each script is a deterministic transformation of tables, which are lists of rows of string cells. This project models those transformations and proves what they do.

## Modelling choices

- A table is `seq<seq<string>>` (`Sheets.Table`).
- The scripts change their row lists in place. Each such script is a `method` with the script's loops. The method is proved equal to a specification function on the old table.
- The properties are lemmas about those functions.
- Results (`Sheets.Outcome`):
  - `Written(rows)`: the script writes `rows`.
  - `Skipped`: the script prints an error and returns without writing, or returns `False`.
  - `Raised`: an exception (IndexError, ValueError) escapes.
- Python floats are `real`.
- `float(s)` is `Text.ParseReal`. It accepts optional surrounding ASCII whitespace (space, tab, line feed, vertical tab, form feed, carriage return and the separators 0x1C to 0x1F), an optional sign, and decimal digits with at most one point.
- `str.strip()` is `Text.Strip`, over the same ASCII whitespace.
- `f"{x:.Nf}"` is `Text.Fixed`. It rounds the exact value half to even.
- `str(x)` of a float is `Text.Repr`.
- Round trips prove that every cell the scripts write reads back as the rounded value.
- `datetime.strptime(s, '%Y-%m-%d')` is `Dates.ParseDate`. It accepts a four-digit year, a one- or two-digit month and a one- or two-digit day, and rejects impossible calendar dates.
- The real power `x ** y` and the square root (`** 0.5`, `math.sqrt`) are function parameters (`pow`, `root`), with only the assumptions a lemma states.
- Modules, one per script (update_portfolio.py is split in three):
  - `PercentChange`, `PriceMerge`, `PortfolioPrices`, `PortfolioValues`, `ReturnRisk`, `Ledger`, `AddAsset`, `CreatePortfolio`, `Analysis`;
  - plus the shared `Text`, `Dates` and `Sheets`.

## Model

| member | source | states |
|---|---|---|
| PercentChange.CalculatePercentageChange | calculate_percentage_change.py:11-33 | The loop builds exactly `ChangeRow(prices)`. |
| PercentChange.ChangeRowLength | calculate_percentage_change.py:13-17 | Fewer than two prices give no cell; otherwise one cell per pair of neighbouring prices (`len(prices) - 1`). |
| PercentChange.ChangeRowAt | calculate_percentage_change.py:17-31 | Cell i depends only on prices i and i+1. |
| PercentChange.ChangeCellMeaning | calculate_percentage_change.py:18-31 | A cell is empty exactly when a price does not parse or the previous price is 0. Otherwise, once its '%' is stripped, it reads back as (curr - prev) / prev * 100 rounded to 4 places. |
| PercentChange.ChangeRecoversPrice | calculate_percentage_change.py:24-25 | The change is relative to the previous price: applying it to prev gives curr. |
| PercentChange.BuildChangeHeader | calculate_percentage_change.py:44-57 | The header is the first three input cells, then "chg_" + d for every date column but the first. |
| PercentChange.GeneratePercentageChangeTable | calculate_percentage_change.py:40-71 | The result is `ChangeTable(rows)`. An empty watchlist writes nothing, and a data row with fewer than three cells raises at `row[:3]` unpacking. |
| PercentChange.ChangeTableRows | calculate_percentage_change.py:59-71 | One output row per input row. Each keeps its name, id and type, followed by the change row of its prices. |
| PercentChange.ChangeTableRectangular | calculate_percentage_change.py:53-71 | On a rectangular watchlist of width w >= 4 (at least one date column), every output row has width w - 1. |
| PriceMerge.CollectFetchedDates | update_prices.py:170-174 | The first loop collects `AllDates(new_data)`: every fetched date, in first-seen order. |
| PriceMerge.AllDatesMember | update_prices.py:170-174 | A date is collected iff some fetched asset has a quote on it. |
| PriceMerge.AllDatesDistinct | update_prices.py:170-174 | No date is collected twice. |
| PriceMerge.HasDataCollected | update_prices.py:176-185 | A date the second loop would add is already collected, so that loop adds nothing. |
| PriceMerge.AddDatesWithData | update_prices.py:176-185 | The second loop leaves the collected dates unchanged. |
| PriceMerge.SortedDatesPermutation | update_prices.py:188 | Sorting keeps exactly the collected dates. |
| PriceMerge.SortedDatesAscending | update_prices.py:188 | The sorted dates all parse and run from oldest to newest. |
| PriceMerge.SortedDatesDistinct | update_prices.py:188 | Sorting distinct dates gives distinct dates. |
| PriceMerge.MergeRow | update_prices.py:196-207 | The inner loop builds `MergedPrices`: one cell per sorted date. |
| PriceMerge.OldCellBelowSpec | update_prices.py:197-205 | `dict(zip(existing_dates, row[3:])).get(date, '')` is the price paired with the last matching header date, or "". |
| PriceMerge.MergeRows | update_prices.py:191-208 | The row loop builds `MergedTable`. A data row with fewer than three cells raises. |
| PriceMerge.UpdateWatchlist | update_prices.py:160-210 | The result is `WatchlistUpdate(rows, new_data)`. Empty input comes back unchanged, and a fetched date that does not parse raises. |
| PriceMerge.WatchlistHeader | update_prices.py:167-191 | The new header is the old first three cells followed by distinct dates sorted oldest first. A date appears iff some fetched quote carries it, so dates only in the old header are dropped. |
| PriceMerge.WatchlistHeaderStrict | update_prices.py:188-191 | When every fetched date is zero-padded YYYY-MM-DD, the header dates are strictly increasing. |
| PriceMerge.WatchlistCell | update_prices.py:193-208 | Same row count. Every data row keeps its first three cells and has 3 + #dates cells. Each cell is the fetched price for (id, date) when there is one, otherwise the old cell for that date, or "". |
| PriceMerge.WatchlistWrites | update_prices.py:160-210 | With parseable fetched dates and data rows of three or more cells, the update always writes. |
| PriceMerge.QuotesOf | update_prices.py:202 | `new_data.get(id)` is found iff the id was fetched, and returns that asset's quotes. |
| PriceMerge.QuoteFor | update_prices.py:202-203 | A date is in the quotes iff some quote has it, and the price found is that quote's. |
| Dates.CollectDateColumns | update_portfolio.py:18-25 | The header scan collects `DateColumns(header)`. |
| Dates.DateColumnsSpec | add_portfolio.py:20-27 | Collected columns are exactly the header cells from index 3 on that parse as dates, in increasing index order. |
| Dates.SortSorted | update_portfolio.py:28 | The newest-first sort is ordered: newer dates first, and equal dates by increasing column (the sort is stable). |
| Dates.ParseFormat | add_portfolio.py:23 | A valid date written as YYYY-MM-DD parses back to itself. |
| Dates.FormatParse | update_prices.py:188 | A zero-padded date text that parses is the text of its date. |
| Dates.IsoInjective | update_prices.py:188 | Two zero-padded texts with the same date are equal. |
| PortfolioPrices.ReadWatchlist | update_portfolio.py:5-47 | The result is `LatestPrices(rows)`. An empty table or a header without date columns gives an empty map. |
| PortfolioPrices.FindLatest | update_portfolio.py:42-45 | The inner loop with its break finds the first non-blank cell in newest-first column order. |
| PortfolioPrices.SortedDateColumns | update_portfolio.py:28 | The date columns are sorted newest first and are a permutation of the collected ones. |
| PortfolioPrices.LatestColumnNewest | update_portfolio.py:35-45 | If a row has a non-blank cell under some date column, the chosen column is that one or a newer one, and the chosen cell is non-blank. |
| PortfolioPrices.PricesKeys | update_portfolio.py:35-45 | An id has an entry iff some data row with more than 3 cells has that id and a non-blank dated cell. |
| PortfolioPrices.PricesLastWins | update_portfolio.py:39-44 | The entry for an id comes from the last such row with that id. |
| PortfolioPrices.UpdatePortfolio | update_portfolio.py:49-77 | The result is `LastPriceUpdate(rows, prices)`. Nothing is written without rows or without a last_price column (the first one counts). |
| PortfolioPrices.LastPriceCells | update_portfolio.py:71-77 | Only the last_price cell of rows whose id has a price changes, and it becomes that price. Header, other cells and other rows are unchanged. |
| PortfolioPrices.LastPriceIdempotent | update_portfolio.py:49-77 | Copying the prices a second time changes nothing, provided last_price is not the id column. |
| PortfolioValues.UpdateTotalValue | update_portfolio.py:86-131 | The result is `TotalValueUpdate(rows)`. Nothing is written without rows or without one of the three columns (the last of each name counts). |
| PortfolioValues.ValueCellMeaning | update_portfolio.py:117-131 | When price and holdings are non-empty and parse, total_value reads back as their product rounded to cents; otherwise it is "0". |
| PortfolioValues.TotalValueCells | update_portfolio.py:115-131 | Only total_value of rows long enough for all three columns changes, and it becomes that row's value cell. |
| PortfolioValues.TotalValueIdempotent | update_portfolio.py:86-131 | Recomputing the totals changes nothing. |
| PortfolioValues.UpdateHoldingEarnings | update_portfolio.py:140-193 | The result is `HoldingEarningsUpdate(rows)`. Nothing is written without rows or without one of the four columns. |
| PortfolioValues.EarningsCellMeaning | update_portfolio.py:175-193 | When the three cells are non-empty and parse, holding_earnings reads back as (last_price - holding_price) * holdings rounded to cents; otherwise it is "0". |
| PortfolioValues.HoldingEarningsCells | update_portfolio.py:173-193 | Only holding_earnings of rows long enough for all four columns changes, and it becomes that row's earnings cell. |
| PortfolioValues.HoldingEarningsIdempotent | update_portfolio.py:140-193 | Recomputing the earnings changes nothing. |
| PortfolioValues.SumTotalValues | update_portfolio.py:229-238 | The first loop sums the total_value cells that are present, non-empty and parse. |
| PortfolioValues.UpdatePercentage | update_portfolio.py:202-260 | The result is `PercentageUpdate(rows)`. Nothing is written without rows, without both columns, or when the sum is 0. |
| PortfolioValues.ShareCellMeaning | update_portfolio.py:246-260 | A non-empty, parseable total_value gives a cell that reads back (after '%') as value / sum * 100 rounded to 2 places; otherwise it is "0%". |
| PortfolioValues.PercentageCells | update_portfolio.py:245-260 | Only the percentage cell of rows long enough for both columns changes, and it becomes that row's share cell of a non-zero sum. |
| PortfolioValues.SharesSumTo100 | update_portfolio.py:229-254 | Before rounding, the shares of the counted rows add up to exactly 100. |
| ReturnRisk.CollectChanges | update_portfolio.py:390-399 | The cell loop collects `RowChanges(row)`. |
| ReturnRisk.ChangesComplete | update_portfolio.py:391-396 | Every non-empty cell that parses after `rstrip('%')` is counted, and n_days never exceeds the number of cells. |
| ReturnRisk.ChangesSound | update_portfolio.py:391-399 | Every counted value comes from such a cell. |
| ReturnRisk.Compound | update_portfolio.py:407-409 | The compounding loop computes the product of (1 + r/100). |
| ReturnRisk.GrowthConcat | update_portfolio.py:407-409 | Compounding two stretches of changes multiplies their growth factors. |
| ReturnRisk.AnnualReturnOfAYear | update_portfolio.py:414-416 | Over exactly 252 changes the annual return is the cumulative return, given a power with x ** 1 = x. |
| ReturnRisk.VarianceNonNegative | update_portfolio.py:421-428 | The sample variance is never negative, so its square root is defined. |
| ReturnRisk.SteadyChangesNoRisk | update_portfolio.py:421-430 | Constant daily changes carry zero risk (for a root with root(0) = 0). |
| ReturnRisk.ReturnCellMeaning | update_portfolio.py:402-440 | Without changes the annual return cell is "0%". Otherwise it reads back as the annual return rounded to 2 places. |
| ReturnRisk.RiskCellMeaning | update_portfolio.py:421-440 | Without changes the risk cell is "0%". Otherwise it reads back as the risk rounded to 2 places, and a single change gives 0. |
| ReturnRisk.AssetCells | update_portfolio.py:388-440 | One pass of the asset loop computes the two cells from the asset's change row. |
| ReturnRisk.CompareFirst3Spec | update_portfolio.py:346-364 | The three-cell comparison passes iff both rows have three cells and they agree. It fails at the first differing cell. |
| ReturnRisk.CompareRowsFromSame | update_portfolio.py:359-368 | The row check passes iff every data row pair agrees on its first three cells. |
| ReturnRisk.ReturnRiskGate | update_portfolio.py:326-384 | The update goes on only with non-empty tables, matching headers, equal counts of non-blank portfolio rows and change rows, matching name/id/type on every row, and both columns present. Every other path writes nothing. |
| ReturnRisk.UpdateAnnualReturnAndRisk | update_portfolio.py:319-440 | The result is `ReturnRiskUpdate(portfolio, pct, pow, root)`: the checks, then the update loop as written. |
| ReturnRisk.ReturnRiskCells | update_portfolio.py:387-440 | On success, portfolio row i gets the statistics of change row i by position. Rows past the change table stay unchanged. |
| ReturnRisk.MisalignedBlankRow | update_portfolio.py:339-440 | As written, a line of empty cells (`,,,,`) between two assets passes the checks. That row then receives the second asset's figures, and the second asset keeps its stale cells. |
| ReturnRisk.EmptyLineRaises | update_portfolio.py:339-440 | A truly empty line between two assets (read by csv.reader as an empty row) also passes the checks. The update loop then raises IndexError when it writes into that row. |
| ReturnRisk.AlignedCells | update_portfolio.py:339-440 | Corrected update: each asset row gets the statistics of the change row with the same name, id and type. Blank rows stay as they are. |
| ReturnRisk.AlignedGap | update_portfolio.py:339-440 | On the blank-line example, the corrected update leaves the blank row alone and updates the second asset. |
| ReturnRisk.AlignedAgrees | update_portfolio.py:339-440 | Without blank rows, the corrected update equals the update as written. |
| Ledger.LedgerColumnsDistinct | buy_or_sell.py:32-45 | The columns found in the header (byte-order mark dropped) lie inside it. Holdings, holding price, earnings and id are distinct, and no last_price column is one of the three cells a trade writes. |
| Ledger.FindAssetRow | buy_or_sell.py:59-67 | The search loop finds the first data row whose id cell matches. It reports no match when every row is passed over, and raises when a row before any match is too short for the id column. |
| Ledger.AverageCost | buy_or_sell.py:86-91 | The new average cost times the new holdings is the total cost; without holdings it is 0. |
| Ledger.AverageCostBetween | buy_or_sell.py:85-89 | Buying more moves the average cost between the old cost and the buying price. |
| Ledger.TradeRow | buy_or_sell.py:81-117 | The buy or sell branch computes `Trade`. |
| Ledger.BuyCells | buy_or_sell.py:81-95 | A buy sets holdings to old + q. The holding price reads back as the average cost rounded to cents. No other cell changes. |
| Ledger.SellCells | buy_or_sell.py:100-117 | A sell is refused iff q exceeds the holdings. Otherwise holdings become old - q, the holding price becomes "0" iff nothing is left and is otherwise unchanged, and no other cell changes. |
| Ledger.BuyThenSell | buy_or_sell.py:81-117 | Selling what was just bought restores the holdings. |
| Ledger.TradedReadable | buy_or_sell.py:94-133 | Holdings and holding price written by a trade read back as numbers. |
| Ledger.RevalueRow | buy_or_sell.py:122-139 | The earnings recomputation computes `Revalue` with the first last_price column. |
| Ledger.EarningsCell | buy_or_sell.py:122-139 | Without a last_price column the earnings cell is "0". Otherwise it reads back as (last_price - holding_price) * holdings rounded to 4 places. No other cell changes. |
| Ledger.RevalueFails | buy_or_sell.py:130-136 | After a trade, the recomputation fails exactly when the row lacks the earnings cell or its last_price cell is missing or unreadable. |
| Ledger.UpdateHoldings | buy_or_sell.py:19-141 | The result is `HoldingsUpdate(rows, ...)`. |
| Ledger.HoldingsRefused | buy_or_sell.py:21-107 | The update returns False (nothing changed) iff there are no rows, a column is missing, the id is not found, or a sale exceeds the holdings of the found row. |
| Ledger.HoldingsOnlyTarget | buy_or_sell.py:94-141 | A successful update changes only the first row with the id, and in it only holdings, holding price and holding earnings. |
| AddAsset.GetLatestDateColumn | add_portfolio.py:18-34 | The method computes `LatestDateColumn(header)`. |
| AddAsset.LatestDateColumnSpec | add_portfolio.py:18-34 | None iff no header cell from index 3 on parses as a date. Otherwise the result is a dated column no other dated column is newer than, and ties go to the leftmost. |
| AddAsset.BlankRowFor | add_portfolio.py:43-47 | The new row is name, id, type, then one "" per header cell from index 3 on. |
| AddAsset.FindPrice | add_portfolio.py:52-56 | The price is the first non-empty cell of the column among the data rows, or "". |
| AddAsset.AddAssetToWatchlist | add_portfolio.py:36-61 | The result is `WatchlistAdd`. An empty watchlist raises at `watchlist_rows[0]`. |
| AddAsset.WatchlistAddShape | add_portfolio.py:36-61 | Exactly one row is appended and existing rows stay. The new row is as wide as the header, starts with name, id, type, and is empty except under the newest date column, which holds that column's first non-empty price (or ""). |
| AddAsset.AddAssetToPortfolio | add_portfolio.py:63-82 | The method appends `NewPortfolioRow`. |
| AddAsset.PortfolioAddFits | add_portfolio.py:63-82 | Under a header created from the watchlist, the new 11-cell row fits. Each portfolio column holds its default ('', '0', '', '', '0', '0%', '0%', '0%'), and existing rows stay. |
| CreatePortfolio.ShapeRow | create_portfolio.py:28-33 | A data row of three or more cells becomes its first three cells plus nine ""; a shorter row is copied. |
| CreatePortfolio.CreatePortfolioFile | create_portfolio.py:12-35 | The result is `CreatedTable(watch)`. An empty watchlist gives no table. |
| CreatePortfolio.CreatedShape | create_portfolio.py:22-33 | Same row count. The header is the first three watchlist cells plus the 8 portfolio columns. Data rows keep their first three cells, the rest are "", and short rows are copied verbatim. |
| CreatePortfolio.CreatedRowTooWide | create_portfolio.py:23-30 | As written, a data row has 12 cells under an 11-cell header. |
| CreatePortfolio.AlignedCreatedFits | create_portfolio.py:23-31 | Corrected: every data row is exactly as wide as the header, and each portfolio column is found at its place and is empty. |
| CreatePortfolio.CollectIds | create_portfolio.py:67-71 | The dictionary loop builds `IdsBelow(watch, len(watch))`. |
| CreatePortfolio.IdsBelowKeys | create_portfolio.py:67-71 | An id has an entry iff some watchlist data row of three or more cells has it. |
| CreatePortfolio.IdsBelowLastWins | create_portfolio.py:68-71 | The entry of an id is the first three cells of the last such row. |
| CreatePortfolio.IdsBelowEntries | create_portfolio.py:70-71 | Every entry is three cells whose id cell is the key. |
| CreatePortfolio.UpdatePortfolioFile | create_portfolio.py:44-79 | The result is `IdentityUpdate`. Nothing is written for an empty watchlist, a missing portfolio file or an empty portfolio. |
| CreatePortfolio.IdentityCells | create_portfolio.py:73-79 | Only rows of three or more cells whose id has an entry change, and only their first three cells. Id, header and the rest stay. |
| CreatePortfolio.IdentityIdempotent | create_portfolio.py:44-79 | Refreshing a second time changes nothing. |
| Analysis.Correlation | portfolio_analysis.py:108-132 | The correlation is 0 when the lengths differ or are zero, and when either series has zero spread. |
| Analysis.CorrelationSymmetric | portfolio_analysis.py:115-131 | The correlation of a with b equals that of b with a. |
| Analysis.SelfCorrelation | portfolio_analysis.py:115-131 | A series with spread has correlation 1 with itself, for a true square root. |
| Analysis.ReadSeries | portfolio_analysis.py:57-67 | The cell loop reads `Series(row)`. |
| Analysis.SeriesAt | portfolio_analysis.py:58-67 | The series has one value per cell from index 3 on. Each is the cell without '%' when it parses, and 0.0 otherwise. |
| Analysis.CollectAssets | portfolio_analysis.py:54-68 | The row loop computes `AssetsUpTo(rows, len(rows))`. An empty data row raises at `row[0]`. |
| Analysis.AssetsLookup | portfolio_analysis.py:54-71 | A name has a series iff some data row has that name. The series kept is the last such row's, so duplicate names collapse. |
| Analysis.BuildMatrix | portfolio_analysis.py:74-86 | The nested loops build `CorrelationMatrix(series)`. |
| Analysis.MatrixShape | portfolio_analysis.py:74-86 | The matrix is n×n with diagonal 1.0. Off-diagonal entries are the pairwise correlations, and it is symmetric. |
| Analysis.AssetCorrelationAnalysis | portfolio_analysis.py:31-106 | Returns `AssetCorrelation(rows)` and the table it writes. |
| Analysis.AssetCorrelationSpec | portfolio_analysis.py:42-102 | Nothing comes out iff there is no data row or a data row is empty. Otherwise the names are distinct and cover every row, and the matrix has the shape above. |
| Analysis.CorrelationTableReadBack | portfolio_analysis.py:89-99 | Reading back the written table gives the same names and the matrix rounded to 4 places. |
| Analysis.PortfolioAnnualReturn | portfolio_analysis.py:134-189 | The method computes `PortfolioReturn(rows)`. |
| Analysis.PortfolioReturnDefined | portfolio_analysis.py:144-179 | A return exists iff there is a data row, both columns are present, and every data row reaches them. |
| Analysis.ReturnAppend | portfolio_analysis.py:164-185 | Appending a data row changes the return as follows. A row too short for either column makes the analysis fail. A row whose weight or return does not parse leaves the return unchanged. Any other row adds (w/100)(r/100)·100 points. |
| Analysis.EqualReturns | portfolio_analysis.py:164-185 | When weights sum to 100% and every asset returns r, the portfolio returns r. |
| Analysis.ReadHoldings | portfolio_analysis.py:225-238 | The reading loop computes `HoldingsUpTo`. |
| Analysis.HoldingsFail | portfolio_analysis.py:225-238 | Reading fails iff some data row is too short or has an unparsable weight or risk. |
| Analysis.HoldingsValueAt | portfolio_analysis.py:227-235 | Weight i and risk i are the percentages of data row i+1 as fractions. |
| Analysis.ReadCorrelations | portfolio_analysis.py:256-265 | The matrix loop reads `ReadMatrix`. An invalid cell counts as 0.0. |
| Analysis.SumVariance | portfolio_analysis.py:269-277 | The double loop sums w_i w_j σ_i σ_j ρ_ij over all i, j. |
| Analysis.PortfolioRiskAnalysis | portfolio_analysis.py:191-290 | The method computes `PortfolioRisk(rows, crows)`. |
| Analysis.PortfolioRiskNeeds | portfolio_analysis.py:201-253 | A risk exists only when both columns are present, every row reads, the correlation names equal the portfolio names in order, and the matrix covers them. |
| Analysis.PortfolioRiskExists | portfolio_analysis.py:201-283 | Conversely, under exactly those conditions the holdings are read, and the risk is `RiskOfVariance` of the double sum: a value when the sum is not negative, None otherwise. |
| Analysis.RiskOfVariance | portfolio_analysis.py:279-283 | There is a risk iff the double sum is not negative (math.sqrt raises ValueError otherwise), and then the risk divided by 100 is its root. |
| Analysis.ShortChangesCrash | portfolio_analysis.py:292-305 | As written, portfolio_analysis ends in TypeError iff the change table has fewer than two rows. Then asset_correlation_analysis returns a bare None (line 44) that line 299 cannot unpack. |
| Analysis.HeaderOnlyChangesCrash | portfolio_analysis.py:292-305 | A header-only change table ends the analysis even though the portfolio has a return. |
| Analysis.AlignedAnalysisReports | portfolio_analysis.py:292-314 | Corrected, the analysis always reports. The return depends on the portfolio alone, and it is reported whatever the change table holds whenever the portfolio has a data row, both columns, and rows that reach them. The risk is read from the table just written, or from the earlier correlation file when none was written. Wherever the as-written analysis reports, the two agree. |
| Analysis.PerfectCorrelationVariance | portfolio_analysis.py:268-277 | When every correlation is 1, the variance is the square of Σ w_i σ_i. |
| Text.FixedRoundTrip | update_portfolio.py:124-125 | What `f"{x:.Nf}"` writes, `float()` reads back as x rounded to N places. |
| Text.FixedPercentRoundTrip | update_portfolio.py:253-254 | A cell written as `f"{x:.Nf}%"` reads back, after `rstrip('%')`, as x rounded. |
| Text.ReprRoundTrip | buy_or_sell.py:94-113 | `str(x)` of a number with at most 17 decimals reads back as exactly x. |
| Sheets.ScanLastAll | update_portfolio.py:102-108 | One if/elif column scan without break finds, for every name, the last header cell with that name, and nothing iff the name is absent. |
| Sheets.ScanFirst | update_portfolio.py:62-65 | A column scan with break finds the first header cell with the name. It finds nothing iff the name is absent. |

## Left out

- Network fetching of prices (update_prices.py's efinance calls), every file read and write, the CSV encoding itself, directory creation, and all printing and logging. The tables are in-memory values. A missing portfolio file is `None` in `CreatePortfolio.UpdatePortfolioFile`.
- `log_total_value_sum` (update_portfolio.py:269-317) and `log_transaction` (buy_or_sell.py:143-166). They only append a timestamped line to a log file.
- optimize_portfolio.py. It calls numerical optimisation code outside the repository.
- The command-line entry points, main.py and the tests. This includes the file-existence dispatch in `create_portfolio`.
- Python floats are modelled as exact reals, so binary rounding errors are not modelled.
- `Text.Fixed` rounds the exact value half to even. Python formats the nearest binary double, so a value such as 2.675 can round differently in Python.
- `Text.ParseReal`: `float()` also accepts exponents, `inf`, `nan`, digit underscores, and non-ASCII digits and whitespace. The model rejects them (None, as if ValueError).
- `Text.Repr`: `str(x)` switches to exponent notation for very large or very small values. The model always writes fixed notation with up to 17 decimals.
- `Dates.ParseDate` accepts only ASCII digits. Python's strptime also accepts other Unicode decimal digits.
- `ReturnRisk.AnnualReturn`: the power `x ** y` is a parameter returning a real. Python returns a complex number for a negative growth factor raised to a fractional power, and the model does not represent that case.
- `ReturnRisk.AnnualReturn`: `cumulative_return ** (252 / n_days)` (update_portfolio.py:416) can raise OverflowError for a large growth factor over few days. A real-valued `pow` cannot express that exception.
- `Text.Strip` and `Text.IsBlank`: Python's `str.strip()` also removes Unicode whitespace (such as U+0085, U+00A0, U+3000). The model keeps those characters, so a cell holding only them counts as non-blank at update_portfolio.py:43 (`PortfolioPrices.Usable`) and update_portfolio.py:339 (`ReturnRisk.NonBlankRows`), where Python finds it blank.
- `Analysis.Correlation`, `ReturnRisk.Risk` and `Analysis.PortfolioRisk`: the square root is a parameter. Properties that need more of it state their assumption (`PositiveRoot`, `IsSquareRoot`, `root(0) = 0`). A negative variance makes `math.sqrt` raise, and is modelled as None.
- `PriceMerge.SortedDatesAscending`: it proves the order and, with `SortedDatesPermutation`, the permutation. It does not prove that two different texts of the same date keep their input order (the model's sort is stable, but this is not stated). Such texts cannot come from zero-padded dates (`Dates.IsoInjective`).
- `Ledger.BuyCells` and `Ledger.SellCells` prove holdings read back exactly only when the new holdings have at most 17 decimals. This is the precision `Text.Repr` renders.
- `Analysis.AssetCorrelationAnalysis` and `Analysis.AssetCorrelation` fold two failure results into one `None`. The early return for fewer than two rows (portfolio_analysis.py:42-44) gives a bare `None`. A caught exception, such as an empty data row (portfolio_analysis.py:104-106), gives `(None, None)`. The caller's handling of the bare `None` is modelled separately by `Analysis.PortfolioAnalysis` (see Findings).
- update_annual_return_and_risk's `n_days > 0` test (update_portfolio.py:415-418) is always true inside `if pct_changes:`, so its else branch has no counterpart.
- Dictionaries are modelled by Dafny maps. `new_data` is a sequence of (id, quotes) entries with distinct ids, looked up by first match.

## Findings

| source | as written | input that shows it | evidently intended | confidence | as-written member | corrected member |
|---|---|---|---|---|---|---|
| update_portfolio.py:339-387 | The checks compare the portfolio without its blank rows against the percentage-change rows, but the update loop pairs the unfiltered portfolio rows with the change rows by position. | A portfolio with a line of empty cells (`,,,,`) between assets "a" and "b", and a change table listing a and b: the blank line receives b's figures and b keeps stale cells. (A truly empty line raises IndexError instead, `ReturnRisk.EmptyLineRaises`.) | Each asset row is updated from the change row it was checked against, and blank rows are left alone. | not executed | ReturnRisk.MisalignedBlankRow | ReturnRisk.AlignedCells |
| create_portfolio.py:30 | Each data row gets `[''] * 9` after name, id and type, which makes 12 cells, while the header has 3 + 8 = 11. | Watchlist `[["name","id","type"],["a","1","fund"]]`: header 11 cells, data row 12 cells. | One empty cell per portfolio column (8), so rows line up with the header. | not executed | CreatePortfolio.CreatedRowTooWide | CreatePortfolio.AlignedCreatedFits |
| portfolio_analysis.py:299 | portfolio_analysis unpacks the result of asset_correlation_analysis into two names, but that function's early return for a change table of fewer than two rows (line 44) returns a bare None. The unpacking raises TypeError and ends the run before the return and risk analyses. | A percentage-change file holding only its header line, with a portfolio whose return is defined. | The early return gives `(None, None)`, as the exception path does, so both analyses still run. | not executed | Analysis.HeaderOnlyChangesCrash | Analysis.AlignedAnalysisReports |

/** buy_or_sell.py, update_holdings: a buy or a sell of one asset changes the
    holdings, the average holding price and the holding earnings of the first
    portfolio row with that id. The transaction log is a side effect outside
    this model. */
module Ledger {
  import opened Text
  import opened Sheets

  // ---------------------------------------------------------------------------
  // Columns and the asset row

  /** col_name[1:] when the name starts with a byte-order mark. */
  function DropBom(name: string): string
  {
    if |name| > 0 && name[0] == '\U{FEFF}' then name[1..] else name
  }

  /** The header as the column search sees it. */
  function BomFree(header: Row): (h: Row)
    ensures |h| == |header|
  {
    seq(|header|, i requires 0 <= i < |header| => DropBom(header[i]))
  }

  /** Where the five columns update_holdings needs sit. */
  datatype LedgerColumns = LedgerColumns(id: nat, name: nat, holdings: nat, price: nat, earnings: nat)

  /** The column search: the last header cell (byte-order mark dropped) with
      each name; None when one of the five is missing. */
  function LedgerColumnsOf(header: Row): Option<LedgerColumns>
  {
    var h := BomFree(header);
    var id := LastIndex(h, "id");
    var name := LastIndex(h, "name");
    var holdings := LastIndex(h, "holdings");
    var price := LastIndex(h, "holding_price");
    var earnings := LastIndex(h, "holding_earnings");
    if id.None? || name.None? || holdings.None? || price.None? || earnings.None? then None
    else Some(LedgerColumns(id.value, name.value, holdings.value, price.value, earnings.value))
  }

  /** The five columns are five different header cells, and none of them is
      a last_price column. */
  lemma {:induction false} LedgerColumnsDistinct(header: Row)
    requires LedgerColumnsOf(header).Some?
    ensures var c := LedgerColumnsOf(header).value;
      c.id < |header| && c.name < |header| && c.holdings < |header|
      && c.price < |header| && c.earnings < |header|
      && c.holdings != c.price && c.holdings != c.earnings && c.price != c.earnings
      && c.id != c.holdings && c.id != c.price && c.id != c.earnings
      && (forall lp :: 0 <= lp < |header| && header[lp] == "last_price" ==>
            lp != c.holdings && lp != c.price && lp != c.earnings)
  {
    var h := BomFree(header);
    forall lp | 0 <= lp < |header| && header[lp] == "last_price"
      ensures h[lp] == "last_price"
    {
    }
  }

  /** The outcome of the row search: the row found, no row with that id, or
      an IndexError on a row too short for the id column. */
  datatype Search = Found(index: nat) | NotFound | Short

  /** Row j lets the search go on: it has an id cell and the id differs. */
  predicate PassedOver(rows: Table, idc: nat, asset: string, j: nat)
    requires j < |rows|
  {
    idc < |rows[j]| && rows[j][idc] != asset
  }

  /** The search loop from data row i on: it stops at the first row whose id
      cell is the asset id. */
  function FindAsset(rows: Table, idc: nat, asset: string, i: nat): (s: Search)
    requires 1 <= i
    ensures s.Found? ==>
      i <= s.index < |rows| && idc < |rows[s.index]| && rows[s.index][idc] == asset
      && forall j :: i <= j < s.index ==> PassedOver(rows, idc, asset, j)
    ensures s.NotFound? ==> forall j :: i <= j < |rows| ==> PassedOver(rows, idc, asset, j)
    ensures s.Short? ==>
      exists j :: i <= j < |rows| && |rows[j]| <= idc
                  && forall m :: i <= m < j ==> PassedOver(rows, idc, asset, m)
    decreases |rows| - i
  {
    if i >= |rows| then NotFound
    else if idc >= |rows[i]| then Short
    else if rows[i][idc] == asset then Found(i)
    else FindAsset(rows, idc, asset, i + 1)
  }

  method FindAssetRow(rows: Table, idc: nat, asset: string) returns (s: Search)
    ensures s == FindAsset(rows, idc, asset, 1)
  {
    var i := 1;
    while i < |rows|
      invariant 1 <= i && (i == 1 || i <= |rows|)
      invariant FindAsset(rows, idc, asset, i) == FindAsset(rows, idc, asset, 1)
    {
      if idc >= |rows[i]| {
        return Short;
      }
      if rows[i][idc] == asset {
        return Found(i);
      }
      i := i + 1;
    }
    return NotFound;
  }

  // ---------------------------------------------------------------------------
  // The trade

  /** `float(cell) if cell else 0`. */
  function ReadAmount(cell: string): Option<real>
  {
    if cell == "" then Some(0.0) else ParseReal(cell)
  }

  /** The average cost after buying q at price on top of h held at p: the
      total cost is spread over the new holdings; 0 without holdings. */
  function AverageCost(h: real, p: real, q: real, price: real): (a: real)
    ensures h + q > 0.0 ==> a * (h + q) == h * p + q * price
    ensures h + q <= 0.0 ==> a == 0.0
  {
    if h + q > 0.0 then (h * p + q * price) / (h + q) else 0.0
  }

  /** Buying more of an asset held at a non-negative amount moves the average
      cost between the old cost and the buying price. */
  lemma {:induction false} AverageCostBetween(h: real, p: real, q: real, price: real)
    requires h >= 0.0 && q >= 0.0 && h + q > 0.0
    ensures var a := AverageCost(h, p, q, price);
      (p <= price ==> p <= a <= price) && (price <= p ==> price <= a <= p)
  {
    var a := AverageCost(h, p, q, price);
    assert a * (h + q) == h * p + q * price;
    if p <= price {
      assert p * (h + q) <= a * (h + q) <= price * (h + q);
    } else {
      assert price * (h + q) <= a * (h + q) <= p * (h + q);
    }
  }

  /** The buy or sell branch on the row (op already lower-cased): None when
      a sale exceeds the holdings; an operation that is neither leaves the
      row as it is. */
  function Trade(row: Row, c: LedgerColumns, h: real, p: real, q: real, price: real,
                 op: string): Option<Row>
    requires c.holdings < |row| && c.price < |row|
  {
    if op == "buy" then
      Some(row[c.holdings := Repr(h + q)][c.price := Fixed(AverageCost(h, p, q, price), 2)])
    else if op == "sell" then
      if h - q < 0.0 then None
      else if h - q == 0.0 then Some(row[c.holdings := Repr(h - q)][c.price := "0"])
      else Some(row[c.holdings := Repr(h - q)])
    else Some(row)
  }

  method TradeRow(row: Row, c: LedgerColumns, h: real, p: real, q: real, price: real,
                  op: string) returns (traded: Option<Row>)
    requires c.holdings < |row| && c.price < |row|
    ensures traded == Trade(row, c, h, p, q, price, op)
  {
    var r := row;
    if op == "buy" {
      var newHoldings := h + q;
      var newPrice := 0.0;
      if newHoldings > 0.0 {
        newPrice := (h * p + q * price) / newHoldings;
      }
      r := r[c.holdings := Repr(newHoldings)];
      r := r[c.price := Fixed(newPrice, 2)];
    } else if op == "sell" {
      var newHoldings := h - q;
      if newHoldings < 0.0 {
        return None;
      }
      r := r[c.holdings := Repr(newHoldings)];
      if newHoldings == 0.0 {
        r := r[c.price := "0"];
      }
    }
    return Some(r);
  }

  /** The holding_earnings recomputation on the traded row: "0" without a
      last_price column (the first one counts, byte-order mark kept);
      otherwise (last_price - holding_price) * holdings with four decimals,
      each read back from the row. None stands for the ValueError or
      IndexError that escapes. */
  function Revalue(header: Row, row: Row, c: LedgerColumns): Option<Row>
  {
    match FirstIndex(header, "last_price")
    case None => if c.earnings < |row| then Some(row[c.earnings := "0"]) else None
    case Some(lp) =>
      if lp >= |row| || c.price >= |row| || c.holdings >= |row| then None
      else
        var l := ReadAmount(row[lp]);
        var hp := ReadAmount(row[c.price]);
        var hh := ReadAmount(row[c.holdings]);
        if l.None? || hp.None? || hh.None? || c.earnings >= |row| then None
        else Some(row[c.earnings := EarningsText(l.value, hp.value, hh.value)])
  }

  /** (last_price - holding_price) * holdings. */
  function Gain(l: real, hp: real, hh: real): real
  {
    (l - hp) * hh
  }

  /** f"{gain:.4f}": reads back as the gain rounded to four places. */
  function EarningsText(l: real, hp: real, hh: real): (t: string)
    ensures ParseReal(t) == Some(RoundTo(Gain(l, hp, hh), 4))
  {
    FixedRoundTrip(Gain(l, hp, hh), 4);
    Fixed(Gain(l, hp, hh), 4)
  }

  method RevalueRow(header: Row, row: Row, c: LedgerColumns) returns (done: Option<Row>)
    ensures done == Revalue(header, row, c)
  {
    var lp := ScanFirst(header, "last_price");
    if lp.None? {
      if c.earnings >= |row| {
        return None;
      }
      return Some(row[c.earnings := "0"]);
    }
    var k := lp.value;
    if k >= |row| || c.price >= |row| || c.holdings >= |row| {
      return None;
    }
    var l := ReadAmount(row[k]);
    var hp := ReadAmount(row[c.price]);
    var hh := ReadAmount(row[c.holdings]);
    if l.None? || hp.None? || hh.None? || c.earnings >= |row| {
      return None;
    }
    return Some(row[c.earnings := EarningsText(l.value, hp.value, hh.value)]);
  }

  /** The found row k: its name, holdings and holding price are read (an
      IndexError or ValueError escapes), then the trade and the earnings
      recomputation. */
  function Transact(rows: Table, k: nat, c: LedgerColumns,
                    quantity: string, price: string, operation: string): Outcome
    requires 1 <= k < |rows|
  {
    var row := rows[k];
    if |row| <= Max(c.name, Max(c.holdings, c.price)) then Raised
    else match (ReadAmount(row[c.holdings]), ReadAmount(row[c.price]),
                ParseReal(quantity), ParseReal(price))
      case (Some(h), Some(p), Some(q), Some(pr)) =>
        (match Trade(row, c, h, p, q, pr, Lower(operation))
         case None => Skipped
         case Some(traded) =>
           match Revalue(rows[0], traded, c)
           case None => Raised
           case Some(done) => Written(rows[k := done]))
      case _ => Raised
  }

  /** update_holdings: Skipped is its False (rows unchanged), Written its True
      with the rows it changed in place. */
  function HoldingsUpdate(rows: Table, asset: string, quantity: string, price: string,
                          operation: string): Outcome
  {
    if rows == [] then Skipped
    else match LedgerColumnsOf(rows[0])
      case None => Skipped
      case Some(c) =>
        match FindAsset(rows, c.id, asset, 1)
        case Short => Raised
        case NotFound => Skipped
        case Found(k) => Transact(rows, k, c, quantity, price, operation)
  }

  method UpdateHoldings(rows: Table, asset: string, quantity: string, price: string,
                        operation: string) returns (out: Outcome)
    ensures out == HoldingsUpdate(rows, asset, quantity, price, operation)
  {
    if rows == [] {
      return Skipped;
    }
    var ks := ScanLastAll(BomFree(rows[0]), ["id", "name", "holdings", "holding_price", "holding_earnings"]);
    if ks[0].None? || ks[1].None? || ks[2].None? || ks[3].None? || ks[4].None? {
      return Skipped;
    }
    var c := LedgerColumns(ks[0].value, ks[1].value, ks[2].value, ks[3].value, ks[4].value);
    assert LedgerColumnsOf(rows[0]) == Some(c);
    var found := FindAssetRow(rows, c.id, asset);
    if found.Short? {
      return Raised;
    } else if found.NotFound? {
      return Skipped;
    }
    out := TransactRow(rows, found.index, c, quantity, price, operation);
  }

  /** The body of the search loop once the row is found. */
  method TransactRow(rows: Table, k: nat, c: LedgerColumns,
                     quantity: string, price: string, operation: string) returns (out: Outcome)
    requires 1 <= k < |rows|
    ensures out == Transact(rows, k, c, quantity, price, operation)
  {
    var row := rows[k];
    if c.name >= |row| || c.holdings >= |row| || c.price >= |row| {
      return Raised;
    }
    var h := ReadAmount(row[c.holdings]);
    var p := ReadAmount(row[c.price]);
    var q := ParseReal(quantity);
    var pr := ParseReal(price);
    if h.None? || p.None? || q.None? || pr.None? {
      return Raised;
    }
    var traded := TradeRow(row, c, h.value, p.value, q.value, pr.value, Lower(operation));
    if traded.None? {
      return Skipped;
    }
    var done := RevalueRow(rows[0], traded.value, c);
    if done.None? {
      return Raised;
    }
    out := Written(rows[k := done.value]);
  }

  // ---------------------------------------------------------------------------
  // Properties

  /** The row a successful update changes: the first data row with the asset
      id. */
  predicate TargetRow(rows: Table, asset: string, k: nat)
  {
    rows != [] && LedgerColumnsOf(rows[0]).Some?
    && FindAsset(rows, LedgerColumnsOf(rows[0]).value.id, asset, 1) == Found(k)
  }

  /** A successful update changes only the first row with the asset id, and
      in it only the holdings, holding_price and holding_earnings cells. */
  lemma {:induction false} HoldingsOnlyTarget(rows: Table, asset: string, quantity: string, price: string,
                           operation: string)
    requires HoldingsUpdate(rows, asset, quantity, price, operation).Written?
    ensures var out := HoldingsUpdate(rows, asset, quantity, price, operation).rows;
      exists k :: (1 <= k < |rows| && TargetRow(rows, asset, k)
                   && |out| == |rows| && |out[k]| == |rows[k]|
                   && (forall i :: 0 <= i < |rows| && i != k ==> out[i] == rows[i])
                   && (forall j :: 0 <= j < |rows[k]| ==>
                         var c := LedgerColumnsOf(rows[0]).value;
                         j != c.holdings && j != c.price && j != c.earnings ==> out[k][j] == rows[k][j]))
  {
    var c := LedgerColumnsOf(rows[0]).value;
    var k := FindAsset(rows, c.id, asset, 1).index;
    assert TargetRow(rows, asset, k);
    TransactKeeps(rows, k, c, quantity, price, operation);
  }

  /** A trade that goes through rewrites row k and no other, and in row k
      only the holdings, holding_price and holding_earnings cells. */
  lemma {:induction false} TransactKeeps(rows: Table, k: nat, c: LedgerColumns,
                      quantity: string, price: string, operation: string)
    requires 1 <= k < |rows| && Transact(rows, k, c, quantity, price, operation).Written?
    ensures var out := Transact(rows, k, c, quantity, price, operation).rows;
      |out| == |rows| && |out[k]| == |rows[k]|
      && (forall i :: 0 <= i < |rows| && i != k ==> out[i] == rows[i])
      && (forall j :: 0 <= j < |rows[k]| && j != c.holdings && j != c.price && j != c.earnings ==>
            out[k][j] == rows[k][j])
  {
    var row := rows[k];
    var h := ReadAmount(row[c.holdings]).value;
    var p := ReadAmount(row[c.price]).value;
    var q := ParseReal(quantity).value;
    var pr := ParseReal(price).value;
    var traded := Trade(row, c, h, p, q, pr, Lower(operation)).value;
    TradeKeeps(row, c, h, p, q, pr, Lower(operation));
    EarningsCell(rows[0], traded, c);
    var done := Revalue(rows[0], traded, c).value;
    assert Transact(rows, k, c, quantity, price, operation) == Written(rows[k := done]);
  }

  /** A trade rewrites only the holdings and holding_price cells. */
  lemma {:induction false} TradeKeeps(row: Row, c: LedgerColumns, h: real, p: real, q: real, price: real, op: string)
    requires c.holdings < |row| && c.price < |row| && Trade(row, c, h, p, q, price, op).Some?
    ensures var t := Trade(row, c, h, p, q, price, op).value;
      |t| == |row| && forall j :: 0 <= j < |row| && j != c.holdings && j != c.price ==> t[j] == row[j]
  {
  }

  /** update_holdings returns False, leaving the rows alone, exactly when the
      rows are empty, a column is missing, no row has the id, or a sale
      exceeds the holdings. */
  lemma {:induction false} HoldingsRefused(rows: Table, asset: string, quantity: string, price: string,
                        operation: string)
    ensures HoldingsUpdate(rows, asset, quantity, price, operation) == Skipped <==>
      rows == [] || LedgerColumnsOf(rows[0]).None?
      || FindAsset(rows, LedgerColumnsOf(rows[0]).value.id, asset, 1).NotFound?
      || exists k :: 1 <= k < |rows| && TargetRow(rows, asset, k) && Oversold(rows[k], LedgerColumnsOf(rows[0]).value,
                                                         quantity, price, operation)
  {
    if rows != [] && LedgerColumnsOf(rows[0]).Some? {
      var c := LedgerColumnsOf(rows[0]).value;
      var s := FindAsset(rows, c.id, asset, 1);
      if s.Found? {
        assert TargetRow(rows, asset, s.index);
        forall k | TargetRow(rows, asset, k)
          ensures k == s.index
        {
        }
        TransactSkipped(rows, s.index, c, quantity, price, operation);
      }
    }
  }

  /** The trade on the found row is refused exactly when it oversells. */
  lemma {:induction false} TransactSkipped(rows: Table, k: nat, c: LedgerColumns,
                        quantity: string, price: string, operation: string)
    requires 1 <= k < |rows|
    ensures Transact(rows, k, c, quantity, price, operation) == Skipped <==>
            Oversold(rows[k], c, quantity, price, operation)
  {
  }

  /** A sale of more than is held, with every number readable. */
  predicate Oversold(row: Row, c: LedgerColumns, quantity: string, price: string, operation: string)
  {
    |row| > Max(c.name, Max(c.holdings, c.price))
    && Lower(operation) == "sell"
    && ReadAmount(row[c.holdings]).Some? && ReadAmount(row[c.price]).Some?
    && ParseReal(quantity).Some? && ParseReal(price).Some?
    && ParseReal(quantity).value > ReadAmount(row[c.holdings]).value
  }

  /** A buy adds the quantity to the holdings and sets the holding price to
      the average cost, rounded to cents; the holdings cell reads back
      exactly whenever the new holdings need at most 17 decimals. */
  lemma {:induction false} BuyCells(row: Row, c: LedgerColumns, h: real, p: real, q: real, price: real)
    requires c.holdings < |row| && c.price < |row| && c.holdings != c.price
    ensures var t := Trade(row, c, h, p, q, price, "buy");
      t.Some? && |t.value| == |row|
      && ParseReal(t.value[c.price]) == Some(RoundTo(AverageCost(h, p, q, price), 2))
      && (RoundTo(h + q, MaxReprPlaces) == h + q ==> ParseReal(t.value[c.holdings]) == Some(h + q))
      && forall j :: 0 <= j < |row| && j != c.holdings && j != c.price ==> t.value[j] == row[j]
  {
    var a := AverageCost(h, p, q, price);
    var t := Trade(row, c, h, p, q, price, "buy").value;
    assert t == row[c.holdings := Repr(h + q)][c.price := Fixed(a, 2)];
    assert t[c.price] == Fixed(a, 2) && t[c.holdings] == Repr(h + q);
    FixedRoundTrip(a, 2);
    if RoundTo(h + q, MaxReprPlaces) == h + q {
      ReprRoundTrip(h + q, MaxReprPlaces);
    }
  }

  /** A sale never leaves negative holdings: it is refused when the quantity
      exceeds the holdings; otherwise the holdings drop by the quantity and
      the holding price stays, unless nothing is left, when it becomes "0". */
  lemma {:induction false} SellCells(row: Row, c: LedgerColumns, h: real, p: real, q: real, price: real)
    requires c.holdings < |row| && c.price < |row| && c.holdings != c.price
    ensures var t := Trade(row, c, h, p, q, price, "sell");
      (t.None? <==> q > h)
      && (t.Some? ==>
            |t.value| == |row| && h - q >= 0.0
            && (RoundTo(h - q, MaxReprPlaces) == h - q ==> ParseReal(t.value[c.holdings]) == Some(h - q))
            && t.value[c.price] == (if h == q then "0" else row[c.price])
            && forall j :: 0 <= j < |row| && j != c.holdings && j != c.price ==> t.value[j] == row[j])
  {
    if q <= h && RoundTo(h - q, MaxReprPlaces) == h - q {
      ReprRoundTrip(h - q, MaxReprPlaces);
    }
  }

  /** Selling what was just bought restores the holdings cell to the
      rendering of the old holdings and keeps the average cost of the buy,
      unless nothing is left. */
  lemma {:induction false} BuyThenSell(row: Row, c: LedgerColumns, h: real, p: real, q: real, price: real,
                    sellPrice: real)
    requires c.holdings < |row| && c.price < |row| && c.holdings != c.price && h >= 0.0
    ensures var bought := Trade(row, c, h, p, q, price, "buy").value;
      var sold := Trade(bought, c, h + q, RoundTo(AverageCost(h, p, q, price), 2), q, sellPrice, "sell");
      sold.Some? && sold.value[c.holdings] == Repr(h)
      && sold.value[c.price] == (if h == 0.0 then "0" else bought[c.price])
  {
    assert (h + q) - q == h;
  }

  /** The holdings and holding price cells of a traded row always read back. */
  lemma {:induction false} TradedReadable(row: Row, c: LedgerColumns, h: real, p: real, q: real, price: real, op: string)
    requires c.holdings < |row| && c.price < |row| && c.holdings != c.price
    requires ReadAmount(row[c.holdings]).Some? && ReadAmount(row[c.price]).Some?
    requires Trade(row, c, h, p, q, price, op).Some?
    ensures var t := Trade(row, c, h, p, q, price, op).value;
      ReadAmount(t[c.holdings]).Some? && ReadAmount(t[c.price]).Some?
  {
    var t := Trade(row, c, h, p, q, price, op).value;
    if op == "buy" || op == "sell" {
      var nh := if op == "buy" then h + q else h - q;
      FixedRoundTrip(nh, ReprPlaces(nh, 1));
      assert t[c.holdings] == Repr(nh);
      if op == "buy" {
        FixedRoundTrip(AverageCost(h, p, q, price), 2);
      } else if h - q == 0.0 {
        ParseZero();
      }
    }
  }

  /** The earnings cell after a successful update: "0" without a last_price
      column, and otherwise (last_price - holding_price) * holdings rounded
      to four places, from the cells of the updated row. */
  lemma {:induction false} EarningsCell(header: Row, row: Row, c: LedgerColumns)
    requires Revalue(header, row, c).Some?
    ensures var done := Revalue(header, row, c).value;
      |done| == |row| && c.earnings < |row|
      && (FirstIndex(header, "last_price").None? ==> done[c.earnings] == "0")
      && (FirstIndex(header, "last_price").Some? ==>
            var lp := FirstIndex(header, "last_price").value;
            lp < |row| && c.price < |row| && c.holdings < |row|
            && ReadAmount(row[lp]).Some? && ReadAmount(row[c.price]).Some?
            && ReadAmount(row[c.holdings]).Some?
            && ParseReal(done[c.earnings]) == Some(RoundTo(
                 Gain(ReadAmount(row[lp]).value, ReadAmount(row[c.price]).value,
                      ReadAmount(row[c.holdings]).value), 4)))
      && forall j :: 0 <= j < |row| && j != c.earnings ==> done[j] == row[j]
  {
    match FirstIndex(header, "last_price")
    case None =>
    case Some(lp) =>
      var l := ReadAmount(row[lp]).value;
      var hp := ReadAmount(row[c.price]).value;
      var hh := ReadAmount(row[c.holdings]).value;
      var t := EarningsText(l, hp, hh);
      assert Revalue(header, row, c).value == row[c.earnings := t];
      assert ParseReal(t) == Some(RoundTo(Gain(l, hp, hh), 4));
  }

  /** With every number readable and a last_price column, a buy or sell that
      goes through fails only on an unreadable last_price cell or a row too
      short for the last_price or earnings column. */
  lemma {:induction false} RevalueFails(header: Row, row: Row, c: LedgerColumns, h: real, p: real, q: real,
                     price: real, op: string)
    requires c.holdings < |row| && c.price < |row| && c.holdings != c.price
    requires ReadAmount(row[c.holdings]).Some? && ReadAmount(row[c.price]).Some?
    requires Trade(row, c, h, p, q, price, op).Some?
    ensures var t := Trade(row, c, h, p, q, price, op).value;
      var lp := FirstIndex(header, "last_price");
      Revalue(header, t, c).None? <==>
        c.earnings >= |row|
        || (lp.Some? && (lp.value >= |row| || ReadAmount(t[lp.value]).None?))
  {
    TradedReadable(row, c, h, p, q, price, op);
  }
}

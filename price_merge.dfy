/** update_prices.py, update_watchlist: rebuild the date header of the watchlist
    from freshly fetched prices and merge them into the existing rows. */
module PriceMerge {
  import opened Text
  import opened Sheets
  import opened Dates

  /** One fetched price of an asset on a date (an item of new_data[id]). */
  datatype Quote = Quote(date: string, price: string)

  /** new_data[id]: the quotes fetched for one asset, in dictionary order.
      new_data itself is a sequence of these; a dictionary has no key twice,
      and a lookup below takes the first entry with the key, which for a
      dictionary is the only one. */
  datatype Fetched = Fetched(id: string, quotes: seq<Quote>)

  /** new_data.get(id): the quotes of the asset, if any were fetched. */
  function QuotesOf(data: seq<Fetched>, id: string): (r: Option<seq<Quote>>)
    ensures r.Some? <==> exists e :: e in data && e.id == id
    ensures r.Some? ==> exists e :: e in data && e.id == id && e.quotes == r.value
  {
    if data == [] then None
    else if data[0].id == id then Some(data[0].quotes)
    else QuotesOf(data[1..], id)
  }

  /** quotes[date], if the date was fetched. */
  function QuoteFor(quotes: seq<Quote>, date: string): (r: Option<string>)
    ensures r.Some? <==> exists q :: q in quotes && q.date == date
    ensures r.Some? ==> Quote(date, r.value) in quotes
  {
    if quotes == [] then None
    else if quotes[0].date == date then Some(quotes[0].price)
    else QuoteFor(quotes[1..], date)
  }

  // ---------------------------------------------------------------------------
  // The ordered set of dates (the OrderedDict all_dates)

  function AddDate(acc: seq<string>, d: string): seq<string>
  {
    if d in acc then acc else acc + [d]
  }

  /** The dates of quotes added to acc in order, each at most once. */
  function AddDates(acc: seq<string>, quotes: seq<Quote>): seq<string>
  {
    if quotes == [] then acc
    else AddDate(AddDates(acc, quotes[..|quotes| - 1]), quotes[|quotes| - 1].date)
  }

  /** all_dates after the first loop: every fetched date, in first-seen order. */
  function AllDates(data: seq<Fetched>): seq<string>
  {
    if data == [] then []
    else AddDates(AllDates(data[..|data| - 1]), data[|data| - 1].quotes)
  }

  lemma {:induction false} AddDatesDistinct(acc: seq<string>, quotes: seq<Quote>)
    requires Distinct(acc)
    ensures Distinct(AddDates(acc, quotes))
  {
    if quotes != [] {
      AddDatesDistinct(acc, quotes[..|quotes| - 1]);
    }
  }

  lemma {:induction false} AddDatesMember(acc: seq<string>, quotes: seq<Quote>, d: string)
    ensures d in AddDates(acc, quotes) <==> d in acc || exists q :: q in quotes && q.date == d
  {
    if quotes != [] {
      var front := quotes[..|quotes| - 1];
      var last := quotes[|quotes| - 1];
      AddDatesMember(acc, front, d);
      assert quotes == front + [last];
      if exists q :: q in quotes && q.date == d {
        var q :| q in quotes && q.date == d;
        if q != last {
          assert q in front;
        }
      }
      if exists q :: q in front && q.date == d {
        var q :| q in front && q.date == d;
        assert q in quotes;
      }
    }
  }

  /** all_dates holds no date twice. */
  lemma {:induction false} AllDatesDistinct(data: seq<Fetched>)
    ensures Distinct(AllDates(data))
  {
    if data != [] {
      AllDatesDistinct(data[..|data| - 1]);
      AddDatesDistinct(AllDates(data[..|data| - 1]), data[|data| - 1].quotes);
    }
  }

  /** all_dates holds exactly the fetched dates. */
  lemma {:induction false} AllDatesMember(data: seq<Fetched>, d: string)
    ensures d in AllDates(data) <==> exists e, q :: e in data && q in e.quotes && q.date == d
  {
    if data != [] {
      var front := data[..|data| - 1];
      var last := data[|data| - 1];
      AllDatesMember(front, d);
      AddDatesMember(AllDates(front), last.quotes, d);
      assert data == front + [last];
      if exists e, q :: e in data && q in e.quotes && q.date == d {
        var e, q :| e in data && q in e.quotes && q.date == d;
        if e != last {
          assert e in front;
        }
      }
      if exists e, q :: e in front && q in e.quotes && q.date == d {
        var e, q :| e in front && q in e.quotes && q.date == d;
        assert e in data;
      }
    }
  }

  /** The second loop's test: some asset has a non-empty price on date. */
  predicate HasData(data: seq<Fetched>, date: string)
  {
    exists e :: e in data && QuoteFor(e.quotes, date).Some? && QuoteFor(e.quotes, date).value != ""
  }

  /** A date with data was already collected, so the second loop adds nothing:
      dates that occur only in the old header are dropped. */
  lemma {:induction false} HasDataCollected(data: seq<Fetched>, date: string)
    requires HasData(data, date)
    ensures date in AllDates(data)
  {
    AllDatesMember(data, date);
    var e :| e in data && QuoteFor(e.quotes, date).Some? && QuoteFor(e.quotes, date).value != "";
    var q := Quote(date, QuoteFor(e.quotes, date).value);
    assert q in e.quotes;
  }

  // ---------------------------------------------------------------------------
  // sorted(all_dates, key=strptime)

  datatype Dated = Dated(text: string, date: Date)

  /** Every date text with its parsed date, or None when one raises. */
  function ParseAll(ds: seq<string>): (r: Option<seq<Dated>>)
    ensures r.Some? <==> forall d :: d in ds ==> ParseDate(d).Some?
    ensures r.Some? ==> |r.value| == |ds|
    ensures r.Some? ==> forall i :: 0 <= i < |ds| ==> r.value[i] == Dated(ds[i], ParseDate(ds[i]).value)
  {
    if ds == [] then Some([])
    else
      match (ParseDate(ds[0]), ParseAll(ds[1..]))
      case (Some(d), Some(rest)) => Some([Dated(ds[0], d)] + rest)
      case (None, _) => None
      case (_, None) =>
        assert forall d :: d in ds[1..] ==> d in ds;
        None
  }

  /** x goes in front of the first entry that is not older (stable). */
  function InsertAsc(x: Dated, s: seq<Dated>): (r: seq<Dated>)
    ensures multiset(r) == multiset(s) + multiset{x}
    ensures |r| == |s| + 1
  {
    if s == [] || !Before(s[0].date, x.date) then [x] + s
    else
      assert s == [s[0]] + s[1..];
      [s[0]] + InsertAsc(x, s[1..])
  }

  function SortAsc(s: seq<Dated>): (r: seq<Dated>)
    ensures multiset(r) == multiset(s)
    ensures |r| == |s|
  {
    if s == [] then []
    else
      assert s == [s[0]] + s[1..];
      InsertAsc(s[0], SortAsc(s[1..]))
  }

  predicate Ascending(s: seq<Dated>)
  {
    forall i, j :: 0 <= i < j < |s| ==> !Before(s[j].date, s[i].date)
  }

  lemma {:induction false} InsertAscSorted(x: Dated, s: seq<Dated>)
    requires Ascending(s)
    ensures Ascending(InsertAsc(x, s))
  {
    if s != [] && Before(s[0].date, x.date) {
      var t := s[1..];
      InsertAscSorted(x, t);
      var r := InsertAsc(x, t);
      forall j | 0 <= j < |r|
        ensures !Before(r[j].date, s[0].date)
      {
        InsertAscMember(x, t, r[j]);
        if r[j] != x {
          var m :| 0 <= m < |t| && t[m] == r[j];
          assert s[m + 1] == r[j];
        }
      }
      assert InsertAsc(x, s) == [s[0]] + r;
    } else {
      assert InsertAsc(x, s) == [x] + s;
      forall j | 0 <= j < |s|
        ensures !Before(s[j].date, x.date)
      {
        if j > 0 {
          assert !Before(s[j].date, s[0].date);
        }
      }
    }
  }

  /** An entry of the result was inserted or was already there. */
  lemma {:induction false} InsertAscMember(x: Dated, t: seq<Dated>, e: Dated)
    requires e in InsertAsc(x, t)
    ensures e == x || e in t
  {
    assert e in multiset(InsertAsc(x, t));
  }

  lemma {:induction false} SortAscSorted(s: seq<Dated>)
    ensures Ascending(SortAsc(s))
  {
    if s != [] {
      SortAscSorted(s[1..]);
      InsertAscSorted(s[0], SortAsc(s[1..]));
    }
  }

  function Texts(s: seq<Dated>): (t: seq<string>)
    ensures |t| == |s| && forall i :: 0 <= i < |s| ==> t[i] == s[i].text
  {
    if s == [] then [] else [s[0].text] + Texts(s[1..])
  }

  /** sorted(all_dates, key=lambda x: strptime(x, '%Y-%m-%d')); None is the
      ValueError of a date that does not parse. */
  function SortedDates(ds: seq<string>): Option<seq<string>>
  {
    match ParseAll(ds)
    case None => None
    case Some(p) => Some(Texts(SortAsc(p)))
  }

  lemma {:induction false} InsertAscTexts(x: Dated, s: seq<Dated>)
    ensures multiset(Texts(InsertAsc(x, s))) == multiset(Texts(s)) + multiset{x.text}
  {
    if s != [] && Before(s[0].date, x.date) {
      InsertAscTexts(x, s[1..]);
      assert Texts(InsertAsc(x, s)) == [s[0].text] + Texts(InsertAsc(x, s[1..]));
      assert Texts(s) == [s[0].text] + Texts(s[1..]);
    } else {
      assert Texts(InsertAsc(x, s)) == [x.text] + Texts(s);
    }
  }

  lemma {:induction false} SortAscTexts(s: seq<Dated>)
    ensures multiset(Texts(SortAsc(s))) == multiset(Texts(s))
  {
    if s != [] {
      SortAscTexts(s[1..]);
      InsertAscTexts(s[0], SortAsc(s[1..]));
      assert Texts(s) == [s[0].text] + Texts(s[1..]);
    }
  }

  /** The sorted dates are the dates of all_dates, each once as often. */
  lemma {:induction false} SortedDatesPermutation(ds: seq<string>)
    requires SortedDates(ds).Some?
    ensures multiset(SortedDates(ds).value) == multiset(ds)
  {
    var p := ParseAll(ds).value;
    SortAscTexts(p);
    assert Texts(p) == ds;
  }

  /** Every date parses and none is older than one before it. */
  predicate OldestFirst(dates: seq<string>)
  {
    (forall i :: 0 <= i < |dates| ==> ParseDate(dates[i]).Some?)
    && forall i, j :: 0 <= i < j < |dates| ==>
         !Before(ParseDate(dates[j]).value, ParseDate(dates[i]).value)
  }

  /** Every date parses and each is older than every later one. */
  predicate StrictlyIncreasing(dates: seq<string>)
  {
    forall i, j :: 0 <= i < j < |dates| ==>
      ParseDate(dates[i]).Some? && ParseDate(dates[j]).Some?
      && Before(ParseDate(dates[i]).value, ParseDate(dates[j]).value)
  }

  /** Each sorted date parses, and they run from oldest to newest. */
  lemma {:induction false} SortedDatesAscending(ds: seq<string>)
    requires SortedDates(ds).Some?
    ensures OldestFirst(SortedDates(ds).value)
  {
    var p := ParseAll(ds).value;
    var s := SortAsc(p);
    SortAscSorted(p);
    forall k | 0 <= k < |s|
      ensures ParseDate(s[k].text) == Some(s[k].date)
    {
      assert s[k] in multiset(p);
      var m :| 0 <= m < |p| && p[m] == s[k];
    }
  }

  /** A duplicate-free list is one where no element counts twice. */
  lemma {:induction false} DistinctCount(s: seq<string>)
    ensures Distinct(s) <==> forall d :: multiset(s)[d] <= 1
  {
    if Distinct(s) {
      DistinctCountsOne(s);
    } else {
      var i, j :| 0 <= i < j < |s| && s[i] == s[j];
      DuplicateCountsTwo(s, i, j);
    }
  }

  lemma {:induction false} DistinctCountsOne(s: seq<string>)
    requires Distinct(s)
    ensures forall d :: multiset(s)[d] <= 1
  {
    if s != [] {
      var t := s[1..];
      assert s == [s[0]] + t;
      assert Distinct(t) by {
        forall i, j | 0 <= i < j < |t|
          ensures t[i] != t[j]
        {
          assert t[i] == s[i + 1] && t[j] == s[j + 1];
        }
      }
      DistinctCountsOne(t);
      assert s[0] !in t by {
        forall j | 0 <= j < |t|
          ensures t[j] != s[0]
        {
          assert t[j] == s[j + 1];
        }
      }
      assert multiset(s) == multiset{s[0]} + multiset(t);
    }
  }

  lemma {:induction false} DuplicateCountsTwo(s: seq<string>, i: nat, j: nat)
    requires i < j < |s| && s[i] == s[j]
    ensures multiset(s)[s[j]] >= 2
  {
    assert s == s[..j] + [s[j]] + s[j + 1..];
    assert s[i] in s[..j];
  }

  /** Sorting keeps a duplicate-free list of dates duplicate-free. */
  lemma {:induction false} SortedDatesDistinct(ds: seq<string>)
    requires SortedDates(ds).Some? && Distinct(ds)
    ensures Distinct(SortedDates(ds).value)
  {
    SortedDatesPermutation(ds);
    DistinctCount(ds);
    DistinctCount(SortedDates(ds).value);
  }

  // ---------------------------------------------------------------------------
  // The rebuilt rows

  /** existing_prices.get(date, '') over the first n header/price pairs: the
      last of them whose date matches, or "". */
  function OldCellBelow(existing: seq<string>, prices: seq<string>, date: string, n: nat): string
    requires n <= |existing| && n <= |prices|
  {
    if n == 0 then ""
    else if existing[n - 1] == date then prices[n - 1]
    else OldCellBelow(existing, prices, date, n - 1)
  }

  /** dict(zip(existing_dates, row[3:])).get(date, ''): zip stops at the
      shorter list and a repeated date keeps its last price. */
  function OldCell(existing: seq<string>, prices: seq<string>, date: string): string
  {
    OldCellBelow(existing, prices, date, if |existing| < |prices| then |existing| else |prices|)
  }

  /** The old cell is the price paired with the last matching header date, or
      "" when no paired header date matches. */
  lemma {:induction false} OldCellBelowSpec(existing: seq<string>, prices: seq<string>, date: string, n: nat)
    requires n <= |existing| && n <= |prices|
    ensures var c := OldCellBelow(existing, prices, date, n);
      (date !in existing[..n] && c == "")
      || (exists j :: 0 <= j < n && existing[j] == date && c == prices[j]
            && forall k :: j < k < n ==> existing[k] != date)
  {
    if n > 0 {
      OldCellBelowSpec(existing, prices, date, n - 1);
      assert existing[..n] == existing[..n - 1] + [existing[n - 1]];
    }
  }

  /** One merged price: the fetched price for (id, date) when there is one,
      even an empty one; otherwise the old cell. */
  function MergedCell(data: seq<Fetched>, id: string, existing: seq<string>,
                      prices: seq<string>, date: string): string
  {
    match QuotesOf(data, id)
    case Some(quotes) =>
      (match QuoteFor(quotes, date)
       case Some(p) => p
       case None => OldCell(existing, prices, date))
    case None => OldCell(existing, prices, date)
  }

  /** The date columns of the old header. */
  function Existing(header: Row): seq<string>
  {
    if |header| <= 3 then [] else header[3..]
  }

  function MergedPrices(row: Row, existing: seq<string>, data: seq<Fetched>, dates: seq<string>): seq<string>
    requires |row| >= 3
  {
    seq(|dates|, k requires 0 <= k < |dates| => MergedCell(data, row[1], existing, row[3..], dates[k]))
  }

  /** update_watchlist(rows, new_data): empty input comes back unchanged; a
      fetched date that does not parse, or a data row with fewer than three
      cells, raises; otherwise the new header and one merged row per data row. */
  function WatchlistUpdate(rows: Table, data: seq<Fetched>): Outcome
  {
    if rows == [] then Written(rows)
    else
      match SortedDates(AllDates(data))
      case None => Raised
      case Some(dates) => MergedTable(rows, data, dates)
  }

  /** The rows loop once the dates are sorted. */
  function MergedTable(rows: Table, data: seq<Fetched>, dates: seq<string>): Outcome
    requires rows != []
  {
    if exists i :: 1 <= i < |rows| && |rows[i]| < 3 then Raised
    else Written([Take3(rows[0]) + dates]
                 + seq(|rows| - 1, i requires 0 <= i < |rows| - 1 =>
                         rows[i + 1][..3] + MergedPrices(rows[i + 1], Existing(rows[0]), data, dates)))
  }

  /** The first loop: every fetched date, in first-seen order. */
  method CollectFetchedDates(data: seq<Fetched>) returns (allDates: seq<string>)
    ensures allDates == AllDates(data)
  {
    allDates := [];
    var i := 0;
    while i < |data|
      invariant 0 <= i <= |data|
      invariant allDates == AllDates(data[..i])
    {
      var quotes := data[i].quotes;
      var j := 0;
      assert data[..i + 1][..i] == data[..i];
      while j < |quotes|
        invariant 0 <= j <= |quotes|
        invariant allDates == AddDates(AllDates(data[..i]), quotes[..j])
      {
        assert quotes[..j + 1][..j] == quotes[..j];
        if quotes[j].date !in allDates {
          allDates := allDates + [quotes[j].date];
        }
        j := j + 1;
      }
      assert quotes[..j] == quotes;
      i := i + 1;
    }
    assert data[..i] == data;
  }

  /** The second loop: an old header date with data for some asset is added
      unless present; it always is, so all_dates does not change. */
  method AddDatesWithData(existing: seq<string>, data: seq<Fetched>, allDates: seq<string>)
    returns (result: seq<string>)
    requires allDates == AllDates(data)
    ensures result == allDates
  {
    result := allDates;
    var i := 0;
    while i < |existing|
      invariant 0 <= i <= |existing|
      invariant result == allDates
    {
      var date := existing[i];
      var hasData := false;
      var j := 0;
      while j < |data|
        invariant 0 <= j <= |data|
        invariant hasData ==> HasData(data, date)
      {
        var found := QuoteFor(data[j].quotes, date);
        if found.Some? && found.value != "" {
          assert data[j] in data;
          hasData := true;
          break;
        }
        j := j + 1;
      }
      if hasData {
        HasDataCollected(data, date);
      }
      if hasData && date !in result {
        result := result + [date];
      }
      i := i + 1;
    }
  }

  /** The merged_prices loop of one data row. */
  method MergeRow(row: Row, existing: seq<string>, data: seq<Fetched>, dates: seq<string>)
    returns (merged: seq<string>)
    requires |row| >= 3
    ensures merged == MergedPrices(row, existing, data, dates)
  {
    var id := row[1];
    var fetched := QuotesOf(data, id);
    merged := [];
    var k := 0;
    while k < |dates|
      invariant 0 <= k <= |dates|
      invariant |merged| == k
      invariant forall m :: 0 <= m < k ==> merged[m] == MergedCell(data, id, existing, row[3..], dates[m])
    {
      var cell: string;
      if fetched.Some? && QuoteFor(fetched.value, dates[k]).Some? {
        cell := QuoteFor(fetched.value, dates[k]).value;
      } else {
        cell := OldCell(existing, row[3..], dates[k]);
      }
      merged := merged + [cell];
      k := k + 1;
    }
  }

  method MergeRows(rows: Table, data: seq<Fetched>, dates: seq<string>) returns (out: Outcome)
    requires rows != []
    ensures out == MergedTable(rows, data, dates)
  {
    var existing := Existing(rows[0]);
    var output: Table := [Take3(rows[0]) + dates];
    var i := 1;
    while i < |rows|
      invariant 1 <= i <= |rows|
      invariant |output| == i && output[0] == Take3(rows[0]) + dates
      invariant forall k :: 1 <= k < i ==> |rows[k]| >= 3
      invariant forall k :: 1 <= k < i ==>
        output[k] == rows[k][..3] + MergedPrices(rows[k], existing, data, dates)
    {
      if |rows[i]| < 3 {
        return Raised;
      }
      var merged := MergeRow(rows[i], existing, data, dates);
      output := output + [rows[i][..3] + merged];
      i := i + 1;
    }
    out := Written(output);
    assert output == [output[0]] + output[1..];
  }

  method UpdateWatchlist(rows: Table, data: seq<Fetched>) returns (out: Outcome)
    ensures out == WatchlistUpdate(rows, data)
  {
    if rows == [] {
      return Written(rows);
    }
    var existing := Existing(rows[0]);
    var allDates := CollectFetchedDates(data);
    allDates := AddDatesWithData(existing, data, allDates);
    var sorted := SortedDates(allDates);
    if sorted.None? {
      return Raised;
    }
    out := MergeRows(rows, data, sorted.value);
  }

  // ---------------------------------------------------------------------------
  // What the merge promises

  /** The written header: the first three old header cells, then the sorted
      dates. */
  lemma {:induction false} NewHeader(rows: Table, data: seq<Fetched>)
    requires WatchlistUpdate(rows, data).Written? && rows != []
    ensures SortedDates(AllDates(data)).Some?
    ensures var h := WatchlistUpdate(rows, data).rows[0];
      h[..|Take3(rows[0])|] == Take3(rows[0])
      && h[|Take3(rows[0])|..] == SortedDates(AllDates(data)).value
  {
    var dates := SortedDates(AllDates(data)).value;
    var h := Take3(rows[0]) + dates;
    assert WatchlistUpdate(rows, data) == MergedTable(rows, data, dates);
    assert MergedTable(rows, data, dates).rows[0] == h;
    assert h[|Take3(rows[0])|..] == dates;
  }

  /** The new header is the first three old header cells followed by every
      fetched date once, oldest first; dates found only in the old header are
      gone. */
  lemma {:induction false} WatchlistHeader(rows: Table, data: seq<Fetched>, d: string)
    requires WatchlistUpdate(rows, data).Written? && rows != []
    ensures var h := WatchlistUpdate(rows, data).rows[0];
      var dates := h[|Take3(rows[0])|..];
      h[..|Take3(rows[0])|] == Take3(rows[0])
      && Distinct(dates)
      && OldestFirst(dates)
      && (d in dates <==> exists e, q :: e in data && q in e.quotes && q.date == d)
  {
    var all := AllDates(data);
    var dates := SortedDates(all).value;
    NewHeader(rows, data);
    AllDatesDistinct(data);
    AllDatesMember(data, d);
    SortedDatesDistinct(all);
    SortedDatesAscending(all);
    SortedDatesPermutation(all);
    assert d in dates <==> d in multiset(dates);
  }

  /** When every fetched date is written zero-padded (YYYY-MM-DD), the new
      date columns are strictly increasing in time. */
  lemma {:induction false} WatchlistHeaderStrict(rows: Table, data: seq<Fetched>)
    requires WatchlistUpdate(rows, data).Written? && rows != []
    requires forall e, q :: e in data && q in e.quotes ==> IsoShaped(q.date)
    ensures StrictlyIncreasing(WatchlistUpdate(rows, data).rows[0][|Take3(rows[0])|..])
  {
    var all := AllDates(data);
    NewHeader(rows, data);
    AllDatesDistinct(data);
    AllDatesIso(data);
    SortedIsoStrict(all);
  }

  /** Zero-padded fetched dates give zero-padded dates to sort. */
  lemma {:induction false} AllDatesIso(data: seq<Fetched>)
    requires forall e, q :: e in data && q in e.quotes ==> IsoShaped(q.date)
    ensures forall d :: d in AllDates(data) ==> IsoShaped(d)
  {
    forall d | d in AllDates(data)
      ensures IsoShaped(d)
    {
      AllDatesMember(data, d);
    }
  }

  /** Distinct zero-padded dates sort into strictly increasing order. */
  lemma {:induction false} SortedIsoStrict(all: seq<string>)
    requires Distinct(all) && SortedDates(all).Some?
    requires forall d :: d in all ==> IsoShaped(d)
    ensures StrictlyIncreasing(SortedDates(all).value)
  {
    var dates := SortedDates(all).value;
    SortedDatesDistinct(all);
    SortedDatesAscending(all);
    SortedDatesPermutation(all);
    forall i, j | 0 <= i < j < |dates|
      ensures Before(ParseDate(dates[i]).value, ParseDate(dates[j]).value)
    {
      assert dates[i] in multiset(all) && dates[j] in multiset(all);
      if ParseDate(dates[i]) == ParseDate(dates[j]) {
        IsoInjective(dates[i], dates[j]);
      }
    }
  }

  /** Every data row keeps its name, id and type and gets one cell per new date
      column: the fetched price for that id and date when there is one,
      otherwise the old price under that date, otherwise "". */
  lemma {:induction false} WatchlistCell(rows: Table, data: seq<Fetched>, i: nat, k: nat)
    requires WatchlistUpdate(rows, data).Written? && 1 <= i < |rows|
    ensures |WatchlistUpdate(rows, data).rows| == |rows|
    ensures var out := WatchlistUpdate(rows, data).rows;
      var dates := SortedDates(AllDates(data)).value;
      |out[i]| == 3 + |dates| && out[i][..3] == rows[i][..3]
      && (k < |dates| ==>
            var fetched := QuotesOf(data, rows[i][1]);
            out[i][3 + k] ==
              if fetched.Some? && QuoteFor(fetched.value, dates[k]).Some?
              then QuoteFor(fetched.value, dates[k]).value
              else OldCell(Existing(rows[0]), rows[i][3..], dates[k]))
  {
    var dates := SortedDates(AllDates(data)).value;
    assert WatchlistUpdate(rows, data) == MergedTable(rows, data, dates);
    MergedRow(rows, data, dates, i);
    if k < |dates| {
      MergedPriceAt(rows[i], Existing(rows[0]), data, dates, k);
    }
  }

  /** Data row i of the rebuilt table: its first three cells, then the merged
      prices. */
  lemma {:induction false} MergedRow(rows: Table, data: seq<Fetched>, dates: seq<string>, i: nat)
    requires rows != [] && MergedTable(rows, data, dates).Written? && 1 <= i < |rows|
    ensures |rows[i]| >= 3
    ensures var out := MergedTable(rows, data, dates).rows;
      |out| == |rows| && out[i] == rows[i][..3] + MergedPrices(rows[i], Existing(rows[0]), data, dates)
  {
  }

  /** Cell 3 + k of a merged row is the merged price for date k. */
  lemma {:induction false} MergedPriceAt(row: Row, existing: seq<string>, data: seq<Fetched>,
                                         dates: seq<string>, k: nat)
    requires |row| >= 3 && k < |dates|
    ensures var r := row[..3] + MergedPrices(row, existing, data, dates);
      |r| == 3 + |dates| && r[..3] == row[..3]
      && r[3 + k] == MergedCell(data, row[1], existing, row[3..], dates[k])
  {
  }

  /** Input that cannot raise: every fetched date parses and every data row
      has its three name cells. */
  lemma {:induction false} WatchlistWrites(rows: Table, data: seq<Fetched>)
    requires rows != []
    requires forall e, q :: e in data && q in e.quotes ==> ParseDate(q.date).Some?
    requires forall i :: 1 <= i < |rows| ==> |rows[i]| >= 3
    ensures WatchlistUpdate(rows, data).Written?
  {
    var all := AllDates(data);
    forall d | d in all
      ensures ParseDate(d).Some?
    {
      AllDatesMember(data, d);
    }
  }
}

/** Calendar dates as datetime.strptime(s, '%Y-%m-%d') reads them, and the
    newest-first ordering of dated header columns. */
module Dates {
  import opened Text

  datatype Date = Date(year: nat, month: nat, day: nat)

  predicate Leap(y: nat)
  {
    y % 4 == 0 && (y % 100 != 0 || y % 400 == 0)
  }

  function DaysIn(y: nat, m: nat): (n: nat)
    requires 1 <= m <= 12
    ensures 28 <= n <= 31
  {
    if m == 2 then (if Leap(y) then 29 else 28)
    else if m == 4 || m == 6 || m == 9 || m == 11 then 30
    else 31
  }

  /** A date the datetime type can hold. */
  predicate ValidDate(d: Date)
  {
    1 <= d.year <= 9999 && 1 <= d.month <= 12 && 1 <= d.day <= DaysIn(d.year, d.month)
  }

  /** Month text accepted by %m: "1".."9", "01".."09", "10".."12". */
  function MonthValue(t: string): (r: Option<nat>)
    ensures r.Some? ==> 1 <= r.value <= 12
  {
    if |t| == 1 && '1' <= t[0] <= '9' then Some(DigitValue(t[0]))
    else if |t| == 2 && t[0] == '0' && '1' <= t[1] <= '9' then Some(DigitValue(t[1]))
    else if |t| == 2 && t[0] == '1' && '0' <= t[1] <= '2' then Some(10 + DigitValue(t[1]))
    else None
  }

  /** Day text accepted by %d when it ends the string: "01".."31", "1".."9"
      and a space followed by 1..9. A "3" followed by a digit other than 0 or 1,
      or a single digit followed by anything, leaves unconverted text behind. */
  function DayValue(t: string): (r: Option<nat>)
    ensures r.Some? ==> 1 <= r.value <= 31
  {
    if |t| == 1 && '1' <= t[0] <= '9' then Some(DigitValue(t[0]))
    else if |t| == 2 && t[0] == ' ' && '1' <= t[1] <= '9' then Some(DigitValue(t[1]))
    else if |t| == 2 && t[0] == '0' && '1' <= t[1] <= '9' then Some(DigitValue(t[1]))
    else if |t| == 2 && (t[0] == '1' || t[0] == '2') && IsDigit(t[1])
      then Some(DigitValue(t[0]) * 10 + DigitValue(t[1]))
    else if |t| == 2 && t[0] == '3' && (t[1] == '0' || t[1] == '1') then Some(30 + DigitValue(t[1]))
    else None
  }

  /** The first '-' at or after position from, or |s| when there is none. */
  function DashFrom(s: string, from: nat): (k: nat)
    requires from <= |s|
    ensures from <= k <= |s|
    ensures k < |s| ==> s[k] == '-'
    ensures forall i :: from <= i < k ==> s[i] != '-'
    decreases |s| - from
  {
    if from == |s| || s[from] == '-' then from else DashFrom(s, from + 1)
  }

  /** datetime.strptime(s, '%Y-%m-%d'): four digits, '-', a month, '-', a day,
      nothing after it, and a date the calendar has. None is the ValueError. */
  function ParseDate(s: string): (r: Option<Date>)
    ensures r.Some? ==> ValidDate(r.value)
  {
    if |s| < 8 || !AllDigits(s[..4]) || s[4] != '-' then None
    else
      var k := DashFrom(s, 5);
      if k == |s| then None
      else
        match (MonthValue(s[5..k]), DayValue(s[k + 1..]))
        case (Some(m), Some(d)) =>
          var date := Date(DigitsValue(s[..4]), m, d);
          if ValidDate(date) then Some(date) else None
        case _ => None
  }

  /** str(date) / strftime('%Y-%m-%d') of a valid date. */
  function FormatDate(d: Date): (s: string)
    requires ValidDate(d)
    ensures |s| == 10 && s[4] == '-' && s[7] == '-'
  {
    PadDigits(d.year, 4) + "-" + PadDigits(d.month, 2) + "-" + PadDigits(d.day, 2)
  }

  /** The zero-padded form FormatDate writes. */
  predicate IsoShaped(s: string)
  {
    |s| == 10 && s[4] == '-' && s[7] == '-'
    && AllDigits(s[..4]) && AllDigits(s[5..7]) && AllDigits(s[8..])
  }

  lemma {:induction false} Pow10Small()
    ensures Pow10(1) == 10 && Pow10(2) == 100 && Pow10(4) == 10000
  {
  }

  lemma {:induction false} TwoDigits(t: string)
    requires |t| == 2 && AllDigits(t)
    ensures DigitsValue(t) == DigitValue(t[0]) * 10 + DigitValue(t[1])
  {
    var u := t[..1];
    assert u == [t[0]] && u[..0] == [];
    assert DigitsValue(u) == DigitsValue(u[..0]) * 10 + DigitValue(u[0]);
    assert DigitsValue(t) == DigitsValue(u) * 10 + DigitValue(t[1]);
  }

  lemma {:induction false} MonthOfPadded(m: nat)
    requires 1 <= m <= 12
    ensures MonthValue(PadDigits(m, 2)) == Some(m)
  {
    var t := PadDigits(m, 2);
    Pow10Small();
    PadDigitsValue(m, 2);
    TwoDigits(t);
  }

  lemma {:induction false} DayOfPadded(d: nat)
    requires 1 <= d <= 31
    ensures DayValue(PadDigits(d, 2)) == Some(d)
  {
    var t := PadDigits(d, 2);
    Pow10Small();
    PadDigitsValue(d, 2);
    TwoDigits(t);
  }

  /** strptime reads back what FormatDate writes. */
  lemma {:induction false} ParseFormat(d: Date)
    requires ValidDate(d)
    ensures ParseDate(FormatDate(d)) == Some(d)
  {
    var y, m, dd := PadDigits(d.year, 4), PadDigits(d.month, 2), PadDigits(d.day, 2);
    var s := FormatDate(d);
    assert s == y + "-" + m + "-" + dd;
    Pow10Small();
    PadDigitsValue(d.year, 4);
    assert s[..4] == y;
    assert s[5..7] == m;
    assert s[8..] == dd;
    assert DashFrom(s, 5) == 7 by {
      assert IsDigit(s[5]) && IsDigit(s[6]);
    }
    MonthOfPadded(d.month);
    DayOfPadded(d.day);
  }

  lemma {:induction false} MonthOfTwo(t: string)
    requires |t| == 2 && AllDigits(t) && MonthValue(t).Some?
    ensures PadDigits(MonthValue(t).value, 2) == t
  {
    TwoDigits(t);
    assert MonthValue(t).value == DigitsValue(t) by {
      if t[0] == '0' {
        assert DigitValue(t[0]) == 0;
      } else {
        assert DigitValue(t[0]) == 1;
      }
    }
    PadDigitsOfValue(t);
  }

  lemma {:induction false} DayOfTwo(t: string)
    requires |t| == 2 && AllDigits(t) && DayValue(t).Some?
    ensures PadDigits(DayValue(t).value, 2) == t
  {
    TwoDigits(t);
    assert DayValue(t).value == DigitsValue(t) by {
      if t[0] == '0' {
        assert DigitValue(t[0]) == 0;
      } else if t[0] == '3' {
        assert DigitValue(t[0]) == 3;
      }
    }
    PadDigitsOfValue(t);
  }

  /** An ISO-shaped string that parses is the text FormatDate writes for its
      date; so two distinct ISO-shaped headers never name the same day. */
  lemma {:induction false} FormatParse(s: string)
    requires IsoShaped(s) && ParseDate(s).Some?
    ensures FormatDate(ParseDate(s).value) == s
  {
    var d := ParseDate(s).value;
    assert DashFrom(s, 5) == 7 by {
      assert IsDigit(s[5]) && IsDigit(s[6]);
    }
    PadDigitsOfValue(s[..4]);
    MonthOfTwo(s[5..7]);
    DayOfTwo(s[8..]);
    assert s == s[..4] + "-" + s[5..7] + "-" + s[8..];
  }

  lemma {:induction false} IsoInjective(s: string, t: string)
    requires IsoShaped(s) && IsoShaped(t)
    requires ParseDate(s).Some? && ParseDate(s) == ParseDate(t)
    ensures s == t
  {
    FormatParse(s);
    FormatParse(t);
  }

  /** Chronological order, as datetime compares. */
  predicate Before(a: Date, b: Date)
  {
    a.year < b.year
    || (a.year == b.year && (a.month < b.month || (a.month == b.month && a.day < b.day)))
  }

  // ---------------------------------------------------------------------------
  // Dated header columns, newest first

  /** A header cell at `index` that parsed as `date`. */
  datatype DateColumn = DateColumn(index: nat, date: Date)

  /** The header cell at i as a dated column, when it parses. */
  function ColumnAt(header: seq<string>, i: nat): seq<DateColumn>
    requires i < |header|
  {
    match ParseDate(header[i])
    case Some(d) => [DateColumn(i, d)]
    case None => []
  }

  /** The (index, date) pairs of the header cells in [3, n) that parse, left
      to right. */
  function DateColumnsBelow(header: seq<string>, n: nat): seq<DateColumn>
    requires n <= |header|
  {
    if n <= 3 then [] else DateColumnsBelow(header, n - 1) + ColumnAt(header, n - 1)
  }

  function DateColumns(header: seq<string>): seq<DateColumn>
  {
    DateColumnsBelow(header, |header|)
  }

  /** Every collected column is a header cell from index 3 on that parses as
      its date. */
  lemma {:induction false} DateColumnsBelowSound(header: seq<string>, n: nat, c: DateColumn)
    requires n <= |header| && c in DateColumnsBelow(header, n)
    ensures 3 <= c.index < n && ParseDate(header[c.index]) == Some(c.date)
  {
    if n > 3 {
      if c in DateColumnsBelow(header, n - 1) {
        DateColumnsBelowSound(header, n - 1, c);
      }
    }
  }

  predicate IncreasingIndices(cs: seq<DateColumn>)
  {
    forall i, j :: 0 <= i < j < |cs| ==> cs[i].index < cs[j].index
  }

  /** The collected columns appear in increasing column order. */
  lemma {:induction false} DateColumnsBelowOrdered(header: seq<string>, n: nat)
    requires n <= |header|
    ensures IncreasingIndices(DateColumnsBelow(header, n))
  {
    if n > 3 {
      DateColumnsBelowOrdered(header, n - 1);
      var front := DateColumnsBelow(header, n - 1);
      var back := ColumnAt(header, n - 1);
      var cs := front + back;
      assert cs == DateColumnsBelow(header, n);
      forall i, j | 0 <= i < j < |cs|
        ensures cs[i].index < cs[j].index
      {
        assert |back| <= 1;
        if j < |front| {
          assert cs[i] == front[i] && cs[j] == front[j];
          assert IncreasingIndices(front);
        } else {
          assert cs[j] == back[j - |front|] && back[j - |front|].index == n - 1;
          assert i < |front| && cs[i] == front[i];
          assert front[i] in front;
          DateColumnsBelowSound(header, n - 1, front[i]);
        }
      }
    }
  }

  /** Every header cell from index 3 on that parses is collected. */
  lemma {:induction false} DateColumnsBelowComplete(header: seq<string>, n: nat, k: nat)
    requires n <= |header| && 3 <= k < n && ParseDate(header[k]).Some?
    ensures DateColumn(k, ParseDate(header[k]).value) in DateColumnsBelow(header, n)
  {
    var c := DateColumn(k, ParseDate(header[k]).value);
    assert DateColumnsBelow(header, n) == DateColumnsBelow(header, n - 1) + ColumnAt(header, n - 1);
    if k < n - 1 {
      DateColumnsBelowComplete(header, n - 1, k);
      assert c in DateColumnsBelow(header, n - 1);
    } else {
      assert ColumnAt(header, k) == [c];
    }
  }

  /** The collected columns are exactly the header cells from index 3 on that
      parse as dates, in increasing column order. */
  lemma {:induction false} DateColumnsSpec(header: seq<string>)
    ensures var cs := DateColumns(header);
      (forall c :: c in cs ==> 3 <= c.index < |header| && ParseDate(header[c.index]) == Some(c.date))
      && IncreasingIndices(cs)
      && (forall k :: 3 <= k < |header| && ParseDate(header[k]).Some? ==>
            DateColumn(k, ParseDate(header[k]).value) in cs)
  {
    var cs := DateColumns(header);
    forall c | c in cs
      ensures 3 <= c.index < |header| && ParseDate(header[c.index]) == Some(c.date)
    {
      DateColumnsBelowSound(header, |header|, c);
    }
    DateColumnsBelowOrdered(header, |header|);
    assert cs == DateColumnsBelow(header, |header|);
    forall k | 3 <= k < |header| && ParseDate(header[k]).Some?
      ensures DateColumn(k, ParseDate(header[k]).value) in cs
    {
      DateColumnsBelowComplete(header, |header|, k);
    }
  }

  /** The loop that collects the dated columns, skipping the ValueErrors. */
  method CollectDateColumns(header: seq<string>) returns (cs: seq<DateColumn>)
    ensures cs == DateColumns(header)
  {
    cs := [];
    if |header| <= 3 {
      return;
    }
    var i := 3;
    while i < |header|
      invariant 3 <= i <= |header|
      invariant cs == DateColumnsBelow(header, i)
    {
      cs := CollectStep(header, i, cs);
      i := i + 1;
    }
    assert i == |header|;
  }

  /** One pass: the cell at i is added as a dated column when it parses and
      skipped (the ValueError) otherwise. */
  method CollectStep(header: seq<string>, i: nat, cs: seq<DateColumn>) returns (next: seq<DateColumn>)
    requires 3 <= i < |header| && cs == DateColumnsBelow(header, i)
    ensures next == DateColumnsBelow(header, i + 1)
  {
    var parsed := ParseDate(header[i]);
    if parsed.Some? {
      return cs + [DateColumn(i, parsed.value)];
    }
    return cs;
  }

  /** a sorts before b under sort(key=date, reverse=True): a newer date, or the
      same date and an earlier column (the sort is stable). */
  predicate Precedes(a: DateColumn, b: DateColumn)
  {
    Before(b.date, a.date) || (a.date == b.date && a.index < b.index)
  }

  predicate NewestFirst(s: seq<DateColumn>)
  {
    forall i, j :: 0 <= i < j < |s| ==> Precedes(s[i], s[j])
  }

  predicate DistinctIndices(s: seq<DateColumn>)
  {
    forall i, j :: 0 <= i < j < |s| ==> s[i].index != s[j].index
  }

  function Insert(c: DateColumn, s: seq<DateColumn>): (r: seq<DateColumn>)
    ensures multiset(r) == multiset(s) + multiset{c}
    ensures |r| == |s| + 1
  {
    if s == [] || Precedes(c, s[0]) then [c] + s
    else
      assert s == [s[0]] + s[1..];
      [s[0]] + Insert(c, s[1..])
  }

  /** list.sort(key=lambda x: x[1], reverse=True) on the dated columns. */
  function SortNewestFirst(s: seq<DateColumn>): (r: seq<DateColumn>)
    ensures multiset(r) == multiset(s)
    ensures |r| == |s|
  {
    if s == [] then []
    else
      assert s == [s[0]] + s[1..];
      Insert(s[0], SortNewestFirst(s[1..]))
  }

  lemma {:induction false} InsertSorted(c: DateColumn, s: seq<DateColumn>)
    requires NewestFirst(s)
    requires forall e :: e in s ==> e.index != c.index
    ensures NewestFirst(Insert(c, s))
  {
    if s == [] || Precedes(c, s[0]) {
    } else {
      var t := s[1..];
      assert forall e :: e in t ==> e in s;
      InsertSorted(c, t);
      assert forall e :: e in t ==> Precedes(s[0], e);
      assert Precedes(s[0], c);
      PrecedesInserted(s[0], c, t);
      ConsNewestFirst(s[0], Insert(c, t));
    }
  }

  /** What precedes c and all of t precedes every element of t with c
      inserted. */
  lemma {:induction false} PrecedesInserted(x: DateColumn, c: DateColumn, t: seq<DateColumn>)
    requires Precedes(x, c) && forall e :: e in t ==> Precedes(x, e)
    ensures forall j :: 0 <= j < |Insert(c, t)| ==> Precedes(x, Insert(c, t)[j])
  {
    var r := Insert(c, t);
    forall j | 0 <= j < |r|
      ensures Precedes(x, r[j])
    {
      assert r[j] in multiset(r);
    }
  }

  lemma {:induction false} ConsNewestFirst(x: DateColumn, r: seq<DateColumn>)
    requires NewestFirst(r) && forall j :: 0 <= j < |r| ==> Precedes(x, r[j])
    ensures NewestFirst([x] + r)
  {
    var s := [x] + r;
    forall i, j | 0 <= i < j < |s|
      ensures Precedes(s[i], s[j])
    {
      assert s[j] == r[j - 1];
      if i > 0 {
        assert s[i] == r[i - 1];
      }
    }
  }

  /** The sorted list is in strict newest-first order and holds the same columns. */
  lemma {:induction false} SortSorted(s: seq<DateColumn>)
    requires DistinctIndices(s)
    ensures NewestFirst(SortNewestFirst(s))
  {
    if s != [] {
      var t := s[1..];
      assert DistinctIndices(t);
      SortSorted(t);
      var r := SortNewestFirst(t);
      forall e | e in r
        ensures e.index != s[0].index
      {
        assert e in multiset(r);
        assert e in t;
      }
      InsertSorted(s[0], r);
    }
  }

  /** The head of a newest-first list is at least as new as every entry, and
      among the entries of the newest date it has the smallest index. */
  lemma {:induction false} NewestFirstHead(s: seq<DateColumn>, e: DateColumn)
    requires NewestFirst(s) && e in s
    ensures e == s[0] || Precedes(s[0], e)
  {
  }
}

/** CSV tables as the scripts see them after csv.reader: rows of string cells. */
module Sheets {
  import opened Text

  type Row = seq<string>
  type Table = seq<Row>

  /** How a table operation ends: it produces (or writes) a table, it prints
      a message and returns early without writing, or an exception escapes. */
  datatype Outcome = Written(rows: Table) | Skipped | Raised

  /** row[:3]: the name, id and type cells, or the whole of a shorter row. */
  function Take3(row: Row): (r: Row)
    ensures |r| == if |row| < 3 then |row| else 3
    ensures r == row[..|r|]
  {
    if |row| < 3 then row else row[..3]
  }

  /** No value occurs twice. */
  predicate Distinct(s: seq<string>)
  {
    forall i, j :: 0 <= i < j < |s| ==> s[i] != s[j]
  }

  /** The position of the first cell equal to name (the `break` scans). */
  function FirstIndex(r: Row, name: string): (k: Option<nat>)
    ensures k.Some? ==> k.value < |r| && r[k.value] == name
    ensures k.Some? ==> forall i :: 0 <= i < k.value ==> r[i] != name
    ensures k.None? <==> name !in r
  {
    if |r| == 0 then None
    else if r[0] == name then Some(0)
    else match FirstIndex(r[1..], name)
      case None => None
      case Some(i) => Some(i + 1)
  }

  /** The position of the last cell equal to name (the scans that run through
      the whole header, so that a later duplicate wins). */
  function LastIndex(r: Row, name: string): (k: Option<nat>)
    ensures k.Some? ==> k.value < |r| && r[k.value] == name
    ensures k.Some? ==> forall i :: k.value < i < |r| ==> r[i] != name
    ensures k.None? <==> name !in r
  {
    if |r| == 0 then None
    else if r[|r| - 1] == name then Some(|r| - 1)
    else LastIndex(r[..|r| - 1], name)
  }

  /** One enumerate(header) loop looking for several names at once (an
      if/elif chain): every name ends at its last position. */
  method ScanLastAll(header: Row, names: seq<string>) returns (ks: seq<Option<nat>>)
    ensures |ks| == |names|
    ensures forall n :: 0 <= n < |names| ==> ks[n] == LastIndex(header, names[n])
  {
    ks := seq(|names|, n => None);
    var i := 0;
    while i < |header|
      invariant 0 <= i <= |header| && |ks| == |names|
      invariant forall n :: 0 <= n < |names| ==> ks[n] == LastIndex(header[..i], names[n])
    {
      assert header[..i + 1][..i] == header[..i];
      ks := seq(|names|, n requires 0 <= n < |names| => if header[i] == names[n] then Some(i) else ks[n]);
      i := i + 1;
    }
    assert header[..i] == header;
  }

  /** The enumerate(header) loop that breaks at the first match. */
  method ScanFirst(header: Row, name: string) returns (k: Option<nat>)
    ensures k == FirstIndex(header, name)
  {
    var i := 0;
    while i < |header|
      invariant 0 <= i <= |header|
      invariant forall j :: 0 <= j < i ==> header[j] != name
    {
      if header[i] == name {
        FirstIndexIs(header, name, i);
        return Some(i);
      }
      i := i + 1;
    }
    return None;
  }

  lemma {:induction false} FirstIndexIs(r: Row, name: string, k: nat)
    requires k < |r| && r[k] == name
    requires forall j :: 0 <= j < k ==> r[j] != name
    ensures FirstIndex(r, name) == Some(k)
  {
    if k > 0 {
      FirstIndexIs(r[1..], name, k - 1);
    }
  }

  /** The table after a loop over the data rows has replaced row i by
      f(i, row i) for the rows 1 .. n-1; the header is kept and the rows from
      n on are not part of it. */
  function MapData(rows: Table, f: (nat, Row) -> Row, n: nat): (t: Table)
    requires 1 <= n <= |rows|
    ensures |t| == n && t[0] == rows[0]
  {
    if n == 1 then [rows[0]] else MapData(rows, f, n - 1) + [f(n - 1, rows[n - 1])]
  }

  /** Row i of the result is f of row i of the input. */
  lemma {:induction false} MapDataAt(rows: Table, f: (nat, Row) -> Row, n: nat, i: nat)
    requires 1 <= i < n <= |rows|
    ensures MapData(rows, f, n)[i] == f(i, rows[i])
  {
    if i < n - 1 {
      MapDataAt(rows, f, n - 1, i);
    }
  }

  /** One step of the in-place loop: when the rows before i are done,
      replacing row i by f of it leaves the rows before i + 1 done. */
  lemma {:induction false} MapDataNext(rows: Table, f: (nat, Row) -> Row, i: nat, table: Table)
    requires 1 <= i < |rows|
    requires table == MapData(rows, f, i) + rows[i..]
    ensures table[i := f(i, rows[i])] == MapData(rows, f, i + 1) + rows[i + 1..]
  {
    var t := table[i := f(i, rows[i])];
    var u := MapData(rows, f, i + 1) + rows[i + 1..];
    assert |t| == |u|;
    forall k | 0 <= k < |t|
      ensures t[k] == u[k]
    {
      if k < i {
        assert t[k] == MapData(rows, f, i)[k];
      }
    }
  }

  /** Rows that f leaves alone come out unchanged. */
  lemma {:induction false} MapDataFixed(rows: Table, f: (nat, Row) -> Row, n: nat)
    requires 1 <= n <= |rows|
    requires forall i :: 1 <= i < n ==> f(i, rows[i]) == rows[i]
    ensures MapData(rows, f, n) == rows[..n]
  {
    if n > 1 {
      MapDataFixed(rows, f, n - 1);
      assert rows[..n] == rows[..n - 1] + [rows[n - 1]];
    }
  }

  /** Two loop bodies that agree on every data row give the same table. */
  lemma {:induction false} MapDataSame(rows: Table, f: (nat, Row) -> Row, g: (nat, Row) -> Row, n: nat)
    requires 1 <= n <= |rows|
    requires forall i :: 1 <= i < n ==> f(i, rows[i]) == g(i, rows[i])
    ensures MapData(rows, f, n) == MapData(rows, g, n)
  {
    if n > 1 {
      MapDataSame(rows, f, g, n - 1);
    }
  }

  /** A row that csv.reader produced from a line whose cells are all blank. */
  predicate BlankRow(r: Row)
  {
    forall i :: 0 <= i < |r| ==> IsBlank(r[i])
  }
}

/** The tables of a cleaned menu page, as the extractor sees them.
    A table is its `tr` rows in document order: the row a CSS selector
    calls `nth-child(k)` is element k-1. A row is its `td` cells, and a
    cell keeps only its text and its `rowspan` attribute (read as the
    integer the source converts it to). */
module Html {

  datatype Option<+T> = None | Some(value: T) {
    function GetOr(default: T): T {
      match this
      case Some(v) => v
      case None => default
    }

    /** This value if there is one, otherwise `other`. */
    function Or(other: Option<T>): Option<T> {
      match this
      case Some(_) => this
      case None => other
    }

    /** `None` is the unbound Python variable or the empty list the source indexes. */
    function ToResult(): Result<T> {
      match this
      case Some(v) => Ok(v)
      case None => Fail
    }
  }

  /** `Fail` stands for any exception the source raises on a malformed
      table (IndexError, KeyError, NameError); they are not told apart. */
  datatype Result<+T> = Ok(value: T) | Fail {
    predicate IsFailure() {
      Fail?
    }

    function PropagateFailure<U>(): Result<U>
      requires Fail?
    {
      Fail
    }

    function Extract(): T
      requires Ok?
    {
      value
    }
  }

  datatype Cell = Cell(text: string, rowspan: Option<nat>)

  type Row = seq<Cell>

  type Table = seq<Row>

  function Min(a: int, b: int): int { if a <= b then a else b }

  function Max(a: int, b: int): int { if a <= b then b else a }

  /** Python's `xs[1:]`. */
  function Drop1<T>(s: seq<T>): seq<T> {
    if |s| == 0 then [] else s[1..]
  }

  /** The rows `select('tr:nth-child(n+lo):nth-child(-n+hi)')` returns:
      those whose 1-based position k has lo <= k <= hi. */
  function Rows(t: Table, lo: int, hi: int): seq<Row>
    decreases hi
  {
    if hi < lo || hi < 1 then []
    else if hi > |t| then Rows(t, lo, |t|)
    else Rows(t, lo, hi - 1) + [t[hi - 1]]
  }

  /** A selection holds the positions from max(lo, 1) to min(hi, |t|), if any. */
  lemma {:induction false} RowsLength(t: Table, lo: int, hi: int)
    ensures |Rows(t, lo, hi)| == Max(0, Min(hi, |t|) - Max(lo, 1) + 1)
    decreases hi
  {
    if hi < lo || hi < 1 {
    } else if hi > |t| {
      RowsLength(t, lo, |t|);
    } else {
      RowsLength(t, lo, hi - 1);
    }
  }

  /** Row `k` of a selection is the table's row at position max(lo, 1) + k. */
  lemma {:induction false} RowAt(t: Table, lo: int, hi: int, k: int)
    requires 0 <= k < |Rows(t, lo, hi)|
    ensures 0 <= Max(lo, 1) - 1 + k < |t| && Rows(t, lo, hi)[k] == t[Max(lo, 1) - 1 + k]
    decreases hi
  {
    RowsLength(t, lo, hi);
    if hi < lo || hi < 1 {
    } else if hi > |t| {
      RowAt(t, lo, |t|, k);
    } else if k < |Rows(t, lo, hi - 1)| {
      RowAt(t, lo, hi - 1, k);
    } else {
      RowsLength(t, lo, hi - 1);
    }
  }

  /** Dropping the first row of a selection starting at a real position
      is the same as starting the selection one row later. */
  lemma DropFirstRow(t: Table, lo: int, hi: int)
    requires lo >= 1
    ensures Drop1(Rows(t, lo, hi)) == Rows(t, lo + 1, hi)
  {
    var r := Rows(t, lo, hi);
    RowsLength(t, lo, hi);
    RowsLength(t, lo + 1, hi);
    if |r| > 0 {
      forall k | 0 <= k < |r[1..]|
        ensures r[1..][k] == Rows(t, lo + 1, hi)[k]
      {
        RowAt(t, lo, hi, k + 1);
        RowAt(t, lo + 1, hi, k);
      }
    }
  }

  /** Two adjacent selections together make up the selection of both ranges. */
  lemma {:induction false} RowsSplit(t: Table, lo: int, mid: int, hi: int)
    requires 1 <= lo <= mid + 1 <= hi + 1
    ensures Rows(t, lo, mid) + Rows(t, mid + 1, hi) == Rows(t, lo, hi)
    decreases hi
  {
    if hi == mid {
    } else if hi > |t| {
      if mid >= |t| {
        assert Rows(t, lo, mid) == Rows(t, lo, |t|);
      } else {
        RowsSplit(t, lo, mid, |t|);
      }
    } else {
      RowsSplit(t, lo, mid, hi - 1);
      assert Rows(t, lo, mid) + Rows(t, mid + 1, hi) == Rows(t, lo, mid) + Rows(t, mid + 1, hi - 1) + [t[hi - 1]];
    }
  }

  /** A cell of `select('td[rowspan]')` whose text is `name`. */
  predicate IsHeader(c: Cell, name: string) {
    c.rowspan.Some? && c.text == name
  }

  predicate HasHeader(row: Row, name: string) {
    exists c :: c in row && IsHeader(c, name)
  }

  /** A cell carrying a `rowspan` attribute. */
  type Header = c: Cell | c.rowspan.Some? witness Cell("", Some(0))

  /** `[c for c in row.select('td[rowspan]') if c.text == name]`. */
  function Headers(row: Row, name: string): seq<Header> {
    if |row| == 0 then []
    else if IsHeader(row[0], name) then [row[0]] + Headers(row[1..], name)
    else Headers(row[1..], name)
  }

  /** The filtered list holds exactly the row's header cells named `name`, in
      row order, so it is empty exactly when the row has none and starts with
      the first one. */
  lemma {:induction false} HeadersSpec(row: Row, name: string)
    ensures forall c :: c in Headers(row, name) <==> c in row && IsHeader(c, name)
    ensures |Headers(row, name)| > 0 <==> HasHeader(row, name)
    ensures |Headers(row, name)| > 0 ==>
              exists k :: 0 <= k < |row| && row[k] == Headers(row, name)[0]
                          && forall j :: 0 <= j < k ==> !IsHeader(row[j], name)
  {
    if |row| > 0 {
      HeadersSpec(row[1..], name);
      assert row == [row[0]] + row[1..];
      var rest := Headers(row[1..], name);
      if !IsHeader(row[0], name) && |rest| > 0 {
        var k :| 0 <= k < |row[1..]| && row[1..][k] == rest[0]
                 && forall j :: 0 <= j < k ==> !IsHeader(row[1..][j], name);
        assert row[k + 1] == rest[0];
        forall j | 0 <= j < k + 1
          ensures !IsHeader(row[j], name)
        {
          if j > 0 {
            assert row[j] == row[1..][j - 1];
          }
        }
      }
    }
  }

  /** A cell of `select('td:not([rowspan])')`; for the fruit rows, one
      whose text is not the course name `Frutta` either. */
  predicate IsItem(c: Cell, fruit: bool) {
    c.rowspan.None? && (fruit ==> c.text != "Frutta")
  }

  /** The text the source appends for one row of a course window: that of
      its first dish cell, or `None` where its `[0]` would raise IndexError. */
  function ItemText(row: Row, fruit: bool): Option<string> {
    if |row| == 0 then None
    else if IsItem(row[0], fruit) then Some(row[0].text)
    else ItemText(row[1..], fruit)
  }

  /** A row has a dish exactly when it has a dish cell, and the dish is the
      text of the first one. */
  lemma {:induction false} ItemTextSpec(row: Row, fruit: bool)
    ensures ItemText(row, fruit).None? <==> forall c :: c in row ==> !IsItem(c, fruit)
    ensures ItemText(row, fruit).Some? ==>
              exists k :: 0 <= k < |row| && IsItem(row[k], fruit) && ItemText(row, fruit).value == row[k].text
                          && forall j :: 0 <= j < k ==> !IsItem(row[j], fruit)
  {
    if |row| > 0 && !IsItem(row[0], fruit) {
      ItemTextSpec(row[1..], fruit);
      if ItemText(row, fruit).Some? {
        var k :| 0 <= k < |row[1..]| && IsItem(row[1..][k], fruit) && ItemText(row, fruit).value == row[1..][k].text
                 && forall j :: 0 <= j < k ==> !IsItem(row[1..][j], fruit);
        assert row[k + 1] == row[1..][k];
        assert forall j :: 0 <= j < k + 1 ==> !IsItem(row[j], fruit) by {
          forall j | 0 <= j < k + 1 ensures !IsItem(row[j], fruit) {
            if j > 0 {
              assert row[j] == row[1..][j - 1];
            }
          }
        }
      }
      assert row == [row[0]] + row[1..];
    }
  }
}

/** `get_daily_menu`: the dishes of the two meal turns, read from the page's
    second `table#menu`. The first cell whose text is `Pranzo` (lunch) or
    `Cena` (dinner) spans the turn's rows; inside a turn, a header cell
    `Primo`, `Secondo` or `Contorno` spans its course's rows, and the rows
    left over belong to `Frutta`. Each row of a course window gives one
    dish: its first cell without a `rowspan` attribute. */
module MenuTable {
  import opened Html

  /** One turn's dishes, course by course, in the order Primo, Secondo,
      Contorno, Frutta. */
  datatype Courses = Courses(primo: seq<string>, secondo: seq<string>, contorno: seq<string>, frutta: seq<string>)

  /** The result dictionary: lunch (`Pranzo`) then dinner (`Cena`). */
  datatype Menu = Menu(lunch: Courses, dinner: Courses)

  /** Which header a scan keeps when several rows carry one: the first (the
      scan loop breaks on a match) or the last (the loop runs to the end). */
  datatype ScanRule = FirstMatch | LastMatch

  function Span(h: Header): nat {
    h.rowspan.value
  }

  /** What one turn's pass reads: the extent of the turn cell and the course
      header cells held in `first_turn`, `second_turn` and `third_turn`. */
  datatype Block = Block(turn: nat, primo: Header, secondo: Header, contorno: Header)

  /** A course selector `tr:nth-child(n+lo):nth-child(-n+hi)`, and whether
      the extractor drops its first row (`[1:]`). */
  datatype Window = Window(lo: int, hi: int, skip: bool)

  /** The rows a course's append loop visits. */
  function Selected(t: Table, w: Window): seq<Row> {
    if w.skip then Drop1(Rows(t, w.lo, w.hi)) else Rows(t, w.lo, w.hi)
  }

  const CourseNames := ["Primo", "Secondo", "Contorno", "Frutta"]

  function Course(c: Courses, i: nat): seq<string>
    requires i < 4
  {
    if i == 0 then c.primo else if i == 1 then c.secondo else if i == 2 then c.contorno else c.frutta
  }

  /** The dictionary `get_daily_menu` builds: always the keys `Pranzo` and
      `Cena`, each with exactly the four course keys. */
  function ToDict(m: Menu): (d: map<string, map<string, seq<string>>>)
    ensures d.Keys == {"Pranzo", "Cena"}
    ensures forall turn :: turn in d ==> d[turn].Keys == {"Primo", "Secondo", "Contorno", "Frutta"}
    ensures forall i :: 0 <= i < 4 ==>
              d["Pranzo"][CourseNames[i]] == Course(m.lunch, i) && d["Cena"][CourseNames[i]] == Course(m.dinner, i)
  {
    map["Pranzo" := CoursesDict(m.lunch), "Cena" := CoursesDict(m.dinner)]
  }

  function CoursesDict(c: Courses): map<string, seq<string>> {
    map["Primo" := c.primo, "Secondo" := c.secondo, "Contorno" := c.contorno, "Frutta" := c.frutta]
  }

  predicate Mentions(row: Row, name: string) {
    exists c :: c in row && c.text == name
  }

  /** The first cell of a row whose text is `name`. */
  function NamedCell(row: Row, name: string): Option<Cell> {
    if |row| == 0 then None
    else if row[0].text == name then Some(row[0])
    else NamedCell(row[1..], name)
  }

  /** The first cell of the table, in document order, whose text is `name`
      (`[c for c in select('tr>td') if c.text == name][0]`). */
  function TurnCell(t: Table, name: string): Option<Cell> {
    if |t| == 0 then None else NamedCell(t[0], name).Or(TurnCell(t[1..], name))
  }

  /** A row's first cell named `name` is found exactly when the row mentions
      the name, and no cell before it has that text. */
  lemma {:induction false} NamedCellSpec(row: Row, name: string)
    ensures NamedCell(row, name).None? <==> !Mentions(row, name)
    ensures NamedCell(row, name).Some? ==>
              exists k :: 0 <= k < |row| && row[k] == NamedCell(row, name).value && row[k].text == name
                          && forall l :: 0 <= l < k ==> row[l].text != name
  {
    if |row| > 0 {
      NamedCellSpec(row[1..], name);
      assert row == [row[0]] + row[1..];
      if row[0].text != name && NamedCell(row, name).Some? {
        var k :| 0 <= k < |row[1..]| && row[1..][k] == NamedCell(row, name).value && row[1..][k].text == name
                 && forall l :: 0 <= l < k ==> row[1..][l].text != name;
        assert row[k + 1] == row[1..][k];
        forall l | 0 <= l < k + 1
          ensures row[l].text != name
        {
          if l > 0 {
            assert row[l] == row[1..][l - 1];
          }
        }
      }
    }
  }

  /** The turn cell is missing exactly when no row mentions the name. */
  lemma {:induction false} TurnCellMissing(t: Table, name: string)
    ensures TurnCell(t, name).None? <==> forall i :: 0 <= i < |t| ==> !Mentions(t[i], name)
  {
    if |t| > 0 {
      NamedCellSpec(t[0], name);
      TurnCellMissing(t[1..], name);
      assert forall i :: 1 <= i < |t| ==> t[i] == t[1..][i - 1];
    }
  }

  /** A turn cell that is found is the first cell with that text in the
      first row that mentions the name. */
  lemma {:induction false} TurnCellFirst(t: Table, name: string)
    requires TurnCell(t, name).Some?
    ensures exists i, k :: 0 <= i < |t| && 0 <= k < |t[i]| && t[i][k] == TurnCell(t, name).value
                           && TurnCell(t, name).value.text == name
                           && (forall j :: 0 <= j < i ==> !Mentions(t[j], name))
                           && (forall l :: 0 <= l < k ==> t[i][l].text != name)
  {
    NamedCellSpec(t[0], name);
    if NamedCell(t[0], name).Some? {
      var k :| 0 <= k < |t[0]| && t[0][k] == NamedCell(t[0], name).value && t[0][k].text == name
               && forall l :: 0 <= l < k ==> t[0][l].text != name;
      assert TurnCell(t, name).value == t[0][k];
    } else {
      TurnCellFirst(t[1..], name);
      var i, k :| 0 <= i < |t[1..]| && 0 <= k < |t[1..][i]| && t[1..][i][k] == TurnCell(t, name).value
                  && TurnCell(t, name).value.text == name
                  && (forall j :: 0 <= j < i ==> !Mentions(t[1..][j], name))
                  && (forall l :: 0 <= l < k ==> t[1..][i][l].text != name);
      assert t[i + 1] == t[1..][i];
      forall j | 0 <= j < i + 1
        ensures !Mentions(t[j], name)
      {
        if j > 0 {
          assert t[j] == t[1..][j - 1];
        }
      }
    }
  }

  /** A turn's extent: the `rowspan` of its turn cell. */
  function TurnSpan(t: Table, name: string): Result<nat> {
    var c :- TurnCell(t, name).ToResult();
    c.rowspan.ToResult()
  }

  /** The header cell a scan that breaks on its first match keeps: the first
      header named `name` of the first row that has one. */
  function FirstHeader(rows: seq<Row>, name: string): Option<Header> {
    if |rows| == 0 then None
    else if |Headers(rows[0], name)| > 0 then Some(Headers(rows[0], name)[0])
    else FirstHeader(rows[1..], name)
  }

  /** The header cell a scan without `break` keeps: the first header named
      `name` of the last row that has one. */
  function LastHeader(rows: seq<Row>, name: string): Option<Header> {
    if |rows| == 0 then None
    else if |Headers(rows[|rows| - 1], name)| > 0 then Some(Headers(rows[|rows| - 1], name)[0])
    else LastHeader(rows[..|rows| - 1], name)
  }

  /** The header cell a scan keeps, if some row has one. */
  function HeaderFound(rows: seq<Row>, name: string, rule: ScanRule): Option<Header> {
    match rule
    case FirstMatch => FirstHeader(rows, name)
    case LastMatch => LastHeader(rows, name)
  }

  /** A breaking scan finds nothing exactly when no row has the header, and
      otherwise keeps the header of a row no earlier row has it in. */
  lemma {:induction false} FirstHeaderSpec(rows: seq<Row>, name: string)
    ensures FirstHeader(rows, name).None? <==> forall j :: 0 <= j < |rows| ==> !HasHeader(rows[j], name)
    ensures FirstHeader(rows, name).Some? ==>
              exists i :: 0 <= i < |rows| && HasHeader(rows[i], name) && |Headers(rows[i], name)| > 0
                          && FirstHeader(rows, name).value == Headers(rows[i], name)[0]
                          && forall j :: 0 <= j < i ==> !HasHeader(rows[j], name)
  {
    if |rows| > 0 {
      HeadersSpec(rows[0], name);
      FirstHeaderSpec(rows[1..], name);
      if |Headers(rows[0], name)| == 0 {
        assert forall j :: 1 <= j < |rows| ==> rows[j] == rows[1..][j - 1];
        if FirstHeader(rows, name).Some? {
          var i :| 0 <= i < |rows[1..]| && HasHeader(rows[1..][i], name) && |Headers(rows[1..][i], name)| > 0
                   && FirstHeader(rows[1..], name).value == Headers(rows[1..][i], name)[0]
                   && forall j :: 0 <= j < i ==> !HasHeader(rows[1..][j], name);
          assert rows[i + 1] == rows[1..][i];
        }
      }
    }
  }

  /** A scan without `break` finds nothing exactly when no row has the
      header, and otherwise keeps the header of a row no later row has it in. */
  lemma {:induction false} LastHeaderSpec(rows: seq<Row>, name: string)
    ensures LastHeader(rows, name).None? <==> forall j :: 0 <= j < |rows| ==> !HasHeader(rows[j], name)
    ensures LastHeader(rows, name).Some? ==>
              exists i :: 0 <= i < |rows| && HasHeader(rows[i], name) && |Headers(rows[i], name)| > 0
                          && LastHeader(rows, name).value == Headers(rows[i], name)[0]
                          && forall j :: i < j < |rows| ==> !HasHeader(rows[j], name)
  {
    if |rows| > 0 {
      var init := rows[..|rows| - 1];
      HeadersSpec(rows[|rows| - 1], name);
      LastHeaderSpec(init, name);
      assert forall j :: 0 <= j < |init| ==> rows[j] == init[j];
    }
  }

  /** The lunch pass's extents. Its scans look at rows 2..L, and each
      course header must be found there. */
  function LunchBlock(t: Table, rule: ScanRule): Result<Block> {
    var lunch :- TurnSpan(t, "Pranzo");
    var rows := Drop1(Rows(t, 1, lunch));
    var primo :- HeaderFound(rows, "Primo", FirstMatch).ToResult();
    var secondo :- HeaderFound(rows, "Secondo", rule).ToResult();
    var contorno :- HeaderFound(rows, "Contorno", rule).ToResult();
    Ok(Block(lunch, primo, secondo, contorno))
  }

  /** The dinner pass's extents. Its scans look at rows L+2..L+D+1, and a
      course whose header is not found there keeps the lunch header. */
  function DinnerBlock(t: Table, rule: ScanRule, lunch: Block): Result<Block> {
    var dinner :- TurnSpan(t, "Cena");
    var rows := Rows(t, lunch.turn + 2, lunch.turn + dinner + 1);
    Ok(Block(dinner,
             HeaderFound(rows, "Primo", FirstMatch).GetOr(lunch.primo),
             HeaderFound(rows, "Secondo", rule).GetOr(lunch.secondo),
             HeaderFound(rows, "Contorno", rule).GetOr(lunch.contorno)))
  }

  /** The lunch course selectors, each without its first row. */
  function LunchWindows(b: Block): seq<Window> {
    var a := Span(b.primo);
    var c := a + Span(b.secondo);
    var d := c + Span(b.contorno);
    [Window(1, a + 1, true), Window(a + 1, c + 1, true), Window(c + 1, d + 1, true), Window(d + 1, b.turn + 1, true)]
  }

  /** The dinner course selectors after a lunch turn of `offset` rows; only
      Frutta keeps its first row. */
  function DinnerWindows(offset: nat, b: Block): seq<Window> {
    var a := offset + Span(b.primo);
    var c := a + Span(b.secondo);
    var d := c + Span(b.contorno);
    [Window(offset + 2, a + 1, true), Window(a + 2, c + 1, true), Window(c + 2, d + 1, true),
     Window(d + 2, offset + b.turn + 1, false)]
  }

  /** One dish per row, in row order; an exception if a row has none. */
  function ItemsOf(rows: seq<Row>, fruit: bool): Result<seq<string>> {
    if |rows| == 0 then Ok([])
    else
      var items :- ItemsOf(rows[..|rows| - 1], fruit);
      var last :- ItemText(rows[|rows| - 1], fruit).ToResult();
      Ok(items + [last])
  }

  /** The dish lists succeed exactly when every row has a dish cell, and then
      hold one dish per row: the text of that row's first dish cell. */
  lemma {:induction false} ItemsOfSpec(rows: seq<Row>, fruit: bool)
    ensures ItemsOf(rows, fruit).Ok? <==> forall k :: 0 <= k < |rows| ==> ItemText(rows[k], fruit).Some?
    ensures ItemsOf(rows, fruit).Ok? ==>
              |ItemsOf(rows, fruit).value| == |rows|
              && forall k :: 0 <= k < |rows| ==> ItemText(rows[k], fruit) == Some(ItemsOf(rows, fruit).value[k])
  {
    if |rows| > 0 {
      var init := rows[..|rows| - 1];
      ItemsOfSpec(init, fruit);
      assert forall k :: 0 <= k < |init| ==> init[k] == rows[k];
    }
  }

  /** The four lists read from the four windows; only Frutta skips cells
      reading `Frutta`. */
  function CoursesIn(t: Table, ws: seq<Window>): Result<Courses>
    requires |ws| == 4
  {
    var primo :- ItemsOf(Selected(t, ws[0]), false);
    var secondo :- ItemsOf(Selected(t, ws[1]), false);
    var contorno :- ItemsOf(Selected(t, ws[2]), false);
    var frutta :- ItemsOf(Selected(t, ws[3]), true);
    Ok(Courses(primo, secondo, contorno, frutta))
  }

  /** What the lunch pass reads and collects. */
  function LunchOf(t: Table, rule: ScanRule): Result<(Block, Courses)> {
    var b :- LunchBlock(t, rule);
    var c :- CoursesIn(t, LunchWindows(b));
    Ok((b, c))
  }

  /** What the dinner pass collects after the lunch pass read `lunch`. */
  function DinnerOf(t: Table, rule: ScanRule, lunch: Block): Result<Courses> {
    var b :- DinnerBlock(t, rule, lunch);
    CoursesIn(t, DinnerWindows(lunch.turn, b))
  }

  /** What the extraction returns for the menu table `t`. */
  function DailyMenu(t: Table, rule: ScanRule): Result<Menu> {
    var lunch :- LunchOf(t, rule);
    var dinner :- DinnerOf(t, rule, lunch.0);
    Ok(Menu(lunch.1, dinner))
  }

  /** A scan loop that breaks on the first row with a header named `name`;
      if no row has one, the variable keeps its value `prev`. */
  method ScanFirst(rows: seq<Row>, name: string, prev: Option<Header>) returns (found: Option<Header>)
    ensures found == FirstHeader(rows, name).Or(prev)
  {
    found := prev;
    var i := 0;
    while i < |rows|
      invariant 0 <= i <= |rows|
      invariant FirstHeader(rows[i..], name) == FirstHeader(rows, name)
      invariant found == prev
    {
      assert rows[i..][1..] == rows[i + 1..];
      var lst := Headers(rows[i], name);
      if |lst| > 0 {
        found := Some(lst[0]);
        break;
      }
      i := i + 1;
    }
  }

  /** A scan loop without `break`: every row with a header named `name`
      overwrites the variable, so the last one stays. */
  method ScanLast(rows: seq<Row>, name: string, prev: Option<Header>) returns (found: Option<Header>)
    ensures found == LastHeader(rows, name).Or(prev)
  {
    found := prev;
    for i := 0 to |rows|
      invariant found == LastHeader(rows[..i], name).Or(prev)
    {
      assert rows[..i + 1][..i] == rows[..i];
      var lst := Headers(rows[i], name);
      if |lst| > 0 {
        found := Some(lst[0]);
      }
    }
    assert rows[..|rows|] == rows;
  }

  method Scan(rows: seq<Row>, name: string, prev: Option<Header>, rule: ScanRule) returns (found: Option<Header>)
    ensures found == HeaderFound(rows, name, rule).Or(prev)
  {
    if rule == FirstMatch {
      found := ScanFirst(rows, name, prev);
    } else {
      found := ScanLast(rows, name, prev);
    }
  }

  /** An append loop over a course window. */
  method CollectItems(rows: seq<Row>, fruit: bool) returns (r: Result<seq<string>>)
    ensures r == ItemsOf(rows, fruit)
  {
    var items := [];
    for i := 0 to |rows|
      invariant ItemsOf(rows[..i], fruit) == Ok(items)
    {
      var item := ItemText(rows[i], fruit);
      if item.None? {
        ItemsOfSpec(rows, fruit);
        return Fail;
      }
      assert rows[..i + 1][..i] == rows[..i];
      items := items + [item.value];
    }
    assert rows[..|rows|] == rows;
    return Ok(items);
  }

  /** `get_daily_menu`: the lunch pass, then the dinner pass, which starts
      from the header cells the lunch pass left behind. */
  method GetDailyMenu(t: Table, rule: ScanRule) returns (r: Result<Menu>)
    ensures r == DailyMenu(t, rule)
  {
    var lunch := LunchPass(t, rule);
    if lunch.Fail? {
      return Fail;
    }
    var dinner := DinnerPass(t, rule, lunch.value.0);
    if dinner.Fail? {
      return Fail;
    }
    return Ok(Menu(lunch.value.1, dinner.value));
  }

  /** The lunch pass's scans over the turn's rows without its first: each
      course header must be found there. */
  method ReadLunchBlock(t: Table, rule: ScanRule) returns (r: Result<Block>)
    ensures r == LunchBlock(t, rule)
  {
    var lunch := TurnExtent(t, "Pranzo");
    if lunch.Fail? {
      return Fail;
    }
    var lunchRows := Drop1(Rows(t, 1, lunch.value));
    var first := ScanFirst(lunchRows, "Primo", None);
    var second := Scan(lunchRows, "Secondo", None, rule);
    var third := Scan(lunchRows, "Contorno", None, rule);
    if first.None? || second.None? || third.None? {
      return Fail;
    }
    return Ok(Block(lunch.value, first.value, second.value, third.value));
  }

  /** The dinner pass's scans over rows L+2..L+D+1, starting from the lunch
      pass's header cells. */
  method ReadDinnerBlock(t: Table, rule: ScanRule, lunch: Block) returns (r: Result<Block>)
    ensures r == DinnerBlock(t, rule, lunch)
  {
    var dinner := TurnExtent(t, "Cena");
    if dinner.Fail? {
      return Fail;
    }
    var dinnerRows := Rows(t, lunch.turn + 2, lunch.turn + dinner.value + 1);
    var first := ScanFirst(dinnerRows, "Primo", Some(lunch.primo));
    var second := Scan(dinnerRows, "Secondo", Some(lunch.secondo), rule);
    var third := Scan(dinnerRows, "Contorno", Some(lunch.contorno), rule);
    return Ok(Block(dinner.value, first.value, second.value, third.value));
  }

  /** The four append loops of a turn, over its course selectors. */
  method CollectCourses(t: Table, ws: seq<Window>) returns (r: Result<Courses>)
    requires |ws| == 4
    ensures r == CoursesIn(t, ws)
  {
    var primo := CollectItems(Selected(t, ws[0]), false);
    if primo.Fail? {
      return Fail;
    }
    var secondo := CollectItems(Selected(t, ws[1]), false);
    if secondo.Fail? {
      return Fail;
    }
    var contorno := CollectItems(Selected(t, ws[2]), false);
    if contorno.Fail? {
      return Fail;
    }
    var frutta := CollectItems(Selected(t, ws[3]), true);
    if frutta.Fail? {
      return Fail;
    }
    return Ok(Courses(primo.value, secondo.value, contorno.value, frutta.value));
  }

  /** The lunch pass: its header cells, then its dishes. */
  method LunchPass(t: Table, rule: ScanRule) returns (r: Result<(Block, Courses)>)
    ensures r == LunchOf(t, rule)
  {
    var block := ReadLunchBlock(t, rule);
    if block.Fail? {
      return Fail;
    }
    var courses := CollectCourses(t, LunchWindows(block.value));
    if courses.Fail? {
      return Fail;
    }
    return Ok((block.value, courses.value));
  }

  /** The dinner pass: its header cells, then its dishes. */
  method DinnerPass(t: Table, rule: ScanRule, lunch: Block) returns (r: Result<Courses>)
    ensures r == DinnerOf(t, rule, lunch)
  {
    var block := ReadDinnerBlock(t, rule, lunch);
    if block.Fail? {
      return Fail;
    }
    r := CollectCourses(t, DinnerWindows(lunch.turn, block.value));
  }

  /** `int(turn['rowspan'])` of the turn cell the list comprehension finds;
      its `[0]` or the missing attribute raises. */
  method TurnExtent(t: Table, name: string) returns (r: Result<nat>)
    ensures r == TurnSpan(t, name)
  {
    var turn := TurnCell(t, name);
    if turn.None? || turn.value.rowspan.None? {
      return Fail;
    }
    return Ok(turn.value.rowspan.value);
  }

  /** The rows each lunch selector reads once its first row is dropped: p1
      rows from row 2, then p2, then p3, then the rest of the turn. */
  lemma LunchCourseRows(t: Table, b: Block)
    ensures var a := Span(b.primo);
            var c := a + Span(b.secondo);
            var d := c + Span(b.contorno);
            var ws := LunchWindows(b);
            Selected(t, ws[0]) == Rows(t, 2, a + 1) && Selected(t, ws[1]) == Rows(t, a + 2, c + 1)
            && Selected(t, ws[2]) == Rows(t, c + 2, d + 1) && Selected(t, ws[3]) == Rows(t, d + 2, b.turn + 1)
  {
    var a := Span(b.primo);
    var c := a + Span(b.secondo);
    var d := c + Span(b.contorno);
    DropFirstRow(t, 1, a + 1);
    DropFirstRow(t, a + 1, c + 1);
    DropFirstRow(t, c + 1, d + 1);
    DropFirstRow(t, d + 1, b.turn + 1);
  }

  /** When the three course extents fit in the turn, the lunch windows cut the
      turn's rows 2..L+1 into consecutive runs: each of those rows is read
      by exactly one course, in order. */
  lemma LunchWindowsPartition(t: Table, b: Block)
    requires Span(b.primo) + Span(b.secondo) + Span(b.contorno) <= b.turn
    ensures var ws := LunchWindows(b);
            Selected(t, ws[0]) + Selected(t, ws[1]) + Selected(t, ws[2]) + Selected(t, ws[3]) == Rows(t, 2, b.turn + 1)
  {
    var a := Span(b.primo);
    var c := a + Span(b.secondo);
    var d := c + Span(b.contorno);
    LunchCourseRows(t, b);
    RowsSplit(t, 2, a + 1, c + 1);
    RowsSplit(t, 2, c + 1, d + 1);
    RowsSplit(t, 2, d + 1, b.turn + 1);
  }

  /** On a table that holds the whole lunch turn, the windows have exactly the
      header extents as sizes, and Frutta the rows left over. */
  lemma LunchWindowSizes(t: Table, b: Block)
    requires Span(b.primo) + Span(b.secondo) + Span(b.contorno) <= b.turn < |t|
    ensures var ws := LunchWindows(b);
            |Selected(t, ws[0])| == Span(b.primo) && |Selected(t, ws[1])| == Span(b.secondo)
            && |Selected(t, ws[2])| == Span(b.contorno)
            && |Selected(t, ws[3])| == b.turn - Span(b.primo) - Span(b.secondo) - Span(b.contorno)
  {
    var a := Span(b.primo);
    var c := a + Span(b.secondo);
    var d := c + Span(b.contorno);
    LunchCourseRows(t, b);
    RowsLength(t, 2, a + 1);
    RowsLength(t, a + 2, c + 1);
    RowsLength(t, c + 2, d + 1);
    RowsLength(t, d + 2, b.turn + 1);
  }

  /** The rows each dinner selector reads after a lunch turn of `offset` rows:
      the first three lose the first row of their run; Frutta keeps it. */
  lemma DinnerCourseRows(t: Table, offset: nat, b: Block)
    ensures var a := offset + Span(b.primo);
            var c := a + Span(b.secondo);
            var d := c + Span(b.contorno);
            var ws := DinnerWindows(offset, b);
            Selected(t, ws[0]) == Rows(t, offset + 3, a + 1) && Selected(t, ws[1]) == Rows(t, a + 3, c + 1)
            && Selected(t, ws[2]) == Rows(t, c + 3, d + 1) && Selected(t, ws[3]) == Rows(t, d + 2, offset + b.turn + 1)
  {
    var a := offset + Span(b.primo);
    var c := a + Span(b.secondo);
    var d := c + Span(b.contorno);
    DropFirstRow(t, offset + 2, a + 1);
    DropFirstRow(t, a + 2, c + 1);
    DropFirstRow(t, c + 2, d + 1);
  }

  /** The dinner windows do not cover the dinner turn: when the extents are
      positive and fit in the turn, its rows L+2..L+D+1 are the first row of
      the Primo run, the Primo window, the first row of the Secondo run, the
      Secondo window, the first row of the Contorno run, the Contorno window
      and the Frutta window, so those three first rows are read by no course. */
  lemma DinnerWindowsGaps(t: Table, offset: nat, b: Block)
    requires Span(b.primo) >= 1 && Span(b.secondo) >= 1 && Span(b.contorno) >= 1
    requires Span(b.primo) + Span(b.secondo) + Span(b.contorno) <= b.turn
    ensures var a := offset + Span(b.primo);
            var c := a + Span(b.secondo);
            var ws := DinnerWindows(offset, b);
            (Rows(t, offset + 2, offset + 2) + Selected(t, ws[0]))
            + ((Rows(t, a + 2, a + 2) + Selected(t, ws[1]))
               + ((Rows(t, c + 2, c + 2) + Selected(t, ws[2])) + Selected(t, ws[3])))
            == Rows(t, offset + 2, offset + b.turn + 1)
  {
    var a := offset + Span(b.primo);
    var c := a + Span(b.secondo);
    var d := c + Span(b.contorno);
    var hi := offset + b.turn + 1;
    var ws := DinnerWindows(offset, b);
    assert ws[0] == Window(offset + 2, a + 1, true) && ws[1] == Window(a + 2, c + 1, true)
           && ws[2] == Window(c + 2, d + 1, true) && ws[3] == Window(d + 2, hi, false);
    assert Selected(t, ws[3]) == Rows(t, d + 2, hi);
    var r3 := (Rows(t, c + 2, c + 2) + Selected(t, ws[2])) + Selected(t, ws[3]);
    assert r3 == Rows(t, c + 2, hi) by {
      RunThenRest(t, ws[2], hi);
    }
    var r2 := (Rows(t, a + 2, a + 2) + Selected(t, ws[1])) + r3;
    assert r2 == Rows(t, a + 2, hi) by {
      RunThenRest(t, ws[1], hi);
    }
    assert (Rows(t, offset + 2, offset + 2) + Selected(t, ws[0])) + r2 == Rows(t, offset + 2, hi) by {
      RunThenRest(t, ws[0], hi);
    }
  }

  /** A selection is its first row, the window that drops it, and the rows
      after that window. */
  lemma RunThenRest(t: Table, w: Window, hi: int)
    requires w.skip && 1 <= w.lo <= w.hi <= hi
    ensures (Rows(t, w.lo, w.lo) + Selected(t, w)) + Rows(t, w.hi + 1, hi) == Rows(t, w.lo, hi)
  {
    DropFirstRow(t, w.lo, w.hi);
    RowsSplit(t, w.lo, w.lo, w.hi);
    RowsSplit(t, w.lo, w.hi, hi);
  }


  /** On a table that holds the whole dinner turn, each of the first three
      dinner windows is one row shorter than its header's extent. */
  lemma DinnerWindowSizes(t: Table, offset: nat, b: Block)
    requires Span(b.primo) >= 1 && Span(b.secondo) >= 1 && Span(b.contorno) >= 1
    requires Span(b.primo) + Span(b.secondo) + Span(b.contorno) <= b.turn
    requires offset + b.turn < |t|
    ensures var ws := DinnerWindows(offset, b);
            |Selected(t, ws[0])| == Span(b.primo) - 1 && |Selected(t, ws[1])| == Span(b.secondo) - 1
            && |Selected(t, ws[2])| == Span(b.contorno) - 1
            && |Selected(t, ws[3])| == b.turn - Span(b.primo) - Span(b.secondo) - Span(b.contorno)
  {
    var a := offset + Span(b.primo);
    var c := a + Span(b.secondo);
    var d := c + Span(b.contorno);
    DinnerCourseRows(t, offset, b);
    RowsLength(t, offset + 3, a + 1);
    RowsLength(t, a + 3, c + 1);
    RowsLength(t, c + 3, d + 1);
    RowsLength(t, d + 2, offset + b.turn + 1);
  }

  /** `items` are the dishes of the table rows from index `base` on, one per
      row: the first dish cell of each. */
  predicate DishesFrom(t: Table, base: int, items: seq<string>, fruit: bool) {
    forall k :: 0 <= k < |items| ==> 0 <= base + k < |t| && ItemText(t[base + k], fruit) == Some(items[k])
  }

  /** A window's dish list holds, for each of its rows in turn, the first dish
      cell of that table row. */
  lemma WindowDishes(t: Table, w: Window, lo: int, hi: int, fruit: bool, items: seq<string>)
    requires lo >= 1
    requires Selected(t, w) == Rows(t, lo, hi)
    requires ItemsOf(Selected(t, w), fruit) == Ok(items)
    ensures |items| == |Rows(t, lo, hi)|
    ensures DishesFrom(t, lo - 1, items, fruit)
  {
    ItemsOfSpec(Selected(t, w), fruit);
    RowsLength(t, lo, hi);
    forall k | 0 <= k < |items|
      ensures 0 <= lo - 1 + k < |t| && ItemText(t[lo - 1 + k], fruit) == Some(items[k])
    {
      RowAt(t, lo, hi, k);
    }
  }

  /** Course `i` is the dish list of window `i`. */
  lemma CourseOfWindow(t: Table, ws: seq<Window>, c: Courses, i: nat)
    requires |ws| == 4 && i < 4 && CoursesIn(t, ws) == Ok(c)
    ensures ItemsOf(Selected(t, ws[i]), i == 3) == Ok(Course(c, i))
  {
  }

  /** A window that drops its first row reads the rows from one later on. */
  lemma SkippedWindow(t: Table, w: Window)
    requires w.skip && w.lo >= 1
    ensures Selected(t, w) == Rows(t, w.lo + 1, w.hi)
  {
    DropFirstRow(t, w.lo, w.hi);
  }

  /** The table index of the row that gives lunch course `i` its first dish:
      row 2, then p1, p2 and p3 rows further on. */
  function LunchBase(b: Block, i: nat): nat
    requires i < 4
  {
    if i == 0 then 1
    else if i == 1 then 1 + Span(b.primo)
    else if i == 2 then 1 + Span(b.primo) + Span(b.secondo)
    else 1 + Span(b.primo) + Span(b.secondo) + Span(b.contorno)
  }

  /** Lunch window `i` drops its first row and starts at position
      `LunchBase(b, i)`. */
  lemma LunchWindowAt(b: Block, i: nat)
    requires i < 4
    ensures LunchWindows(b)[i].skip && LunchWindows(b)[i].lo == LunchBase(b, i)
  {
  }

  /** What the lunch pass collects: the k-th dish of course `i` is the dish
      of the row `LunchBase(b, i)` + k rows into the table. */
  lemma LunchDishes(t: Table, b: Block, c: Courses, i: nat)
    requires i < 4
    requires CoursesIn(t, LunchWindows(b)) == Ok(c)
    ensures DishesFrom(t, LunchBase(b, i), Course(c, i), i == 3)
  {
    var w := LunchWindows(b)[i];
    LunchWindowAt(b, i);
    SkippedWindow(t, w);
    CourseOfWindow(t, LunchWindows(b), c, i);
    WindowDishes(t, w, w.lo + 1, w.hi, i == 3, Course(c, i));
  }

  /** On a table holding the whole lunch turn, the courses have p1, p2 and p3
      dishes and Frutta the rest: one dish per row of the turn. */
  lemma LunchDishCount(t: Table, b: Block, c: Courses)
    requires CoursesIn(t, LunchWindows(b)) == Ok(c)
    requires Span(b.primo) + Span(b.secondo) + Span(b.contorno) <= b.turn < |t|
    ensures |c.primo| == Span(b.primo) && |c.secondo| == Span(b.secondo) && |c.contorno| == Span(b.contorno)
    ensures |c.primo| + |c.secondo| + |c.contorno| + |c.frutta| == b.turn
  {
    LunchWindowSizes(t, b);
    var ws := LunchWindows(b);
    CourseOfWindow(t, ws, c, 0);
    CourseOfWindow(t, ws, c, 1);
    CourseOfWindow(t, ws, c, 2);
    CourseOfWindow(t, ws, c, 3);
    ItemsOfSpec(Selected(t, ws[0]), false);
    ItemsOfSpec(Selected(t, ws[1]), false);
    ItemsOfSpec(Selected(t, ws[2]), false);
    ItemsOfSpec(Selected(t, ws[3]), true);
  }

  /** The table index of the row that gives dinner course `i` its first dish,
      after a lunch turn of `offset` rows: each of the first three courses
      starts one row after its run begins; Frutta at its run's first row. */
  function DinnerBase(offset: nat, b: Block, i: nat): nat
    requires i < 4
  {
    if i == 0 then offset + 2
    else if i == 1 then offset + Span(b.primo) + 2
    else if i == 2 then offset + Span(b.primo) + Span(b.secondo) + 2
    else offset + Span(b.primo) + Span(b.secondo) + Span(b.contorno) + 1
  }

  /** Dinner window `i` drops its first row and starts at position
      `DinnerBase(offset, b, i)` for the first three courses; Frutta's keeps
      its first row and starts one position later. */
  lemma DinnerWindowAt(offset: nat, b: Block, i: nat)
    requires i < 4
    ensures DinnerWindows(offset, b)[i].skip == (i < 3)
    ensures DinnerWindows(offset, b)[i].lo == DinnerBase(offset, b, i) + (if i < 3 then 0 else 1)
  {
  }

  /** What the dinner pass collects: the k-th dish of course `i` is the dish
      of the row `DinnerBase(offset, b, i)` + k rows into the table. */
  lemma DinnerDishes(t: Table, offset: nat, b: Block, c: Courses, i: nat)
    requires i < 4
    requires CoursesIn(t, DinnerWindows(offset, b)) == Ok(c)
    ensures DishesFrom(t, DinnerBase(offset, b, i), Course(c, i), i == 3)
  {
    var w := DinnerWindows(offset, b)[i];
    DinnerWindowAt(offset, b, i);
    CourseOfWindow(t, DinnerWindows(offset, b), c, i);
    if i < 3 {
      SkippedWindow(t, w);
      WindowDishes(t, w, w.lo + 1, w.hi, false, Course(c, i));
    } else {
      WindowDishes(t, w, w.lo, w.hi, true, Course(c, i));
    }
  }

  /** On a table holding the whole dinner turn, with positive extents that fit
      in it, the first three courses have one dish fewer than their extents
      and the turn gives D-3 dishes in all. */
  lemma DinnerDishCount(t: Table, offset: nat, b: Block, c: Courses)
    requires CoursesIn(t, DinnerWindows(offset, b)) == Ok(c)
    requires Span(b.primo) >= 1 && Span(b.secondo) >= 1 && Span(b.contorno) >= 1
    requires Span(b.primo) + Span(b.secondo) + Span(b.contorno) <= b.turn && offset + b.turn < |t|
    ensures |c.primo| == Span(b.primo) - 1 && |c.secondo| == Span(b.secondo) - 1 && |c.contorno| == Span(b.contorno) - 1
    ensures |c.primo| + |c.secondo| + |c.contorno| + |c.frutta| == b.turn - 3
  {
    DinnerWindowSizes(t, offset, b);
    var ws := DinnerWindows(offset, b);
    CourseOfWindow(t, ws, c, 0);
    CourseOfWindow(t, ws, c, 1);
    CourseOfWindow(t, ws, c, 2);
    CourseOfWindow(t, ws, c, 3);
    ItemsOfSpec(Selected(t, ws[0]), false);
    ItemsOfSpec(Selected(t, ws[1]), false);
    ItemsOfSpec(Selected(t, ws[2]), false);
    ItemsOfSpec(Selected(t, ws[3]), true);
  }

  /** Some row at a 1-based position from `lo` to `hi` (0-based index from
      `lo` - 1 to `hi` - 1) has a header cell named `name`. */
  predicate HeaderIn(t: Table, lo: int, hi: int, name: string) {
    exists j :: lo - 1 <= j < hi && 0 <= j < |t| && HasHeader(t[j], name)
  }

  /** Element `k` of a selection is the table row at index `lo` - 1 + k. */
  lemma RowsAt(t: Table, lo: int, hi: int)
    requires lo >= 1
    ensures |Rows(t, lo, hi)| == Max(0, Min(hi, |t|) - lo + 1)
    ensures forall k :: 0 <= k < |Rows(t, lo, hi)| ==> lo - 1 + k < |t| && Rows(t, lo, hi)[k] == t[lo - 1 + k]
  {
    RowsLength(t, lo, hi);
    forall k | 0 <= k < |Rows(t, lo, hi)|
      ensures lo - 1 + k < |t| && Rows(t, lo, hi)[k] == t[lo - 1 + k]
    {
      RowAt(t, lo, hi, k);
    }
  }

  /** A breaking scan over the rows at positions `lo`..`hi` finds nothing
      exactly when none of them has the header; otherwise it keeps the first
      header of the row at some index `j` in range, and no row before `j` in
      range has one. */
  lemma FirstHeaderAt(t: Table, lo: int, hi: int, name: string)
    requires lo >= 1
    ensures FirstHeader(Rows(t, lo, hi), name).None? <==> !HeaderIn(t, lo, hi, name)
    ensures FirstHeader(Rows(t, lo, hi), name).Some? ==>
              exists j :: lo - 1 <= j < hi && 0 <= j < |t| && |Headers(t[j], name)| > 0
                          && FirstHeader(Rows(t, lo, hi), name).value == Headers(t[j], name)[0]
                          && forall l :: lo - 1 <= l < j ==> !HasHeader(t[l], name)
  {
    var rows := Rows(t, lo, hi);
    RowsAt(t, lo, hi);
    FirstHeaderSpec(rows, name);
    if HeaderIn(t, lo, hi, name) {
      var j :| lo - 1 <= j < hi && 0 <= j < |t| && HasHeader(t[j], name);
      assert rows[j - lo + 1] == t[j];
    }
    if FirstHeader(rows, name).Some? {
      var i :| 0 <= i < |rows| && HasHeader(rows[i], name) && |Headers(rows[i], name)| > 0
               && FirstHeader(rows, name).value == Headers(rows[i], name)[0]
               && forall l :: 0 <= l < i ==> !HasHeader(rows[l], name);
      forall l | lo - 1 <= l < lo - 1 + i
        ensures !HasHeader(t[l], name)
      {
        assert rows[l - lo + 1] == t[l];
      }
      assert rows[i] == t[lo - 1 + i];
    }
  }

  /** A scan without `break` over the rows at positions `lo`..`hi` finds
      nothing exactly when none of them has the header; otherwise it keeps
      the first header of the row at some index `j` in range, and no row
      after `j` in range has one. */
  lemma LastHeaderAt(t: Table, lo: int, hi: int, name: string)
    requires lo >= 1
    ensures LastHeader(Rows(t, lo, hi), name).None? <==> !HeaderIn(t, lo, hi, name)
    ensures LastHeader(Rows(t, lo, hi), name).Some? ==>
              exists j :: lo - 1 <= j < hi && 0 <= j < |t| && |Headers(t[j], name)| > 0
                          && LastHeader(Rows(t, lo, hi), name).value == Headers(t[j], name)[0]
                          && forall l :: j < l < hi && l < |t| ==> !HasHeader(t[l], name)
  {
    var rows := Rows(t, lo, hi);
    RowsAt(t, lo, hi);
    LastHeaderSpec(rows, name);
    if HeaderIn(t, lo, hi, name) {
      var j :| lo - 1 <= j < hi && 0 <= j < |t| && HasHeader(t[j], name);
      assert rows[j - lo + 1] == t[j];
    }
    if LastHeader(rows, name).Some? {
      var i :| 0 <= i < |rows| && HasHeader(rows[i], name) && |Headers(rows[i], name)| > 0
               && LastHeader(rows, name).value == Headers(rows[i], name)[0]
               && forall l :: i < l < |rows| ==> !HasHeader(rows[l], name);
      forall l | lo - 1 + i < l < hi && l < |t|
        ensures !HasHeader(t[l], name)
      {
        assert rows[l - lo + 1] == t[l];
      }
      assert rows[i] == t[lo - 1 + i];
    }
  }

  /** `h` is a header cell named `name` in a row at a 1-based position from
      `lo` to `hi`. */
  predicate HeaderCellIn(t: Table, lo: int, hi: int, name: string, h: Cell) {
    exists j :: lo - 1 <= j < hi && 0 <= j < |t| && h in t[j] && IsHeader(h, name)
  }

  /** Whichever rule it follows, a scan over the rows at positions `lo`..`hi`
      finds nothing exactly when none has the header, and otherwise keeps a
      header cell of that name from one of them. */
  lemma HeaderFoundIn(t: Table, lo: int, hi: int, name: string, rule: ScanRule)
    requires lo >= 1
    ensures HeaderFound(Rows(t, lo, hi), name, rule).None? <==> !HeaderIn(t, lo, hi, name)
    ensures HeaderFound(Rows(t, lo, hi), name, rule).Some? ==>
              HeaderCellIn(t, lo, hi, name, HeaderFound(Rows(t, lo, hi), name, rule).value)
  {
    var found := HeaderFound(Rows(t, lo, hi), name, rule);
    if rule == FirstMatch {
      FirstHeaderAt(t, lo, hi, name);
    } else {
      LastHeaderAt(t, lo, hi, name);
    }
    if found.Some? {
      var j :| lo - 1 <= j < hi && 0 <= j < |t| && |Headers(t[j], name)| > 0 && found.value == Headers(t[j], name)[0];
      HeadersSpec(t[j], name);
      assert found.value in Headers(t[j], name);
    }
  }

  /** The lunch pass reads its extents exactly when the table has a `Pranzo`
      cell with a `rowspan` L and each of the three course headers occurs in
      rows 2..L; the block then holds L and a header cell of each name from
      those rows. */
  lemma LunchBlockSpec(t: Table, rule: ScanRule)
    ensures LunchBlock(t, rule).Ok? <==>
              TurnSpan(t, "Pranzo").Ok?
              && HeaderIn(t, 2, TurnSpan(t, "Pranzo").value, "Primo")
              && HeaderIn(t, 2, TurnSpan(t, "Pranzo").value, "Secondo")
              && HeaderIn(t, 2, TurnSpan(t, "Pranzo").value, "Contorno")
    ensures LunchBlock(t, rule).Ok? ==>
              var L := TurnSpan(t, "Pranzo").value;
              var b := LunchBlock(t, rule).value;
              b.turn == L && HeaderCellIn(t, 2, L, "Primo", b.primo)
              && HeaderCellIn(t, 2, L, "Secondo", b.secondo) && HeaderCellIn(t, 2, L, "Contorno", b.contorno)
  {
    if TurnSpan(t, "Pranzo").Ok? {
      var L := TurnSpan(t, "Pranzo").value;
      DropFirstRow(t, 1, L);
      HeaderFoundIn(t, 2, L, "Primo", FirstMatch);
      HeaderFoundIn(t, 2, L, "Secondo", rule);
      HeaderFoundIn(t, 2, L, "Contorno", rule);
    }
  }

  /** A scan that starts from an earlier value `prev` ends with a header
      cell of that name from the rows at positions `lo`..`hi` when one of
      them has one, and with `prev` otherwise. */
  lemma HeaderOrFallback(t: Table, lo: int, hi: int, name: string, rule: ScanRule, prev: Header)
    requires lo >= 1
    ensures var h := HeaderFound(Rows(t, lo, hi), name, rule).GetOr(prev);
            if HeaderIn(t, lo, hi, name) then HeaderCellIn(t, lo, hi, name, h) else h == prev
  {
    HeaderFoundIn(t, lo, hi, name, rule);
  }

  /** The dinner pass reads its extents exactly when the table has a `Cena`
      cell with a `rowspan` D; each course header then comes from the dinner
      rows L+2..L+D+1 when one occurs there, and is the lunch header
      otherwise. */
  lemma DinnerBlockSpec(t: Table, rule: ScanRule, lunch: Block)
    ensures DinnerBlock(t, rule, lunch).Ok? <==> TurnSpan(t, "Cena").Ok?
    ensures DinnerBlock(t, rule, lunch).Ok? ==>
              var D := TurnSpan(t, "Cena").value;
              var lo, hi := lunch.turn + 2, lunch.turn + D + 1;
              var b := DinnerBlock(t, rule, lunch).value;
              b.turn == D
              && (if HeaderIn(t, lo, hi, "Primo") then HeaderCellIn(t, lo, hi, "Primo", b.primo) else b.primo == lunch.primo)
              && (if HeaderIn(t, lo, hi, "Secondo") then HeaderCellIn(t, lo, hi, "Secondo", b.secondo) else b.secondo == lunch.secondo)
              && (if HeaderIn(t, lo, hi, "Contorno") then HeaderCellIn(t, lo, hi, "Contorno", b.contorno) else b.contorno == lunch.contorno)
  {
    if TurnSpan(t, "Cena").Ok? {
      var D := TurnSpan(t, "Cena").value;
      var lo, hi := lunch.turn + 2, lunch.turn + D + 1;
      var b := DinnerBlock(t, rule, lunch).value;
      assert b == Block(D, HeaderFound(Rows(t, lo, hi), "Primo", FirstMatch).GetOr(lunch.primo),
                        HeaderFound(Rows(t, lo, hi), "Secondo", rule).GetOr(lunch.secondo),
                        HeaderFound(Rows(t, lo, hi), "Contorno", rule).GetOr(lunch.contorno));
      HeaderOrFallback(t, lo, hi, "Primo", FirstMatch, lunch.primo);
      HeaderOrFallback(t, lo, hi, "Secondo", rule, lunch.secondo);
      HeaderOrFallback(t, lo, hi, "Contorno", rule, lunch.contorno);
    }
  }

  /** At most one row at positions `lo`..`hi` has a header cell named `name`. */
  predicate SingleHeaderRow(t: Table, lo: int, hi: int, name: string) {
    forall i, j ::
      lo - 1 <= i < hi && lo - 1 <= j < hi && 0 <= i < |t| && 0 <= j < |t| && HasHeader(t[i], name) && HasHeader(t[j], name)
      ==> i == j
  }

  /** When at most one row in range carries the header, the breaking scan and
      the scan without `break` keep the same cell. */
  lemma FirstLastHeaderAgree(t: Table, lo: int, hi: int, name: string)
    requires lo >= 1
    requires SingleHeaderRow(t, lo, hi, name)
    ensures FirstHeader(Rows(t, lo, hi), name) == LastHeader(Rows(t, lo, hi), name)
  {
    FirstHeaderAt(t, lo, hi, name);
    LastHeaderAt(t, lo, hi, name);
    if FirstHeader(Rows(t, lo, hi), name).Some? {
      var j1 :| lo - 1 <= j1 < hi && 0 <= j1 < |t| && |Headers(t[j1], name)| > 0
                && FirstHeader(Rows(t, lo, hi), name).value == Headers(t[j1], name)[0];
      var j2 :| lo - 1 <= j2 < hi && 0 <= j2 < |t| && |Headers(t[j2], name)| > 0
                && LastHeader(Rows(t, lo, hi), name).value == Headers(t[j2], name)[0];
      HeadersSpec(t[j1], name);
      HeadersSpec(t[j2], name);
    }
  }

  /** The lunch extents do not depend on the scan rule when at most one row
      of the turn carries a `Secondo` header and at most one a `Contorno`
      header. */
  lemma LunchRulesAgree(t: Table, L: nat)
    requires TurnSpan(t, "Pranzo") == Ok(L)
    requires SingleHeaderRow(t, 2, L, "Secondo") && SingleHeaderRow(t, 2, L, "Contorno")
    ensures LunchBlock(t, FirstMatch) == LunchBlock(t, LastMatch)
  {
    DropFirstRow(t, 1, L);
    FirstLastHeaderAgree(t, 2, L, "Secondo");
    FirstLastHeaderAgree(t, 2, L, "Contorno");
  }

  /** Likewise for the dinner extents, over the dinner rows. */
  lemma DinnerRulesAgree(t: Table, lunch: Block, D: nat)
    requires TurnSpan(t, "Cena") == Ok(D)
    requires SingleHeaderRow(t, lunch.turn + 2, lunch.turn + D + 1, "Secondo")
    requires SingleHeaderRow(t, lunch.turn + 2, lunch.turn + D + 1, "Contorno")
    ensures DinnerBlock(t, FirstMatch, lunch) == DinnerBlock(t, LastMatch, lunch)
  {
    FirstLastHeaderAgree(t, lunch.turn + 2, lunch.turn + D + 1, "Secondo");
    FirstLastHeaderAgree(t, lunch.turn + 2, lunch.turn + D + 1, "Contorno");
  }

  /** The block the lunch pass reads carries the extent of the `Pranzo` cell. */
  lemma LunchTurn(t: Table, rule: ScanRule)
    ensures LunchOf(t, rule).Ok? ==> TurnSpan(t, "Pranzo").Ok? && LunchOf(t, rule).value.0.turn == TurnSpan(t, "Pranzo").value
  {
  }

  /** The two scan rules give the same menu when, in each turn, at most one
      row carries a `Secondo` header and at most one a `Contorno` header (the
      `Primo` scan breaks in both versions). */
  lemma ScanRulesAgree(t: Table, L: nat, D: nat)
    requires TurnSpan(t, "Pranzo") == Ok(L) && TurnSpan(t, "Cena") == Ok(D)
    requires SingleHeaderRow(t, 2, L, "Secondo") && SingleHeaderRow(t, 2, L, "Contorno")
    requires SingleHeaderRow(t, L + 2, L + D + 1, "Secondo") && SingleHeaderRow(t, L + 2, L + D + 1, "Contorno")
    ensures DailyMenu(t, FirstMatch) == DailyMenu(t, LastMatch)
  {
    LunchRulesAgree(t, L);
    assert LunchOf(t, FirstMatch) == LunchOf(t, LastMatch);
    if LunchOf(t, FirstMatch).Ok? {
      var b := LunchOf(t, FirstMatch).value.0;
      LunchTurn(t, FirstMatch);
      DinnerRulesAgree(t, b, D);
      assert DinnerOf(t, FirstMatch, b) == DinnerOf(t, LastMatch, b);
    }
  }
}

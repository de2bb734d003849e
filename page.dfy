/** `parse_menu`: the two `table#menu` tables of a cleaned menu page, the
    first with the opening hours and the second with the dishes. Parsing
    the HTML and cleaning it are not modelled: the page is given as the
    list of its `table#menu` tables. */
module Page {
  import opened Html
  import opened MenuTable
  import opened Hours

  /** What `parse_menu` returns: `(None, None)` when the page has fewer than
      two menu tables, otherwise the menu and the timetable. */
  datatype Parsed = NoTables | Parsed(menu: Menu, time: Timetable)

  /** `parse_menu` of the current version: the hours are read before the
      dishes, and either reader's exception ends the call. */
  function ParsedPage(tables: seq<Table>): Result<Parsed> {
    if |tables| < 2 then Ok(NoTables)
    else
      var time :- DailyTime(tables[0]);
      var menu :- DailyMenu(tables[1], FirstMatch);
      Ok(Parsed(menu, time))
  }

  method ParseMenu(tables: seq<Table>) returns (r: Result<Parsed>)
    ensures r == ParsedPage(tables)
  {
    if |tables| < 2 {
      return Ok(NoTables);
    }
    var time := GetDailyTime(tables[0]);
    if time.Fail? {
      return Fail;
    }
    var menu := GetDailyMenu(tables[1], FirstMatch);
    if menu.Fail? {
      return Fail;
    }
    return Ok(Parsed(menu.value, time.value));
  }

  /** A page with fewer than two menu tables gives `(None, None)` and never
      raises; on a page with two or more, the call raises exactly when the
      hours table has a malformed row after its header row or the dish table
      cannot be read, and otherwise returns the menu of the second table and
      the timetable of the first. */
  lemma ParsedPageSpec(tables: seq<Table>)
    ensures ParsedPage(tables) == Ok(NoTables) <==> |tables| < 2
    ensures |tables| >= 2 ==>
              (ParsedPage(tables).Ok? <==>
                 (forall i :: 1 <= i < |tables[0]| ==> WellFormed(tables[0][i]))
                 && DailyMenu(tables[1], FirstMatch).Ok?)
    ensures ParsedPage(tables).Ok? && |tables| >= 2 ==>
              ParsedPage(tables) == Ok(Parsed(DailyMenu(tables[1], FirstMatch).value, DailyTime(tables[0]).value))
  {
    if |tables| >= 2 {
      DailyTimeDefined(tables[0]);
    }
  }

  /** `parse_menu` of the earlier version: it indexes the second menu table
      without checking that there is one, does not read the hours, and lets
      the `Secondo` and `Contorno` scans run to the last matching row. */
  function LegacyMenu(tables: seq<Table>): Result<Menu> {
    if |tables| < 2 then Fail else DailyMenu(tables[1], LastMatch)
  }

  method ParseMenuLegacy(tables: seq<Table>) returns (r: Result<Menu>)
    ensures r == LegacyMenu(tables)
  {
    if |tables| < 2 {
      return Fail;
    }
    r := GetDailyMenu(tables[1], LastMatch);
  }

  /** Where the two versions part: on a page with fewer than two menu tables
      the earlier one raises and the current one returns `(None, None)`; on
      a page whose hours table is well formed and whose turns each have at
      most one `Secondo` and one `Contorno` header row, both give the same
      menu. */
  lemma LegacyAgrees(tables: seq<Table>, L: nat, D: nat)
    ensures |tables| < 2 ==> LegacyMenu(tables).Fail? && ParsedPage(tables) == Ok(NoTables)
    ensures |tables| >= 2 && (forall i :: 1 <= i < |tables[0]| ==> WellFormed(tables[0][i]))
            && TurnSpan(tables[1], "Pranzo") == Ok(L) && TurnSpan(tables[1], "Cena") == Ok(D)
            && SingleHeaderRow(tables[1], 2, L, "Secondo") && SingleHeaderRow(tables[1], 2, L, "Contorno")
            && SingleHeaderRow(tables[1], L + 2, L + D + 1, "Secondo")
            && SingleHeaderRow(tables[1], L + 2, L + D + 1, "Contorno") ==>
              (LegacyMenu(tables).Ok? <==> ParsedPage(tables).Ok?)
              && (LegacyMenu(tables).Ok? ==> ParsedPage(tables) == Ok(Parsed(LegacyMenu(tables).value, DailyTime(tables[0]).value)))
  {
    if |tables| >= 2 && TurnSpan(tables[1], "Pranzo") == Ok(L) && TurnSpan(tables[1], "Cena") == Ok(D)
       && SingleHeaderRow(tables[1], 2, L, "Secondo") && SingleHeaderRow(tables[1], 2, L, "Contorno")
       && SingleHeaderRow(tables[1], L + 2, L + D + 1, "Secondo")
       && SingleHeaderRow(tables[1], L + 2, L + D + 1, "Contorno") {
      ScanRulesAgree(tables[1], L, D);
      ParsedPageSpec(tables);
    }
  }
}

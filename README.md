# ERDIS canteen menu extractor — a Dafny model

The ERDIS canteen bot publishes each university canteen's menu for the day.
Its core is the extractor in `menu.py`. It builds the address of the day's
menu page for a canteen. It then reads the page's two `table#menu` tables:
the first holds the opening hours of the lunch (`Pranzo`) and dinner (`Cena`)
turns, the second holds the dishes of each turn. The dishes are grouped into
the courses `Primo`, `Secondo`, `Contorno` and `Frutta`. The earlier
extractor in `main.py` does the same work with a few differences, and the
model covers it too.

The project has five modules:

- `Html` (html.dfy): a table is its rows, and a row is its `td` cells. A cell
  keeps only its text and its optional `rowspan`. `Rows(t, lo, hi)` gives
  the rows that `tr:nth-child(n+lo):nth-child(-n+hi)` selects. `Headers` and
  `ItemText` give the cells that `td[rowspan]` and `td:not([rowspan])` select.
- `Url` (url.dfy): the `Canteen` enumeration with its display names, and
  `build_daily_url`. The address decodes back to the date it was built from.
- `Hours` (hours.dfy): `get_daily_time`. A loop over the rows of the hours
  table, proved against a function that folds one row at a time. What the
  fold computes is proved in terms of the last row naming each turn.
- `MenuTable` (menu.dfy): `get_daily_menu`. It is parametrised by a
  `ScanRule`:
  - `FirstMatch`: `menu.py` breaks out of every header scan at the first match.
  - `LastMatch`: `main.py` lets the `Secondo` and `Contorno` scans run on, so
    their last match wins.

  The methods read a turn's header cells, then collect the four courses
  through the row windows those headers define. The lemmas say:
  - which rows each course is read from;
  - that the windows tile the turn;
  - how many dishes each course gets;
  - which cell of which row each dish is;
  - when the extractor raises;
  - that the two scan rules agree when each header appears in one row only.
- `Page` (page.dfy): `parse_menu` of both versions. They are related by a
  lemma.

Every exception the source can raise becomes `Fail`: a missing turn cell, a
missing header, a missing `rowspan`, a row without a dish cell, or an unknown
turn name in the hours table. The model does not tell them apart. The
proofs show exactly which tables lead to `Fail`.

The source and its own description disagree in a few places. The model
follows the code:

- `IsOpen` is set to `text == "NO"` (menu.py:222). A status cell reading
  `NO` gives `IsOpen` true.
- `hasattr(data[3], 'rowspan')` is always true on a parsed tag. A fourth cell
  without a `rowspan` attribute therefore raises at `data[3]['rowspan']`
  (menu.py:223). It is not skipped.
- The dinner pass starts every header from the lunch header of the same
  course. A dinner turn without, say, a `Primo` header silently reuses the
  lunch `Primo` span (menu.py:154-182). It does not fail.
- The lunch header scan reads rows 2..L, where L is the lunch `rowspan`
  (menu.py:107-108). The lunch course windows reach row L+1.
- Each of the dinner `Primo`, `Secondo` and `Contorno` windows drops its
  first row with `[1:]`, so no dinner dish list ever contains those three
  rows. The dinner `Frutta` window keeps its first row
  (menu.py:160-195; main.py:153-186).

The model reads all of a turn's headers before collecting its courses. The
source interleaves them: scan, collect, then scan again. No scan depends on
a collected course, and any exception ends the call. So the grouped order
returns the same menu and fails on the same tables.

## Model

| member | source | states |
|---|---|---|
| Url.Name | menu.py:22-39 | `str(canteen)` is the enumeration value; `FromName` recovers the canteen from it; it is non-empty and free of `/` and `_` |
| Url.Decimal | menu.py:54-55 | `str(date.year)` is a digit string that parses back to the year, with no leading zero |
| Url.TwoDigits | menu.py:51-52 | a month or day below 100 gets exactly two digits, zero-padded when at most 9, and parses back to the number |
| Url.BuildDailyUrl | menu.py:42-55 | the address lies in the canteen's `Mensa_<name>/` directory and ends in `_<name>.html` |
| Url.AddressShape | menu.py:54-55 | prefix, length and suffix of the concatenated address |
| Url.StampRoundTrip | menu.py:54-55 | stripping the site, directory and page prefix and the `_<name>.html` suffix recovers the date stamp |
| Url.DecodeParts | menu.py:51-55 | a `year_mm_dd` stamp of digit strings decodes to the numbers they spell |
| Url.StampDecode | menu.py:51-55 | the stamp of a valid date decodes back to that date |
| Url.UrlRoundTrip | menu.py:42-55 | decoding the address built for a canteen and a valid date gives back the date |
| Url.UrlInjective | main.py:34-47 | two valid dates give the same canteen address only when they are equal |
| Html.RowsLength | menu.py:127-128 | an `nth-child(n+lo):nth-child(-n+hi)` selection has as many rows as positions lo..hi that exist |
| Html.RowAt | menu.py:127-128 | the k-th selected row is the table row at position lo+k |
| Html.DropFirstRow | menu.py:128 | `[1:]` of the selection from lo is the selection from lo+1 |
| Html.RowsSplit | menu.py:127-146 | adjacent selections concatenate into the selection of their union |
| Html.HeadersSpec | menu.py:111 | the cells kept by `td[rowspan]` and the text filter are exactly the row's header cells for that name, first one first |
| Html.ItemTextSpec | menu.py:119 | `td:not([rowspan])[0]` is the first cell without `rowspan` (and, for `Frutta`, not itself reading `Frutta`), or none exists |
| Hours.TurnOf | menu.py:219 | a row's first cell selects `Pranzo` or `Cena`, any other text is a missing key |
| Hours.Timetable.Set | menu.py:219-225 | writing one turn's entry changes that turn and leaves the other alone |
| Hours.GetDailyTime | menu.py:200-226 | the loop returns the fold of the rows after the header row, starting from the defaults |
| Hours.ReadRow | menu.py:218-225 | one loop iteration: times of the named turn, its status, and the status copied to the next row's turn when `rowspan` is 2 |
| Hours.FailureSticks | menu.py:216-225 | once a row raises, the whole call raises |
| Hours.AfterDefined | menu.py:216-225 | the loop completes exactly when every row it visits is well formed |
| Hours.DailyTimeDefined | menu.py:200-226 | `get_daily_time` raises exactly when some row after the header is malformed (fewer than 3 cells, unknown turn, or a status cell without `rowspan`) |
| Hours.StepEffect | menu.py:218-225 | a row changes a turn's times only when it names that turn, and its status only when it writes it |
| Hours.TimesAfter | menu.py:204-220 | a turn's times are the defaults when no row names it, otherwise those of the last row naming it |
| Hours.StatusUnwritten | menu.py:204-222 | a turn whose status no row writes stays closed (`False`) |
| Hours.StatusAfter | menu.py:221-225 | a turn's `IsOpen` is the status of the last row that writes it, directly or by `rowspan` propagation |
| Hours.DailyTimeSpec | menu.py:200-226 | the final timetable turn by turn: defaults, last naming row's times, last writer's status |
| Hours.SpanPropagation | menu.py:222-225 | a lunch status cell spanning two rows sets the dinner status too |
| MenuTable.ToDict | menu.py:91-104 | the result has keys `Pranzo` and `Cena`, each with the four course keys holding the collected dishes |
| MenuTable.NamedCellSpec | menu.py:88-89 | the first cell of a row with the given text, or none when the row has no such cell |
| MenuTable.TurnCellMissing | menu.py:88-106 | the turn cell is missing exactly when no row mentions the turn |
| MenuTable.TurnCellFirst | menu.py:88-106 | the turn cell is the first cell with that text in the first row mentioning it |
| MenuTable.TurnExtent | menu.py:106-107 | reading a turn's `rowspan` gives the span of its first cell, and fails when the cell or its `rowspan` is missing |
| MenuTable.FirstHeaderSpec | menu.py:110-114 | the breaking scan finds the first header cell of the first row holding one, or nothing when no row does |
| MenuTable.LastHeaderSpec | main.py:116-119 | the non-breaking scan finds the first header cell of the last row holding one, or nothing |
| MenuTable.ScanFirst | menu.py:110-114 | the breaking loop keeps the first match, else the value the variable already held |
| MenuTable.ScanLast | main.py:116-119 | the non-breaking loop keeps the last match, else the value the variable already held |
| MenuTable.Scan | main.py:116-129 | a header scan under either rule |
| MenuTable.ItemsOfSpec | menu.py:118-119 | the append loop succeeds exactly when every row has a dish cell, and collects one dish per row in order |
| MenuTable.CollectItems | menu.py:141-142 | the append loop computes the dish list of its rows |
| MenuTable.ReadLunchBlock | menu.py:106-136 | lunch span and the three lunch headers, failing as the source does |
| MenuTable.ReadDinnerBlock | menu.py:151-182 | dinner span and the three dinner headers, each falling back to the lunch header |
| MenuTable.CollectCourses | menu.py:116-148 | the four course lists of a turn read from its four windows |
| MenuTable.LunchPass | menu.py:106-148 | the lunch headers and courses |
| MenuTable.DinnerPass | menu.py:151-195 | the dinner headers and courses |
| MenuTable.GetDailyMenu | menu.py:84-197 | the whole extraction: lunch pass, then dinner pass offset by the lunch span |
| MenuTable.LunchCourseRows | menu.py:116-146 | after `[1:]`, lunch courses read rows 2..p+1, p+2..p+s+1, p+s+2..p+s+c+1 and p+s+c+2..L+1 |
| MenuTable.LunchWindowsPartition | menu.py:116-146 | the four lunch windows tile rows 2..L+1 with no gap or overlap |
| MenuTable.LunchWindowSizes | menu.py:116-148 | the lunch windows hold as many rows as the header spans, and Frutta the rest of the turn |
| MenuTable.DinnerCourseRows | menu.py:160-192 | the dinner course windows each start one row after their run begins; Frutta keeps its first row |
| MenuTable.DinnerWindowsGaps | menu.py:160-192 | the dinner windows plus the three dropped first rows tile rows L+2..L+D+1 |
| MenuTable.DinnerWindowSizes | menu.py:160-195 | each of the first three dinner windows holds one row fewer than its span |
| MenuTable.LunchDishes | menu.py:116-148 | each lunch dish is the dish cell of the table row at its position in its course's run |
| MenuTable.LunchDishCount | menu.py:116-148 | lunch course sizes equal the header spans and add up to the lunch span |
| MenuTable.DinnerDishes | menu.py:160-195 | each dinner dish is the dish cell of the table row at its position in its course's window |
| MenuTable.DinnerDishCount | menu.py:160-195 | dinner course sizes are the spans less one and add up to the dinner span less three |
| MenuTable.FirstHeaderAt | menu.py:110-114 | the breaking scan over a selection finds the first table row in range holding a header |
| MenuTable.LastHeaderAt | main.py:116-119 | the non-breaking scan finds the last table row in range holding a header |
| MenuTable.HeaderFoundIn | menu.py:110-136 | under either rule a header is found exactly when one lies in range, and it is a cell of a row in range |
| MenuTable.LunchBlockSpec | menu.py:106-136 | the lunch pass reads its headers exactly when the turn has a span and rows 2..L hold all three headers |
| MenuTable.DinnerBlockSpec | menu.py:151-182 | the dinner headers come from rows L+2..L+D+1 when present, otherwise they are the lunch headers |
| MenuTable.FirstLastHeaderAgree | main.py:116-129 | when at most one row in range holds the header, both scans find the same cell |
| MenuTable.LunchRulesAgree | main.py:116-129 | such lunch rows give the same lunch headers under both rules |
| MenuTable.DinnerRulesAgree | main.py:159-173 | such dinner rows give the same dinner headers under both rules |
| MenuTable.ScanRulesAgree | main.py:101-186 | with one `Secondo` and one `Contorno` header row per turn, both versions extract the same menu |
| Page.ParseMenu | menu.py:229-243 | computes the page result from the first two menu tables |
| Page.ParsedPageSpec | menu.py:229-243 | `(None, None)` exactly when fewer than two menu tables; otherwise success exactly when the hours are well formed and the menu can be read |
| Page.ParseMenuLegacy | main.py:73-188 | the earlier `parse_menu` raises without a second menu table and reads the menu with the last-match scans |
| Page.LegacyAgrees | main.py:82 | the earlier version raises where the current one returns `(None, None)`, and gives the same menu on tables with one header row per course |

## Left out

- `sanitise` / `sanitize` (menu.py:58-81, main.py:50-70): HTML cleaning is a library call. The model starts from the cleaned page's tables.
- HTML parsing and CSS selector matching are library code. A table is given as its `td` rows in document order. Only the `nth-child` ranges, `td[rowspan]` and `td:not([rowspan])` selections are modelled. `th` cells and nested tables are not represented.
- `rowspan` is modelled as a natural number. A value that is not a number would make `int()` raise, and a negative one changes the selector text. Neither is represented.
- Exception kinds are not modelled: `IndexError`, `KeyError` and `NameError` are one `Fail`.
- A dictionary's insertion order is not modelled. `ToDict` gives the key sets and values.
- Network access, the request headers and the status-code check in `init_menu` are not modelled. Neither is the database in `save_menu_to_db`, nor `main()`. All of these are I/O.
- The bot front-end and the database helpers are not part of this model.
- Page.ParsedPageSpec: the `(None, None)` tuple of `parse_menu` is the value `NoTables`. The `(menu, time)` pair is `Parsed`.
- MenuTable.GetDailyMenu: reads all of a turn's headers before collecting its courses. The source interleaves the two. The result and the failing tables are the same, as explained above.
- Url.UrlRoundTrip: covers years 1-9999 and months and days that `datetime.date` accepts as far as the address is concerned (1-12, 1-31). It does not model month lengths.

/** `get_daily_time`: the status and opening hours of the two meal turns,
    read from the page's first `table#menu`. Each row after the header row
    reads `turn | open | close [| status]`, and a status cell spanning two
    rows also sets the status of the turn named on the next row. */
module Hours {
  import opened Html

  datatype Turn = Lunch | Dinner

  /** The key a row's first cell selects in the result dictionary;
      any other text is a KeyError. */
  function TurnOf(name: string): (r: Option<Turn>)
    ensures r == Some(Lunch) <==> name == "Pranzo"
    ensures r == Some(Dinner) <==> name == "Cena"
  {
    if name == "Pranzo" then Some(Lunch)
    else if name == "Cena" then Some(Dinner)
    else None
  }

  /** One entry of the result: `IsOpen`, `OpenTime`, `CloseTime`. */
  datatype TurnTime = TurnTime(isOpen: bool, openTime: string, closeTime: string)

  /** The result dictionary, keyed `Pranzo` (lunch) and `Cena` (dinner). */
  datatype Timetable = Timetable(lunch: TurnTime, dinner: TurnTime) {
    function Get(u: Turn): TurnTime {
      if u == Lunch then lunch else dinner
    }

    function Set(u: Turn, v: TurnTime): (r: Timetable)
      ensures r.Get(u) == v
      ensures forall w :: w != u ==> r.Get(w) == Get(w)
    {
      if u == Lunch then this.(lunch := v) else this.(dinner := v)
    }
  }

  /** The dictionary before any row is read: both turns closed, lunch
      12:00-14:00, dinner 19:00-21:00. */
  const Defaults := Timetable(TurnTime(false, "12:00", "14:00"), TurnTime(false, "19:00", "21:00"))

  /** The rows the loop walks: `time_table.select('tr')[1:]`. */
  function Body(t: Table): seq<Row> {
    Drop1(t)
  }

  /** The value a status cell gives `IsOpen`. */
  function Status(row: Row): bool
    requires |row| > 3
  {
    row[3].text == "NO"
  }

  /** A row the loop body gets through without an exception. */
  predicate WellFormed(row: Row) {
    && |row| >= 3
    && TurnOf(row[0].text).Some?
    && (|row| > 3 ==> row[3].rowspan.Some?)
  }

  /** The row's first cell names turn `u`. */
  predicate Names(row: Row, u: Turn) {
    |row| > 0 && TurnOf(row[0].text) == Some(u)
  }

  /** Row `j` writes `IsOpen` of turn `u`: its own turn, or, through a
      status cell spanning two rows, the turn named on the next row. */
  predicate Writes(body: seq<Row>, j: nat, u: Turn)
    requires j < |body|
  {
    && |body[j]| > 3
    && (|| Names(body[j], u)
        || (body[j][3].rowspan == Some(2) && j + 1 < |body| && Names(body[j + 1], u)))
  }

  /** One run of the loop body on `body[i]`. */
  function Step(acc: Timetable, body: seq<Row>, i: nat): Result<Timetable>
    requires i < |body|
  {
    var data := body[i];
    if |data| < 3 then Fail
    else
      var u :- TurnOf(data[0].text).ToResult();
      var acc := acc.Set(u, acc.Get(u).(openTime := data[1].text, closeTime := data[2].text));
      if |data| == 3 then Ok(acc)
      else
        var acc := acc.Set(u, acc.Get(u).(isOpen := Status(data)));
        if data[3].rowspan.None? then Fail
        else if data[3].rowspan.value == 2 && i < |body| - 1 then
          var next := body[i + 1];
          if |next| == 0 then Fail
          else
            var w :- TurnOf(next[0].text).ToResult();
            Ok(acc.Set(w, acc.Get(w).(isOpen := Status(data))))
        else Ok(acc)
  }

  /** The dictionary after the loop has run on the first `n` rows of `body`. */
  function After(body: seq<Row>, n: nat): Result<Timetable>
    requires n <= |body|
  {
    if n == 0 then Ok(Defaults)
    else
      var acc :- After(body, n - 1);
      Step(acc, body, n - 1)
  }

  /** What `get_daily_time` returns for the hours table `t`. */
  function DailyTime(t: Table): Result<Timetable> {
    After(Body(t), |Body(t)|)
  }

  method GetDailyTime(t: Table) returns (r: Result<Timetable>)
    ensures r == DailyTime(t)
  {
    var body := Drop1(t);
    var out := Defaults;
    for i := 0 to |body|
      invariant After(body, i) == Ok(out)
    {
      var next := ReadRow(out, body, i);
      if next.Fail? {
        FailureSticks(body, i + 1, |body|);
        return Fail;
      }
      out := next.value;
    }
    return Ok(out);
  }

  /** The loop body of `get_daily_time` on `body[i]`, writing into `out`. */
  method ReadRow(out: Timetable, body: seq<Row>, i: nat) returns (r: Result<Timetable>)
    requires i < |body|
    ensures r == Step(out, body, i)
  {
    var data := body[i];
    if |data| < 3 {
      return Fail;
    }
    var u := TurnOf(data[0].text);
    if u.None? {
      return Fail;
    }
    var acc := out.Set(u.value, out.Get(u.value).(openTime := data[1].text));
    acc := acc.Set(u.value, acc.Get(u.value).(closeTime := data[2].text));
    if |data| > 3 {
      acc := acc.Set(u.value, acc.Get(u.value).(isOpen := data[3].text == "NO"));
      if data[3].rowspan.None? {
        return Fail;
      }
      if data[3].rowspan.value == 2 && i < |body| - 1 {
        var following := body[i + 1];
        if |following| == 0 {
          return Fail;
        }
        var w := TurnOf(following[0].text);
        if w.None? {
          return Fail;
        }
        acc := acc.Set(w.value, acc.Get(w.value).(isOpen := data[3].text == "NO"));
      }
    }
    return Ok(acc);
  }

  /** An exception ends the walk: no later row undoes it. */
  lemma {:induction false} FailureSticks(body: seq<Row>, n: nat, m: nat)
    requires n <= m <= |body|
    requires After(body, n) == Fail
    ensures After(body, m) == Fail
  {
    if n < m {
      FailureSticks(body, n, m - 1);
    }
  }

  /** The walk of `n` rows succeeds only if each of them is well formed, and
      it succeeds whenever every row of the body is. */
  lemma {:induction false} AfterDefined(body: seq<Row>, n: nat)
    requires n <= |body|
    ensures After(body, n).Ok? ==> forall i :: 0 <= i < n ==> WellFormed(body[i])
    ensures (forall i :: 0 <= i < |body| ==> WellFormed(body[i])) ==> After(body, n).Ok?
  {
    if n > 0 {
      AfterDefined(body, n - 1);
    }
  }

  /** `get_daily_time` raises exactly when some row after the header row has
      fewer than three cells, does not name `Pranzo` or `Cena`, or has a
      status cell without a `rowspan` attribute. */
  lemma DailyTimeDefined(t: Table)
    ensures DailyTime(t).Ok? <==> forall i :: 1 <= i < |t| ==> WellFormed(t[i])
  {
    var body := Body(t);
    AfterDefined(body, |body|);
    assert forall i :: 1 <= i < |t| ==> t[i] == body[i - 1];
  }

  /** What one row does to the dictionary, turn by turn. */
  lemma StepEffect(acc: Timetable, body: seq<Row>, i: nat, u: Turn)
    requires i < |body|
    requires Step(acc, body, i).Ok?
    ensures WellFormed(body[i])
    ensures Step(acc, body, i).value.Get(u).openTime
            == if Names(body[i], u) then body[i][1].text else acc.Get(u).openTime
    ensures Step(acc, body, i).value.Get(u).closeTime
            == if Names(body[i], u) then body[i][2].text else acc.Get(u).closeTime
    ensures Step(acc, body, i).value.Get(u).isOpen
            == if Writes(body, i, u) then Status(body[i]) else acc.Get(u).isOpen
  {
  }

  /** Later rows win: after `n` rows, a turn's times are those of the last
      of them naming it, or the defaults when none does. */
  lemma {:induction false} TimesAfter(body: seq<Row>, n: nat, u: Turn)
    requires n <= |body|
    requires After(body, n).Ok?
    ensures (forall j :: 0 <= j < n ==> !Names(body[j], u)) ==>
              && After(body, n).value.Get(u).openTime == Defaults.Get(u).openTime
              && After(body, n).value.Get(u).closeTime == Defaults.Get(u).closeTime
    ensures forall j :: 0 <= j < n && |body[j]| >= 3 && Names(body[j], u) && (forall k :: j < k < n ==> !Names(body[k], u)) ==>
              && After(body, n).value.Get(u).openTime == body[j][1].text
              && After(body, n).value.Get(u).closeTime == body[j][2].text
  {
    if n > 0 {
      var prev := After(body, n - 1).value;
      assert After(body, n) == Step(prev, body, n - 1);
      TimesAfter(body, n - 1, u);
      StepEffect(prev, body, n - 1, u);
    }
  }

  /** After `n` rows, a turn that none of them writes the status of
      (directly or through a two-row status cell) is still closed. */
  lemma {:induction false} StatusUnwritten(body: seq<Row>, n: nat, u: Turn)
    requires n <= |body|
    requires After(body, n).Ok?
    requires forall j :: 0 <= j < n ==> !Writes(body, j, u)
    ensures !After(body, n).value.Get(u).isOpen
  {
    if n > 0 {
      var prev := After(body, n - 1).value;
      assert After(body, n) == Step(prev, body, n - 1);
      StatusUnwritten(body, n - 1, u);
      StepEffect(prev, body, n - 1, u);
    }
  }

  /** After `n` rows, a turn is open exactly when the last of them that
      writes its status reads `NO`. */
  lemma {:induction false} StatusAfter(body: seq<Row>, n: nat, u: Turn, j: nat)
    requires j < n <= |body|
    requires After(body, n).Ok?
    requires Writes(body, j, u) && forall k :: j < k < n ==> !Writes(body, k, u)
    ensures After(body, n).value.Get(u).isOpen == Status(body[j])
  {
    var prev := After(body, n - 1).value;
    assert After(body, n) == Step(prev, body, n - 1);
    StepEffect(prev, body, n - 1, u);
    if j < n - 1 {
      StatusAfter(body, n - 1, u, j);
    }
  }

  /** `get_daily_time`'s result: each turn's hours come from the last row
      naming it (the defaults if none does), and its status from the last
      row writing it (closed if none does). */
  lemma DailyTimeSpec(t: Table, u: Turn)
    requires DailyTime(t).Ok?
    ensures var body, r := Body(t), DailyTime(t).value;
      && (forall j :: 0 <= j < |body| ==> WellFormed(body[j]))
      && ((forall j :: 0 <= j < |body| ==> !Names(body[j], u)) ==>
            r.Get(u).openTime == Defaults.Get(u).openTime && r.Get(u).closeTime == Defaults.Get(u).closeTime)
      && (forall j :: 0 <= j < |body| && |body[j]| >= 3 && Names(body[j], u) && (forall k :: j < k < |body| ==> !Names(body[k], u)) ==>
            r.Get(u).openTime == body[j][1].text && r.Get(u).closeTime == body[j][2].text)
      && ((forall j :: 0 <= j < |body| ==> !Writes(body, j, u)) ==> !r.Get(u).isOpen)
      && (forall j :: 0 <= j < |body| && Writes(body, j, u) && (forall k :: j < k < |body| ==> !Writes(body, k, u)) ==>
            r.Get(u).isOpen == Status(body[j]))
  {
    var body := Body(t);
    AfterDefined(body, |body|);
    TimesAfter(body, |body|, u);
    if forall j :: 0 <= j < |body| ==> !Writes(body, j, u) {
      StatusUnwritten(body, |body|, u);
    }
    forall j | 0 <= j < |body| && Writes(body, j, u) && (forall k :: j < k < |body| ==> !Writes(body, k, u))
      ensures DailyTime(t).value.Get(u).isOpen == Status(body[j])
    {
      StatusAfter(body, |body|, u, j);
    }
  }

  /** A status cell spanning the lunch and dinner rows sets both turns. */
  lemma SpanPropagation(lunchOpen: string, lunchClose: string, dinnerOpen: string, dinnerClose: string, status: string)
    ensures var t := [[Cell("Turno", None)],
                      [Cell("Pranzo", None), Cell(lunchOpen, None), Cell(lunchClose, None), Cell(status, Some(2))],
                      [Cell("Cena", None), Cell(dinnerOpen, None), Cell(dinnerClose, None)]];
      DailyTime(t) == Ok(Timetable(TurnTime(status == "NO", lunchOpen, lunchClose),
                                   TurnTime(status == "NO", dinnerOpen, dinnerClose)))
  {
    var t := [[Cell("Turno", None)],
              [Cell("Pranzo", None), Cell(lunchOpen, None), Cell(lunchClose, None), Cell(status, Some(2))],
              [Cell("Cena", None), Cell(dinnerOpen, None), Cell(dinnerClose, None)]];
    var body := Body(t);
    assert body == t[1..];
    var once := Timetable(TurnTime(status == "NO", lunchOpen, lunchClose),
                          TurnTime(status == "NO", "19:00", "21:00"));
    assert After(body, 1) == Step(Defaults, body, 0) == Ok(once);
    assert After(body, 2) == Step(once, body, 1);
  }
}

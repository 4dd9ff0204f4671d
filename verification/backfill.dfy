/**
  `delayed_cot_df`: the cleaned report re-dated by a business-day lag,
  forward-filled onto every weekday, then extended with copies of the
  latest row over the exchange's valid days up to yesterday.
 */
module Backfill {
  import opened Wrappers
  import opened Calendar
  import opened Frames

  /** `index.map(lambda x: x + lag * BDay())`: every date moved by `lag` business days. */
  function ShiftDates(rows: seq<Row>, lag: int): (r: seq<Row>)
    ensures |r| == |rows|
    ensures forall i :: 0 <= i < |rows| ==>
      r[i].cells == rows[i].cells && r[i].date == AddBusinessDays(rows[i].date, lag)
    ensures forall x :: x in r ==> IsWeekday(x.date)
  {
    seq(|rows|, i requires 0 <= i < |rows| => Row(AddBusinessDays(rows[i].date, lag), rows[i].cells))
  }

  /** The earliest date of a non-empty frame. */
  function MinDate(rows: seq<Row>): (r: Day)
    requires rows != []
    ensures r in Dates(rows)
    ensures forall x :: x in rows ==> r <= x.date
  {
    if |rows| == 1 then rows[0].date
    else
      var m := MinDate(rows[1..]);
      assert m in Dates(rows) by {
        var k :| 0 <= k < |rows| - 1 && Dates(rows[1..])[k] == m;
        assert Dates(rows)[k + 1] == m;
      }
      assert forall x :: x in rows ==> x == rows[0] || x in rows[1..];
      if rows[0].date <= m then rows[0].date else m
  }

  /** The latest date of a non-empty frame. */
  function MaxDate(rows: seq<Row>): (r: Day)
    requires rows != []
    ensures r in Dates(rows)
    ensures forall x :: x in rows ==> x.date <= r
  {
    if |rows| == 1 then rows[0].date
    else
      var m := MaxDate(rows[1..]);
      assert m in Dates(rows) by {
        var k :| 0 <= k < |rows| - 1 && Dates(rows[1..])[k] == m;
        assert Dates(rows)[k + 1] == m;
      }
      assert forall x :: x in rows ==> x == rows[0] || x in rows[1..];
      if rows[0].date >= m then rows[0].date else m
  }

  /** The row a forward fill carries to day `t`: the latest row dated on or before `t`. */
  function LatestOnOrBefore(rows: seq<Row>, t: Day): (r: Option<Row>)
    ensures r.None? <==> forall y :: y in rows ==> t < y.date
    ensures r.Some? ==> r.value in rows && r.value.date <= t
    ensures r.Some? ==> forall y :: y in rows && y.date <= t ==> y.date <= r.value.date
  {
    if rows == [] then None
    else
      var rest := LatestOnOrBefore(rows[1..], t);
      assert rows == [rows[0]] + rows[1..];
      if rows[0].date <= t && (rest.None? || rest.value.date <= rows[0].date) then Some(rows[0])
      else rest
  }

  /** The cells a forward fill gives day `t`. */
  function FilledCells(rows: seq<Row>, t: Day): seq<Cell> {
    match LatestOnOrBefore(rows, t)
    case Some(y) => y.cells
    case None => []
  }

  /** `resample('B').ffill()`: one row per weekday from the first to the last date, ascending. */
  function Resample(rows: seq<Row>): seq<Row>
    requires rows != []
  {
    var days := Weekdays(MinDate(rows), MaxDate(rows));
    seq(|days|, i requires 0 <= i < |days| => Row(days[i], FilledCells(rows, days[i])))
  }

  /** Every day from the first date on has a row to forward-fill from. */
  lemma LatestExists(rows: seq<Row>, t: Day)
    requires rows != [] && MinDate(rows) <= t
    ensures LatestOnOrBefore(rows, t).Some?
  {
    var k :| 0 <= k < |rows| && Dates(rows)[k] == MinDate(rows);
    assert rows[k] in rows;
  }

  /** The resampled frame has exactly the weekdays between the first and last date. */
  lemma ResampleDates(rows: seq<Row>)
    requires rows != []
    ensures forall d :: d in Dates(Resample(rows)) <==> MinDate(rows) <= d <= MaxDate(rows) && IsWeekday(d)
  {
    var lo, hi := MinDate(rows), MaxDate(rows);
    var days := Weekdays(lo, hi);
    var r := Resample(rows);
    DaysWhereMembers(IsWeekday, lo, hi);
    assert Dates(r) == days;
  }

  /** The resampled frame is ascending without repeats. */
  lemma ResampleSorted(rows: seq<Row>)
    requires rows != []
    ensures StrictlySorted(Resample(rows), true)
  {
    var lo, hi := MinDate(rows), MaxDate(rows);
    var r := Resample(rows);
    DaysWhereIncreasing(IsWeekday, lo, hi);
    assert forall i :: 0 <= i < |r| ==> r[i].date == Weekdays(lo, hi)[i];
  }

  /** Each resampled row carries the cells of the latest row dated on or before it. */
  lemma ResampleFilled(rows: seq<Row>)
    requires rows != []
    ensures forall x :: x in Resample(rows) ==>
      LatestOnOrBefore(rows, x.date).Some? && x.cells == LatestOnOrBefore(rows, x.date).value.cells
  {
    var lo, hi := MinDate(rows), MaxDate(rows);
    var r := Resample(rows);
    forall x | x in r ensures LatestOnOrBefore(rows, x.date).Some? && x.cells == LatestOnOrBefore(rows, x.date).value.cells {
      var i :| 0 <= i < |r| && r[i] == x;
      DaysWhereMembers(IsWeekday, lo, hi);
      assert Weekdays(lo, hi)[i] in Weekdays(lo, hi);
      LatestExists(rows, x.date);
    }
  }

  /** The position of the first row dated `d`. */
  function FindDate(rows: seq<Row>, d: Day): (r: Option<nat>)
    ensures r.None? <==> d !in Dates(rows)
    ensures r.Some? ==> r.value < |rows| && rows[r.value].date == d
  {
    if rows == [] then None
    else if rows[0].date == d then Some(0)
    else
      assert Dates(rows) == [rows[0].date] + Dates(rows[1..]);
      match FindDate(rows[1..], d)
      case None => None
      case Some(i) => Some(i + 1)
  }

  /**
    `df.loc[d, columns[k]] = v`: overwrite that cell of the row dated `d`,
    or enlarge the frame with a row dated `d` whose other cells are missing.
   */
  function SetLoc(f: Frame, d: Day, k: nat, v: Cell): (r: Frame)
    requires WellFormed(f) && k < |f.columns|
    ensures r.columns == f.columns && WellFormed(r)
    ensures forall e :: e in Dates(r.rows) <==> e in Dates(f.rows) || e == d
    ensures d in Dates(f.rows) ==> |r.rows| == |f.rows|
    ensures d in Dates(f.rows) ==> forall i :: 0 <= i < |f.rows| ==>
      r.rows[i] == if i == FindDate(f.rows, d).value then Row(d, f.rows[i].cells[k := v]) else f.rows[i]
    ensures d !in Dates(f.rows) ==>
      r.rows == f.rows + [Row(d, seq(|f.columns|, c => if c == k then v else Missing))]
  {
    match FindDate(f.rows, d)
    case Some(i) =>
      assert f.rows[i] in f.rows;
      var rows := f.rows[i := Row(d, f.rows[i].cells[k := v])];
      assert forall e :: e in Dates(rows) <==> e in Dates(f.rows) by {
        forall e ensures e in Dates(rows) <==> e in Dates(f.rows) {
          if e in Dates(rows) {
            var j :| 0 <= j < |rows| && Dates(rows)[j] == e;
            assert Dates(f.rows)[if j == i then i else j] == e;
          }
          if e in Dates(f.rows) {
            var j :| 0 <= j < |f.rows| && Dates(f.rows)[j] == e;
            assert Dates(rows)[if j == i then i else j] == e;
          }
        }
      }
      Frame(f.columns, rows)
    case None =>
      var rows := f.rows + [Row(d, seq(|f.columns|, c => if c == k then v else Missing))];
      assert Dates(rows) == Dates(f.rows) + [d];
      Frame(f.columns, rows)
  }

  /** The first `j` of `cells`, then missing up to `n` cells: a row half-way through the column loop. */
  function Partial(cells: seq<Cell>, j: nat, n: nat): seq<Cell>
    requires j <= |cells|
  {
    seq(n, c requires 0 <= c < n => if c < j then cells[c] else Missing)
  }

  /** The rows the loop has appended: a copy of `cells` for each day, or none when there are no columns. */
  function Appended(days: seq<Day>, cells: seq<Cell>): seq<Row> {
    if cells == [] then [] else seq(|days|, i requires 0 <= i < |days| => Row(days[i], cells))
  }

  /** Row `x` carries the cells a forward fill over `s` gives its date. */
  predicate FilledFrom(s: seq<Row>, x: Row) {
    LatestOnOrBefore(s, x.date).Some? && x.cells == LatestOnOrBefore(s, x.date).value.cells
  }

  /** What the resampled, descending frame holds before the extension. */
  ghost predicate BackfillBase(s: seq<Row>, base: seq<Row>) {
    s != [] && StrictlySorted(base, false) &&
    (forall x :: x in base ==> MinDate(s) <= x.date <= MaxDate(s) && FilledFrom(s, x)) &&
    (forall d :: d in Dates(base) <==> MinDate(s) <= d <= MaxDate(s) && IsWeekday(d))
  }

  /** After `sort_index(ascending=False)` the first row is the one dated at the last shifted date. */
  lemma BaseRows(s: seq<Row>, resampled: seq<Row>, base: seq<Row>)
    requires s != [] && resampled == Resample(s) && base == SortByDate(resampled, false)
    requires forall x :: x in s ==> IsWeekday(x.date)
    ensures BackfillBase(s, base)
    ensures base != [] && base[0].date == MaxDate(s) && FilledFrom(s, base[0])
  {
    var lo, hi := MinDate(s), MaxDate(s);
    ResampleDates(s);
    SortDates(resampled, false);
    assert StrictlySorted(base, false) by {
      ResampleSorted(s);
      DistinctOfStrict(resampled);
      SortStrict(resampled, false);
    }
    assert forall x :: x in base ==> lo <= x.date <= hi && FilledFrom(s, x) by {
      ResampleFilled(s);
      SortMembers(resampled, false);
      forall x | x in base ensures lo <= x.date <= hi {
        DateOfMember(base, x);
      }
    }
    assert hi in Dates(base) by {
      var x := MemberOfDate(s, hi);
    }
    var y := MemberOfDate(base, hi);
    assert base[0] in base;
    assert base[0].date == hi by {
      var i :| 0 <= i < |base| && base[i] == y;
      if i > 0 {
        assert InOrder(base[0], base[i], false);
      }
    }
  }

  /** A strictly sorted sequence has no repeated date. */
  lemma DistinctOfStrict(rows: seq<Row>)
    requires StrictlySorted(rows, true)
    ensures DistinctDates(rows)
  {
  }

  /** The day the outer loop is at is not yet a date of the frame. */
  lemma NotYetAppended(base: seq<Row>, extra: seq<Day>, i: nat, cells: seq<Cell>)
    requires i < |extra|
    requires forall k :: 0 <= k < |extra| ==> extra[k] !in Dates(base)
    requires forall k, l :: 0 <= k < l < |extra| ==> extra[k] < extra[l]
    ensures extra[i] !in Dates(base + Appended(extra[..i], cells))
  {
    var app := Appended(extra[..i], cells);
    assert Dates(base + app) == Dates(base) + Dates(app);
    assert Dates(app) == if cells == [] then [] else extra[..i];
  }

  /** Writing the first column of a new day appends a row holding just that cell. */
  lemma SetLocNew(f: Frame, d: Day, cells: seq<Cell>)
    requires WellFormed(f) && |cells| == |f.columns| > 0 && d !in Dates(f.rows)
    ensures SetLoc(f, d, 0, cells[0]).rows == f.rows + [Row(d, Partial(cells, 1, |cells|))]
  {
    assert seq(|cells|, c => if c == 0 then cells[0] else Missing) == Partial(cells, 1, |cells|);
  }

  /** Writing column `j` of the day just appended fills in that cell of the last row. */
  lemma SetLocLast(f: Frame, prefix: seq<Row>, d: Day, cells: seq<Cell>, j: nat)
    requires WellFormed(f) && 0 < j < |cells| == |f.columns|
    requires f.rows == prefix + [Row(d, Partial(cells, j, |cells|))] && d !in Dates(prefix)
    ensures SetLoc(f, d, j, cells[j]).rows == prefix + [Row(d, Partial(cells, j + 1, |cells|))]
  {
    var p := |prefix|;
    DateOfMember(f.rows, f.rows[p]);
    assert Partial(cells, j, |cells|)[j := cells[j]] == Partial(cells, j + 1, |cells|);
    assert SetLoc(f, d, j, cells[j]).rows == f.rows[p := Row(d, Partial(cells, j + 1, |cells|))];
  }

  /**
    The inner loop `for col in columns: df.loc[new_dt, col] = cells[col]`
    for a day the frame does not hold yet: the row is built one column at
    a time and ends up a copy of `cells` (no row at all without columns).
   */
  method AppendCopy(f: Frame, d: Day, cells: seq<Cell>) returns (df: Frame)
    requires WellFormed(f) && |cells| == |f.columns| && d !in Dates(f.rows)
    ensures df.columns == f.columns && WellFormed(df)
    ensures df.rows == f.rows + Appended([d], cells)
  {
    var n := |f.columns|;
    df := f;
    var j := 0;
    while j < n
      invariant 0 <= j <= n
      invariant df.columns == f.columns && WellFormed(df)
      invariant j == 0 ==> df.rows == f.rows
      invariant j > 0 ==> df.rows == f.rows + [Row(d, Partial(cells, j, n))]
    {
      if j == 0 {
        SetLocNew(df, d, cells);
      } else {
        SetLocLast(df, f.rows, d, cells, j);
      }
      df := SetLoc(df, d, j, cells[j]);
      j := j + 1;
    }
    if n > 0 {
      assert Partial(cells, n, n) == cells;
    }
  }

  /**
    The loop `for new_dt in extra_days: for col in columns: df.loc[new_dt, col] = cells[col]`:
    each day gets a row that is a copy of `cells`, built one column at a time.
   */
  method AppendCopies(f: Frame, extra: seq<Day>, cells: seq<Cell>) returns (df: Frame)
    requires WellFormed(f) && |cells| == |f.columns|
    requires forall k :: 0 <= k < |extra| ==> extra[k] !in Dates(f.rows)
    requires forall k, l :: 0 <= k < l < |extra| ==> extra[k] < extra[l]
    ensures df.columns == f.columns && WellFormed(df)
    ensures df.rows == f.rows + Appended(extra, cells)
  {
    df := f;
    var i := 0;
    while i < |extra|
      invariant 0 <= i <= |extra|
      invariant df.columns == f.columns && WellFormed(df)
      invariant df.rows == f.rows + Appended(extra[..i], cells)
    {
      NotYetAppended(f.rows, extra, i, cells);
      df := AppendCopy(df, extra[i], cells);
      AppendedStep(f.rows, extra, i, cells);
      i := i + 1;
    }
    assert extra[..i] == extra;
  }

  /** One more day of the outer loop appends one more copy. */
  lemma AppendedStep(rows: seq<Row>, extra: seq<Day>, i: nat, cells: seq<Cell>)
    requires i < |extra|
    ensures rows + Appended(extra[..i + 1], cells) == (rows + Appended(extra[..i], cells)) + Appended([extra[i]], cells)
  {
    if cells != [] {
      assert Appended(extra[..i + 1], cells) == Appended(extra[..i], cells) + [Row(extra[i], cells)];
    }
  }

  /** The appended days are the valid days after the last shifted date, ascending. */
  ghost predicate ValidExtension(s: seq<Row>, extra: seq<Day>, validDay: Day -> bool, today: Day) {
    s != [] &&
    (forall k :: 0 <= k < |extra| ==> MaxDate(s) < extra[k]) &&
    (forall k, l :: 0 <= k < l < |extra| ==> extra[k] < extra[l]) &&
    (forall d :: d in extra <==> MaxDate(s) + 1 <= d <= today - 1 && validDay(d))
  }

  lemma ValidExtensionOf(s: seq<Row>, validDay: Day -> bool, today: Day)
    requires s != []
    ensures ValidExtension(s, DaysWhere(validDay, MaxDate(s) + 1, today - 1), validDay, today)
  {
    DaysWhereMembers(validDay, MaxDate(s) + 1, today - 1);
    DaysWhereIncreasing(validDay, MaxDate(s) + 1, today - 1);
  }

  /** No date repeats once the valid days are appended. */
  lemma ExtendedDistinct(s: seq<Row>, base: seq<Row>, extra: seq<Day>, cells: seq<Cell>,
                         validDay: Day -> bool, today: Day)
    requires BackfillBase(s, base) && ValidExtension(s, extra, validDay, today)
    ensures DistinctDates(base + Appended(extra, cells))
  {
    var all := base + Appended(extra, cells);
    forall j, k | 0 <= j < k < |all| ensures all[j].date != all[k].date {
      if k < |base| {
        assert base[j] == all[j] && base[k] == all[k];
      } else if j < |base| {
        assert all[j] in base;
      }
    }
  }

  /** Each row of the extended frame carries its forward fill, or the last row's cells after the last date. */
  lemma ExtendedCells(s: seq<Row>, base: seq<Row>, extra: seq<Day>, cells: seq<Cell>, n: nat,
                      validDay: Day -> bool, today: Day)
    requires BackfillBase(s, base) && ValidExtension(s, extra, validDay, today)
    requires forall x :: x in s ==> |x.cells| == n
    requires LatestOnOrBefore(s, MaxDate(s)).Some? && cells == LatestOnOrBefore(s, MaxDate(s)).value.cells
    ensures forall x :: x in base + Appended(extra, cells) ==>
      |x.cells| == n &&
      (x.date <= MaxDate(s) ==> FilledFrom(s, x)) &&
      (MaxDate(s) < x.date ==> x.cells == cells)
  {
    var all := base + Appended(extra, cells);
    assert LatestOnOrBefore(s, MaxDate(s)).value in s;
    forall x | x in all
      ensures |x.cells| == n
      ensures x.date <= MaxDate(s) ==> FilledFrom(s, x)
      ensures MaxDate(s) < x.date ==> x.cells == cells
    {
      var j :| 0 <= j < |all| && all[j] == x;
      if j < |base| {
        assert x in base;
        assert LatestOnOrBefore(s, x.date).value in s;
      }
    }
  }

  /** The extended frame's dates: the resampled weekdays, then the valid days if there are columns to copy. */
  lemma ExtendedDates(s: seq<Row>, base: seq<Row>, extra: seq<Day>, cells: seq<Cell>,
                      validDay: Day -> bool, today: Day)
    requires BackfillBase(s, base) && ValidExtension(s, extra, validDay, today)
    ensures forall d :: d in Dates(base + Appended(extra, cells)) <==>
      (MinDate(s) <= d <= MaxDate(s) && IsWeekday(d)) || (cells != [] && MaxDate(s) < d < today && validDay(d))
  {
    var app := Appended(extra, cells);
    assert Dates(base + app) == Dates(base) + Dates(app);
    assert Dates(app) == if cells == [] then [] else extra;
  }

  /** The appended days are not dates of the resampled frame. */
  lemma ExtensionIsNew(s: seq<Row>, base: seq<Row>, extra: seq<Day>, validDay: Day -> bool, today: Day)
    requires BackfillBase(s, base) && ValidExtension(s, extra, validDay, today)
    ensures forall k :: 0 <= k < |extra| ==> extra[k] !in Dates(base)
  {
  }

  /** Shifting keeps each row's cells, so a well-formed frame stays well-formed. */
  lemma ShiftedWidth(f: Frame, lag: int)
    requires WellFormed(f)
    ensures forall x :: x in ShiftDates(f.rows, lag) ==> |x.cells| == |f.columns|
  {
    var s := ShiftDates(f.rows, lag);
    forall x | x in s ensures |x.cells| == |f.columns| {
      var k :| 0 <= k < |s| && s[k] == x;
      assert f.rows[k] in f.rows;
    }
  }

  /**
    What `delayed_cot_df` promises of its rows, given the shifted report `s`
    with `n` columns: strictly descending by date; one row per weekday from
    the first to the last shifted date, carrying the latest shifted row on
    or before it; and, when there are columns, one copy of the last shifted
    row per valid day after the last shifted date and before `today`.
   */
  ghost predicate Delayed(s: seq<Row>, n: nat, validDay: Day -> bool, today: Day, rows: seq<Row>)
    requires s != []
  {
    StrictlySorted(rows, false) &&
    (forall x :: x in rows ==> |x.cells| == n) &&
    (forall d :: d in Dates(rows) <==>
      (MinDate(s) <= d <= MaxDate(s) && IsWeekday(d)) || (n > 0 && MaxDate(s) < d < today && validDay(d))) &&
    (forall x :: x in rows && x.date <= MaxDate(s) ==> FilledFrom(s, x)) &&
    (forall x :: x in rows && MaxDate(s) < x.date ==>
      LatestOnOrBefore(s, MaxDate(s)).Some? && x.cells == LatestOnOrBefore(s, MaxDate(s)).value.cells)
  }

  /** The frame once every valid day is appended, sorted descending, is what `delayed_cot_df` promises. */
  lemma FinalRows(s: seq<Row>, base: seq<Row>, extra: seq<Day>, cells: seq<Cell>, n: nat,
                  validDay: Day -> bool, today: Day)
    requires BackfillBase(s, base) && ValidExtension(s, extra, validDay, today)
    requires forall x :: x in s ==> |x.cells| == n
    requires LatestOnOrBefore(s, MaxDate(s)).Some? && cells == LatestOnOrBefore(s, MaxDate(s)).value.cells
    ensures Delayed(s, n, validDay, today, SortByDate(base + Appended(extra, cells), false))
  {
    var all := base + Appended(extra, cells);
    assert LatestOnOrBefore(s, MaxDate(s)).value in s;
    ExtendedDistinct(s, base, extra, cells, validDay, today);
    ExtendedCells(s, base, extra, cells, n, validDay, today);
    ExtendedDates(s, base, extra, cells, validDay, today);
    SortStrict(all, false);
    SortMembers(all, false);
    SortDates(all, false);
  }

  /**
    `delayed_cot_df` on the cleaned report (indexed by date): `lag` is the
    business-day delay, `validDay` the exchange calendar's valid days and
    `today` the current date.  An empty report fails on `iloc[0]`; two rows
    shifted onto the same date make the forward fill fail.  Otherwise the
    result keeps the columns and its rows are as Delayed says (none of the
    appended days get a row when the frame has no columns, since the copy
    is made column by column).
   */
  method DelayedCotDf(cleaned: Frame, lag: int, validDay: Day -> bool, today: Day) returns (r: Result<Frame, Error>)
    requires WellFormed(cleaned)
    ensures cleaned.rows == [] ==> r == Err(IndexError)
    ensures cleaned.rows != [] ==> (r == Err(ValueError) <==> !DistinctDates(ShiftDates(cleaned.rows, lag)))
    ensures r.Err? ==> r == Err(IndexError) || r == Err(ValueError)
    ensures r.Ok? ==> cleaned.rows != [] && r.value.columns == cleaned.columns && WellFormed(r.value)
    ensures r.Ok? && cleaned.rows != [] ==>
      Delayed(ShiftDates(cleaned.rows, lag), |cleaned.columns|, validDay, today, r.value.rows)
  {
    var s := ShiftDates(cleaned.rows, lag);
    if s == [] {
      return Err(IndexError);
    }
    if !DistinctDates(s) {
      return Err(ValueError);
    }
    var base := SortByDate(Resample(s), false);
    BaseRows(s, Resample(s), base);
    var extra := DaysWhere(validDay, MaxDate(s) + 1, today - 1);
    ValidExtensionOf(s, validDay, today);
    ExtensionIsNew(s, base, extra, validDay, today);
    var last := base[0];
    assert LatestOnOrBefore(s, last.date).value in s;
    var df := AppendCopies(Frame(cleaned.columns, base), extra, last.cells);
    ShiftedWidth(cleaned, lag);
    FinalRows(s, base, extra, last.cells, |cleaned.columns|, validDay, today);
    var rows := SortByDate(df.rows, false);
    r := Ok(Frame(df.columns, rows));
  }
}

/**
  The COT report pipeline: `get_legacy_fut_opt` (legacy report, column-name
  cleaning, history dedup), `clean_disagg_fut_opt` (disaggregated report,
  derived columns, descending sort) and `populate_data` (tagging, history
  dedup, save).  A download of the report named `k` is `fetch(k)`, with
  the report date carried as each row's date.
 */
module Cot {
  import opened Wrappers
  import opened Calendar
  import opened Frames
  import opened ColumnNames
  import opened Database
  import opened Storage

  const CodeColumn := "CFTC_Contract_Market_Code"
  const LegacyCodeColumn := "CFTC Contract Market Code"
  const LongColumn := "M_Money_Positions_Long_All"
  const ShortColumn := "M_Money_Positions_Short_All"
  const PctLongColumn := "Pct_of_OI_M_Money_Long_All"
  const PctShortColumn := "Pct_of_OI_M_Money_Short_All"
  const PctColumn := "Pct_of_OI_MM_NSL"
  const MarketCodeColumn := "Market_Code"
  const ReportTypeColumn := "Report_Type"
  const DateColumn := "Date"
  const FileDb := "FILEDB"

  // ---------------------------------------------------------------------
  // Report kinds, tags and file names

  /** The two legacy reports: futures only, and futures with options. */
  datatype LegacyKind = LegacyFut | LegacyFutOpt

  /** `report_type`: "fut" or "opt"; anything else leaves `legacy_df` unassigned. */
  function LegacyKindOf(reportType: string): Option<LegacyKind> {
    if reportType == "fut" then Some(LegacyFut)
    else if reportType == "opt" then Some(LegacyFutOpt)
    else None
  }

  /** The report downloaded, which is also the `Report_Type` tag. */
  function LegacyTag(k: LegacyKind): string {
    match k
    case LegacyFut => "legacy_fut"
    case LegacyFutOpt => "legacy_futopt"
  }

  function LegacyFileName(k: LegacyKind, code: string): string {
    LegacyTag(k) + "_" + code + ".csv"
  }

  /** The two disaggregated reports. */
  datatype DisaggKind = Opt | Fut

  /** `fut_opt`: "opt" or "fut"; anything else is the wrong choice. */
  function DisaggKindOf(futOpt: string): Option<DisaggKind> {
    if futOpt == "opt" then Some(Opt)
    else if futOpt == "fut" then Some(Fut)
    else None
  }

  /** The report downloaded, which is also the `Report_Type` tag `populate_data` adds. */
  function DisaggTag(k: DisaggKind): string {
    match k
    case Opt => "disaggregated_futopt"
    case Fut => "disaggregated_fut"
  }

  /** The name of the derived net speculative length column. */
  function NetSpecColumn(k: DisaggKind): string {
    match k
    case Opt => "Net_Spec_Length_Cal"
    case Fut => "Net_Spec_Length"
  }

  function DisaggFileName(fileToSave: string, code: string, k: DisaggKind): string {
    fileToSave + "_" + code + (match k case Opt => "_opt.csv" case Fut => "_fut.csv")
  }

  /**
    The legacy file name is `legacy_fut_<code>.csv` or
    `legacy_futopt_<code>.csv`, so the two reports of one market never share
    a file and neither do two markets of one report.
   */
  lemma LegacyFileNames(k: LegacyKind, code: string, k': LegacyKind, code': string)
    ensures LegacyFileName(k, code) == LegacyFileName(k', code') <==> k == k' && code == code'
  {
    var a, b := LegacyFileName(k, code), LegacyFileName(k', code');
    assert a[10] == (if k == LegacyFut then '_' else 'o');
    assert b[10] == (if k' == LegacyFut then '_' else 'o');
    if a == b && k == k' {
      var t := LegacyTag(k) + "_";
      assert a == t + (code + ".csv") && b == t + (code' + ".csv");
      assert code + ".csv" == a[|t|..] == code' + ".csv";
      assert code == (code + ".csv")[..|code|];
      assert code' == (code' + ".csv")[..|code'|];
    }
  }

  /**
    `populate_data` writes `<file_to_save>_<code>_opt.csv` or `..._fut.csv`:
    for one base name and market the two reports never share a file.
   */
  lemma DisaggFileNames(fileToSave: string, code: string, k: DisaggKind, k': DisaggKind)
    ensures DisaggFileName(fileToSave, code, Opt) == fileToSave + "_" + code + "_opt.csv"
    ensures DisaggFileName(fileToSave, code, Fut) == fileToSave + "_" + code + "_fut.csv"
    ensures DisaggFileName(fileToSave, code, k) == DisaggFileName(fileToSave, code, k') <==> k == k'
  {
    var a, b := DisaggFileName(fileToSave, code, k), DisaggFileName(fileToSave, code, k');
    if k != k' {
      assert a[|a| - 7] != b[|b| - 7];
    }
  }

  // ---------------------------------------------------------------------
  // Derived columns

  /** `a - b` on two cells that do not clash: the integer difference, or NaN when either is missing (a string facing NaN included). */
  function Minus(a: Cell, b: Cell): Cell {
    if a.Num? && b.Num? then Num(a.n - b.n) else Missing
  }

  /** The cell of `x` in column `name`, or missing when there is none. */
  function At(columns: seq<string>, x: Row, name: string): Cell {
    match Get(columns, x, name)
    case Some(c) => c
    case None => Missing
  }

  /**
    The cells on which `a - b` raises a TypeError.  pandas first tries the
    subtraction on the whole object column and, when that fails, retries it
    only where both cells are non-null: a string facing NaN gives NaN, and
    the error survives only when a string meets a number or another string.
   */
  predicate Clash(a: Cell, b: Cell) {
    (a.Text? && !b.Missing?) || (b.Text? && !a.Missing?)
  }

  /** `df[a] - df[b]` row by row: a TypeError when some row's cells clash. */
  function Differences(columns: seq<string>, rows: seq<Row>, a: string, b: string): (r: Result<seq<Cell>, Error>)
    ensures r.Ok? <==> forall x :: x in rows ==> !Clash(At(columns, x, a), At(columns, x, b))
    ensures r.Err? ==> r.error == TypeError
    ensures r.Ok? ==> |r.value| == |rows|
    ensures r.Ok? ==> forall i :: 0 <= i < |rows| ==>
      r.value[i] == Minus(At(columns, rows[i], a), At(columns, rows[i], b))
  {
    if rows == [] then Ok([])
    else
      assert rows == [rows[0]] + rows[1..];
      var ca, cb := At(columns, rows[0], a), At(columns, rows[0], b);
      if Clash(ca, cb) then Err(TypeError)
      else
        var rest :- Differences(columns, rows[1..], a, b);
        Ok([Minus(ca, cb)] + rest)
  }

  /** `df[a] - df[b]`: a KeyError names the first absent column. */
  function Difference(f: Frame, a: string, b: string): (r: Result<seq<Cell>, Error>)
    ensures a !in f.columns ==> r == Err(KeyError(a))
    ensures a in f.columns && b !in f.columns ==> r == Err(KeyError(b))
    ensures r.Err? ==> r.error in {KeyError(a), KeyError(b), TypeError}
    ensures r.Ok? ==> a in f.columns && b in f.columns && |r.value| == |f.rows|
    ensures r.Ok? ==> forall i :: 0 <= i < |f.rows| ==>
      !Clash(At(f.columns, f.rows[i], a), At(f.columns, f.rows[i], b)) &&
      r.value[i] == Minus(At(f.columns, f.rows[i], a), At(f.columns, f.rows[i], b))
  {
    if a !in f.columns then Err(KeyError(a))
    else if b !in f.columns then Err(KeyError(b))
    else
      var r := Differences(f.columns, f.rows, a, b);
      assert r.Ok? ==> forall i :: 0 <= i < |f.rows| ==> f.rows[i] in f.rows;
      r
  }

  /** Row `x` holds in `name` the difference of its `a` and `b` cells, which do not clash. */
  predicate DiffHolds(columns: seq<string>, x: Row, name: string, a: string, b: string) {
    Get(columns, x, a).Some? && Get(columns, x, b).Some? &&
    !Clash(Get(columns, x, a).value, Get(columns, x, b).value) &&
    Get(columns, x, name) == Some(Minus(Get(columns, x, a).value, Get(columns, x, b).value))
  }

  /** `df[name] = df[a] - df[b]`. */
  function AddDifference(f: Frame, name: string, a: string, b: string): (r: Result<Frame, Error>)
    requires WellFormed(f)
    ensures a !in f.columns ==> r == Err(KeyError(a))
    ensures a in f.columns && b !in f.columns ==> r == Err(KeyError(b))
    ensures r.Ok? ==> WellFormed(r.value) && |r.value.rows| == |f.rows|
  {
    var d :- Difference(f, a, b);
    Ok(SetColumn(f, name, d))
  }

  /**
    Row `i` after AddDifference: the same date, the difference held, and
    every other column as before.
   */
  lemma AddDifferenceRow(f: Frame, name: string, a: string, b: string, i: nat)
    requires WellFormed(f) && AddDifference(f, name, a, b).Ok? && i < |f.rows|
    requires name != a && name != b
    ensures var r := AddDifference(f, name, a, b).value;
      r.rows[i].date == f.rows[i].date &&
      (forall n :: n != name ==> Get(r.columns, r.rows[i], n) == Get(f.columns, f.rows[i], n)) &&
      DiffHolds(r.columns, r.rows[i], name, a, b)
  {
    var d := Difference(f, a, b).value;
    assert AddDifference(f, name, a, b).value == SetColumn(f, name, d);
  }

  /**
    The two derived columns of `clean_disagg_fut_opt`: the net speculative
    length (managed-money long minus short) under the kind's name, then the
    percent-of-open-interest difference.  What the columns hold is
    AddDerivedHolds.
   */
  function AddDerived(f: Frame, kind: DisaggKind): (r: Result<Frame, Error>)
    requires WellFormed(f)
    ensures LongColumn !in f.columns ==> r == Err(KeyError(LongColumn))
    ensures LongColumn in f.columns && ShortColumn !in f.columns ==> r == Err(KeyError(ShortColumn))
    ensures r.Ok? ==> WellFormed(r.value) && |r.value.rows| == |f.rows|
  {
    var f1 :- AddDifference(f, NetSpecColumn(kind), LongColumn, ShortColumn);
    AddDifference(f1, PctColumn, PctLongColumn, PctShortColumn)
  }

  /**
    Row `i` after AddDerived: the same date, both differences held, and
    every other column as before.
   */
  lemma AddDerivedRow(f: Frame, kind: DisaggKind, i: nat)
    requires WellFormed(f) && AddDerived(f, kind).Ok? && i < |f.rows|
    ensures var r := AddDerived(f, kind).value;
      r.rows[i].date == f.rows[i].date &&
      (forall n :: n != NetSpecColumn(kind) && n != PctColumn ==> Get(r.columns, r.rows[i], n) == Get(f.columns, f.rows[i], n)) &&
      DiffHolds(r.columns, r.rows[i], NetSpecColumn(kind), LongColumn, ShortColumn) &&
      DiffHolds(r.columns, r.rows[i], PctColumn, PctLongColumn, PctShortColumn)
  {
    var f1 := AddDifference(f, NetSpecColumn(kind), LongColumn, ShortColumn).value;
    var f2 := AddDifference(f1, PctColumn, PctLongColumn, PctShortColumn).value;
    assert AddDerived(f, kind).value == f2;
    AddDifferenceRow(f, NetSpecColumn(kind), LongColumn, ShortColumn, i);
    AddDifferenceRow(f1, PctColumn, PctLongColumn, PctShortColumn, i);
    var x1, x2 := f1.rows[i], f2.rows[i];
    assert Get(f2.columns, x2, NetSpecColumn(kind)) == Get(f1.columns, x1, NetSpecColumn(kind));
    assert Get(f2.columns, x2, LongColumn) == Get(f1.columns, x1, LongColumn);
    assert Get(f2.columns, x2, ShortColumn) == Get(f1.columns, x1, ShortColumn);
  }

  /** After AddDerived every row holds both differences. */
  lemma AddDerivedHolds(f: Frame, kind: DisaggKind)
    requires WellFormed(f)
    ensures var r := AddDerived(f, kind);
      r.Ok? ==> forall x :: x in r.value.rows ==>
        DiffHolds(r.value.columns, x, NetSpecColumn(kind), LongColumn, ShortColumn) &&
        DiffHolds(r.value.columns, x, PctColumn, PctLongColumn, PctShortColumn)
  {
    var r := AddDerived(f, kind);
    if r.Ok? {
      forall x | x in r.value.rows
        ensures DiffHolds(r.value.columns, x, NetSpecColumn(kind), LongColumn, ShortColumn)
        ensures DiffHolds(r.value.columns, x, PctColumn, PctLongColumn, PctShortColumn)
      {
        var i :| 0 <= i < |r.value.rows| && r.value.rows[i] == x;
        AddDerivedRow(f, kind, i);
      }
    }
  }

  // ---------------------------------------------------------------------
  // clean_disagg_fut_opt

  /** `df[columns_to_keep]` when the list is non-empty; the frame as it is otherwise. */
  function KeepColumns(f: Frame, keep: seq<string>): (r: Result<Frame, Error>)
    requires WellFormed(f)
    ensures keep == [] ==> r == Ok(f)
    ensures r.Err? <==> exists n :: n in keep && n !in f.columns
    ensures r.Err? ==> r.error.KeyError? && r.error.column in keep && r.error.column !in f.columns
    ensures r.Ok? ==> WellFormed(r.value) && |r.value.rows| == |f.rows|
    ensures r.Ok? ==> r.value.columns == if keep == [] then f.columns else keep
    ensures r.Ok? ==> forall i :: 0 <= i < |f.rows| ==> r.value.rows[i].date == f.rows[i].date
    ensures r.Ok? ==> forall i, n :: 0 <= i < |f.rows| && n in r.value.columns ==>
      Get(r.value.columns, r.value.rows[i], n) == Get(f.columns, f.rows[i], n)
  {
    if keep == [] then Ok(f)
    else
      var r := SelectColumns(f, keep);
      assert r.Ok? ==> forall i, n :: 0 <= i < |f.rows| && n in r.value.columns ==>
        Get(r.value.columns, r.value.rows[i], n) == Get(f.columns, f.rows[i], n) by {
        if r.Ok? {
          forall i, n | 0 <= i < |f.rows| && n in r.value.columns
            ensures Get(r.value.columns, r.value.rows[i], n) == Get(f.columns, f.rows[i], n)
          {
            var j := IndexOf(keep, n).value;
            assert r.value.rows[i] in r.value.rows;
          }
        }
      }
      r
  }

  /** Sorting keeps the number of rows. */
  lemma SortLength(rows: seq<Row>, ascending: bool)
    ensures |SortByDate(rows, ascending)| == |rows|
  {
    assert |multiset(SortByDate(rows, ascending))| == |multiset(rows)|;
  }

  /** `sort_values` / `sort_index` by date. */
  function SortRows(f: Frame, ascending: bool): (r: Frame)
    requires WellFormed(f)
    ensures WellFormed(r) && r.columns == f.columns && |r.rows| == |f.rows|
  {
    SortLength(f.rows, ascending);
    SortMembers(f.rows, ascending);
    Frame(f.columns, SortByDate(f.rows, ascending))
  }

  /**
    The common tail of both report shapings: sort by date, replace "." by
    NaN, and tag every row with the market code (FinishSorted,
    FinishTagged, FinishKeeps).
   */
  function Finish(f: Frame, code: string, ascending: bool): (r: Frame)
    requires WellFormed(f)
    ensures WellFormed(r) && |r.rows| == |f.rows|
    ensures r.columns == if MarketCodeColumn in f.columns then f.columns else f.columns + [MarketCodeColumn]
  {
    var sorted := SortRows(f, ascending);
    var replaced := ReplaceDots(sorted);
    SetColumn(replaced, MarketCodeColumn, Const(|replaced.rows|, Text(code)))
  }

  /** The finished frame is sorted by date in the requested direction. */
  lemma FinishSorted(f: Frame, code: string, ascending: bool)
    requires WellFormed(f)
    ensures Sorted(Finish(f, code, ascending).rows, ascending)
  {
    var s := SortByDate(f.rows, ascending);
    SortLength(f.rows, ascending);
    var r := Finish(f, code, ascending);
    assert forall i :: 0 <= i < |r.rows| ==> r.rows[i].date == s[i].date;
  }

  /** Every finished row holds the market code. */
  lemma FinishTagged(f: Frame, code: string, ascending: bool)
    requires WellFormed(f)
    ensures var r := Finish(f, code, ascending);
      forall x :: x in r.rows ==> Get(r.columns, x, MarketCodeColumn) == Some(Text(code))
  {
    var r := Finish(f, code, ascending);
    forall x | x in r.rows ensures Get(r.columns, x, MarketCodeColumn) == Some(Text(code)) {
      var i :| 0 <= i < |r.rows| && r.rows[i] == x;
    }
  }

  /** A cell other than the market code reaches its sorted position with "." turned into NaN. */
  lemma FinishReplaces(f: Frame, code: string, ascending: bool, i: nat, n: string)
    requires WellFormed(f) && i < |SortByDate(f.rows, ascending)| && n != MarketCodeColumn
    ensures Get(Finish(f, code, ascending).columns, Finish(f, code, ascending).rows[i], n) ==
            DotAsNaN(Get(f.columns, SortByDate(f.rows, ascending)[i], n))
  {
    var sorted := SortRows(f, ascending);
    GetReplaceDot(sorted, i, n);
  }

  /** A cell other than the market code that is not "." keeps its value in its sorted position. */
  lemma FinishKeeps(f: Frame, code: string, ascending: bool, i: nat, n: string)
    requires WellFormed(f) && i < |SortByDate(f.rows, ascending)| && n != MarketCodeColumn
    requires Get(f.columns, SortByDate(f.rows, ascending)[i], n).Some?
    requires Get(f.columns, SortByDate(f.rows, ascending)[i], n).value != Text(".")
    ensures Get(Finish(f, code, ascending).columns, Finish(f, code, ascending).rows[i], n) ==
            Get(f.columns, SortByDate(f.rows, ascending)[i], n)
  {
    var sorted := SortRows(f, ascending);
    GetReplaceDots(sorted, i, n);
  }

  /**
    Lines 145-168 of `clean_disagg_fut_opt` on the downloaded report `raw`:
    keep the rows of the market, sort ascending, keep the listed columns,
    add the derived columns, then sort descending, replace "." by NaN and
    add `Market_Code`.
   */
  function CleanSteps(raw: Frame, code: string, keep: seq<string>, kind: DisaggKind): (r: Result<Frame, Error>)
    requires WellFormed(raw)
    ensures CodeColumn !in raw.columns ==> r == Err(KeyError(CodeColumn))
    ensures r.Ok? ==> WellFormed(r.value)
  {
    var filtered :- FilterEq(raw, CodeColumn, Text(code));
    var kept :- KeepColumns(SortRows(filtered, true), keep);
    var derived :- AddDerived(kept, kind);
    Ok(Finish(derived, code, false))
  }

  /**
    The cleaned report is the market's rows of the download, each once:
    over any columns it keeps other than the two derived ones and
    `Market_Code`, the bag of (date, cells with "." read as NaN) of the
    cleaned report is that of the market's downloaded rows.
   */
  lemma CleanStepsRows(raw: Frame, code: string, keep: seq<string>, kind: DisaggKind, names: seq<string>)
    requires WellFormed(raw)
    requires forall n :: n in names ==>
      n != NetSpecColumn(kind) && n != PctColumn && n != MarketCodeColumn && (keep != [] ==> n in keep)
    ensures var r := CleanSteps(raw, code, keep, kind);
      r.Ok? ==> multiset(Projected(r.value.columns, names, r.value.rows)) ==
                multiset(Projected(raw.columns, names, FilterEq(raw, CodeColumn, Text(code)).value.rows))
  {
    var r := CleanSteps(raw, code, keep, kind);
    if r.Ok? {
      var filtered := FilterEq(raw, CodeColumn, Text(code)).value;
      var sorted := SortRows(filtered, true);
      var kept := KeepColumns(sorted, keep).value;
      var derived := AddDerived(kept, kind).value;
      assert r.value == Finish(derived, code, false);
      FinishProjected(derived, code, false, names);
      AddDerivedProjected(kept, kind, names);
      KeepColumnsProjected(sorted, keep, names);
      ProjectedPerm(raw.columns, names, sorted.rows, filtered.rows);
    }
  }

  /**
    `clean_disagg_fut_opt(market_code, columns_to_keep, fut_opt)` on the
    downloads `fetch`: any `fut_opt` but "opt" and "fut" returns None;
    otherwise the cleaned report of that kind.
   */
  function CleanDisaggFutOpt(fetch: string -> Frame, code: string, keep: seq<string>, futOpt: string)
    : (r: Result<Option<Frame>, Error>)
    requires forall k :: WellFormed(fetch(k))
    ensures r == Ok(None) <==> DisaggKindOf(futOpt).None?
    ensures r.Ok? && r.value.Some? ==> WellFormed(r.value.value)
  {
    match DisaggKindOf(futOpt)
    case None => Ok(None)
    case Some(kind) =>
      var f :- CleanSteps(fetch(DisaggTag(kind)), code, keep, kind);
      Ok(Some(f))
  }

  /**
    The cleaned report has one row per row of the market in the download,
    sorted by date descending, each tagged with the market code; a download
    without the market-code column raises a KeyError, and so does a listed
    column that the download does not have.
   */
  lemma CleanStepsShape(raw: Frame, code: string, keep: seq<string>, kind: DisaggKind)
    requires WellFormed(raw)
    ensures var r := CleanSteps(raw, code, keep, kind);
      (CodeColumn in raw.columns && (exists n :: n in keep && n !in raw.columns) ==>
        r.Err? && r.error.KeyError? && r.error.column in keep && r.error.column !in raw.columns) &&
      (r.Ok? ==>
        Sorted(r.value.rows, false) &&
        |r.value.rows| == |FilterEq(raw, CodeColumn, Text(code)).value.rows| &&
        forall x :: x in r.value.rows ==> Get(r.value.columns, x, MarketCodeColumn) == Some(Text(code)))
  {
    if CodeColumn in raw.columns {
      var filtered := FilterEq(raw, CodeColumn, Text(code)).value;
      var kept := KeepColumns(SortRows(filtered, true), keep);
      if kept.Ok? {
        var derived := AddDerived(kept.value, kind);
        if derived.Ok? {
          FinishSorted(derived.value, code, false);
          FinishTagged(derived.value, code, false);
        }
      }
    }
  }

  /**
    Every row of the cleaned report holds, under the kind's name
    (`Net_Spec_Length_Cal` for "opt", `Net_Spec_Length` for "fut"),
    `M_Money_Positions_Long_All - M_Money_Positions_Short_All`, and in
    `Pct_of_OI_MM_NSL` the difference of the two percent-of-open-interest
    columns.
   */
  lemma CleanStepsNetSpec(raw: Frame, code: string, keep: seq<string>, kind: DisaggKind)
    requires WellFormed(raw)
    ensures var r := CleanSteps(raw, code, keep, kind);
      r.Ok? ==> forall x :: x in r.value.rows ==>
        DiffHolds(r.value.columns, x, NetSpecColumn(kind), LongColumn, ShortColumn) &&
        DiffHolds(r.value.columns, x, PctColumn, PctLongColumn, PctShortColumn)
  {
    var r := CleanSteps(raw, code, keep, kind);
    if r.Ok? {
      var filtered := FilterEq(raw, CodeColumn, Text(code)).value;
      var kept := KeepColumns(SortRows(filtered, true), keep).value;
      var derived := AddDerived(kept, kind).value;
      AddDerivedHolds(kept, kind);
      FinishKeepsDiff(derived, code, NetSpecColumn(kind), LongColumn, ShortColumn);
      FinishKeepsDiff(derived, code, PctColumn, PctLongColumn, PctShortColumn);
    }
  }

  /** A difference held by the row sorted to position `i` is held by row `i` of the finished frame. */
  lemma FinishKeepsDiffAt(f: Frame, code: string, name: string, a: string, b: string, i: nat)
    requires WellFormed(f) && i < |SortByDate(f.rows, false)|
    requires name != MarketCodeColumn && a != MarketCodeColumn && b != MarketCodeColumn
    requires DiffHolds(f.columns, SortByDate(f.rows, false)[i], name, a, b)
    ensures DiffHolds(Finish(f, code, false).columns, Finish(f, code, false).rows[i], name, a, b)
  {
    FinishReplaces(f, code, false, i, a);
    FinishReplaces(f, code, false, i, b);
    FinishKeeps(f, code, false, i, name);
  }

  /** A difference column every row holds survives the sort, the "." replacement and the market-code tag. */
  lemma FinishKeepsDiff(f: Frame, code: string, name: string, a: string, b: string)
    requires WellFormed(f)
    requires name != MarketCodeColumn && a != MarketCodeColumn && b != MarketCodeColumn
    requires forall x :: x in f.rows ==> DiffHolds(f.columns, x, name, a, b)
    ensures forall x :: x in Finish(f, code, false).rows ==> DiffHolds(Finish(f, code, false).columns, x, name, a, b)
  {
    var r := Finish(f, code, false);
    var s := SortByDate(f.rows, false);
    SortMembers(f.rows, false);
    SortLength(f.rows, false);
    forall x | x in r.rows ensures DiffHolds(r.columns, x, name, a, b) {
      var i :| 0 <= i < |r.rows| && r.rows[i] == x;
      assert s[i] in f.rows;
      FinishKeepsDiffAt(f, code, name, a, b, i);
    }
  }

  /** A column every row holds at a value other than "." survives the sort, the "." replacement and the market-code tag. */
  lemma FinishKeepsConst(f: Frame, code: string, ascending: bool, name: string, c: Cell)
    requires WellFormed(f) && name != MarketCodeColumn && c != Text(".")
    requires forall x :: x in f.rows ==> Get(f.columns, x, name) == Some(c)
    ensures forall x :: x in Finish(f, code, ascending).rows ==> Get(Finish(f, code, ascending).columns, x, name) == Some(c)
  {
    var r := Finish(f, code, ascending);
    var s := SortByDate(f.rows, ascending);
    SortMembers(f.rows, ascending);
    SortLength(f.rows, ascending);
    forall x | x in r.rows ensures Get(r.columns, x, name) == Some(c) {
      var i :| 0 <= i < |r.rows| && r.rows[i] == x;
      assert s[i] in f.rows;
      FinishKeeps(f, code, ascending, i, name);
    }
  }

  /** A column every row holds at `c` still holds it after `df[columns_to_keep]`, if it is kept. */
  lemma KeepColumnsConst(f: Frame, keep: seq<string>, name: string, c: Cell)
    requires WellFormed(f) && KeepColumns(f, keep).Ok? && name in KeepColumns(f, keep).value.columns
    requires forall x :: x in f.rows ==> Get(f.columns, x, name) == Some(c)
    ensures forall x :: x in KeepColumns(f, keep).value.rows ==> Get(KeepColumns(f, keep).value.columns, x, name) == Some(c)
  {
    var r := KeepColumns(f, keep).value;
    forall x | x in r.rows ensures Get(r.columns, x, name) == Some(c) {
      var i :| 0 <= i < |r.rows| && r.rows[i] == x;
      assert f.rows[i] in f.rows;
    }
  }

  /** A column every row holds at `c`, other than the two derived ones, still holds it after AddDerived. */
  lemma AddDerivedConst(f: Frame, kind: DisaggKind, name: string, c: Cell)
    requires WellFormed(f) && AddDerived(f, kind).Ok? && name != NetSpecColumn(kind) && name != PctColumn
    requires forall x :: x in f.rows ==> Get(f.columns, x, name) == Some(c)
    ensures forall x :: x in AddDerived(f, kind).value.rows ==> Get(AddDerived(f, kind).value.columns, x, name) == Some(c)
  {
    var r := AddDerived(f, kind).value;
    forall x | x in r.rows ensures Get(r.columns, x, name) == Some(c) {
      var i :| 0 <= i < |r.rows| && r.rows[i] == x;
      assert f.rows[i] in f.rows;
      AddDerivedRow(f, kind, i);
    }
  }

  /** Adding the derived columns leaves every row's other columns, and its date, as they were. */
  lemma AddDerivedProjected(f: Frame, kind: DisaggKind, names: seq<string>)
    requires WellFormed(f) && AddDerived(f, kind).Ok?
    requires NetSpecColumn(kind) !in names && PctColumn !in names
    ensures var r := AddDerived(f, kind).value;
      Projected(r.columns, names, r.rows) == Projected(f.columns, names, f.rows)
  {
    var r := AddDerived(f, kind).value;
    forall i | 0 <= i < |r.rows| ensures Projection(r.columns, names, r.rows[i]) == Projection(f.columns, names, f.rows[i]) {
      AddDerivedRow(f, kind, i);
      ProjectionSame(r.columns, r.rows[i], f.columns, f.rows[i], names);
    }
  }

  /** Keeping the listed columns leaves every kept column of every row, and its date, as it was. */
  lemma KeepColumnsProjected(f: Frame, keep: seq<string>, names: seq<string>)
    requires WellFormed(f) && KeepColumns(f, keep).Ok?
    requires keep != [] ==> forall n :: n in names ==> n in keep
    ensures var r := KeepColumns(f, keep).value;
      Projected(r.columns, names, r.rows) == Projected(f.columns, names, f.rows)
  {
    var r := KeepColumns(f, keep).value;
    forall i | 0 <= i < |r.rows| ensures Projection(r.columns, names, r.rows[i]) == Projection(f.columns, names, f.rows[i]) {
      ProjectionSame(r.columns, r.rows[i], f.columns, f.rows[i], names);
    }
  }

  /** The i-th finished row projects as the i-th sorted row. */
  lemma FinishProjection(f: Frame, code: string, ascending: bool, names: seq<string>, i: nat)
    requires WellFormed(f) && MarketCodeColumn !in names && i < |SortByDate(f.rows, ascending)|
    ensures var r := Finish(f, code, ascending);
      Projection(r.columns, names, r.rows[i]) == Projection(f.columns, names, SortByDate(f.rows, ascending)[i])
  {
    var r := Finish(f, code, ascending);
    var s := SortByDate(f.rows, ascending);
    FinishSorted(f, code, ascending);
    assert r.rows[i].date == s[i].date;
    forall n | n in names ensures DotAsNaN(Get(r.columns, r.rows[i], n)) == DotAsNaN(Get(f.columns, s[i], n)) {
      FinishReplaces(f, code, ascending, i, n);
      DotAsNaNTwice(Get(f.columns, s[i], n));
    }
    ProjectionSame(r.columns, r.rows[i], f.columns, s[i], names);
  }

  /**
    Sorting, the "." replacement and the market-code tag keep the rows:
    the bag of (date, cells read with "." as NaN) over any columns other
    than `Market_Code` is the same before and after.
   */
  lemma FinishProjected(f: Frame, code: string, ascending: bool, names: seq<string>)
    requires WellFormed(f) && MarketCodeColumn !in names
    ensures var r := Finish(f, code, ascending);
      multiset(Projected(r.columns, names, r.rows)) == multiset(Projected(f.columns, names, f.rows))
  {
    var r := Finish(f, code, ascending);
    var s := SortByDate(f.rows, ascending);
    SortLength(f.rows, ascending);
    forall i | 0 <= i < |r.rows| ensures Projection(r.columns, names, r.rows[i]) == Projection(f.columns, names, s[i]) {
      FinishProjection(f, code, ascending, names, i);
    }
    assert Projected(r.columns, names, r.rows) == Projected(f.columns, names, s);
    ProjectedPerm(f.columns, names, s, f.rows);
  }

  /**
    The cleaned report holds only the market's rows: whenever the
    market-code column is kept (no list, or a list naming it), every row
    holds the requested code there.  A code of "." is the exception, since
    the "." replacement turns it into NaN.
   */
  lemma CleanStepsMarket(raw: Frame, code: string, keep: seq<string>, kind: DisaggKind)
    requires WellFormed(raw)
    ensures var r := CleanSteps(raw, code, keep, kind);
      r.Ok? && code != "." && (keep == [] || CodeColumn in keep) ==>
        forall x :: x in r.value.rows ==> Get(r.value.columns, x, CodeColumn) == Some(Text(code))
  {
    var r := CleanSteps(raw, code, keep, kind);
    if r.Ok? && code != "." && (keep == [] || CodeColumn in keep) {
      var filtered := FilterEq(raw, CodeColumn, Text(code)).value;
      var sorted := SortRows(filtered, true);
      SortMembers(filtered.rows, true);
      KeepColumnsConst(sorted, keep, CodeColumn, Text(code));
      var kept := KeepColumns(sorted, keep).value;
      AddDerivedConst(kept, kind, CodeColumn, Text(code));
      FinishKeepsConst(AddDerived(kept, kind).value, code, false, CodeColumn, Text(code));
    }
  }

  /**
    `df[name] = c` with a scalar: every row holds `c` in `name`, and a
    column every row held at `v` keeps it.
   */
  lemma SetConstRows(f: Frame, name: string, c: Cell, other: string, v: Cell)
    requires WellFormed(f) && other != name
    requires forall x :: x in f.rows ==> Get(f.columns, x, other) == Some(v)
    ensures var r := SetColumn(f, name, Const(|f.rows|, c));
      forall x :: x in r.rows ==> Get(r.columns, x, name) == Some(c) && Get(r.columns, x, other) == Some(v)
  {
    var r := SetColumn(f, name, Const(|f.rows|, c));
    forall x | x in r.rows ensures Get(r.columns, x, name) == Some(c) && Get(r.columns, x, other) == Some(v) {
      var i :| 0 <= i < |r.rows| && r.rows[i] == x;
      assert f.rows[i] in f.rows;
    }
  }

  /** The properties of CleanSteps, for the report `fut_opt` names. */
  lemma CleanDisaggFutOptShape(fetch: string -> Frame, code: string, keep: seq<string>, futOpt: string)
    requires forall k :: WellFormed(fetch(k))
    ensures var r := CleanDisaggFutOpt(fetch, code, keep, futOpt);
      DisaggKindOf(futOpt).Some? ==>
        var kind := DisaggKindOf(futOpt).value;
        var raw := fetch(DisaggTag(kind));
        (CodeColumn !in raw.columns ==> r == Err(KeyError(CodeColumn))) &&
        (r.Ok? ==> var f := r.value.value;
          Sorted(f.rows, false) &&
          |f.rows| == |FilterEq(raw, CodeColumn, Text(code)).value.rows| &&
          forall x :: x in f.rows ==>
            Get(f.columns, x, MarketCodeColumn) == Some(Text(code)) &&
            DiffHolds(f.columns, x, NetSpecColumn(kind), LongColumn, ShortColumn))
  {
    if DisaggKindOf(futOpt).Some? {
      var kind := DisaggKindOf(futOpt).value;
      CleanStepsShape(fetch(DisaggTag(kind)), code, keep, kind);
      CleanStepsNetSpec(fetch(DisaggTag(kind)), code, keep, kind);
    }
  }

  /** CleanStepsRows for the report `fut_opt` names: the returned frame is that report's rows of the market. */
  lemma CleanDisaggFutOptRows(fetch: string -> Frame, code: string, keep: seq<string>, futOpt: string, names: seq<string>)
    requires forall k :: WellFormed(fetch(k))
    requires forall n :: n in names ==> n != PctColumn && n != MarketCodeColumn && (keep != [] ==> n in keep)
    requires DisaggKindOf(futOpt).Some? ==> NetSpecColumn(DisaggKindOf(futOpt).value) !in names
    ensures var r := CleanDisaggFutOpt(fetch, code, keep, futOpt);
      r.Ok? && r.value.Some? ==>
        var raw := fetch(DisaggTag(DisaggKindOf(futOpt).value));
        multiset(Projected(r.value.value.columns, names, r.value.value.rows)) ==
        multiset(Projected(raw.columns, names, FilterEq(raw, CodeColumn, Text(code)).value.rows))
  {
    var r := CleanDisaggFutOpt(fetch, code, keep, futOpt);
    if r.Ok? && r.value.Some? {
      var kind := DisaggKindOf(futOpt).value;
      CleanStepsRows(fetch(DisaggTag(kind)), code, keep, kind, names);
    }
  }

  // ---------------------------------------------------------------------
  // get_legacy_fut_opt

  /** The column names after the cleaning chain. */
  function CleanColumns(columns: seq<string>): (r: seq<string>)
    ensures |r| == |columns|
    ensures forall i :: 0 <= i < |r| ==> NoReserved(r[i]) && r[i] == Clean(columns[i])
  {
    forall i | 0 <= i < |columns| ensures NoReserved(Clean(columns[i])) {
      CleanNoReserved(columns[i]);
    }
    seq(|columns|, i requires 0 <= i < |columns| => Clean(columns[i]))
  }

  /** The market's rows tagged with the report, and the column names cleaned. */
  function LegacyRenamed(filtered: Frame, kind: LegacyKind): (r: Frame)
    requires WellFormed(filtered)
    ensures WellFormed(r) && |r.rows| == |filtered.rows| && forall n :: n in r.columns ==> NoReserved(n)
  {
    var tagged := SetColumn(filtered, ReportTypeColumn, Const(|filtered.rows|, Text(LegacyTag(kind))));
    Frame(CleanColumns(tagged.columns), tagged.rows)
  }

  /**
    Lines 38-57 of `get_legacy_fut_opt`: download the report, keep the
    market's rows, tag them, clean the column names, sort ascending by
    date, replace "." by NaN and add `Market_Code`; also the file name.
    A `report_type` other than "fut" and "opt" leaves `legacy_df`
    unassigned.
   */
  function ShapeLegacy(fetch: string -> Frame, code: string, reportType: string): (r: Result<(Frame, string), Error>)
    requires forall k :: WellFormed(fetch(k))
    ensures LegacyKindOf(reportType).None? ==> r == Err(UnboundLocalError)
    ensures r.Ok? ==> WellFormed(r.value.0)
  {
    match LegacyKindOf(reportType)
    case None => Err(UnboundLocalError)
    case Some(kind) =>
      var f :- ShapeLegacyOf(fetch(LegacyTag(kind)), code, kind);
      Ok((f, LegacyFileName(kind, code)))
  }

  /**
    The shaping steps on the downloaded report `raw`.  The closing
    `reset_index()` turns the index, named `Date`, back into a column, and
    raises a ValueError when a column of that name already exists.
   */
  function ShapeLegacyOf(raw: Frame, code: string, kind: LegacyKind): (r: Result<Frame, Error>)
    requires WellFormed(raw)
    ensures LegacyCodeColumn !in raw.columns ==> r == Err(KeyError(LegacyCodeColumn))
    ensures r.Err? <==> LegacyCodeColumn !in raw.columns || DateClash(raw.columns)
    ensures r.Err? && LegacyCodeColumn in raw.columns ==> r.error == ValueError
    ensures r.Ok? ==> WellFormed(r.value)
  {
    var filtered :- FilterEq(raw, LegacyCodeColumn, Text(code));
    var shaped := Finish(LegacyRenamed(filtered, kind), code, true);
    LegacyDateClash(filtered, code, kind);
    if DateColumn in shaped.columns then Err(ValueError) else Ok(shaped)
  }

  /** Some column cleans to `target`. */
  predicate CleansTo(columns: seq<string>, target: string) {
    exists n :: n in columns && Clean(n) == target
  }

  /** Some column cleans to `Date`, the name `reset_index()` gives the date index. */
  predicate DateClash(columns: seq<string>) {
    CleansTo(columns, DateColumn)
  }

  /** A cleaned name list holds `target` exactly when some name cleans to it. */
  lemma CleanedHas(names: seq<string>, target: string)
    ensures target in CleanColumns(names) <==> CleansTo(names, target)
  {
    var c := CleanColumns(names);
    if target in c {
      var j :| 0 <= j < |c| && c[j] == target;
      assert names[j] in names;
    }
    if n :| n in names && Clean(n) == target {
      var j :| 0 <= j < |names| && names[j] == n;
      assert c[j] == target;
    }
  }

  /** Adding a column whose name does not clean to `target` adds no name that cleans to it. */
  lemma AddedNameCleans(columns: seq<string>, extra: string, target: string)
    requires Clean(extra) != target
    ensures CleansTo(columns + [extra], target) <==> CleansTo(columns, target)
  {
    if n :| n in columns && Clean(n) == target {
      assert n in columns + [extra];
    }
  }

  /** `Date` is neither of the tag columns the shaping adds. */
  lemma DateNotTag()
    ensures DateColumn != MarketCodeColumn && DateColumn != ReportTypeColumn
  {
  }

  /** Finishing adds no column but `Market_Code`. */
  lemma FinishHas(f: Frame, code: string, ascending: bool, name: string)
    requires WellFormed(f) && name != MarketCodeColumn
    ensures name in Finish(f, code, ascending).columns <==> name in f.columns
  {
  }

  /**
    The shaped legacy report has a `Date` column exactly when some
    downloaded column cleans to that name: neither `Report_Type` nor
    `Market_Code` does.
   */
  lemma LegacyDateClash(filtered: Frame, code: string, kind: LegacyKind)
    requires WellFormed(filtered)
    ensures DateColumn in Finish(LegacyRenamed(filtered, kind), code, true).columns <==>
            DateClash(filtered.columns)
  {
    var tagged := SetColumn(filtered, ReportTypeColumn, Const(|filtered.rows|, Text(LegacyTag(kind))));
    var renamed := LegacyRenamed(filtered, kind);
    assert renamed.columns == CleanColumns(tagged.columns);
    CleanedHas(tagged.columns, DateColumn);
    DateNotTag();
    FinishHas(renamed, code, true, DateColumn);
    if tagged.columns != filtered.columns {
      ReportTypeClean();
      AddedNameCleans(filtered.columns, ReportTypeColumn, DateColumn);
    }
  }

  /**
    Shaping the legacy report fails exactly when `report_type` is neither
    "fut" nor "opt" (UnboundLocalError), the download lacks the
    market-code column (KeyError), or a downloaded column cleans to `Date`
    (ValueError from `reset_index`).
   */
  lemma ShapeLegacyErrors(fetch: string -> Frame, code: string, reportType: string)
    requires forall k :: WellFormed(fetch(k))
    ensures var r := ShapeLegacy(fetch, code, reportType);
      (LegacyKindOf(reportType).None? ==> r == Err(UnboundLocalError)) &&
      (LegacyKindOf(reportType).Some? ==>
        var raw := fetch(LegacyTag(LegacyKindOf(reportType).value));
        (r.Err? <==> LegacyCodeColumn !in raw.columns || DateClash(raw.columns)) &&
        (LegacyCodeColumn !in raw.columns ==> r == Err(KeyError(LegacyCodeColumn))) &&
        (r.Err? && LegacyCodeColumn in raw.columns ==> r == Err(ValueError)))
  {
  }

  /**
    The shaped legacy report has one row per row of the market, sorted
    ascending, every column name free of ' ', '(', ')', '-', '%' and '=',
    every row tagged with the market code, and is saved under the report's
    file name.
   */
  lemma ShapeLegacyProps(fetch: string -> Frame, code: string, reportType: string)
    requires forall k :: WellFormed(fetch(k))
    ensures var r := ShapeLegacy(fetch, code, reportType);
      r.Ok? ==>
        var kind := LegacyKindOf(reportType).value;
        var f := r.value.0;
        r.value.1 == LegacyFileName(kind, code) &&
        |f.rows| == |FilterEq(fetch(LegacyTag(kind)), LegacyCodeColumn, Text(code)).value.rows| &&
        Sorted(f.rows, true) &&
        (forall n :: n in f.columns ==> NoReserved(n)) &&
        forall x :: x in f.rows ==> Get(f.columns, x, MarketCodeColumn) == Some(Text(code))
  {
    var r := ShapeLegacy(fetch, code, reportType);
    if r.Ok? {
      var kind := LegacyKindOf(reportType).value;
      ShapeLegacyOfProps(fetch(LegacyTag(kind)), code, kind);
      ShapeLegacyOfColumns(fetch(LegacyTag(kind)), code, kind);
    }
  }

  /** ShapeLegacyOfCells for the report `report_type` names: the shaped frame is that report's rows of the market. */
  lemma ShapeLegacyCells(fetch: string -> Frame, code: string, reportType: string, names: seq<string>)
    requires forall k :: WellFormed(fetch(k))
    requires forall n :: n in names ==> Clean(n) != ReportTypeColumn && Clean(n) != MarketCodeColumn
    requires LegacyKindOf(reportType).Some? ==>
      forall n :: n in names ==> CleansUniquely(fetch(LegacyTag(LegacyKindOf(reportType).value)).columns, n)
    ensures var r := ShapeLegacy(fetch, code, reportType);
      r.Ok? ==>
        var raw := fetch(LegacyTag(LegacyKindOf(reportType).value));
        multiset(Projected(r.value.0.columns, CleanColumns(names), r.value.0.rows)) ==
        multiset(Projected(raw.columns, names, FilterEq(raw, LegacyCodeColumn, Text(code)).value.rows))
  {
    var r := ShapeLegacy(fetch, code, reportType);
    if r.Ok? {
      var kind := LegacyKindOf(reportType).value;
      ShapeLegacyOfCells(fetch(LegacyTag(kind)), code, kind, names);
    }
  }

  /** Every column name of the shaped legacy report is free of reserved characters. */
  lemma ShapeLegacyOfColumns(raw: Frame, code: string, kind: LegacyKind)
    requires WellFormed(raw)
    ensures var r := ShapeLegacyOf(raw, code, kind);
      r.Ok? ==> forall n :: n in r.value.columns ==> NoReserved(n)
  {
    var r := ShapeLegacyOf(raw, code, kind);
    if r.Ok? {
      var renamed := LegacyRenamed(FilterEq(raw, LegacyCodeColumn, Text(code)).value, kind);
      FinishNoReserved(renamed, code, true);
    }
  }

  /** Finishing a frame whose column names are clean leaves them clean. */
  lemma FinishNoReserved(f: Frame, code: string, ascending: bool)
    requires WellFormed(f) && forall n :: n in f.columns ==> NoReserved(n)
    ensures forall n :: n in Finish(f, code, ascending).columns ==> NoReserved(n)
  {
    MarketCodeNoReserved();
  }

  /** "Market_Code" has none of the reserved characters. */
  lemma MarketCodeNoReserved()
    ensures NoReserved(MarketCodeColumn)
  {
  }

  /** A name without reserved characters is left as it is. */
  lemma CleanKeeps(s: string)
    requires NoReserved(s)
    ensures Clean(s) == s
  {
    CleanFixpoints(s);
  }

  /** "Report_Type" has no reserved character, so the chain leaves it as it is. */
  lemma ReportTypeClean()
    ensures Clean(ReportTypeColumn) == ReportTypeColumn
  {
    assert NoReserved(ReportTypeColumn);
    CleanKeeps(ReportTypeColumn);
  }

  /** The chain turns the legacy report's "CFTC Contract Market Code" into "CFTC_Contract_Market_Code". */
  lemma LegacyCodeClean()
    ensures Clean(LegacyCodeColumn) == CodeColumn
  {
    CleanCodeName();
  }

  /** When `name` is the only column that cleans to `Clean(name)`, the cleaned name sits where `name` sat. */
  lemma CleanedIndex(names: seq<string>, name: string)
    requires forall n :: n in names && Clean(n) == Clean(name) ==> n == name
    ensures IndexOf(CleanColumns(names), Clean(name)) == IndexOf(names, name)
  {
    var c := CleanColumns(names);
    assert forall j :: 0 <= j < |names| ==> (c[j] == Clean(name) <==> names[j] == name) by {
      forall j | 0 <= j < |names| ensures c[j] == Clean(name) ==> names[j] == name {
        assert names[j] in names;
      }
    }
  }

  /** A column every row holds at `c` holds it under its cleaned name, when no other column cleans to that name. */
  lemma RenamedConst(f: Frame, name: string, cleaned: string, c: Cell)
    requires Clean(name) == cleaned
    requires forall n :: n in f.columns && Clean(n) == cleaned ==> n == name
    requires forall x :: x in f.rows ==> Get(f.columns, x, name) == Some(c)
    ensures forall x :: x in f.rows ==> Get(CleanColumns(f.columns), x, cleaned) == Some(c)
  {
    CleanedIndex(f.columns, name);
  }

  /** Adding the `Report_Type` column makes no other column clean to "Report_Type" or to the code column's name. */
  lemma TaggedNamesUnique(columns: seq<string>, tagged: seq<string>)
    requires tagged == columns || tagged == columns + [ReportTypeColumn]
    requires forall n :: n in columns && Clean(n) == ReportTypeColumn ==> n == ReportTypeColumn
    requires forall n :: n in columns && Clean(n) == CodeColumn ==> n == LegacyCodeColumn
    ensures forall n :: n in tagged && Clean(n) == ReportTypeColumn ==> n == ReportTypeColumn
    ensures forall n :: n in tagged && Clean(n) == CodeColumn ==> n == LegacyCodeColumn
  {
    forall n | n in tagged && n !in columns
      ensures Clean(n) == ReportTypeColumn && Clean(n) != CodeColumn
    {
      assert n == ReportTypeColumn;
      ReportTypeClean();
    }
  }

  /**
    After tagging and renaming, every row of the market holds the report's
    tag in `Report_Type` and the market code in `CFTC_Contract_Market_Code`,
    provided no other column cleans to either name.
   */
  lemma LegacyRenamedRows(filtered: Frame, code: string, kind: LegacyKind)
    requires WellFormed(filtered)
    requires forall n :: n in filtered.columns && Clean(n) == ReportTypeColumn ==> n == ReportTypeColumn
    requires forall n :: n in filtered.columns && Clean(n) == CodeColumn ==> n == LegacyCodeColumn
    requires forall x :: x in filtered.rows ==> Get(filtered.columns, x, LegacyCodeColumn) == Some(Text(code))
    ensures var r := LegacyRenamed(filtered, kind);
      forall x :: x in r.rows ==>
        Get(r.columns, x, ReportTypeColumn) == Some(Text(LegacyTag(kind))) && Get(r.columns, x, CodeColumn) == Some(Text(code))
  {
    var tag := Text(LegacyTag(kind));
    var tagged := SetColumn(filtered, ReportTypeColumn, Const(|filtered.rows|, tag));
    SetConstRows(filtered, ReportTypeColumn, tag, LegacyCodeColumn, Text(code));
    ReportTypeClean();
    LegacyCodeClean();
    TaggedNamesUnique(filtered.columns, tagged.columns);
    RenamedConst(tagged, ReportTypeColumn, ReportTypeColumn, tag);
    RenamedConst(tagged, LegacyCodeColumn, CodeColumn, Text(code));
  }

  /**
    Every row of the shaped legacy report carries the report's tag in
    `Report_Type` and (unless the code is ".", which becomes NaN) the
    market code in the renamed `CFTC_Contract_Market_Code` column, provided
    no other downloaded column cleans to either name.
   */
  lemma ShapeLegacyOfRows(raw: Frame, code: string, kind: LegacyKind)
    requires WellFormed(raw)
    requires forall n :: n in raw.columns && Clean(n) == ReportTypeColumn ==> n == ReportTypeColumn
    requires forall n :: n in raw.columns && Clean(n) == CodeColumn ==> n == LegacyCodeColumn
    ensures var r := ShapeLegacyOf(raw, code, kind);
      r.Ok? ==> forall x :: x in r.value.rows ==>
        Get(r.value.columns, x, ReportTypeColumn) == Some(Text(LegacyTag(kind))) &&
        (code != "." ==> Get(r.value.columns, x, CodeColumn) == Some(Text(code)))
  {
    var r := ShapeLegacyOf(raw, code, kind);
    if r.Ok? {
      var filtered := FilterEq(raw, LegacyCodeColumn, Text(code)).value;
      assert r.value == Finish(LegacyRenamed(filtered, kind), code, true);
      LegacyShapedRows(filtered, code, kind);
    }
  }

  /** ShapeLegacyOfRows on the market's rows, before the date clash check. */
  lemma LegacyShapedRows(filtered: Frame, code: string, kind: LegacyKind)
    requires WellFormed(filtered)
    requires forall n :: n in filtered.columns && Clean(n) == ReportTypeColumn ==> n == ReportTypeColumn
    requires forall n :: n in filtered.columns && Clean(n) == CodeColumn ==> n == LegacyCodeColumn
    requires forall x :: x in filtered.rows ==> Get(filtered.columns, x, LegacyCodeColumn) == Some(Text(code))
    ensures var f := Finish(LegacyRenamed(filtered, kind), code, true);
      forall x :: x in f.rows ==>
        Get(f.columns, x, ReportTypeColumn) == Some(Text(LegacyTag(kind))) &&
        (code != "." ==> Get(f.columns, x, CodeColumn) == Some(Text(code)))
  {
    var renamed := LegacyRenamed(filtered, kind);
    LegacyRenamedRows(filtered, code, kind);
    FinishKeepsConst(renamed, code, true, ReportTypeColumn, Text(LegacyTag(kind)));
    if code != "." {
      FinishKeepsConst(renamed, code, true, CodeColumn, Text(code));
    }
  }

  /** ShapeLegacyProps for one downloaded report. */
  lemma ShapeLegacyOfProps(raw: Frame, code: string, kind: LegacyKind)
    requires WellFormed(raw)
    ensures var r := ShapeLegacyOf(raw, code, kind);
      r.Ok? ==>
        |r.value.rows| == |FilterEq(raw, LegacyCodeColumn, Text(code)).value.rows| &&
        Sorted(r.value.rows, true) &&
        forall x :: x in r.value.rows ==> Get(r.value.columns, x, MarketCodeColumn) == Some(Text(code))
  {
    var r := ShapeLegacyOf(raw, code, kind);
    if r.Ok? {
      var filtered := FilterEq(raw, LegacyCodeColumn, Text(code)).value;
      var renamed := LegacyRenamed(filtered, kind);
      assert r.value == Finish(renamed, code, true);
      FinishSorted(renamed, code, true);
      FinishTagged(renamed, code, true);
    }
  }

  /** No downloaded column other than `n` itself cleans to the name `n` cleans to. */
  predicate CleansUniquely(columns: seq<string>, n: string) {
    forall m :: m in columns && Clean(m) == Clean(n) ==> m == n
  }

  /** A column's cells move to its cleaned name when the report is tagged and renamed. */
  lemma LegacyRenamedRow(filtered: Frame, kind: LegacyKind, i: nat, n: string)
    requires WellFormed(filtered) && i < |filtered.rows|
    requires Clean(n) != ReportTypeColumn && CleansUniquely(filtered.columns, n)
    ensures var r := LegacyRenamed(filtered, kind);
      Get(r.columns, r.rows[i], Clean(n)) == Get(filtered.columns, filtered.rows[i], n)
  {
    var tagged := SetColumn(filtered, ReportTypeColumn, Const(|filtered.rows|, Text(LegacyTag(kind))));
    ReportTypeClean();
    TaggedCleansUniquely(filtered.columns, ReportTypeColumn, n);
    assert CleansUniquely(tagged.columns, n);
    CleanedIndex(tagged.columns, n);
  }

  /** Adding a column `t` that the chain leaves as it is keeps every other name the only one cleaning to its name. */
  lemma TaggedCleansUniquely(columns: seq<string>, t: string, n: string)
    requires Clean(t) == t && Clean(n) != t && CleansUniquely(columns, n)
    ensures n != t && CleansUniquely(columns + [t], n)
  {
  }

  /**
    Tagging and renaming keep every row: a row read in the cleaned names
    of the listed columns says what it said in the downloaded names.
   */
  lemma LegacyRenamedProjected(filtered: Frame, kind: LegacyKind, names: seq<string>)
    requires WellFormed(filtered)
    requires forall n :: n in names ==> Clean(n) != ReportTypeColumn && CleansUniquely(filtered.columns, n)
    ensures var r := LegacyRenamed(filtered, kind);
      Projected(r.columns, CleanColumns(names), r.rows) == Projected(filtered.columns, names, filtered.rows)
  {
    var r := LegacyRenamed(filtered, kind);
    var tagged := SetColumn(filtered, ReportTypeColumn, Const(|filtered.rows|, Text(LegacyTag(kind))));
    assert r.rows == tagged.rows;
    var cleaned := CleanColumns(names);
    forall i | 0 <= i < |r.rows|
      ensures Projection(r.columns, cleaned, r.rows[i]) == Projection(filtered.columns, names, filtered.rows[i])
    {
      var p1, p2 := Projection(r.columns, cleaned, r.rows[i]).1, Projection(filtered.columns, names, filtered.rows[i]).1;
      forall j | 0 <= j < |names| ensures p1[j] == p2[j] {
        assert names[j] in names;
        LegacyRenamedRow(filtered, kind, i, names[j]);
      }
      assert p1 == p2;
    }
  }

  /**
    The shaped legacy report is the market's rows of the download, each
    once: read in the cleaned names of the listed downloaded columns, the
    bag of (date, cells with "." read as NaN) is that of the market's
    downloaded rows, provided each listed column is the only one cleaning
    to its new name and that name is neither `Report_Type` nor
    `Market_Code`.
   */
  lemma ShapeLegacyOfCells(raw: Frame, code: string, kind: LegacyKind, names: seq<string>)
    requires WellFormed(raw)
    requires forall n :: n in names ==>
      Clean(n) != ReportTypeColumn && Clean(n) != MarketCodeColumn && CleansUniquely(raw.columns, n)
    ensures var r := ShapeLegacyOf(raw, code, kind);
      r.Ok? ==> multiset(Projected(r.value.columns, CleanColumns(names), r.value.rows)) ==
                multiset(Projected(raw.columns, names, FilterEq(raw, LegacyCodeColumn, Text(code)).value.rows))
  {
    var r := ShapeLegacyOf(raw, code, kind);
    if r.Ok? {
      var filtered := FilterEq(raw, LegacyCodeColumn, Text(code)).value;
      var renamed := LegacyRenamed(filtered, kind);
      assert r.value == Finish(renamed, code, true);
      var cleaned := CleanColumns(names);
      assert MarketCodeColumn !in cleaned by {
        forall j | 0 <= j < |names| ensures cleaned[j] != MarketCodeColumn {
          assert names[j] in names;
        }
      }
      FinishProjected(renamed, code, true, cleaned);
      LegacyRenamedProjected(filtered, kind, names);
    }
  }

  /**
    The second `reset_index()` of the dedup path: the row positions become
    a leading column named `index`, or `level_0` when `index` is taken; a
    ValueError when both are.
   */
  function ResetIndex(f: Frame): (r: Result<Frame, Error>)
    requires WellFormed(f)
    ensures r.Err? <==> "index" in f.columns && "level_0" in f.columns
    ensures r.Err? ==> r.error == ValueError
    ensures r.Ok? ==> WellFormed(r.value) && |r.value.rows| == |f.rows|
    ensures r.Ok? ==> r.value.columns == [if "index" !in f.columns then "index" else "level_0"] + f.columns
    ensures r.Ok? ==> forall i :: 0 <= i < |f.rows| ==>
      r.value.rows[i].date == f.rows[i].date && r.value.rows[i].cells == [Num(i)] + f.rows[i].cells
  {
    var name := if "index" !in f.columns then "index" else "level_0";
    if name in f.columns then Err(ValueError)
    else
      assert forall i :: 0 <= i < |f.rows| ==> f.rows[i] in f.rows;
      Ok(Frame([name] + f.columns, seq(|f.rows|, i requires 0 <= i < |f.rows| => Row(f.rows[i].date, [Num(i)] + f.rows[i].cells))))
  }

  // ---------------------------------------------------------------------
  // Date-based dedup against the history file

  /**
    `df[~df["Date"].isin(history)]`: every copy of a row whose date is not
    in the history, and nothing else.
   */
  function Dedup(rows: seq<Row>, history: set<Day>): (r: seq<Row>)
    ensures forall x :: x in r <==> x in rows && x.date !in history
    ensures forall y :: multiset(r)[y] == if y.date !in history then multiset(rows)[y] else 0
  {
    FilterCount(rows, (x: Row) => x.date !in history);
    Filter(rows, (x: Row) => x.date !in history)
  }

  /**
    The dedup keeps exactly the rows whose date is not in the history, each
    with all its copies, as an order-preserving subsequence of its input.
   */
  lemma DedupKeepsNew(rows: seq<Row>, history: set<Day>)
    ensures forall x :: x in Dedup(rows, history) <==> x in rows && x.date !in history
    ensures forall y :: multiset(Dedup(rows, history))[y] == if y.date !in history then multiset(rows)[y] else 0
    ensures IsSubsequence(Dedup(rows, history), rows)
  {
    FilterSubsequence(rows, (x: Row) => x.date !in history);
  }

  /** A history sharing no date with the rows removes nothing. */
  lemma DedupNothingOld(rows: seq<Row>, history: set<Day>)
    requires forall x :: x in rows ==> x.date !in history
    ensures Dedup(rows, history) == rows
  {
    FilterKeepsAll(rows, (x: Row) => x.date !in history);
  }

  /** The path `FILEDB/<name>` below the base directory. */
  function HistoryPath(name: string): Path {
    [FileDb, name]
  }

  /**
    What `get_legacy_fut_opt` hands to `save_to_dir`, and the file name:
    the shaped report when `hist` is true; otherwise, after reading the
    history file, the rows (with their positions as a new column) whose
    date the history does not hold.
   */
  function LegacyToSave(fs: FileSystem, fetch: string -> Frame, code: string, reportType: string, hist: bool)
    : (r: Result<(Frame, string), Error>)
    requires forall k :: WellFormed(fetch(k))
    reads fs
    ensures r.Ok? ==> WellFormed(r.value.0)
  {
    var shaped :- ShapeLegacy(fetch, code, reportType);
    if hist then Ok(shaped)
    else
      var dates :- HistoryDates(fs, HistoryPath(shaped.1));
      var indexed :- ResetIndex(shaped.0);
      Ok((Frame(indexed.columns, Dedup(indexed.rows, dates)), shaped.1))
  }

  /**
    The dedup runs only when `hist` is false: with `hist` true every shaped
    row is saved; with it false the saved rows are exactly those whose date
    is not in the history file, in their order.
   */
  lemma LegacyHistGatesDedup(fs: FileSystem, fetch: string -> Frame, code: string, reportType: string, hist: bool)
    requires forall k :: WellFormed(fetch(k))
    ensures hist ==> LegacyToSave(fs, fetch, code, reportType, hist) == ShapeLegacy(fetch, code, reportType)
    ensures !hist && LegacyToSave(fs, fetch, code, reportType, hist).Ok? ==>
      var shaped := ShapeLegacy(fetch, code, reportType).value;
      var saved := LegacyToSave(fs, fetch, code, reportType, hist).value.0;
      var path := HistoryPath(shaped.1);
      path in fs.files &&
      IsSubsequence(saved.rows, ResetIndex(shaped.0).value.rows) &&
      (forall x :: x in saved.rows <==>
        (x in ResetIndex(shaped.0).value.rows && forall y :: y in fs.files[path].rows ==> y.date != x.date)) &&
      forall x :: multiset(saved.rows)[x] ==
        if forall y :: y in fs.files[path].rows ==> y.date != x.date then multiset(ResetIndex(shaped.0).value.rows)[x] else 0
  {
    if !hist && LegacyToSave(fs, fetch, code, reportType, hist).Ok? {
      var shaped := ShapeLegacy(fetch, code, reportType).value;
      var path := HistoryPath(shaped.1);
      var dates := HistoryDates(fs, path).value;
      DedupKeepsNew(ResetIndex(shaped.0).value.rows, dates);
      forall x: Row ensures x.date !in dates <==> forall y :: y in fs.files[path].rows ==> y.date != x.date {
        if x.date in dates {
          var y :| y in fs.files[path].rows && y.date == x.date;
        }
      }
    }
  }

  /**
    `get_legacy_fut_opt(market_code, report_type, hist)`: shape the report,
    dedup it against the history file when `hist` is false, and save it
    under FILEDB with the Legacy mapper.  Proved against LegacyToSave and
    SaveEffect.
   */
  method GetLegacyFutOpt(fs: FileSystem, store: Store, fetch: string -> Frame, code: string, reportType: string,
                         hist: bool, engineAvailable: bool)
    returns (r: Result<Option<BatchResult>, Error>)
    requires fs.Valid() && forall k :: WellFormed(fetch(k))
    modifies fs, store
    ensures fs.Valid() && store.openSessions == old(store.openSessions)
    ensures old(LegacyToSave(fs, fetch, code, reportType, hist)).Err? ==>
      r == Err(old(LegacyToSave(fs, fetch, code, reportType, hist)).error) &&
      fs.dirs == old(fs.dirs) && fs.files == old(fs.files) && store.tables == old(store.tables)
    ensures old(LegacyToSave(fs, fetch, code, reportType, hist)).Ok? ==>
      var (df, name) := old(LegacyToSave(fs, fetch, code, reportType, hist)).value;
      Saved(r, World(fs.dirs, fs.files, store.tables)) ==
        SaveEffect(World(old(fs.dirs), old(fs.files), old(store.tables)), df, FileDb, name, Some(Legacy), "", engineAvailable)
  {
    var shaped :- ShapeLegacy(fetch, code, reportType);
    var df, filename := shaped.0, shaped.1;
    if !hist {
      var dates :- HistoryDates(fs, HistoryPath(filename));
      var indexed :- ResetIndex(df);
      df := Frame(indexed.columns, Dedup(indexed.rows, dates));
    }
    r := SaveToDir(fs, store, df, FileDb, filename, Some(Legacy), "", engineAvailable);
  }

  // ---------------------------------------------------------------------
  // populate_data

  /** `df["Report_Type"] = <the report's tag>`. */
  function TagReport(df: Frame, kind: DisaggKind): (r: Frame)
    requires WellFormed(df)
    ensures WellFormed(r) && |r.rows| == |df.rows|
  {
    SetColumn(df, ReportTypeColumn, Const(|df.rows|, Text(DisaggTag(kind))))
  }

  /** After TagReport every row holds the tag, and a column every row held keeps its value. */
  lemma TagReportRows(df: Frame, kind: DisaggKind, other: string, c: Cell)
    requires WellFormed(df) && other != ReportTypeColumn
    requires forall x :: x in df.rows ==> Get(df.columns, x, other) == Some(c)
    ensures var r := TagReport(df, kind);
      forall x :: x in r.rows ==>
        Get(r.columns, x, ReportTypeColumn) == Some(Text(DisaggTag(kind))) && Get(r.columns, x, other) == Some(c)
  {
    SetConstRows(df, ReportTypeColumn, Text(DisaggTag(kind)), other, c);
  }

  /**
    What `populate_data` hands to `save_to_dir`, and the file name: the
    cleaned report tagged with its `Report_Type`, deduped against the
    history file when `hist` is false.  A wrong `fut_opt` makes the cleaned
    report None, and `reset_index` on it raises an AttributeError; on a
    report that already has a `Date` column it raises a ValueError.
   */
  function PopulateToSave(fs: FileSystem, fetch: string -> Frame, code: string, keep: seq<string>, hist: bool,
                          futOpt: string, fileToSave: string): (r: Result<(Frame, string), Error>)
    requires forall k :: WellFormed(fetch(k))
    reads fs
    ensures DisaggKindOf(futOpt).None? ==> r == Err(AttributeError)
    ensures CleanDisaggFutOpt(fetch, code, keep, futOpt).Ok? && DisaggKindOf(futOpt).Some? ==>
      (r == Err(ValueError) <==> DateColumn in CleanDisaggFutOpt(fetch, code, keep, futOpt).value.value.columns)
    ensures r.Ok? ==> WellFormed(r.value.0) && DisaggKindOf(futOpt).Some? &&
                      r.value.1 == DisaggFileName(fileToSave, code, DisaggKindOf(futOpt).value)
  {
    var cleaned :- CleanDisaggFutOpt(fetch, code, keep, futOpt);
    if cleaned.None? then Err(AttributeError)
    else if DateColumn in cleaned.value.columns then Err(ValueError)
    else
      var kind := DisaggKindOf(futOpt).value;
      var name := DisaggFileName(fileToSave, code, kind);
      var tagged := TagReport(cleaned.value, kind);
      if hist then Ok((tagged, name))
      else
        var dates :- HistoryDates(fs, HistoryPath(name));
        Ok((Frame(tagged.columns, Dedup(tagged.rows, dates)), name))
  }

  /**
    The dedup runs only when `hist` is false: with `hist` true the whole
    tagged report is saved; with it false the saved rows are exactly the
    tagged rows whose date is not in the history file, in their order.
   */
  lemma PopulateHistGatesDedup(fs: FileSystem, fetch: string -> Frame, code: string, keep: seq<string>, hist: bool,
                               futOpt: string, fileToSave: string)
    requires forall k :: WellFormed(fetch(k))
    ensures var r := PopulateToSave(fs, fetch, code, keep, hist, futOpt, fileToSave);
      r.Ok? ==>
        var tagged := TagReport(CleanDisaggFutOpt(fetch, code, keep, futOpt).value.value, DisaggKindOf(futOpt).value);
        var path := HistoryPath(r.value.1);
        (hist ==> r.value.0 == tagged) &&
        (!hist ==>
          path in fs.files && IsSubsequence(r.value.0.rows, tagged.rows) &&
          (forall x :: x in r.value.0.rows <==>
            (x in tagged.rows && forall y :: y in fs.files[path].rows ==> y.date != x.date)) &&
          forall x :: multiset(r.value.0.rows)[x] ==
            if forall y :: y in fs.files[path].rows ==> y.date != x.date then multiset(tagged.rows)[x] else 0)
  {
    var r := PopulateToSave(fs, fetch, code, keep, hist, futOpt, fileToSave);
    if r.Ok? && !hist {
      var tagged := TagReport(CleanDisaggFutOpt(fetch, code, keep, futOpt).value.value, DisaggKindOf(futOpt).value);
      var path := HistoryPath(r.value.1);
      var dates := HistoryDates(fs, path).value;
      assert r.value.0.rows == Dedup(tagged.rows, dates);
      DedupKeepsNew(tagged.rows, dates);
      forall x: Row ensures x.date !in dates <==> forall y :: y in fs.files[path].rows ==> y.date != x.date {
        if x.date in dates {
          var y :| y in fs.files[path].rows && y.date == x.date;
        }
      }
    }
  }

  /** Every row `populate_data` saves carries its report's `Report_Type` tag and the market code. */
  lemma PopulateTags(fs: FileSystem, fetch: string -> Frame, code: string, keep: seq<string>, hist: bool,
                     futOpt: string, fileToSave: string)
    requires forall k :: WellFormed(fetch(k))
    ensures var r := PopulateToSave(fs, fetch, code, keep, hist, futOpt, fileToSave);
      r.Ok? ==> forall x :: x in r.value.0.rows ==>
        Get(r.value.0.columns, x, ReportTypeColumn) == Some(Text(DisaggTag(DisaggKindOf(futOpt).value))) &&
        Get(r.value.0.columns, x, MarketCodeColumn) == Some(Text(code))
  {
    var r := PopulateToSave(fs, fetch, code, keep, hist, futOpt, fileToSave);
    if r.Ok? {
      var kind := DisaggKindOf(futOpt).value;
      var cleaned := CleanDisaggFutOpt(fetch, code, keep, futOpt).value.value;
      CleanDisaggFutOptShape(fetch, code, keep, futOpt);
      TagReportRows(cleaned, kind, MarketCodeColumn, Text(code));
      PopulateHistGatesDedup(fs, fetch, code, keep, hist, futOpt, fileToSave);
    }
  }

  /**
    `populate_data(market_code, columns_to_keep, hist, fut_opt, file_to_save)`:
    clean the report, tag it, dedup it against the history file when `hist`
    is false, and save it under FILEDB with the DisaggregatedFuturesOptions
    mapper.  Proved against PopulateToSave and SaveEffect.
   */
  method PopulateData(fs: FileSystem, store: Store, fetch: string -> Frame, code: string, keep: seq<string>,
                      hist: bool, futOpt: string, fileToSave: string, engineAvailable: bool)
    returns (r: Result<Option<BatchResult>, Error>)
    requires fs.Valid() && forall k :: WellFormed(fetch(k))
    modifies fs, store
    ensures fs.Valid() && store.openSessions == old(store.openSessions)
    ensures old(PopulateToSave(fs, fetch, code, keep, hist, futOpt, fileToSave)).Err? ==>
      r == Err(old(PopulateToSave(fs, fetch, code, keep, hist, futOpt, fileToSave)).error) &&
      fs.dirs == old(fs.dirs) && fs.files == old(fs.files) && store.tables == old(store.tables)
    ensures old(PopulateToSave(fs, fetch, code, keep, hist, futOpt, fileToSave)).Ok? ==>
      var (df, name) := old(PopulateToSave(fs, fetch, code, keep, hist, futOpt, fileToSave)).value;
      Saved(r, World(fs.dirs, fs.files, store.tables)) ==
        SaveEffect(World(old(fs.dirs), old(fs.files), old(store.tables)), df, FileDb, name,
                   Some(DisaggregatedFuturesOptions), "", engineAvailable)
  {
    var cleaned :- CleanDisaggFutOpt(fetch, code, keep, futOpt);
    if cleaned.None? {
      return Err(AttributeError);
    }
    if DateColumn in cleaned.value.columns {
      return Err(ValueError);
    }
    var kind := DisaggKindOf(futOpt).value;
    var name := DisaggFileName(fileToSave, code, kind);
    var df := TagReport(cleaned.value, kind);
    if !hist {
      var dates :- HistoryDates(fs, HistoryPath(name));
      df := Frame(df.columns, Dedup(df.rows, dates));
    }
    r := SaveToDir(fs, store, df, FileDb, name, Some(DisaggregatedFuturesOptions), "", engineAvailable);
  }
}

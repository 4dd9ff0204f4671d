/**
  A pandas DataFrame as the pipeline uses it: named columns, and rows that
  carry a date (the frame's 'Date' index, or its 'Date' column once reset)
  and one cell per column.  Column lookups by name use the first column of
  that name, as a frame with unique column names does.
 */
module Frames {
  import opened Wrappers
  import opened Calendar

  /** A cell: an integer position, a string, or a missing value (NaN). */
  datatype Cell = Num(n: int) | Text(s: string) | Missing

  datatype Row = Row(date: Day, cells: seq<Cell>)

  datatype Frame = Frame(columns: seq<string>, rows: seq<Row>)

  /** The exceptions the pipeline can raise. */
  datatype Error =
    | KeyError(column: string)   // a column looked up by name is absent
    | TypeError                  // arithmetic on a string cell
    | ValueError                 // reindexing onto duplicate dates, or no free name for reset_index
    | IndexError                 // `iloc[0]` of an empty frame
    | AttributeError             // a method called on `None`
    | UnboundLocalError          // a local read before any branch assigned it
    | FileNotFound               // `read_csv` of a path that does not exist
    | OSError                    // writing through a file, or onto a directory
    | ConnectionError            // the database engine could not be set up

  /** Every row has exactly one cell per column. */
  predicate WellFormed(f: Frame) {
    forall x :: x in f.rows ==> |x.cells| == |f.columns|
  }

  /** The position of the first column called `name`. */
  function IndexOf(names: seq<string>, name: string): (r: Option<nat>)
    ensures r.None? <==> name !in names
    ensures r.Some? ==> r.value < |names| && names[r.value] == name
    ensures r.Some? ==> forall j :: 0 <= j < r.value ==> names[j] != name
  {
    if names == [] then None
    else if names[0] == name then Some(0)
    else match IndexOf(names[1..], name)
      case None => None
      case Some(i) => Some(i + 1)
  }

  /** Appending a column leaves the positions of the other names unchanged. */
  lemma {:induction false} IndexOfAppend(names: seq<string>, extra: string, name: string)
    requires name != extra
    ensures IndexOf(names + [extra], name) == IndexOf(names, name)
  {
    if names != [] {
      assert (names + [extra])[1..] == names[1..] + [extra];
      IndexOfAppend(names[1..], extra, name);
    }
  }

  /** The cell of row `x` in the column called `name`, if there is one. */
  function Get(columns: seq<string>, x: Row, name: string): Option<Cell> {
    match IndexOf(columns, name)
    case None => None
    case Some(k) => if k < |x.cells| then Some(x.cells[k]) else None
  }

  /** A column holding the same value in each of `n` rows (assigning a scalar). */
  function Const(n: nat, c: Cell): (r: seq<Cell>)
    ensures |r| == n && forall i :: 0 <= i < n ==> r[i] == c
  {
    seq(n, _ => c)
  }

  /**
    `df[name] = vals`: overwrite the column called `name`, or append it as
    the last column when the frame has none of that name.
   */
  function SetColumn(f: Frame, name: string, vals: seq<Cell>): (r: Frame)
    requires WellFormed(f) && |vals| == |f.rows|
    ensures WellFormed(r) && |r.rows| == |f.rows|
    ensures r.columns == if name in f.columns then f.columns else f.columns + [name]
    ensures forall i :: 0 <= i < |r.rows| ==> r.rows[i].date == f.rows[i].date
    ensures forall i :: 0 <= i < |r.rows| ==> Get(r.columns, r.rows[i], name) == Some(vals[i])
    ensures forall i, n :: 0 <= i < |r.rows| && n != name ==>
      Get(r.columns, r.rows[i], n) == Get(f.columns, f.rows[i], n)
  {
    match IndexOf(f.columns, name)
    case Some(k) => OverwriteColumn(f, name, k, vals)
    case None => AppendColumn(f, name, vals)
  }

  /** SetColumn on a frame whose first column called `name` is at position `k`. */
  function OverwriteColumn(f: Frame, name: string, k: nat, vals: seq<Cell>): (r: Frame)
    requires WellFormed(f) && |vals| == |f.rows| && IndexOf(f.columns, name) == Some(k)
    ensures WellFormed(r) && |r.rows| == |f.rows| && r.columns == f.columns
    ensures forall i :: 0 <= i < |r.rows| ==> r.rows[i].date == f.rows[i].date
    ensures forall i :: 0 <= i < |r.rows| ==> Get(r.columns, r.rows[i], name) == Some(vals[i])
    ensures forall i, n :: 0 <= i < |r.rows| && n != name ==>
      Get(r.columns, r.rows[i], n) == Get(f.columns, f.rows[i], n)
  {
    var rows := seq(|f.rows|, i requires 0 <= i < |f.rows| =>
      Row(f.rows[i].date, f.rows[i].cells[k := vals[i]]));
    assert forall i :: 0 <= i < |rows| ==> f.rows[i] in f.rows;
    Frame(f.columns, rows)
  }

  /** SetColumn on a frame without a column called `name`. */
  function AppendColumn(f: Frame, name: string, vals: seq<Cell>): (r: Frame)
    requires WellFormed(f) && |vals| == |f.rows| && name !in f.columns
    ensures WellFormed(r) && |r.rows| == |f.rows| && r.columns == f.columns + [name]
    ensures forall i :: 0 <= i < |r.rows| ==> r.rows[i].date == f.rows[i].date
    ensures forall i :: 0 <= i < |r.rows| ==> Get(r.columns, r.rows[i], name) == Some(vals[i])
    ensures forall i, n :: 0 <= i < |r.rows| && n != name ==>
      Get(r.columns, r.rows[i], n) == Get(f.columns, f.rows[i], n)
  {
    var rows := seq(|f.rows|, i requires 0 <= i < |f.rows| =>
      Row(f.rows[i].date, f.rows[i].cells + [vals[i]]));
    assert forall i :: 0 <= i < |rows| ==> f.rows[i] in f.rows;
    assert forall n :: n != name ==> IndexOf(f.columns + [name], n) == IndexOf(f.columns, n) by {
      forall n | n != name ensures IndexOf(f.columns + [name], n) == IndexOf(f.columns, n) {
        IndexOfAppend(f.columns, name, n);
      }
    }
    Frame(f.columns + [name], rows)
  }

  /** The first of `names` that is not a column of the frame. */
  function FirstAbsent(columns: seq<string>, names: seq<string>): (r: Option<string>)
    ensures r.None? <==> forall n :: n in names ==> n in columns
    ensures r.Some? ==> r.value in names && r.value !in columns
  {
    if names == [] then None
    else if names[0] !in columns then Some(names[0])
    else FirstAbsent(columns, names[1..])
  }

  /** `df[names]`: the listed columns, in the listed order; a KeyError if one is absent. */
  function SelectColumns(f: Frame, names: seq<string>): (r: Result<Frame, Error>)
    requires WellFormed(f)
    ensures r.Err? <==> exists n :: n in names && n !in f.columns
    ensures r.Err? ==> r.error.KeyError? && r.error.column in names && r.error.column !in f.columns
    ensures r.Ok? ==> WellFormed(r.value) && r.value.columns == names && |r.value.rows| == |f.rows|
    ensures r.Ok? ==> forall i :: 0 <= i < |f.rows| ==> r.value.rows[i].date == f.rows[i].date
    ensures r.Ok? ==> forall i, j :: 0 <= i < |f.rows| && 0 <= j < |names| ==>
      Some(r.value.rows[i].cells[j]) == Get(f.columns, f.rows[i], names[j])
  {
    match FirstAbsent(f.columns, names)
    case Some(n) => Err(KeyError(n))
    case None =>
      assert forall i :: 0 <= i < |f.rows| ==> f.rows[i] in f.rows;
      var rows := seq(|f.rows|, i requires 0 <= i < |f.rows| =>
        Row(f.rows[i].date, seq(|names|, j requires 0 <= j < |names| =>
          f.rows[i].cells[IndexOf(f.columns, names[j]).value])));
      Ok(Frame(names, rows))
  }

  /** `replace('.', np.nan)` on one cell. */
  function ReplaceDot(c: Cell): Cell {
    if c == Text(".") then Missing else c
  }

  /** A lookup read after the replacement: a "." cell reads as NaN, an absent column stays absent. */
  function DotAsNaN(c: Option<Cell>): Option<Cell> {
    match c
    case None => None
    case Some(v) => Some(ReplaceDot(v))
  }

  /** `df.replace('.', np.nan)`: every cell that is exactly "." becomes missing. */
  function ReplaceDots(f: Frame): (r: Frame)
    ensures r.columns == f.columns && |r.rows| == |f.rows|
    ensures WellFormed(f) ==> WellFormed(r)
    ensures forall i :: 0 <= i < |r.rows| ==>
      r.rows[i].date == f.rows[i].date && |r.rows[i].cells| == |f.rows[i].cells|
    ensures forall i, k :: 0 <= i < |r.rows| && 0 <= k < |r.rows[i].cells| ==>
      r.rows[i].cells[k] == (if f.rows[i].cells[k] == Text(".") then Missing else f.rows[i].cells[k])
  {
    var rows := seq(|f.rows|, i requires 0 <= i < |f.rows| =>
      Row(f.rows[i].date, seq(|f.rows[i].cells|, k requires 0 <= k < |f.rows[i].cells| =>
        ReplaceDot(f.rows[i].cells[k]))));
    assert forall i :: 0 <= i < |f.rows| ==> f.rows[i] in f.rows;
    Frame(f.columns, rows)
  }

  /** The rows for which `keep` holds, in their original order, every copy of a kept row included. */
  function Filter(rows: seq<Row>, keep: Row -> bool): (r: seq<Row>)
    ensures forall x :: x in r <==> x in rows && keep(x)
    ensures multiset(r) <= multiset(rows)
  {
    if rows == [] then []
    else
      assert rows == [rows[0]] + rows[1..];
      (if keep(rows[0]) then [rows[0]] else []) + Filter(rows[1..], keep)
  }

  /** A filter keeps every copy of a row it keeps, and no copy of a row it drops. */
  lemma {:induction false} FilterCount(rows: seq<Row>, keep: Row -> bool)
    ensures forall y :: multiset(Filter(rows, keep))[y] == if keep(y) then multiset(rows)[y] else 0
  {
    if rows != [] {
      FilterCount(rows[1..], keep);
      assert rows == [rows[0]] + rows[1..];
      assert multiset(rows) == multiset{rows[0]} + multiset(rows[1..]);
    }
  }

  /** Filtering distributes over concatenation: kept rows keep their relative order. */
  lemma {:induction false} FilterAppend(a: seq<Row>, b: seq<Row>, keep: Row -> bool)
    ensures Filter(a + b, keep) == Filter(a, keep) + Filter(b, keep)
  {
    if a == [] {
      assert a + b == b;
    } else {
      assert (a + b)[1..] == a[1..] + b;
      FilterAppend(a[1..], b, keep);
    }
  }

  /** A filter that keeps every row returns its input unchanged. */
  lemma {:induction false} FilterKeepsAll(rows: seq<Row>, keep: Row -> bool)
    requires forall x :: x in rows ==> keep(x)
    ensures Filter(rows, keep) == rows
  {
    if rows != [] {
      FilterKeepsAll(rows[1..], keep);
    }
  }

  /** `a` is `b` with some rows left out, the rest in their original order. */
  predicate IsSubsequence(a: seq<Row>, b: seq<Row>)
    decreases |b|
  {
    if a == [] then true
    else if b == [] then false
    else (a[0] == b[0] && IsSubsequence(a[1..], b[1..])) || IsSubsequence(a, b[1..])
  }

  /** A filter keeps an order-preserving subsequence of its input. */
  lemma {:induction false} FilterSubsequence(rows: seq<Row>, keep: Row -> bool)
    ensures IsSubsequence(Filter(rows, keep), rows)
  {
    if rows != [] {
      FilterSubsequence(rows[1..], keep);
      var rest := Filter(rows[1..], keep);
      if keep(rows[0]) {
        assert Filter(rows, keep) == [rows[0]] + rest;
        assert ([rows[0]] + rest)[1..] == rest;
      } else {
        assert Filter(rows, keep) == rest;
      }
    }
  }

  /**
    `drop_duplicates()`: the first occurrence of each distinct row, in
    order.  The contract states the row set and the absence of repeats,
    which is all the date lookups that follow it read.
   */
  function DropDuplicates(rows: seq<Row>): (r: seq<Row>)
    ensures forall x :: x in r <==> x in rows
    ensures forall i, j :: 0 <= i < j < |r| ==> r[i] != r[j]
  {
    if rows == [] then []
    else
      var init := DropDuplicates(rows[..|rows| - 1]);
      var x := rows[|rows| - 1];
      assert rows == rows[..|rows| - 1] + [x];
      if x in init then init else init + [x]
  }

  /** `df[df[column] == v]`: the rows whose `column` cell equals v; a KeyError if there is no such column. */
  function FilterEq(f: Frame, column: string, v: Cell): (r: Result<Frame, Error>)
    requires WellFormed(f)
    ensures r.Err? <==> column !in f.columns
    ensures r.Err? ==> r.error == KeyError(column)
    ensures r.Ok? ==> WellFormed(r.value) && r.value.columns == f.columns
    ensures r.Ok? ==> forall x :: x in r.value.rows <==> x in f.rows && Get(f.columns, x, column) == Some(v)
    ensures r.Ok? ==> multiset(r.value.rows) <= multiset(f.rows)
    ensures r.Ok? ==> forall y :: multiset(r.value.rows)[y] == if Get(f.columns, y, column) == Some(v) then multiset(f.rows)[y] else 0
  {
    match IndexOf(f.columns, column)
    case None => Err(KeyError(column))
    case Some(k) =>
      FilterCount(f.rows, (x: Row) => k < |x.cells| && x.cells[k] == v);
      Ok(Frame(f.columns, Filter(f.rows, (x: Row) => k < |x.cells| && x.cells[k] == v)))
  }

  /** The dates of the rows, in row order. */
  function Dates(rows: seq<Row>): (r: seq<Day>)
    ensures |r| == |rows| && forall i :: 0 <= i < |rows| ==> r[i] == rows[i].date
  {
    seq(|rows|, i requires 0 <= i < |rows| => rows[i].date)
  }

  /** `x` may come before `y` in a frame sorted by date in the given direction. */
  predicate InOrder(x: Row, y: Row, ascending: bool) {
    if ascending then x.date <= y.date else x.date >= y.date
  }

  predicate Sorted(rows: seq<Row>, ascending: bool) {
    forall i, j :: 0 <= i < j < |rows| ==> InOrder(rows[i], rows[j], ascending)
  }

  /** Sorted with no date repeated. */
  predicate StrictlySorted(rows: seq<Row>, ascending: bool) {
    forall i, j :: 0 <= i < j < |rows| ==> rows[i].date != rows[j].date && InOrder(rows[i], rows[j], ascending)
  }

  predicate DistinctDates(rows: seq<Row>) {
    forall i, j :: 0 <= i < j < |rows| ==> rows[i].date != rows[j].date
  }

  /** Places `x` before the first row it may precede. */
  function Insert(x: Row, rows: seq<Row>, ascending: bool): (r: seq<Row>)
    ensures multiset(r) == multiset(rows) + multiset{x}
  {
    if rows == [] || InOrder(x, rows[0], ascending) then [x] + rows
    else
      assert rows == [rows[0]] + rows[1..];
      [rows[0]] + Insert(x, rows[1..], ascending)
  }

  /** Inserting into a sorted sequence keeps it sorted. */
  lemma {:induction false} InsertSorted(x: Row, rows: seq<Row>, ascending: bool)
    requires Sorted(rows, ascending)
    ensures Sorted(Insert(x, rows, ascending), ascending)
  {
    if rows != [] && !InOrder(x, rows[0], ascending) {
      InsertSorted(x, rows[1..], ascending);
      var rest := Insert(x, rows[1..], ascending);
      var r := [rows[0]] + rest;
      assert Insert(x, rows, ascending) == r;
      forall y | y in rest ensures InOrder(rows[0], y, ascending) {
        assert y in multiset(rest);
        if y != x {
          assert y in rows[1..];
        }
      }
      forall i, j | 0 <= i < j < |r| ensures InOrder(r[i], r[j], ascending) {
        if i == 0 {
          assert r[j] == rest[j - 1] && r[j] in rest;
        } else {
          assert r[i] == rest[i - 1] && r[j] == rest[j - 1];
        }
      }
    }
  }

  /**
    `sort_values` / `sort_index` on the date: a permutation of the rows
    ordered by date in the given direction (rows of equal date keep their
    relative order).
   */
  function SortByDate(rows: seq<Row>, ascending: bool): (r: seq<Row>)
    ensures Sorted(r, ascending)
    ensures multiset(r) == multiset(rows)
  {
    if rows == [] then []
    else
      assert rows == [rows[0]] + rows[1..];
      var rest := SortByDate(rows[1..], ascending);
      InsertSorted(rows[0], rest, ascending);
      Insert(rows[0], rest, ascending)
  }

  /** Inserting a row of a new date into a strictly sorted sequence keeps it strict. */
  lemma {:induction false} InsertStrict(x: Row, rows: seq<Row>, ascending: bool)
    requires StrictlySorted(rows, ascending)
    requires forall y :: y in rows ==> y.date != x.date
    ensures StrictlySorted(Insert(x, rows, ascending), ascending)
  {
    InsertSorted(x, rows, ascending);
    if rows != [] && !InOrder(x, rows[0], ascending) {
      InsertStrict(x, rows[1..], ascending);
      var rest := Insert(x, rows[1..], ascending);
      assert Insert(x, rows, ascending) == [rows[0]] + rest;
      forall y | y in rest ensures y.date != rows[0].date {
        assert y in multiset(rest);
        if y != x {
          assert y in rows[1..];
        }
      }
      ConsDistinct(rows[0], rest);
    }
  }

  /** A row whose date none of `rest` has, put in front of rows of distinct dates, keeps the dates distinct. */
  lemma ConsDistinct(h: Row, rest: seq<Row>)
    requires DistinctDates(rest) && forall y :: y in rest ==> y.date != h.date
    ensures DistinctDates([h] + rest)
  {
    var r := [h] + rest;
    forall i, j | 0 <= i < j < |r| ensures r[i].date != r[j].date {
      if i == 0 {
        assert r[j] == rest[j - 1] && r[j] in rest;
      } else {
        assert r[i] == rest[i - 1] && r[j] == rest[j - 1];
      }
    }
  }

  /** Sorting rows of pairwise distinct dates yields a strictly sorted sequence. */
  lemma {:induction false} SortStrict(rows: seq<Row>, ascending: bool)
    requires DistinctDates(rows)
    ensures StrictlySorted(SortByDate(rows, ascending), ascending)
  {
    if rows != [] {
      SortStrict(rows[1..], ascending);
      var sorted := SortByDate(rows[1..], ascending);
      forall y | y in sorted ensures y.date != rows[0].date {
        assert y in multiset(sorted);
        assert y in rows[1..];
      }
      InsertStrict(rows[0], sorted, ascending);
    }
  }

  /** A row is in the sorted sequence exactly when it is in the input. */
  lemma SortMembers(rows: seq<Row>, ascending: bool)
    ensures forall x :: x in SortByDate(rows, ascending) <==> x in rows
  {
    var r := SortByDate(rows, ascending);
    forall x ensures x in r <==> x in rows {
      assert x in r <==> x in multiset(r);
      assert x in rows <==> x in multiset(rows);
    }
  }

  /** The date of a row is among the frame's dates. */
  lemma DateOfMember(rows: seq<Row>, x: Row)
    requires x in rows
    ensures x.date in Dates(rows)
  {
    var i :| 0 <= i < |rows| && rows[i] == x;
    assert Dates(rows)[i] == x.date;
  }

  /** Each of the frame's dates belongs to one of its rows. */
  lemma MemberOfDate(rows: seq<Row>, d: Day) returns (x: Row)
    requires d in Dates(rows)
    ensures x in rows && x.date == d
  {
    var i :| 0 <= i < |rows| && Dates(rows)[i] == d;
    x := rows[i];
  }

  /** Sorting keeps the set of dates. */
  lemma SortDates(rows: seq<Row>, ascending: bool)
    ensures forall d :: d in Dates(SortByDate(rows, ascending)) <==> d in Dates(rows)
  {
    var r := SortByDate(rows, ascending);
    SortMembers(rows, ascending);
    forall d ensures d in Dates(r) <==> d in Dates(rows) {
      if d in Dates(r) {
        var x := MemberOfDate(r, d);
        DateOfMember(rows, x);
      }
      if d in Dates(rows) {
        var x := MemberOfDate(rows, d);
        DateOfMember(r, x);
      }
    }
  }

  /** A cell that is not "." reads the same after `replace('.', np.nan)`. */
  /** After the replacement a column reads its old cell, with "." turned into NaN. */
  lemma GetReplaceDot(f: Frame, i: nat, name: string)
    requires i < |f.rows|
    ensures Get(f.columns, ReplaceDots(f).rows[i], name) == DotAsNaN(Get(f.columns, f.rows[i], name))
  {
  }

  lemma GetReplaceDots(f: Frame, i: nat, name: string)
    requires i < |f.rows|
    requires Get(f.columns, f.rows[i], name).Some? && Get(f.columns, f.rows[i], name).value != Text(".")
    ensures Get(f.columns, ReplaceDots(f).rows[i], name) == Get(f.columns, f.rows[i], name)
  {
  }

  /** What a row says in the listed columns: its date and those cells, with "." read as NaN. */
  function Projection(columns: seq<string>, names: seq<string>, x: Row): (Day, seq<Option<Cell>>) {
    (x.date, seq(|names|, j requires 0 <= j < |names| => DotAsNaN(Get(columns, x, names[j]))))
  }

  /** The projection of every row, in order. */
  function Projected(columns: seq<string>, names: seq<string>, rows: seq<Row>): (r: seq<(Day, seq<Option<Cell>>)>)
    ensures |r| == |rows| && forall i :: 0 <= i < |rows| ==> r[i] == Projection(columns, names, rows[i])
  {
    seq(|rows|, i requires 0 <= i < |rows| => Projection(columns, names, rows[i]))
  }

  /** Two rows with the same date and the same cells, "." read as NaN, in the listed columns have the same projection. */
  lemma ProjectionSame(c1: seq<string>, x1: Row, c2: seq<string>, x2: Row, names: seq<string>)
    requires x1.date == x2.date
    requires forall n :: n in names ==> DotAsNaN(Get(c1, x1, n)) == DotAsNaN(Get(c2, x2, n))
    ensures Projection(c1, names, x1) == Projection(c2, names, x2)
  {
    var p1, p2 := Projection(c1, names, x1).1, Projection(c2, names, x2).1;
    assert |p1| == |p2|;
    forall j | 0 <= j < |names| ensures p1[j] == p2[j] {
      assert names[j] in names;
    }
    assert p1 == p2;
  }

  /** Reading "." as NaN twice is reading it once. */
  lemma DotAsNaNTwice(c: Option<Cell>)
    ensures DotAsNaN(DotAsNaN(c)) == DotAsNaN(c)
  {
  }

  /** Projecting distributes over concatenation. */
  lemma ProjectedAppend(columns: seq<string>, names: seq<string>, a: seq<Row>, b: seq<Row>)
    ensures Projected(columns, names, a + b) == Projected(columns, names, a) + Projected(columns, names, b)
  {
  }

  /** Taking one matching element out of two permutations of each other leaves permutations. */
  lemma PermRemove<T>(a: seq<T>, b: seq<T>, j: nat)
    requires multiset(a) == multiset(b) && a != [] && j < |b| && b[j] == a[0]
    ensures multiset(a[1..]) == multiset(b[..j] + b[j + 1..])
  {
    assert a == [a[0]] + a[1..];
    assert b == b[..j] + [b[j]] + b[j + 1..];
    assert multiset(a[1..]) == multiset(a) - multiset{a[0]};
    assert multiset(b[..j] + b[j + 1..]) == multiset(b) - multiset{b[j]};
  }

  /** Reordering the rows reorders their projections: the bag of projections is unchanged. */
  lemma {:induction false} ProjectedPerm(columns: seq<string>, names: seq<string>, a: seq<Row>, b: seq<Row>)
    requires multiset(a) == multiset(b)
    ensures multiset(Projected(columns, names, a)) == multiset(Projected(columns, names, b))
    decreases |a|
  {
    if a == [] {
      assert |b| == |multiset(b)| == 0;
    } else {
      var x := a[0];
      assert x in multiset(b);
      var j :| 0 <= j < |b| && b[j] == x;
      var lo, hi := b[..j], b[j + 1..];
      assert b == lo + [x] + hi;
      assert a == [x] + a[1..];
      PermRemove(a, b, j);
      ProjectedPerm(columns, names, a[1..], lo + hi);
      ProjectedAppend(columns, names, [x], a[1..]);
      ProjectedAppend(columns, names, lo + [x], hi);
      ProjectedAppend(columns, names, lo, [x]);
      ProjectedAppend(columns, names, lo, hi);
    }
  }
}

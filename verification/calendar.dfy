/**
  Calendar arithmetic on day numbers: weekdays, ranges of days, and the
  business-day offset that `x + lag * BDay()` applies to a date.
 */
module Calendar {

  /** A calendar day, counted from 1970-01-01 (day 0, a Thursday). */
  type Day = int

  /** Day of the week, 0 = Monday .. 6 = Sunday. */
  function DayOfWeek(d: Day): (w: int)
    ensures 0 <= w < 7
  {
    (d + 3) % 7
  }

  /** Monday to Friday: the days of the 'B' (business day) frequency. */
  predicate IsWeekday(d: Day) {
    DayOfWeek(d) < 5
  }

  /** The first weekday strictly after `d`. */
  function NextWeekday(d: Day): (r: Day)
    ensures d < r && IsWeekday(r)
    ensures forall e :: d < e < r ==> !IsWeekday(e)
  {
    var w := DayOfWeek(d);
    if w == 4 then d + 3 else if w == 5 then d + 2 else d + 1
  }

  /** The last weekday strictly before `d`. */
  function PrevWeekday(d: Day): (r: Day)
    ensures r < d && IsWeekday(r)
    ensures forall e :: r < e < d ==> !IsWeekday(e)
  {
    var w := DayOfWeek(d);
    if w == 0 then d - 3 else if w == 6 then d - 2 else d - 1
  }

  /** A weekday stays put; a Saturday or Sunday moves on to the Monday. */
  function RollForward(d: Day): (r: Day)
    ensures d <= r && IsWeekday(r)
    ensures IsWeekday(d) ==> r == d
    ensures forall e :: d <= e < r ==> !IsWeekday(e)
  {
    if IsWeekday(d) then d else NextWeekday(d)
  }

  /**
    `d + n * BDay()`: for n > 0 the n-th weekday strictly after d, for n < 0
    the |n|-th weekday strictly before d, for n = 0 the roll-forward of d.
   */
  function AddBusinessDays(d: Day, n: int): (r: Day)
    ensures IsWeekday(r)
    ensures n > 0 ==> d < r
    ensures n < 0 ==> r < d
    ensures n == 0 ==> d <= r && (IsWeekday(d) ==> r == d) && r == RollForward(d)
    decreases if n < 0 then -n else n
  {
    if n == 0 then RollForward(d)
    else if n > 0 then AddBusinessDays(NextWeekday(d), n - 1)
    else AddBusinessDays(PrevWeekday(d), n + 1)
  }

  /**
    The days of [lo, hi] that satisfy `p`, in increasing order (what
    DaysWhereMembers and DaysWhereIncreasing state).
   */
  function DaysWhere(p: Day -> bool, lo: Day, hi: Day): seq<Day>
    decreases hi - lo
  {
    if lo > hi then []
    else (if p(lo) then [lo] else []) + DaysWhere(p, lo + 1, hi)
  }

  /** The weekdays of [lo, hi], increasing: the labels of a 'B' resample. */
  function Weekdays(lo: Day, hi: Day): seq<Day> {
    DaysWhere(IsWeekday, lo, hi)
  }

  /** A day is enumerated exactly when it lies in the range and satisfies `p`. */
  lemma {:induction false} DaysWhereMembers(p: Day -> bool, lo: Day, hi: Day)
    ensures forall e :: e in DaysWhere(p, lo, hi) <==> lo <= e <= hi && p(e)
    decreases hi - lo
  {
    if lo <= hi {
      DaysWhereMembers(p, lo + 1, hi);
    }
  }

  /** The enumeration is strictly increasing and stays inside the range. */
  lemma {:induction false} DaysWhereIncreasing(p: Day -> bool, lo: Day, hi: Day)
    ensures forall i :: 0 <= i < |DaysWhere(p, lo, hi)| ==> lo <= DaysWhere(p, lo, hi)[i] <= hi
    ensures forall i, j :: 0 <= i < j < |DaysWhere(p, lo, hi)| ==> DaysWhere(p, lo, hi)[i] < DaysWhere(p, lo, hi)[j]
    decreases hi - lo
  {
    if lo <= hi {
      DaysWhereIncreasing(p, lo + 1, hi);
      var rest := DaysWhere(p, lo + 1, hi);
      var r := DaysWhere(p, lo, hi);
      if p(lo) {
        assert r == [lo] + rest;
        forall i, j | 0 <= i < j < |r| ensures r[i] < r[j] {
          if i > 0 {
            assert r[i] == rest[i - 1] && r[j] == rest[j - 1];
          } else {
            assert r[j] == rest[j - 1];
          }
        }
      } else {
        assert r == rest;
      }
    }
  }

  /** Splitting a range of days splits the enumeration. */
  lemma {:induction false} DaysWhereSplit(p: Day -> bool, lo: Day, mid: Day, hi: Day)
    requires lo - 1 <= mid <= hi
    ensures DaysWhere(p, lo, hi) == DaysWhere(p, lo, mid) + DaysWhere(p, mid + 1, hi)
    decreases mid - lo
  {
    if lo <= mid {
      DaysWhereSplit(p, lo + 1, mid, hi);
    }
  }

  /** A range holding no day that satisfies `p` enumerates to nothing. */
  lemma {:induction false} DaysWhereNone(p: Day -> bool, lo: Day, hi: Day)
    requires forall e :: lo <= e <= hi ==> !p(e)
    ensures DaysWhere(p, lo, hi) == []
    decreases hi - lo
  {
    if lo <= hi {
      DaysWhereNone(p, lo + 1, hi);
    }
  }

  /** Exactly one weekday lies in (d, NextWeekday(d)]: the next weekday itself. */
  lemma WeekdaysUpToNext(d: Day)
    ensures Weekdays(d + 1, NextWeekday(d)) == [NextWeekday(d)]
  {
    var w := NextWeekday(d);
    DaysWhereNone(IsWeekday, d + 1, w - 1);
    DaysWhereSplit(IsWeekday, d + 1, w - 1, w);
    assert DaysWhere(IsWeekday, w + 1, w) == [];
    assert DaysWhere(IsWeekday, w, w) == [w];
  }

  /** Exactly one weekday lies in [PrevWeekday(d), d): the previous weekday itself. */
  lemma WeekdaysFromPrev(d: Day)
    ensures Weekdays(PrevWeekday(d), d - 1) == [PrevWeekday(d)]
  {
    var w := PrevWeekday(d);
    DaysWhereNone(IsWeekday, w + 1, d - 1);
    DaysWhereSplit(IsWeekday, w, w, d - 1);
    assert DaysWhere(IsWeekday, w + 1, w) == [];
    assert DaysWhere(IsWeekday, w, w) == [w];
  }

  /**
    For n >= 1, `d + n * BDay()` is the n-th weekday strictly after d: it is a
    weekday after d and exactly n weekdays lie in (d, result].
   */
  lemma {:induction false} AddBusinessDaysForward(d: Day, n: int)
    requires n >= 1
    ensures var r := AddBusinessDays(d, n);
      d < r && IsWeekday(r) && |Weekdays(d + 1, r)| == n
    decreases n
  {
    var w := NextWeekday(d);
    WeekdaysUpToNext(d);
    assert AddBusinessDays(d, n) == AddBusinessDays(w, n - 1);
    if n == 1 {
      assert AddBusinessDays(w, 0) == w;
    } else {
      AddBusinessDaysForward(w, n - 1);
      var r := AddBusinessDays(w, n - 1);
      DaysWhereSplit(IsWeekday, d + 1, w, r);
    }
  }

  /**
    For n <= -1, `d + n * BDay()` is the |n|-th weekday strictly before d:
    a weekday before d with exactly |n| weekdays in [result, d).
   */
  lemma {:induction false} AddBusinessDaysBackward(d: Day, n: int)
    requires n <= -1
    ensures var r := AddBusinessDays(d, n);
      r < d && IsWeekday(r) && |Weekdays(r, d - 1)| == -n
    decreases -n
  {
    var w := PrevWeekday(d);
    WeekdaysFromPrev(d);
    assert AddBusinessDays(d, n) == AddBusinessDays(w, n + 1);
    if n == -1 {
      assert AddBusinessDays(w, 0) == w;
    } else {
      AddBusinessDaysBackward(w, n + 1);
      var r := AddBusinessDays(w, n + 1);
      DaysWhereSplit(IsWeekday, r, w - 1, d - 1);
      assert Weekdays(r, d - 1) == Weekdays(r, w - 1) + Weekdays(w, d - 1);
      assert |Weekdays(r, d - 1)| == -(n + 1) + 1;
    }
  }
}

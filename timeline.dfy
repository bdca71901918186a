/** The registration time series (dashboard.py:172-181 and 261-265): the
    number of registrations per date, in date order, re-bucketed by
    calendar month with `resample('M').sum()`. */
module Timeline {
  import opened Records
  import opened Sequences
  import opened Sorting
  import opened Frequency
  import opened Filters

  /** `sort_index` on a date-indexed table. */
  predicate KeyBefore(a: Entry<CalendarDate>, b: Entry<CalendarDate>) {
    DateLe(a.key, b.key)
  }

  lemma KeyBeforePreorder()
    ensures TotalPreorder(KeyBefore)
  {
  }

  /** `dates.value_counts().sort_index()`: each registration date once,
      with its number of registrations, earliest date first. */
  function DateCounts(dates: seq<CalendarDate>): (t: seq<Entry<CalendarDate>>)
    ensures forall i, j :: 0 <= i < j < |t| ==> DateLe(t[i].key, t[j].key) && t[i].key != t[j].key
    ensures forall i :: 0 <= i < |t| ==> t[i].count == multiset(dates)[t[i].key]
    ensures forall d :: d in dates <==> d in Keys(t)
    ensures Total(t) == |dates|
  {
    var t := SortBy(ValueCounts(dates), KeyBefore);
    SortedDateTable(dates, t);
    t
  }

  /** The date table holds the same entries as the first-seen tally. */
  lemma DateCountsPermutation(dates: seq<CalendarDate>)
    ensures multiset(DateCounts(dates)) == multiset(Counted(dates))
  {
  }

  /** Sorting `value_counts` by date gives a table in strictly ascending
      date order that keeps every date's count. */
  lemma SortedDateTable(dates: seq<CalendarDate>, t: seq<Entry<CalendarDate>>)
    requires t == SortBy(ValueCounts(dates), KeyBefore)
    ensures forall i, j :: 0 <= i < j < |t| ==> DateLe(t[i].key, t[j].key) && t[i].key != t[j].key
    ensures forall i :: 0 <= i < |t| ==> t[i].count == multiset(dates)[t[i].key]
    ensures forall d :: d in dates <==> d in Keys(t)
    ensures Total(t) == |dates|
  {
    var v := ValueCounts(dates);
    KeyBeforePreorder();
    SortBySorted(v, KeyBefore);
    PermutedTable(v, t);
    forall i | 0 <= i < |t| ensures t[i].count == multiset(dates)[t[i].key] {
      assert t[i] in multiset(v);
    }
    TotalWherePermutation(v, t, Always);
  }

  // ---------------------------------------------------------------------
  // Monthly buckets.

  /** The mask "falls in month `m`". */
  function InMonth(m: int): CalendarDate -> bool {
    d => MonthIndex(d) == m
  }

  /** The mask "falls in a month from `lo` up to but not including `hi`". */
  function MonthsWithin(lo: int, hi: int): CalendarDate -> bool {
    d => lo <= MonthIndex(d) < hi
  }

  function MonthOf(e: Entry<CalendarDate>): int {
    MonthIndex(e.key)
  }

  /** The position of an entry in the earliest month. */
  function EarliestAt(t: seq<Entry<CalendarDate>>): (i: nat)
    requires t != []
    ensures i < |t| && forall j :: 0 <= j < |t| ==> MonthOf(t[i]) <= MonthOf(t[j])
  {
    if |t| == 1 then 0
    else
      var i := EarliestAt(t[1..]) + 1;
      assert forall j :: 1 <= j < |t| ==> t[j] == t[1..][j - 1];
      if MonthOf(t[0]) <= MonthOf(t[i]) then 0 else i
  }

  /** The position of an entry in the latest month. */
  function LatestAt(t: seq<Entry<CalendarDate>>): (i: nat)
    requires t != []
    ensures i < |t| && forall j :: 0 <= j < |t| ==> MonthOf(t[j]) <= MonthOf(t[i])
  {
    if |t| == 1 then 0
    else
      var i := LatestAt(t[1..]) + 1;
      assert forall j :: 1 <= j < |t| ==> t[j] == t[1..][j - 1];
      if MonthOf(t[0]) >= MonthOf(t[i]) then 0 else i
  }

  function FirstMonth(t: seq<Entry<CalendarDate>>): (m: int)
    requires t != []
    ensures ValidMonth(m)
  {
    ValidDateMonth(t[EarliestAt(t)].key);
    MonthOf(t[EarliestAt(t)])
  }

  function LastMonth(t: seq<Entry<CalendarDate>>): (m: int)
    requires t != []
    ensures ValidMonth(m)
  {
    ValidDateMonth(t[LatestAt(t)].key);
    MonthOf(t[LatestAt(t)])
  }

  /** The bucket of month `m`: labelled by the month's last day, holding
      the sum of the counts of the table's dates in that month. */
  function Bucket(t: seq<Entry<CalendarDate>>, m: int): (e: Entry<CalendarDate>)
    requires ValidMonth(m)
    ensures MonthOf(e) == m && e.key.day == DaysInMonth(e.key.year, e.key.month)
    ensures e.count == TotalWhere(t, InMonth(m))
  {
    Entry(MonthEnd(m), TotalWhere(t, InMonth(m)))
  }

  /** `resample('M', on='Date').sum()`: one bucket for every calendar
      month from the earliest to the latest month of the table, so a month
      without dates gets a bucket holding 0. Each bucket is labelled by
      its month's last day, holds the sum of the counts of its month, and
      no count is lost. */
  function Resample(t: seq<Entry<CalendarDate>>): (r: seq<Entry<CalendarDate>>)
    ensures r == [] <==> t == []
    ensures t != [] ==> MonthOf(r[0]) == FirstMonth(t) && MonthOf(r[|r| - 1]) == LastMonth(t)
    ensures forall k :: 0 <= k < |r| ==> MonthOf(r[k]) == MonthOf(r[0]) + k
    ensures forall k :: 0 <= k < |r| ==> r[k].key.day == DaysInMonth(r[k].key.year, r[k].key.month)
    ensures forall k :: 0 <= k < |r| ==> r[k].count == TotalWhere(t, InMonth(MonthOf(r[k])))
    ensures forall i, j :: 0 <= i < j < |r| ==> DateLe(r[i].key, r[j].key) && r[i].key != r[j].key
    ensures Total(r) == Total(t)
  {
    if t == [] then []
    else
      assert FirstMonth(t) <= LastMonth(t) by {
        assert MonthOf(t[EarliestAt(t)]) <= MonthOf(t[LatestAt(t)]);
      }
      var r := Buckets(t, FirstMonth(t), LastMonth(t) - FirstMonth(t) + 1);
      SpanSeries(t, r);
      r
  }

  /** The buckets of the months from the table's first to its last are
      that series: consecutive, labelled by month ends, holding the month
      sums, ascending, and adding up to the table's total. */
  lemma SpanSeries(t: seq<Entry<CalendarDate>>, r: seq<Entry<CalendarDate>>)
    requires t != [] && FirstMonth(t) <= LastMonth(t)
    requires r == Buckets(t, FirstMonth(t), LastMonth(t) - FirstMonth(t) + 1)
    ensures r != []
    ensures MonthOf(r[0]) == FirstMonth(t) && MonthOf(r[|r| - 1]) == LastMonth(t)
    ensures forall k :: 0 <= k < |r| ==> MonthOf(r[k]) == MonthOf(r[0]) + k
    ensures forall k :: 0 <= k < |r| ==> r[k].key.day == DaysInMonth(r[k].key.year, r[k].key.month)
    ensures forall k :: 0 <= k < |r| ==> r[k].count == TotalWhere(t, InMonth(MonthOf(r[k])))
    ensures forall i, j :: 0 <= i < j < |r| ==> DateLe(r[i].key, r[j].key) && r[i].key != r[j].key
    ensures Total(r) == Total(t)
  {
    var lo := FirstMonth(t);
    BucketSeries(t, r, lo);
    assert forall i :: 0 <= i < |t| ==> lo <= MonthOf(t[i]) < lo + |r|;
    SpanTotal(r, t, lo);
  }

  /** The buckets of `n` consecutive months from month `lo`. */
  function Buckets(t: seq<Entry<CalendarDate>>, lo: int, n: nat): (r: seq<Entry<CalendarDate>>)
    requires 12 <= lo && lo + n <= 120000
    ensures |r| == n
    ensures forall k :: 0 <= k < n ==> r[k] == Bucket(t, lo + k)
  {
    seq(n, k requires 0 <= k < n => Bucket(t, lo + k))
  }

  /** Buckets of the consecutive months from `lo` are labelled by those
      months' last days, hold those months' sums, and ascend strictly. */
  lemma BucketSeries(t: seq<Entry<CalendarDate>>, r: seq<Entry<CalendarDate>>, lo: int)
    requires 12 <= lo && lo + |r| <= 120000
    requires forall k :: 0 <= k < |r| ==> r[k] == Bucket(t, lo + k)
    ensures forall k :: 0 <= k < |r| ==> MonthOf(r[k]) == lo + k
    ensures forall k :: 0 <= k < |r| ==> r[k].key.day == DaysInMonth(r[k].key.year, r[k].key.month)
    ensures forall k :: 0 <= k < |r| ==> r[k].count == TotalWhere(t, InMonth(MonthOf(r[k])))
    ensures forall i, j :: 0 <= i < j < |r| ==> DateLe(r[i].key, r[j].key) && r[i].key != r[j].key
  {
    forall k | 0 <= k < |r|
      ensures MonthOf(r[k]) == lo + k && r[k].count == TotalWhere(t, InMonth(MonthOf(r[k])))
    {
      assert r[k] == Bucket(t, lo + k);
    }
    forall i, j | 0 <= i < j < |r| ensures DateLe(r[i].key, r[j].key) && r[i].key != r[j].key {
      EarlierMonth(r[i].key, r[j].key);
    }
  }

  function MonthTotals(t: seq<Entry<CalendarDate>>, lo: int, n: nat): nat {
    if n == 0 then 0 else MonthTotals(t, lo, n - 1) + TotalWhere(t, InMonth(lo + n - 1))
  }

  /** Buckets holding the month sums of `t` for months `lo`, `lo + 1`, ...
      add up to the month totals of those months. */
  lemma {:induction false} BucketTotals(r: seq<Entry<CalendarDate>>, t: seq<Entry<CalendarDate>>, lo: int)
    requires forall k :: 0 <= k < |r| ==> r[k].count == TotalWhere(t, InMonth(lo + k))
    ensures Total(r) == MonthTotals(t, lo, |r|)
  {
    if r != [] {
      BucketTotals(r[..|r| - 1], t, lo);
    }
  }

  lemma {:induction false} MonthTotalsWithin(t: seq<Entry<CalendarDate>>, lo: int, n: nat)
    ensures MonthTotals(t, lo, n) == TotalWhere(t, MonthsWithin(lo, lo + n))
  {
    if n == 0 {
      TotalWhereNone(t, MonthsWithin(lo, lo));
    } else {
      MonthTotalsWithin(t, lo, n - 1);
      TotalWhereUnion(t, MonthsWithin(lo, lo + n), MonthsWithin(lo, lo + n - 1), InMonth(lo + n - 1));
    }
  }

  /** Buckets for consecutive months `lo`, `lo + 1`, ... that cover every
      month of the table add up to the table's total. */
  lemma SpanTotal(r: seq<Entry<CalendarDate>>, t: seq<Entry<CalendarDate>>, lo: int)
    requires forall k :: 0 <= k < |r| ==> r[k].count == TotalWhere(t, InMonth(lo + k))
    requires forall i :: 0 <= i < |t| ==> lo <= MonthOf(t[i]) < lo + |r|
    ensures Total(r) == Total(t)
  {
    BucketTotals(r, t, lo);
    MonthTotalsWithin(t, lo, |r|);
    TotalWhereAgree(t, MonthsWithin(lo, lo + |r|), Always);
  }

  // ---------------------------------------------------------------------
  // The series the charts draw.

  /** `value_counts().sort_index().reset_index()` then `resample('M').sum()`
      on a column of registration dates: consecutive months in ascending
      order, each labelled by its last day and holding its number of
      registrations (0 for a month without any), adding up to the number
      of dates. */
  function MonthlySeries(dates: seq<CalendarDate>): (r: seq<Entry<CalendarDate>>)
    ensures r == [] <==> dates == []
    ensures forall k :: 0 <= k < |r| ==> MonthOf(r[k]) == MonthOf(r[0]) + k
    ensures forall k :: 0 <= k < |r| ==> r[k].key.day == DaysInMonth(r[k].key.year, r[k].key.month)
    ensures forall k :: 0 <= k < |r| ==> r[k].count == |Select(dates, InMonth(MonthOf(r[k])))|
    ensures forall i, j :: 0 <= i < j < |r| ==> DateLe(r[i].key, r[j].key) && r[i].key != r[j].key
    ensures Total(r) == |dates|
  {
    var r := Resample(DateCounts(dates));
    SeriesFacts(dates, DateCounts(dates), r);
    r
  }

  lemma SeriesFacts(dates: seq<CalendarDate>, t: seq<Entry<CalendarDate>>, r: seq<Entry<CalendarDate>>)
    requires t == DateCounts(dates) && r == Resample(t)
    ensures r == [] <==> dates == []
    ensures forall k :: 0 <= k < |r| ==> r[k].count == |Select(dates, InMonth(MonthOf(r[k])))|
    ensures Total(r) == |dates|
  {
    forall k | 0 <= k < |r| ensures r[k].count == |Select(dates, InMonth(MonthOf(r[k])))| {
      MonthCount(dates, MonthOf(r[k]));
    }
    assert dates != [] ==> t != [] by {
      if dates != [] {
        assert dates[0] in Keys(t);
      }
    }
  }

  /** The dates of the table in month `m` number as many as the dates of
      the column in that month. */
  lemma MonthCount(dates: seq<CalendarDate>, m: int)
    ensures TotalWhere(DateCounts(dates), InMonth(m)) == |Select(dates, InMonth(m))|
  {
    DateCountsPermutation(dates);
    TotalWherePermutation(DateCounts(dates), Counted(dates), InMonth(m));
    TallyTotalWhere(Dedup(dates), dates, InMonth(m));
  }

  /** Resampling a table whose keys are the given dates gives buckets
      from the month of the earliest date to that of the latest one. */
  lemma ResampleCovers(t: seq<Entry<CalendarDate>>, dates: seq<CalendarDate>)
    requires dates != []
    requires forall d :: d in dates <==> d in Keys(t)
    ensures var r := Resample(t);
      && r != []
      && (forall i :: 0 <= i < |dates| ==> MonthOf(r[0]) <= MonthIndex(dates[i]) <= MonthOf(r[|r| - 1]))
      && (exists i :: 0 <= i < |dates| && MonthIndex(dates[i]) == MonthOf(r[0]))
      && (exists i :: 0 <= i < |dates| && MonthIndex(dates[i]) == MonthOf(r[|r| - 1]))
  {
    assert dates[0] in Keys(t);
    var r := Resample(t);
    var a, b := EarliestAt(t), LatestAt(t);
    assert MonthOf(r[0]) == MonthOf(t[a]) && MonthOf(r[|r| - 1]) == MonthOf(t[b]);
    forall i | 0 <= i < |dates| ensures MonthOf(r[0]) <= MonthIndex(dates[i]) <= MonthOf(r[|r| - 1]) {
      assert dates[i] in Keys(t);
      var j :| 0 <= j < |t| && Keys(t)[j] == dates[i];
    }
    assert Keys(t)[a] == t[a].key && Keys(t)[b] == t[b].key;
    assert t[a].key in dates && t[b].key in dates;
  }

  /** The series runs from the month of the earliest date to the month of
      the latest one. */
  lemma MonthlySpan(dates: seq<CalendarDate>)
    requires dates != []
    ensures var r := MonthlySeries(dates);
      && r != []
      && (forall i :: 0 <= i < |dates| ==> MonthOf(r[0]) <= MonthIndex(dates[i]) <= MonthOf(r[|r| - 1]))
      && (exists i :: 0 <= i < |dates| && MonthIndex(dates[i]) == MonthOf(r[0]))
      && (exists i :: 0 <= i < |dates| && MonthIndex(dates[i]) == MonthOf(r[|r| - 1]))
  {
    ResampleCovers(DateCounts(dates), dates);
  }

  /** A month of the series is 0 exactly when no date falls in it. */
  lemma EmptyMonths(dates: seq<CalendarDate>)
    ensures var r := MonthlySeries(dates);
      forall k :: 0 <= k < |r| ==>
        (r[k].count == 0 <==> forall i :: 0 <= i < |dates| ==> MonthIndex(dates[i]) != MonthOf(r[k]))
  {
    var r := MonthlySeries(dates);
    forall k | 0 <= k < |r|
      ensures r[k].count == 0 <==> forall i :: 0 <= i < |dates| ==> MonthIndex(dates[i]) != MonthOf(r[k])
    {
      SelectEmpty(dates, InMonth(MonthOf(r[k])));
    }
  }

  function RegisteredMonth(r: Record): int {
    MonthIndex(r.registered)
  }

  /** Counting dates of a month in the date column is counting the rows
      registered in that month. */
  lemma {:induction false} RowsInMonth(rows: seq<Record>, m: int)
    ensures |Select(Project(rows, RegisteredOn), InMonth(m))| == |Select(rows, Matches(RegisteredMonth, m))|
  {
    if rows != [] {
      var init, last := rows[..|rows| - 1], rows[|rows| - 1];
      var dates := Project(rows, RegisteredOn);
      RowsInMonth(init, m);
      assert dates[..|dates| - 1] == Project(init, RegisteredOn);
      assert |Select(dates, InMonth(m))|
          == |Select(Project(init, RegisteredOn), InMonth(m))| + (if MonthIndex(last.registered) == m then 1 else 0);
      assert |Select(rows, Matches(RegisteredMonth, m))|
          == |Select(init, Matches(RegisteredMonth, m))| + (if RegisteredMonth(last) == m then 1 else 0);
    }
  }

  /** The series of a set of rows counts, for each month, the rows
      registered in it, and adds up to the number of rows. */
  lemma RowSeries(rows: seq<Record>)
    ensures var r := MonthlySeries(Project(rows, RegisteredOn));
      forall k :: 0 <= k < |r| ==> r[k].count == |Select(rows, Matches(RegisteredMonth, MonthOf(r[k])))|
    ensures Total(MonthlySeries(Project(rows, RegisteredOn))) == |rows|
  {
    var dates := Project(rows, RegisteredOn);
    var r := MonthlySeries(dates);
    forall k | 0 <= k < |r| ensures r[k].count == |Select(rows, Matches(RegisteredMonth, MonthOf(r[k])))| {
      RowsInMonth(rows, MonthOf(r[k]));
    }
  }

  /** Section 4: registrations per month among the rows registered from
      `start` to `end`; every month shown lies in those years. */
  function RegistrationsInYears(rows: seq<Record>, start: int, end: int): (r: seq<Entry<CalendarDate>>)
    ensures Total(r) == |ByYearRange(rows, start, end)|
    ensures forall k :: 0 <= k < |r| ==>
              r[k].count == |Select(ByYearRange(rows, start, end), Matches(RegisteredMonth, MonthOf(r[k])))|
    ensures forall k :: 0 <= k < |r| ==> start <= r[k].key.year <= end
  {
    var sub := ByYearRange(rows, start, end);
    RowSeries(sub);
    YearsOfSeries(Project(sub, RegisteredOn), start, end);
    MonthlySeries(Project(sub, RegisteredOn))
  }

  /** Section 6: registrations per month among the rows of one state. */
  function StateRegistrations(rows: seq<Record>, state: string): (r: seq<Entry<CalendarDate>>)
    ensures Total(r) == |ByState(rows, state)|
    ensures forall k :: 0 <= k < |r| ==>
              r[k].count == |Select(ByState(rows, state), Matches(RegisteredMonth, MonthOf(r[k])))|
  {
    var sub := ByState(rows, state);
    RowSeries(sub);
    MonthlySeries(Project(sub, RegisteredOn))
  }

  lemma YearOfMonth(d: CalendarDate, start: int, end: int)
    requires start * 12 <= MonthIndex(d) < end * 12 + 12
    ensures start <= d.year <= end
  {
  }

  /** All the months of a series of dates from years `start` to `end` lie
      in those years. */
  lemma YearsOfSeries(dates: seq<CalendarDate>, start: int, end: int)
    requires forall d :: d in dates ==> start <= d.year <= end
    ensures var r := MonthlySeries(dates);
      forall k :: 0 <= k < |r| ==> start <= r[k].key.year <= end
  {
    var t := DateCounts(dates);
    forall i | 0 <= i < |t| ensures start <= t[i].key.year <= end {
      assert Keys(t)[i] == t[i].key;
    }
    assert MonthlySeries(dates) == Resample(t);
    ResampleYears(t, start, end);
  }

  /** Resampling a table whose dates all lie in years `start` to `end`
      gives buckets in those years only. */
  lemma ResampleYears(t: seq<Entry<CalendarDate>>, start: int, end: int)
    requires forall i :: 0 <= i < |t| ==> start <= t[i].key.year <= end
    ensures var r := Resample(t);
      forall k :: 0 <= k < |r| ==> start <= r[k].key.year <= end
  {
    var r := Resample(t);
    if t != [] {
      var lo, hi := MonthOf(r[0]), MonthOf(r[|r| - 1]);
      assert start * 12 <= lo by {
        assert lo == MonthOf(t[EarliestAt(t)]);
      }
      assert hi < end * 12 + 12 by {
        assert hi == MonthOf(t[LatestAt(t)]);
      }
      forall k | 0 <= k < |r| ensures start <= r[k].key.year <= end {
        YearOfMonth(r[k].key, start, end);
      }
    }
  }


}

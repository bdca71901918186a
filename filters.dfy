/** The row filters of the dashboard: rows of one society (dashboard.py:42),
    rows registered within a range of years (dashboard.py:166-169) and rows
    of one state (dashboard.py:214, 255, 365). Each is a boolean mask, so
    it keeps the matching rows in their original order. */
module Filters {
  import opened Records
  import opened Sequences

  /** `df[df['Name of Society'] == name]` */
  function BySociety(rows: seq<Record>, name: string): (sub: seq<Record>)
    ensures |sub| <= |rows|
    ensures forall k :: 0 <= k < |sub| ==> sub[k].name == name
    ensures forall i :: 0 <= i < |rows| && rows[i].name == name ==> rows[i] in sub
  {
    Select(rows, Matches(NameOf, name))
  }

  /** `df[df['State'] == state]` */
  function ByState(rows: seq<Record>, state: string): (sub: seq<Record>)
    ensures |sub| <= |rows|
    ensures forall k :: 0 <= k < |sub| ==> sub[k].state == state
    ensures forall i :: 0 <= i < |rows| && rows[i].state == state ==> rows[i] in sub
  {
    Select(rows, Matches(StateOf, state))
  }

  /** The mask "registered in a year from `start` to `end`, both included". */
  function YearWithin(start: int, end: int): Record -> bool {
    (r: Record) => start <= r.registered.year && r.registered.year <= end
  }

  /** `df[(year >= start_year) & (year <= end_year)]` */
  function ByYearRange(rows: seq<Record>, start: int, end: int): (sub: seq<Record>)
    ensures |sub| <= |rows|
    ensures forall k :: 0 <= k < |sub| ==> start <= sub[k].registered.year <= end
    ensures forall i :: 0 <= i < |rows| && start <= rows[i].registered.year <= end ==> rows[i] in sub
  {
    Select(rows, YearWithin(start, end))
  }

  // ---------------------------------------------------------------------
  // Exactly the matching rows, in order.

  /** The society filter keeps the rows at the positions whose name is
      `name`, in ascending order of position, and each such row as often
      as it occurs. */
  lemma BySocietyExact(rows: seq<Record>, name: string)
    ensures var sub, idx := BySociety(rows, name), Positions(rows, Matches(NameOf, name));
      && |sub| == |idx|
      && (forall k :: 0 <= k < |idx| ==> sub[k] == rows[idx[k]])
      && (forall i :: 0 <= i < |rows| ==> (rows[i].name == name <==> i in idx))
    ensures forall r :: multiset(BySociety(rows, name))[r] == if r.name == name then multiset(rows)[r] else 0
  {
    SelectAtPositions(rows, Matches(NameOf, name));
    forall r ensures multiset(BySociety(rows, name))[r] == if r.name == name then multiset(rows)[r] else 0 {
      SelectOccurrences(rows, Matches(NameOf, name), r);
    }
  }

  /** The state filter keeps exactly the rows of that state, in order. */
  lemma ByStateExact(rows: seq<Record>, state: string)
    ensures var sub, idx := ByState(rows, state), Positions(rows, Matches(StateOf, state));
      && |sub| == |idx|
      && (forall k :: 0 <= k < |idx| ==> sub[k] == rows[idx[k]])
      && (forall i :: 0 <= i < |rows| ==> (rows[i].state == state <==> i in idx))
    ensures forall r :: multiset(ByState(rows, state))[r] == if r.state == state then multiset(rows)[r] else 0
  {
    SelectAtPositions(rows, Matches(StateOf, state));
    forall r ensures multiset(ByState(rows, state))[r] == if r.state == state then multiset(rows)[r] else 0 {
      SelectOccurrences(rows, Matches(StateOf, state), r);
    }
  }

  /** The year filter keeps exactly the rows registered within the range,
      in order. */
  lemma ByYearRangeExact(rows: seq<Record>, start: int, end: int)
    ensures var sub, idx := ByYearRange(rows, start, end), Positions(rows, YearWithin(start, end));
      && |sub| == |idx|
      && (forall k :: 0 <= k < |idx| ==> sub[k] == rows[idx[k]])
      && (forall i :: 0 <= i < |rows| ==> (start <= rows[i].registered.year <= end <==> i in idx))
    ensures forall r :: multiset(ByYearRange(rows, start, end))[r]
                     == if start <= r.registered.year <= end then multiset(rows)[r] else 0
  {
    SelectAtPositions(rows, YearWithin(start, end));
    forall r ensures multiset(ByYearRange(rows, start, end))[r]
                  == if start <= r.registered.year <= end then multiset(rows)[r] else 0 {
      SelectOccurrences(rows, YearWithin(start, end), r);
    }
  }

  /** A range whose start year is after its end year keeps nothing. */
  lemma InvertedRangeEmpty(rows: seq<Record>, start: int, end: int)
    requires start > end
    ensures ByYearRange(rows, start, end) == []
  {
    SelectNone(rows, YearWithin(start, end));
  }

  /** A state no row has selects nothing. */
  lemma UnknownStateEmpty(rows: seq<Record>, state: string)
    requires state !in Project(rows, StateOf)
    ensures ByState(rows, state) == []
  {
    forall i | 0 <= i < |rows| ensures rows[i].state != state {
      assert Project(rows, StateOf)[i] == rows[i].state;
    }
    SelectNone(rows, Matches(StateOf, state));
  }

  /** Filtering rows gathered from several sheets filters each sheet and
      keeps the sheets' order. */
  lemma ByStateConcat(a: seq<Record>, b: seq<Record>, state: string)
    ensures ByState(a + b, state) == ByState(a, state) + ByState(b, state)
  {
    SelectConcat(a, b, Matches(StateOf, state));
  }

  // ---------------------------------------------------------------------
  // The year slider (dashboard.py:157-162).

  function MinYear(rows: seq<Record>): (y: int)
    requires rows != []
    ensures forall i :: 0 <= i < |rows| ==> y <= rows[i].registered.year
    ensures exists i :: 0 <= i < |rows| && y == rows[i].registered.year
  {
    if |rows| == 1 then rows[0].registered.year
    else
      var m := MinYear(rows[1..]);
      assert forall i :: 1 <= i < |rows| ==> rows[i] == rows[1..][i - 1];
      if rows[0].registered.year <= m then rows[0].registered.year else m
  }

  function MaxYear(rows: seq<Record>): (y: int)
    requires rows != []
    ensures forall i :: 0 <= i < |rows| ==> rows[i].registered.year <= y
    ensures exists i :: 0 <= i < |rows| && y == rows[i].registered.year
  {
    if |rows| == 1 then rows[0].registered.year
    else
      var m := MaxYear(rows[1..]);
      assert forall i :: 1 <= i < |rows| ==> rows[i] == rows[1..][i - 1];
      if rows[0].registered.year >= m then rows[0].registered.year else m
  }

  /** The slider's bounds and default value: the earliest and latest
      registration years; None where the column is empty (the source then
      fails converting a missing minimum to `int`). */
  function YearSpan(rows: seq<Record>): (span: Option<(int, int)>)
    ensures span.None? <==> rows == []
    ensures span.Some? ==> span.value.0 <= span.value.1
    ensures span.Some? ==> span.value == (MinYear(rows), MaxYear(rows))
  {
    if rows == [] then None else Some((MinYear(rows), MaxYear(rows)))
  }

  /** With the slider left at its default the year filter keeps every row. */
  lemma DefaultRangeKeepsAll(rows: seq<Record>)
    requires rows != []
    ensures ByYearRange(rows, YearSpan(rows).value.0, YearSpan(rows).value.1) == rows
  {
    SelectAll(rows, YearWithin(MinYear(rows), MaxYear(rows)));
  }
}

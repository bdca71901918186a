/** The state-by-sector count table of dashboard.py:329:
    `df.groupby(['State', 'Sector Type']).size().unstack(fill_value=0)`.
    Group keys come out sorted, so the states (rows) and the sector types
    (columns) are each in ascending string order. */
module Crosstab {
  import opened Records
  import opened Sequences
  import opened Sorting
  import opened Frequency
  import opened Filters

  /** One row per state; row `i` holds one entry per sector type, in the
      order of `sectors`, with the number of societies of that state and
      sector (0 where there are none). */
  datatype Table = Table(states: seq<string>, sectors: seq<string>, counts: seq<seq<Entry<string>>>)

  /** The distinct values of a column in ascending order: exactly the
      column's values, once each, strictly ascending. */
  function SortedDistinct(column: seq<string>): (s: seq<string>)
    ensures forall x :: x in s <==> x in column
    ensures NoDuplicates(s)
    ensures forall i, j :: 0 <= i < j < |s| ==> StrLe(s[i], s[j]) && !StrLe(s[j], s[i])
  {
    var s := SortBy(Dedup(column), StrLe);
    SortedDedup(column, s);
    s
  }

  /** The sector column of one state's rows, tallied against all sectors. */
  function StateRow(rows: seq<Record>, sectors: seq<string>, state: string): (row: seq<Entry<string>>)
    ensures |row| == |sectors|
    ensures forall j :: 0 <= j < |row| ==> row[j].key == sectors[j]
  {
    Tally(sectors, Project(ByState(rows, state), SectorOf))
  }

  function StateSectorTable(rows: seq<Record>): (t: Table)
    ensures |t.counts| == |t.states|
    ensures forall i :: 0 <= i < |t.counts| ==> |t.counts[i]| == |t.sectors|
    ensures forall i, j :: 0 <= i < |t.counts| && 0 <= j < |t.sectors| ==> t.counts[i][j].key == t.sectors[j]
    ensures t.states == SortedDistinct(Project(rows, StateOf))
    ensures t.sectors == SortedDistinct(Project(rows, SectorOf))
    ensures forall s :: s in t.states <==> s in Project(rows, StateOf)
    ensures forall c :: c in t.sectors <==> c in Project(rows, SectorOf)
    ensures NoDuplicates(t.states) && NoDuplicates(t.sectors)
    ensures forall i, j :: 0 <= i < j < |t.states| ==> StrLe(t.states[i], t.states[j]) && !StrLe(t.states[j], t.states[i])
    ensures forall i, j :: 0 <= i < j < |t.sectors| ==> StrLe(t.sectors[i], t.sectors[j]) && !StrLe(t.sectors[j], t.sectors[i])
  {
    var states := SortedDistinct(Project(rows, StateOf));
    var sectors := SortedDistinct(Project(rows, SectorOf));
    Table(states, sectors, seq(|states|, i requires 0 <= i < |states| => StateRow(rows, sectors, states[i])))
  }

  // ---------------------------------------------------------------------
  // Row and column labels.

  /** Sorting the distinct values of a column gives exactly the column's
      values, once each, strictly ascending. */
  lemma SortedDedup(column: seq<string>, s: seq<string>)
    requires s == SortBy(Dedup(column), StrLe)
    ensures forall x :: x in s <==> x in column
    ensures NoDuplicates(s)
    ensures forall i, j :: 0 <= i < j < |s| ==> StrLe(s[i], s[j]) && !StrLe(s[j], s[i])
  {
    var d := Dedup(column);
    assert multiset(s) == multiset(d);
    forall x ensures x in s <==> x in column {
      assert x in s <==> x in multiset(s);
      assert x in d <==> x in multiset(d);
    }
    forall i, j | 0 <= i < j < |s| ensures s[i] != s[j] {
      if s[i] == s[j] {
        TwoOccurrences(s, i, j);
        AtMostOnce(d, s[i]);
      }
    }
    StrLeTotalPreorder();
    SortBySorted(d, StrLe);
    SortedStringsAscend(s);
  }

  // ---------------------------------------------------------------------
  // Cells.

  /** Cell (state, sector) counts the rows with that state and that
      sector. */
  lemma CellCounts(rows: seq<Record>, i: nat, j: nat)
    requires var t := StateSectorTable(rows); i < |t.states| && j < |t.sectors|
    ensures var t := StateSectorTable(rows);
      t.counts[i][j].count == |Select(rows, Matches(StateAndSector, (t.states[i], t.sectors[j])))|
  {
    var t := StateSectorTable(rows);
    var s, c := t.states[i], t.sectors[j];
    assert t.counts[i] == StateRow(rows, t.sectors, s);
    assert t.counts[i][j].count == multiset(Project(ByState(rows, s), SectorOf))[c];
    PairCount(rows, s, c);
  }

  /** Counting a sector among a state's rows is counting the rows with
      that state and sector. */
  lemma PairCount(rows: seq<Record>, s: string, c: string)
    ensures multiset(Project(ByState(rows, s), SectorOf))[c] == |Select(rows, Matches(StateAndSector, (s, c)))|
  {
    OccurrencesAreMatches(ByState(rows, s), SectorOf, c);
    SelectSelect(rows, Matches(StateOf, s), Matches(SectorOf, c), Matches(StateAndSector, (s, c)));
  }

  /** No row selected by the pair mask means no row with that pair. */
  lemma PairAbsent(rows: seq<Record>, s: string, c: string)
    ensures |Select(rows, Matches(StateAndSector, (s, c)))| == 0 <==>
              forall k :: 0 <= k < |rows| ==> (rows[k].state, rows[k].sector) != (s, c)
  {
    SelectEmpty(rows, Matches(StateAndSector, (s, c)));
  }

  /** A cell is 0 exactly when no row has both its state and its sector
      (`fill_value=0`). */
  lemma CellZero(rows: seq<Record>, i: nat, j: nat)
    requires var t := StateSectorTable(rows); i < |t.states| && j < |t.sectors|
    ensures var t := StateSectorTable(rows);
      t.counts[i][j].count == 0 <==>
        forall k :: 0 <= k < |rows| ==> (rows[k].state, rows[k].sector) != (t.states[i], t.sectors[j])
  {
    var t := StateSectorTable(rows);
    CellCounts(rows, i, j);
    PairAbsent(rows, t.states[i], t.sectors[j]);
  }

  // ---------------------------------------------------------------------
  // Sums.

  /** The row of a state adds up to the number of that state's rows. */
  lemma RowSum(rows: seq<Record>, i: nat)
    requires i < |StateSectorTable(rows).states|
    ensures var t := StateSectorTable(rows);
      Total(t.counts[i]) == |ByState(rows, t.states[i])|
  {
    var t := StateSectorTable(rows);
    var s := t.states[i];
    var sub := ByState(rows, s);
    var column := Project(sub, SectorOf);
    forall k | 0 <= k < |column| ensures column[k] in t.sectors {
      SelectOccurrences(rows, Matches(StateOf, s), sub[k]);
      assert sub[k] in multiset(sub);
      var l :| 0 <= l < |rows| && rows[l] == sub[k];
      assert Project(rows, SectorOf)[l] == column[k];
    }
    assert t.counts[i] == StateRow(rows, t.sectors, s);
    TallyTotalWhere(t.sectors, column, Always);
    SelectAlways(column);
  }

  /** The sum of the totals of the rows of a table. */
  function GrandTotal(counts: seq<seq<Entry<string>>>): nat {
    if counts == [] then 0 else GrandTotal(counts[..|counts| - 1]) + Total(counts[|counts| - 1])
  }

  lemma {:induction false} GrandTotalOfRows(counts: seq<seq<Entry<string>>>, perRow: seq<Entry<string>>)
    requires |counts| == |perRow|
    requires forall i :: 0 <= i < |counts| ==> Total(counts[i]) == perRow[i].count
    ensures GrandTotal(counts) == Total(perRow)
  {
    if counts != [] {
      GrandTotalOfRows(counts[..|counts| - 1], perRow[..|perRow| - 1]);
    }
  }

  /** All cells together count every row once. */
  lemma TableTotal(rows: seq<Record>)
    ensures GrandTotal(StateSectorTable(rows).counts) == |rows|
  {
    var t := StateSectorTable(rows);
    var column := Project(rows, StateOf);
    var perState := Tally(t.states, column);
    forall i | 0 <= i < |t.counts| ensures Total(t.counts[i]) == perState[i].count {
      RowSum(rows, i);
      OccurrencesAreMatches(rows, StateOf, t.states[i]);
    }
    GrandTotalOfRows(t.counts, perState);
    TallyTotalWhere(t.states, column, Always);
    SelectAlways(column);
  }
}

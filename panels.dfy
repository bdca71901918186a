/** The counting panels of the dashboard: sector counts over all rows
    (dashboard.py:94) and within one state (dashboard.py:214-217), the
    top-N states (dashboard.py:132) and districts (dashboard.py:304), and
    the text the word cloud is drawn from (dashboard.py:365-371). */
module Panels {
  import opened Records
  import opened Sequences
  import opened Frequency
  import opened Filters
  import opened Text

  /** `df['District']` raises a KeyError where the dataset has no such
      column. */
  datatype PanelError = MissingColumn

  /** `df['Sector Type'].value_counts()`: one entry per sector type, with
      the number of rows of that type, largest count first. */
  function SectorCounts(rows: seq<Record>): (t: seq<Entry<string>>)
    ensures DistinctKeys(t) && CountsDescending(t)
    ensures forall i :: 0 <= i < |t| ==> t[i].count == |Select(rows, Matches(SectorOf, t[i].key))|
    ensures forall i :: 0 <= i < |rows| ==> rows[i].sector in Keys(t)
    ensures forall i :: 0 <= i < |t| ==> t[i].count > 0
    ensures Total(t) == |rows|
  {
    var t := ValueCounts(Project(rows, SectorOf));
    RowCounts(rows, SectorOf, t);
    RowKeys(rows, SectorOf, t);
    t
  }

  /** The counts of a column's table are the numbers of rows holding each
      value. */
  lemma RowCounts(rows: seq<Record>, f: Record -> string, t: seq<Entry<string>>)
    requires forall i :: 0 <= i < |t| ==> t[i].count == multiset(Project(rows, f))[t[i].key]
    ensures forall i :: 0 <= i < |t| ==> t[i].count == |Select(rows, Matches(f, t[i].key))|
  {
    forall i | 0 <= i < |t| ensures t[i].count == |Select(rows, Matches(f, t[i].key))| {
      OccurrencesAreMatches(rows, f, t[i].key);
    }
  }

  /** Every row's value is a key of its column's table, and every key
      counts at least one row. */
  lemma RowKeys(rows: seq<Record>, f: Record -> string, t: seq<Entry<string>>)
    requires forall k :: k in Project(rows, f) <==> k in Keys(t)
    requires forall i :: 0 <= i < |t| ==> t[i].count == multiset(Project(rows, f))[t[i].key]
    ensures forall i :: 0 <= i < |rows| ==> f(rows[i]) in Keys(t)
    ensures forall i :: 0 <= i < |t| ==> t[i].count > 0
  {
    var column := Project(rows, f);
    forall i | 0 <= i < |t| ensures t[i].count > 0 {
      assert Keys(t)[i] == t[i].key;
      assert t[i].key in column;
    }
    forall i | 0 <= i < |rows| ensures f(rows[i]) in Keys(t) {
      assert column[i] == f(rows[i]);
    }
  }

  /** Section 5: the sector counts among the rows of one state; each count
      is the number of rows with that state and that sector. */
  function StateSectorCounts(rows: seq<Record>, state: string): (t: seq<Entry<string>>)
    ensures DistinctKeys(t) && CountsDescending(t)
    ensures forall i :: 0 <= i < |t| ==> t[i].count == |Select(rows, Matches(StateAndSector, (state, t[i].key)))|
    ensures forall i :: 0 <= i < |rows| && rows[i].state == state ==> rows[i].sector in Keys(t)
    ensures forall i :: 0 <= i < |t| ==> t[i].count > 0
    ensures Total(t) == |ByState(rows, state)|
  {
    var sub := ByState(rows, state);
    var t := SectorCounts(sub);
    PairCounts(rows, state, t);
    StateRowsCounted(rows, state, t);
    t
  }

  /** Every row of the state is one of the rows the state's table counts. */
  lemma StateRowsCounted(rows: seq<Record>, state: string, t: seq<Entry<string>>)
    requires forall i :: 0 <= i < |ByState(rows, state)| ==> ByState(rows, state)[i].sector in Keys(t)
    ensures forall i :: 0 <= i < |rows| && rows[i].state == state ==> rows[i].sector in Keys(t)
  {
    var sub := ByState(rows, state);
    forall i | 0 <= i < |rows| && rows[i].state == state ensures rows[i].sector in Keys(t) {
      assert Matches(StateOf, state)(rows[i]);
      var k :| 0 <= k < |sub| && sub[k] == rows[i];
    }
  }

  lemma PairCounts(rows: seq<Record>, state: string, t: seq<Entry<string>>)
    requires forall i :: 0 <= i < |t| ==> t[i].count == |Select(ByState(rows, state), Matches(SectorOf, t[i].key))|
    ensures forall i :: 0 <= i < |t| ==> t[i].count == |Select(rows, Matches(StateAndSector, (state, t[i].key)))|
  {
    forall i | 0 <= i < |t| ensures t[i].count == |Select(rows, Matches(StateAndSector, (state, t[i].key)))| {
      SelectSelect(rows, Matches(StateOf, state), Matches(SectorOf, t[i].key), Matches(StateAndSector, (state, t[i].key)));
    }
  }

  /** Section 3: `df['State'].value_counts().head(n)` with `n` from the
      slider (1 to 15): the `n` states with most rows, or all states where
      there are fewer, each with its number of rows. */
  function TopStates(rows: seq<Record>, n: nat): (t: seq<Entry<string>>)
    requires 1 <= n <= 15
    ensures |t| == Min(n, |set s | s in Project(rows, StateOf)|)
    ensures t == ValueCounts(Project(rows, StateOf))[..|t|]
    ensures DistinctKeys(t) && CountsDescending(t)
    ensures forall i :: 0 <= i < |t| ==> t[i].count == |ByState(rows, t[i].key)|
    ensures forall i, j :: 0 <= i < |t| <= j < |ValueCounts(Project(rows, StateOf))| ==>
              t[i].count >= ValueCounts(Project(rows, StateOf))[j].count
  {
    var t := TopN(Project(rows, StateOf), n);
    RowCounts(rows, StateOf, t);
    t
  }

  // ---------------------------------------------------------------------
  // Districts.

  function DistrictOf(r: Record): Option<string> { r.district }

  /** The district values present, row by row (`value_counts` leaves out
      missing values). */
  function Districts(rows: seq<Record>): (d: seq<string>)
    ensures |d| <= |rows|
    ensures forall x :: x in d <==> exists i :: 0 <= i < |rows| && rows[i].district == Some(x)
  {
    if rows == [] then []
    else
      var init, last := rows[..|rows| - 1], rows[|rows| - 1];
      assert forall i :: 0 <= i < |init| ==> init[i] == rows[i];
      Districts(init) + (if last.district.Some? then [last.district.value] else [])
  }

  /** A district occurs among the values as often as rows carry it. */
  lemma {:induction false} DistrictOccurrences(rows: seq<Record>, x: string)
    ensures multiset(Districts(rows))[x] == |Select(rows, Matches(DistrictOf, Some(x)))|
  {
    if rows != [] {
      var init, last := rows[..|rows| - 1], rows[|rows| - 1];
      var p := Matches(DistrictOf, Some(x));
      DistrictOccurrences(init, x);
      assert Select(rows, p) == Select(init, p) + (if p(last) then [last] else []);
      assert p(last) == (DistrictOf(last) == Some(x));
    }
  }

  lemma DistrictCounts(rows: seq<Record>, t: seq<Entry<string>>)
    requires forall i :: 0 <= i < |t| ==> t[i].count == multiset(Districts(rows))[t[i].key]
    ensures forall i :: 0 <= i < |t| ==> t[i].count == |Select(rows, Matches(DistrictOf, Some(t[i].key)))|
  {
    forall i | 0 <= i < |t| ensures t[i].count == |Select(rows, Matches(DistrictOf, Some(t[i].key)))| {
      DistrictOccurrences(rows, t[i].key);
    }
  }

  /** Section 7: `df['District'].value_counts().head(n)` with `n` from the
      slider (1 to 20); Err where there is no District column. Rows with
      no district are not counted. */
  function TopDistricts(rows: seq<Record>, hasDistrict: bool, n: nat): (r: Result<seq<Entry<string>>, PanelError>)
    requires 1 <= n <= 20
    ensures r.Err? <==> !hasDistrict
    ensures r.Ok? ==> |r.value| == Min(n, |set x | x in Districts(rows)|)
    ensures r.Ok? ==> r.value == ValueCounts(Districts(rows))[..|r.value|]
    ensures r.Ok? ==> DistinctKeys(r.value) && CountsDescending(r.value)
    ensures r.Ok? ==> forall i :: 0 <= i < |r.value| ==>
              r.value[i].count == |Select(rows, Matches(DistrictOf, Some(r.value[i].key)))|
  {
    if !hasDistrict then Err(MissingColumn)
    else
      var t := TopN(Districts(rows), n);
      DistrictCounts(rows, t);
      Ok(t)
  }

  /** A row whose district is missing adds nothing to the district counts. */
  lemma MissingDistrictUncounted(rows: seq<Record>, r: Record)
    requires r.district.None?
    ensures Districts(rows + [r]) == Districts(rows)
  {
    assert (rows + [r])[..|rows|] == rows;
  }

  // ---------------------------------------------------------------------
  // The word cloud's text.

  /** `' '.join(names)` of the society names of one state: empty where
      the state has no rows, and otherwise the names with one space between
      each two. */
  function NamesText(rows: seq<Record>, state: string): (text: string)
    ensures ByState(rows, state) == [] ==> text == []
    ensures ByState(rows, state) != [] ==>
              |text| == TotalLength(Project(ByState(rows, state), NameOf)) + |ByState(rows, state)| - 1
  {
    Join(Project(ByState(rows, state), NameOf), ' ')
  }

  /** Splitting the text at spaces gives the words of the state's society
      names, name after name; a name holding spaces gives several words. */
  lemma NamesTextTokens(rows: seq<Record>, state: string)
    requires ByState(rows, state) != []
    ensures Split(NamesText(rows, state), ' ') == Tokens(Project(ByState(rows, state), NameOf), ' ')
  {
    SplitOfJoin(Project(ByState(rows, state), NameOf), ' ');
  }

  /** Where no name of the state contains a space, splitting the text at
      spaces gives back the names of the state's societies, in row order. */
  lemma NamesTextSplit(rows: seq<Record>, state: string)
    requires ByState(rows, state) != []
    requires forall k :: 0 <= k < |ByState(rows, state)| ==> ' ' !in ByState(rows, state)[k].name
    ensures Split(NamesText(rows, state), ' ') == Project(ByState(rows, state), NameOf)
  {
    var names := Project(ByState(rows, state), NameOf);
    NamesTextTokens(rows, state);
    TokensWithoutSeparator(names, ' ');
  }

  /** The states offered for selection: `df['State'].unique()`. */
  function StateChoices(rows: seq<Record>): (r: seq<string>)
    ensures NoDuplicates(r)
    ensures forall s :: s in r <==> exists i :: 0 <= i < |rows| && rows[i].state == s
  {
    var column := Project(rows, StateOf);
    assert forall i :: 0 <= i < |rows| ==> column[i] == rows[i].state;
    Dedup(column)
  }

  /** Every state offered for selection has at least one row. */
  lemma ChosenStateHasRows(rows: seq<Record>, state: string)
    requires state in StateChoices(rows)
    ensures ByState(rows, state) != []
  {
    var i :| 0 <= i < |rows| && Project(rows, StateOf)[i] == state;
    assert rows[i] in ByState(rows, state);
  }
}

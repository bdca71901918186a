/** The society panel (dashboard.py:38-82): the profile of the selected
    society, read off its first row, and its area-of-operation list. */
module Profile {
  import opened Records
  import opened Sequences
  import opened Text
  import opened Filters

  /** The one-row "Society Information" table. `district` is None where
      the first row has no district value. */
  datatype Profile = Profile(
    name: string,
    address: string,
    state: string,
    district: Option<string>,
    registered: string,  // "%Y-%m-%d"
    sector: string)

  /** One row of the numbered "Area of Operation" table. */
  datatype AreaRow = AreaRow(number: nat, area: string)

  /** `.iloc[0]` of an empty selection raises an IndexError. */
  datatype SocietyError = NoSuchSociety

  /** The profile fields of one row; without a District column the
      district is the empty text. */
  function ProfileOf(r: Record, hasDistrict: bool): (p: Profile)
    ensures p.name == r.name && p.address == r.address && p.state == r.state && p.sector == r.sector
    ensures hasDistrict ==> p.district == r.district
    ensures !hasDistrict ==> p.district == Some("")
    ensures ParseDate(p.registered) == Some(r.registered)
  {
    ParseFormattedDate(r.registered);
    Profile(r.name, r.address, r.state, if hasDistrict then r.district else Some(""),
            FormatDate(r.registered), r.sector)
  }

  // ---------------------------------------------------------------------
  // The area-of-operation list (dashboard.py:67-73).

  /** No whitespace at either end. */
  predicate Trimmed(s: string) {
    s == [] || (!IsSpace(s[0]) && !IsSpace(s[|s| - 1]))
  }

  lemma PiecesTrimmed(r: Record)
    ensures forall j :: 0 <= j < |AreaPieces(r)| ==> Trimmed(AreaPieces(r)[j])
  {
  }

  /** One row's area text split at commas, each piece stripped. */
  function AreaPieces(r: Record): seq<string> {
    Project(Split(r.area, ','), Strip)
  }

  /** `.str.split(',').explode().str.strip()`: the pieces of every row,
      row after row. */
  function AreaTokens(rows: seq<Record>): (tokens: seq<string>)
    ensures forall a :: a in tokens <==> exists i :: 0 <= i < |rows| && a in AreaPieces(rows[i])
    ensures forall a :: a in tokens ==> Trimmed(a)
  {
    var tokens := Flatten(Project(rows, AreaPieces));
    assert forall a :: a in tokens <==> exists i :: 0 <= i < |rows| && a in AreaPieces(rows[i]) by {
      forall a ensures a in tokens <==> exists i :: 0 <= i < |rows| && a in AreaPieces(rows[i]) {
        FlattenProject(rows, AreaPieces, a);
      }
    }
    assert forall a :: a in tokens ==> Trimmed(a) by {
      forall a | a in tokens ensures Trimmed(a) {
        FlattenProject(rows, AreaPieces, a);
        var i :| 0 <= i < |rows| && a in AreaPieces(rows[i]);
        PiecesTrimmed(rows[i]);
      }
    }
    tokens
  }

  /** Rows numbered from 1, as the table's index after `reset_index` and
      `index += 1`. */
  function Numbered(areas: seq<string>): (t: seq<AreaRow>)
    ensures |t| == |areas|
    ensures forall k :: 0 <= k < |t| ==> t[k] == AreaRow(k + 1, areas[k])
  {
    seq(|areas|, k requires 0 <= k < |areas| => AreaRow(k + 1, areas[k]))
  }

  function AreaOf(a: AreaRow): string { a.area }

  /** `.unique()` of the tokens, numbered from 1 (the table's index after
      `reset_index` and `index += 1`). */
  function AreaList(rows: seq<Record>): (t: seq<AreaRow>)
    ensures forall k :: 0 <= k < |t| ==> t[k].number == k + 1
    ensures forall k, l :: 0 <= k < l < |t| ==> t[k].area != t[l].area
    ensures forall a :: a in Project(t, AreaOf) <==> a in AreaTokens(rows)
    ensures forall k :: 0 <= k < |t| ==> Trimmed(t[k].area)
  {
    var t := Numbered(Dedup(AreaTokens(rows)));
    NumberedDistinct(AreaTokens(rows), t);
    t
  }

  /** Numbering the distinct trimmed tokens lists each token once, and
      nothing else. */
  lemma NumberedDistinct(tokens: seq<string>, t: seq<AreaRow>)
    requires t == Numbered(Dedup(tokens))
    requires forall a :: a in tokens ==> Trimmed(a)
    ensures forall k, l :: 0 <= k < l < |t| ==> t[k].area != t[l].area
    ensures forall a :: a in Project(t, AreaOf) <==> a in tokens
    ensures forall k :: 0 <= k < |t| ==> Trimmed(t[k].area)
  {
    var d := Dedup(tokens);
    assert Project(t, AreaOf) == d by {
      assert forall k :: 0 <= k < |t| ==> t[k].area == d[k];
    }
    forall k | 0 <= k < |t| ensures Trimmed(t[k].area) {
      assert t[k].area == d[k] && d[k] in tokens;
    }
    forall k, l | 0 <= k < l < |t| ensures t[k].area != t[l].area {
      assert t[k].area == d[k] && t[l].area == d[l];
    }
  }

  /** Each area listed is a trimmed comma-separated piece of one of the
      rows, and each such piece is listed. */
  lemma AreaListCovers(rows: seq<Record>)
    ensures forall a :: a in Project(AreaList(rows), AreaOf) <==>
              exists i :: 0 <= i < |rows| && a in AreaPieces(rows[i])
  {
  }

  /** The areas are listed in the order in which they are first met,
      row after row and piece after piece. */
  lemma AreaListFirstSeen(rows: seq<Record>)
    ensures var t, tokens := AreaList(rows), AreaTokens(rows);
      forall k, l :: 0 <= k < l < |t| ==> FirstIndex(tokens, t[k].area) < FirstIndex(tokens, t[l].area)
  {
    DedupFirstSeen(AreaTokens(rows));
  }

  /** An area text holding one name with no comma and no padding yields
      that name alone. */
  lemma SingleArea(r: Record)
    requires ',' !in r.area
    requires Trimmed(r.area)
    ensures AreaPieces(r) == [r.area]
  {
    SplitWithoutSeparator(r.area, ',');
    StripUnpadded(r.area);
  }

  // ---------------------------------------------------------------------
  // The whole panel.

  /** The profile and area list of the society named `selected`: Err
      where no row carries that name. */
  function SocietyInfo(rows: seq<Record>, selected: string, hasDistrict: bool)
    : (r: Result<(Profile, seq<AreaRow>), SocietyError>)
    ensures r.Err? <==> selected !in Project(rows, NameOf)
    ensures r.Ok? ==> r.value.1 == AreaList(BySociety(rows, selected))
  {
    var sub := BySociety(rows, selected);
    NameInColumn(rows, selected);
    if sub == [] then
      Err(NoSuchSociety)
    else
      Ok((ProfileOf(sub[0], hasDistrict), AreaList(sub)))
  }

  lemma NameInColumn(rows: seq<Record>, selected: string)
    ensures selected in Project(rows, NameOf) <==> BySociety(rows, selected) != []
  {
    var names, sub := Project(rows, NameOf), BySociety(rows, selected);
    if selected in names {
      var i :| 0 <= i < |rows| && names[i] == selected;
      assert rows[i] in sub;
    }
    if sub != [] {
      SelectFirst(rows, Matches(NameOf, selected));
      var i :| 0 <= i < |rows| && rows[i] == sub[0] && rows[i].name == selected;
      assert names[i] == selected;
    }
  }

  /** The profile shown is the one of the first row carrying the selected
      name, so its name is the selection and its date reads back as that
      row's registration date. */
  lemma SocietyProfile(rows: seq<Record>, selected: string, hasDistrict: bool)
    requires selected in Project(rows, NameOf)
    ensures var r := SocietyInfo(rows, selected, hasDistrict);
      var i := FirstIndex(Project(rows, NameOf), selected);
      && r.Ok?
      && r.value.0 == ProfileOf(rows[i], hasDistrict)
      && r.value.0.name == selected
      && ParseDate(r.value.0.registered) == Some(rows[i].registered)
  {
    var names := Project(rows, NameOf);
    var i := FirstIndex(names, selected);
    var sub := BySociety(rows, selected);
    SelectFirstIndex(rows, NameOf, selected);
    var p := ProfileOf(rows[i], hasDistrict);
    assert SocietyInfo(rows, selected, hasDistrict) == Ok((p, AreaList(sub)));
    assert p.name == selected by {
      assert names[i] == rows[i].name;
    }
    assert ParseDate(p.registered) == Some(rows[i].registered) by {
      ParseFormattedDate(rows[i].registered);
    }
  }

  /** The names offered for selection: `df['Name of Society'].unique()`. */
  function SocietyChoices(rows: seq<Record>): (r: seq<string>)
    ensures NoDuplicates(r)
    ensures forall s :: s in r <==> exists i :: 0 <= i < |rows| && rows[i].name == s
  {
    var column := Project(rows, NameOf);
    assert forall i :: 0 <= i < |rows| ==> column[i] == rows[i].name;
    Dedup(column)
  }

  /** Every name offered for selection has a profile. */
  lemma ChoicesHaveProfiles(rows: seq<Record>, selected: string, hasDistrict: bool)
    requires selected in SocietyChoices(rows)
    ensures SocietyInfo(rows, selected, hasDistrict).Ok?
  {
  }
}

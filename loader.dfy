/** Loading the workbook (dashboard.py:13-21): every sheet is parsed and
    appended to a list, the list is concatenated into one frame, and the
    frame's last column is dropped. */
module Loader {
  import opened Records

  /** One spreadsheet cell as the Excel reader hands it over. */
  datatype Cell = Text(text: string) | Timestamp(date: Date) | Number(value: int) | Blank

  type Row = seq<Cell>

  /** A parsed sheet or the concatenated dataset: a header and rows. */
  datatype Frame = Frame(columns: seq<string>, rows: seq<Row>)

  /** `pd.concat` of an empty list raises "No objects to concatenate". */
  datatype LoadError = NoObjectsToConcatenate

  /** Every row has one cell per column. */
  predicate Rectangular(f: Frame) {
    forall i :: 0 <= i < |f.rows| ==> |f.rows[i]| == |f.columns|
  }

  /** All frames are rectangular and have the first frame's header. */
  predicate SameSchema(frames: seq<Frame>) {
    forall i :: 0 <= i < |frames| ==> Rectangular(frames[i]) && frames[i].columns == frames[0].columns
  }

  /** The rows of all frames, frame after frame. */
  function AllRows(frames: seq<Frame>): seq<Row> {
    if frames == [] then [] else AllRows(frames[..|frames| - 1]) + frames[|frames| - 1].rows
  }

  /** How many rows the frames before frame `k` hold. */
  function RowsBefore(frames: seq<Frame>, k: nat): nat
    requires k <= |frames|
  {
    if k == 0 then 0 else RowsBefore(frames, k - 1) + |frames[k - 1].rows|
  }

  /** `pd.concat(frames)` for frames sharing one header: the rows of frame
      `k` are the slice of the result that starts after the rows of the
      frames before it, so frames are stacked in order and each keeps its
      own row order. */
  function Concat(frames: seq<Frame>): (r: Frame)
    requires frames != []
    ensures r.columns == frames[0].columns
    ensures |r.rows| == RowsBefore(frames, |frames|)
    ensures forall k {:trigger RowsBefore(frames, k)} :: 0 <= k < |frames| ==>
              RowsBefore(frames, k) + |frames[k].rows| <= |r.rows|
              && r.rows[RowsBefore(frames, k)..RowsBefore(frames, k) + |frames[k].rows|] == frames[k].rows
  {
    AllRowsLength(frames);
    forall k {:trigger RowsBefore(frames, k)} | 0 <= k < |frames|
      ensures RowsBefore(frames, k) + |frames[k].rows| <= |AllRows(frames)|
      ensures AllRows(frames)[RowsBefore(frames, k)..RowsBefore(frames, k) + |frames[k].rows|] == frames[k].rows
    {
      AllRowsSlice(frames, k);
    }
    Frame(frames[0].columns, AllRows(frames))
  }

  /** `s[:-1]`: everything but the last element. */
  function DropLast<T>(s: seq<T>): (r: seq<T>)
    ensures |r| == if s == [] then 0 else |s| - 1
    ensures forall i :: 0 <= i < |r| ==> r[i] == s[i]
  {
    if s == [] then [] else s[..|s| - 1]
  }

  /** `f.iloc[:, :-1]`: the frame without its last column. Every row
      keeps its place and loses its last cell, and a rectangular frame
      stays rectangular. */
  function DropLastColumn(f: Frame): (r: Frame)
    ensures r.columns == DropLast(f.columns)
    ensures |r.rows| == |f.rows|
    ensures forall i :: 0 <= i < |f.rows| ==> r.rows[i] == DropLast(f.rows[i])
    ensures Rectangular(f) ==> Rectangular(r)
  {
    Frame(DropLast(f.columns), DropLastCells(f.rows))
  }

  function DropLastCells(rows: seq<Row>): (r: seq<Row>)
    ensures |r| == |rows| && forall i :: 0 <= i < |rows| ==> r[i] == DropLast(rows[i])
  {
    if rows == [] then [] else DropLastCells(rows[..|rows| - 1]) + [DropLast(rows[|rows| - 1])]
  }

  /** The sheets parsed in order: the `dataframes` list. */
  function Parsed(sheetNames: seq<string>, parse: string -> Frame): (frames: seq<Frame>)
    ensures |frames| == |sheetNames|
    ensures forall i :: 0 <= i < |sheetNames| ==> frames[i] == parse(sheetNames[i])
  {
    seq(|sheetNames|, i requires 0 <= i < |sheetNames| => parse(sheetNames[i]))
  }

  /** Reads the workbook: `parse` stands for `excel_file.parse`. */
  method Load(sheetNames: seq<string>, parse: string -> Frame) returns (r: Result<Frame, LoadError>)
    requires SameSchema(Parsed(sheetNames, parse))
    ensures sheetNames == [] <==> r.Err?
    ensures r.Ok? ==> r.value == DropLastColumn(Concat(Parsed(sheetNames, parse)))
    ensures r.Ok? ==> Rectangular(r.value) && r.value.columns == DropLast(parse(sheetNames[0]).columns)
    ensures r.Ok? ==> |r.value.rows| == RowsBefore(Parsed(sheetNames, parse), |sheetNames|)
  {
    var dataframes: seq<Frame> := [];
    for i := 0 to |sheetNames|
      invariant dataframes == Parsed(sheetNames[..i], parse)
    {
      dataframes := dataframes + [parse(sheetNames[i])];
    }
    assert sheetNames[..|sheetNames|] == sheetNames;
    if dataframes == [] {
      return Err(NoObjectsToConcatenate);
    }
    var df := Concat(dataframes);
    df := DropLastColumn(df);
    LoadedShape(dataframes);
    r := Ok(df);
  }

  // ---------------------------------------------------------------------
  // What the loaded frame holds.

  lemma {:induction false} AllRowsLength(frames: seq<Frame>)
    ensures |AllRows(frames)| == RowsBefore(frames, |frames|)
  {
    if frames != [] {
      var init := frames[..|frames| - 1];
      AllRowsLength(init);
      RowsBeforeAgree(init, frames, |init|);
    }
  }

  lemma {:induction false} RowsBeforeAgree(a: seq<Frame>, b: seq<Frame>, k: nat)
    requires k <= |a| && k <= |b| && a[..k] == b[..k]
    ensures RowsBefore(a, k) == RowsBefore(b, k)
  {
    if k > 0 {
      assert a[k - 1] == a[..k][k - 1] == b[..k][k - 1] == b[k - 1];
      assert a[..k - 1] == a[..k][..k - 1];
      assert b[..k - 1] == b[..k][..k - 1];
      RowsBeforeAgree(a, b, k - 1);
    }
  }

  /** Row `j` of sheet `k` is the loaded frame's row number
      `RowsBefore(frames, k) + j`, less its last cell: sheets are stacked
      in sheet order, each keeping its own row order. */
  lemma {:induction false} LoadedRow(frames: seq<Frame>, k: nat, j: nat)
    requires frames != [] && k < |frames| && j < |frames[k].rows|
    ensures RowsBefore(frames, k) + j < |DropLastColumn(Concat(frames)).rows|
    ensures DropLastColumn(Concat(frames)).rows[RowsBefore(frames, k) + j] == DropLast(frames[k].rows[j])
  {
    AllRowsAt(frames, k, j);
  }

  lemma {:induction false} AllRowsAt(frames: seq<Frame>, k: nat, j: nat)
    requires k < |frames| && j < |frames[k].rows|
    ensures RowsBefore(frames, k) + j < |AllRows(frames)|
    ensures AllRows(frames)[RowsBefore(frames, k) + j] == frames[k].rows[j]
  {
    var init := frames[..|frames| - 1];
    AllRowsLength(init);
    AllRowsLength(frames);
    if k == |frames| - 1 {
      RowsBeforeAgree(init, frames, k);
      assert init[..k] == frames[..k];
    } else {
      AllRowsAt(init, k, j);
      assert init[..k] == frames[..k];
      RowsBeforeAgree(init, frames, k);
    }
  }

  /** The rows of frame `k` are the slice of the stacked rows that starts
      after the rows of the frames before it. */
  lemma {:induction false} AllRowsSlice(frames: seq<Frame>, k: nat)
    requires k < |frames|
    ensures RowsBefore(frames, k) + |frames[k].rows| <= |AllRows(frames)|
    ensures AllRows(frames)[RowsBefore(frames, k)..RowsBefore(frames, k) + |frames[k].rows|] == frames[k].rows
  {
    AllRowsLength(frames);
    RowsBeforeMonotone(frames, k + 1, |frames|);
    assert RowsBefore(frames, k + 1) == RowsBefore(frames, k) + |frames[k].rows|;
    var slice := AllRows(frames)[RowsBefore(frames, k)..RowsBefore(frames, k) + |frames[k].rows|];
    forall j | 0 <= j < |frames[k].rows| ensures slice[j] == frames[k].rows[j] {
      AllRowsAt(frames, k, j);
    }
  }

  lemma {:induction false} RowsBeforeMonotone(frames: seq<Frame>, a: nat, b: nat)
    requires a <= b <= |frames|
    ensures RowsBefore(frames, a) <= RowsBefore(frames, b)
  {
    if a < b {
      RowsBeforeMonotone(frames, a, b - 1);
    }
  }

  /** The loaded frame has one row per sheet row and every row lost
      exactly its last cell. */
  lemma LoadedShape(frames: seq<Frame>)
    requires frames != [] && SameSchema(frames)
    ensures Rectangular(DropLastColumn(Concat(frames)))
    ensures |DropLastColumn(Concat(frames)).rows| == RowsBefore(frames, |frames|)
  {
    AllRowsLength(frames);
    var all := AllRows(frames);
    forall i | 0 <= i < |all| ensures |all[i]| == |frames[0].columns| {
      SameSchemaRows(frames, i);
    }
  }

  lemma {:induction false} SameSchemaRows(frames: seq<Frame>, i: nat)
    requires frames != [] && SameSchema(frames) && i < |AllRows(frames)|
    ensures |AllRows(frames)[i]| == |frames[0].columns|
  {
    var init, last := frames[..|frames| - 1], frames[|frames| - 1];
    if i < |AllRows(init)| {
      assert AllRows(frames)[i] == AllRows(init)[i];
      if init != [] {
        assert SameSchema(init);
        SameSchemaRows(init, i);
      }
    } else {
      assert AllRows(frames)[i] == last.rows[i - |AllRows(init)|];
    }
  }
}

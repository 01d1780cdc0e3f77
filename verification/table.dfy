/**
 The tabular data set: cells, column labels, and the loading step that turns
 the raw cell values of a worksheet into a frame, promoting the detected
 header row to column labels.
 */
module Table {
  import opened Wrappers
  import opened Header

  /** The collection types the report filter refuses. */
  datatype Collection = List | Dict | Tuple | Set

  /** A cell holds either scalar text or a collection. */
  datatype Cell = Str(text: string) | Composite(kind: Collection)

  /** A column label: a frame built from raw values is labelled by position
      `0, 1, ...`; after header promotion the labels are the header's texts. */
  datatype Label = Position(index: nat) | Name(name: string)

  /** A data frame: column labels and rows of cells. */
  datatype Frame = Frame(columns: seq<Label>, rows: seq<seq<Cell>>)

  /** Every row has one cell per column. */
  predicate WellFormed(f: Frame) {
    forall k | 0 <= k < |f.rows| :: |f.rows[k]| == |f.columns|
  }

  /** pandas' `empty`: the frame has no rows or no columns. */
  predicate IsEmpty(f: Frame) {
    |f.rows| == 0 || |f.columns| == 0
  }

  /** `pd.DataFrame()`: no columns and no rows. */
  const EmptyFrame := Frame([], [])

  /** Every cell of the frame is text. */
  predicate AllText(f: Frame) {
    forall k, c | 0 <= k < |f.rows| && 0 <= c < |f.rows[k]| :: f.rows[k][c].Str?
  }

  /** Raw values as the spreadsheet client hands them over: every row as
      wide as the first. */
  predicate Rectangular(data: seq<seq<string>>) {
    forall k | 0 <= k < |data| :: |data[k]| == |data[0]|
  }

  /** A row of raw values as a row of text cells. */
  function StrRow(values: seq<string>): seq<Cell> {
    seq(|values|, i requires 0 <= i < |values| => Str(values[i]))
  }

  function StrRows(data: seq<seq<string>>): seq<seq<Cell>> {
    seq(|data|, k requires 0 <= k < |data| => StrRow(data[k]))
  }

  /** The default labels `0 .. n-1`. */
  function Positions(n: nat): seq<Label> {
    seq(n, i requires 0 <= i < n => Position(i))
  }

  /** A header row's texts as labels. */
  function Names(values: seq<string>): seq<Label> {
    seq(|values|, i requires 0 <= i < |values| => Name(values[i]))
  }

  /** Back from text cells to raw values. */
  function RowValues(cells: seq<Cell>): seq<string>
    requires forall i | 0 <= i < |cells| :: cells[i].Str?
  {
    seq(|cells|, i requires 0 <= i < |cells| && cells[i].Str? => cells[i].text)
  }

  /** Back from header labels to the header's texts. */
  function LabelNames(labels: seq<Label>): seq<string>
    requires forall i | 0 <= i < |labels| :: labels[i].Name?
  {
    seq(|labels|, i requires 0 <= i < |labels| && labels[i].Name? => labels[i].name)
  }

  /** Back from rows of text cells to raw values. */
  function RowsValues(rows: seq<seq<Cell>>): seq<seq<string>>
    requires forall k, c | 0 <= k < |rows| && 0 <= c < |rows[k]| :: rows[k][c].Str?
  {
    seq(|rows|, k requires 0 <= k < |rows| => RowValues(rows[k]))
  }

  /** A frame of text cells with named columns, read back as raw values: the
      header row first, then the data rows. */
  function Unload(f: Frame): seq<seq<string>>
    requires AllText(f)
    requires forall i | 0 <= i < |f.columns| :: f.columns[i].Name?
  {
    [LabelNames(f.columns)] + RowsValues(f.rows)
  }

  /** `pd.DataFrame(data)` over non-empty raw values. */
  function FromValues(data: seq<seq<string>>): Frame
    requires |data| > 0
  {
    Frame(Positions(|data[0]|), StrRows(data))
  }

  /** Header promotion: row `h` becomes the labels and the rows after it,
      renumbered from zero, are the data. */
  function Promote(data: seq<seq<string>>, h: nat): Frame
    requires h < |data|
  {
    Frame(Names(data[h]), StrRows(data[h + 1..]))
  }

  /** Loading a worksheet's raw values into a frame. Empty values give an
      empty frame; rows with no cells make the detector divide by a zero
      width, and the resulting error also yields an empty frame. Otherwise
      the detected header row, if any, is promoted. */
  function Load(data: seq<seq<string>>): (f: Frame)
    requires Rectangular(data)
    ensures WellFormed(f) && AllText(f)
    ensures |data| == 0 || |data[0]| == 0 ==> f == EmptyFrame
    ensures |data| > 0 && |data[0]| > 0 && FindHeader(data, DefaultMaxRows).None? ==>
      && f.columns == Positions(|data[0]|)
      && |f.rows| == |data|
      && forall k | 0 <= k < |data| :: f.rows[k] == StrRow(data[k])
    ensures |data| > 0 && |data[0]| > 0 && FindHeader(data, DefaultMaxRows).Some? ==>
      var h := FindHeader(data, DefaultMaxRows).value;
      && f.columns == Names(data[h])
      && |f.rows| == |data| - h - 1
      && forall k | 0 <= k < |f.rows| :: f.rows[k] == StrRow(data[h + 1 + k])
  {
    if |data| == 0 then EmptyFrame
    else if |data[0]| == 0 then EmptyFrame
    else
      FindHeaderMatchesAveraged(data, DefaultMaxRows, |data[0]|);
      match AveragedFindHeader(data, DefaultMaxRows)
      case None => FromValues(data)
      case Some(h) => Promote(data, h)
  }

  /** Text cells read back give the raw values they were made from. */
  lemma StrRowsRoundTrip(data: seq<seq<string>>)
    ensures RowsValues(StrRows(data)) == data
  {
    forall k | 0 <= k < |data| ensures RowValues(StrRow(data[k])) == data[k] {
    }
  }

  /** Loading loses nothing when no header is found: reading the frame back
      gives the raw values. */
  lemma LoadRoundTripWithoutHeader(data: seq<seq<string>>)
    requires Rectangular(data) && |data| > 0 && |data[0]| > 0
    requires FindHeader(data, DefaultMaxRows).None?
    ensures RowsValues(Load(data).rows) == data
  {
    FindHeaderMatchesAveraged(data, DefaultMaxRows, |data[0]|);
    StrRowsRoundTrip(data);
  }

  /** Loading loses nothing from the header on: reading the frame back,
      labels first, gives the raw values from the header row to the end. */
  lemma LoadRoundTripWithHeader(data: seq<seq<string>>)
    requires Rectangular(data) && |data| > 0 && |data[0]| > 0
    requires FindHeader(data, DefaultMaxRows).Some?
    ensures Unload(Load(data)) == data[FindHeader(data, DefaultMaxRows).value..]
  {
    var h := FindHeader(data, DefaultMaxRows).value;
    FindHeaderMatchesAveraged(data, DefaultMaxRows, |data[0]|);
    StrRowsRoundTrip(data[h + 1..]);
    assert LabelNames(Names(data[h])) == data[h];
    assert data[h..] == [data[h]] + data[h + 1..];
  }

  /** Only the rows up to and including the header are dropped, and the
      header sits in the first five rows, so a load drops at most five
      rows. */
  lemma LoadDropsAtMostLeadingRows(data: seq<seq<string>>)
    requires Rectangular(data) && |data| > 0 && |data[0]| > 0
    ensures |Load(data).rows| >= |data| - DefaultMaxRows
    ensures |Load(data).rows| == |data| <==> FindHeader(data, DefaultMaxRows).None?
  {
  }

  /** The loaded frame is empty exactly when there were no values, the rows
      had no cells, or the header found is the last row. */
  lemma LoadedFrameEmptyIff(data: seq<seq<string>>)
    requires Rectangular(data)
    ensures IsEmpty(Load(data)) <==>
      || |data| == 0
      || |data[0]| == 0
      || FindHeader(data, DefaultMaxRows) == Some(|data| - 1)
  {
  }
}

/**
 * The parsed statement table the converter works on: column labels and rows
 * of cells, as `pd.read_excel` and `DataFrame.iterrows` deliver them.
 */
module Cells {
  import opened Wrappers
  import opened Strings
  import opened Decimals
  import opened Dates

  /** One cell of the sheet. */
  datatype Cell =
    | Null              // an empty cell: NaN (also None or NaT)
    | Text(s: string)   // a text cell
    | Int(i: int)       // an integer cell
    | Real(d: Decimal)  // a float cell
    | Stamp(t: Timestamp) // a date cell

  type Row = seq<Cell>

  /** The labels of the date, description and amount columns the converter reads. */
  datatype Columns = Columns(date: string, memo: string, amount: string)

  /** Position of the first column labelled `name`, or `|labels|` when there is none. */
  function LabelIndex(labels: seq<string>, name: string): (i: nat)
    ensures i <= |labels|
    ensures i < |labels| ==> labels[i] == name
    ensures forall j :: 0 <= j < i ==> labels[j] != name
  {
    if labels == [] || labels[0] == name then 0 else 1 + LabelIndex(labels[1..], name)
  }

  /** `row[name]`, or `None` for the `KeyError` of a name the table does not have. */
  function Lookup(labels: seq<string>, row: Row, name: string): (r: Option<Cell>)
    ensures name !in labels ==> r.None?
  {
    var i := LabelIndex(labels, name);
    if i < |labels| && i < |row| then Some(row[i]) else None
  }

  /** `row[name]` for a label the table has is the cell of the first column with that label. */
  lemma LookupFinds(labels: seq<string>, row: Row, name: string)
    requires name in labels && |row| == |labels|
    ensures exists i :: 0 <= i < |labels| && labels[i] == name && (forall j :: 0 <= j < i ==> labels[j] != name)
                        && Lookup(labels, row, name) == Some(row[i])
  {
    var i := LabelIndex(labels, name);
    assert i < |labels|;
  }

  /** The `str()` of a date cell: `YYYY-MM-DD 00:00:00`. */
  function StampText(t: Timestamp): string {
    FourDigits(t.year) + "-" + TwoDigits(t.month) + "-" + TwoDigits(t.day) + " 00:00:00"
  }

  /** Python's `str()` of a cell value. */
  function CellText(c: Cell): string {
    match c
    case Null => "nan"
    case Text(s) => s
    case Int(i) => IntToString(i)
    case Real(d) => Render(d)
    case Stamp(t) => StampText(t)
  }

  /**
   * What `str()` gives for each kind of cell: a text cell's own text, `nan`
   * for an empty cell, and a number text that shows a positive number
   * exactly when the number is positive; `DateCellText` gives the date case.
   */
  lemma CellTextShape(c: Cell)
    ensures c.Text? ==> CellText(c) == c.s
    ensures c.Null? ==> CellText(c) == "nan"
    ensures c.Int? ==> (c.i > 0 <==> DenotesPositive(CellText(c)))
    ensures c.Real? ==> (Positive(c.d) <==> DenotesPositive(CellText(c)))
  {
    match c
    case Int(i) => IntToStringPositive(i);
    case Real(d) => RenderPositive(d);
    case _ =>
  }

  /** `str()` of a date cell is `YYYY-MM-DD 00:00:00`. */
  lemma DateCellText(t: Timestamp)
    ensures |CellText(Stamp(t))| == 19 && CellText(Stamp(t))[..4] == FourDigits(t.year)
            && CellText(Stamp(t))[4] == '-' && CellText(Stamp(t))[5..7] == TwoDigits(t.month)
            && CellText(Stamp(t))[7] == '-' && CellText(Stamp(t))[8..10] == TwoDigits(t.day)
            && CellText(Stamp(t))[10..] == " 00:00:00"
  {
    StampLayout(FourDigits(t.year), TwoDigits(t.month), TwoDigits(t.day));
  }

  lemma StampLayout(y: string, m: string, d: string)
    requires |y| == 4 && |m| == 2 && |d| == 2
    ensures var s := y + "-" + m + "-" + d + " 00:00:00";
            |s| == 19 && s[..4] == y && s[4] == '-' && s[5..7] == m && s[7] == '-' && s[8..10] == d
            && s[10..] == " 00:00:00"
  {
    var s := y + "-" + m + "-" + d + " 00:00:00";
    assert s == y + ("-" + m + "-" + d) + " 00:00:00";
    assert s[5..7] == m by {
      assert forall k :: 0 <= k < 2 ==> s[5 + k] == m[k];
    }
    assert s[8..10] == d by {
      assert forall k :: 0 <= k < 2 ==> s[8 + k] == d[k];
    }
  }
}

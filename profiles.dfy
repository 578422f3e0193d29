/**
 * The bank profiles in front of `create_ofx`: which columns hold the date,
 * the description and the amount, the label clean-up, the drop of rows
 * without a date, and the glue that hands the table to `create_ofx`.
 */
module Profiles {
  import opened Wrappers
  import opened Strings
  import opened Cells
  import opened Ofx

  /** The banks the converter knows. */
  datatype Bank = BBVA | Santander | Inversis

  /** Why a table cannot be converted. */
  datatype Failure =
    | TooFewColumns          // `df.columns[k]` out of range while resolving columns
    | MissingColumn(name: string) // `KeyError` for a column the table does not have

  // ----- label clean-up -----

  /**
   * `df.columns.str.strip()`: as many labels, in the same order, each with
   * its surrounding whitespace removed and nothing left to strip.
   */
  function StripLabels(labels: seq<string>): (r: seq<string>)
    ensures |r| == |labels|
    ensures forall i :: 0 <= i < |r| ==> Stripped(labels[i], r[i])
  {
    var r := seq(|labels|, i requires 0 <= i < |labels| => Strip(labels[i]));
    assert forall i :: 0 <= i < |r| ==> r[i] == Strip(labels[i]) && Stripped(labels[i], Strip(labels[i]));
    r
  }

  /** Stripping already stripped labels changes nothing (the second strip after the heuristic profile). */
  lemma StripLabelsIdempotent(labels: seq<string>)
    ensures StripLabels(StripLabels(labels)) == StripLabels(labels)
  {
    var once := StripLabels(labels);
    forall i | 0 <= i < |labels|
      ensures StripLabels(once)[i] == once[i]
    {
      StripIdempotent(labels[i]);
    }
  }

  // ----- heuristic column resolution -----

  const DateKeys: seq<string> := ["fecha"]
  const MemoKeys: seq<string> := ["desc", "concep"]
  const AmountKeys: seq<string> := ["importe", "valor"]

  /** `label.lower()` contains one of `keys`. */
  predicate HasKeyword(name: string, keys: seq<string>) {
    exists k :: 0 <= k < |keys| && Contains(Lower(name), keys[k])
  }

  /** Matching ignores case: a label and its lower-case form hold the same keywords. */
  lemma KeywordIgnoresCase(name: string, keys: seq<string>)
    ensures HasKeyword(Lower(name), keys) == HasKeyword(name, keys)
  {
    LowerIdempotent(name);
  }

  /** Position of the first label holding one of `keys`, if any. */
  function FirstMatch(labels: seq<string>, keys: seq<string>): (r: Option<nat>)
    ensures r.Some? ==> r.value < |labels| && HasKeyword(labels[r.value], keys)
    ensures r.Some? ==> forall j :: 0 <= j < r.value ==> !HasKeyword(labels[j], keys)
    ensures r.None? ==> forall j :: 0 <= j < |labels| ==> !HasKeyword(labels[j], keys)
  {
    if labels == [] then None
    else if HasKeyword(labels[0], keys) then Some(0)
    else
      match FirstMatch(labels[1..], keys)
      case None => None
      case Some(i) => Some(i + 1)
  }

  /**
   * `next((c for c in labels if ...), labels[fallback])`: the default is
   * evaluated first, so a table with too few columns fails even when a
   * label matches.
   */
  function Pick(labels: seq<string>, keys: seq<string>, fallback: nat): Option<string> {
    if fallback >= |labels| then None
    else
      match FirstMatch(labels, keys)
      case Some(i) => Some(labels[i])
      case None => Some(labels[fallback])
  }

  /**
   * A role fails exactly when the table has no column at its fallback
   * position; otherwise it takes the first label holding a keyword, and the
   * fallback label only when no label holds one.
   */
  lemma PickChoice(labels: seq<string>, keys: seq<string>, fallback: nat)
    ensures Pick(labels, keys, fallback).None? <==> |labels| <= fallback
    ensures Pick(labels, keys, fallback).Some? ==>
              exists i :: 0 <= i < |labels| && labels[i] == Pick(labels, keys, fallback).value
                          && ((HasKeyword(labels[i], keys) && forall j :: 0 <= j < i ==> !HasKeyword(labels[j], keys))
                              || (i == fallback && forall j :: 0 <= j < |labels| ==> !HasKeyword(labels[j], keys)))
  {
    if fallback < |labels| {
      match FirstMatch(labels, keys)
      case Some(i) =>
        assert labels[i] == Pick(labels, keys, fallback).value;
      case None =>
        assert labels[fallback] == Pick(labels, keys, fallback).value;
    }
  }

  /** The Inversis profile: date, description and amount columns, in that order of evaluation. */
  function ResolveHeuristic(labels: seq<string>): Result<Columns, Failure> {
    match Pick(labels, DateKeys, 0)
    case None => Err(TooFewColumns)
    case Some(date) =>
      match Pick(labels, MemoKeys, 1)
      case None => Err(TooFewColumns)
      case Some(memo) =>
        match Pick(labels, AmountKeys, 2)
        case None => Err(TooFewColumns)
        case Some(amount) => Ok(Columns(date, memo, amount))
  }

  /**
   * The heuristic profile fails exactly when there are fewer than three
   * columns, and otherwise each role is the role's pick among the labels,
   * so every chosen column exists.
   */
  lemma HeuristicResolves(labels: seq<string>)
    ensures ResolveHeuristic(labels).Err? <==> |labels| < 3
    ensures ResolveHeuristic(labels).Ok? ==>
              var c := ResolveHeuristic(labels).value;
              Some(c.date) == Pick(labels, DateKeys, 0)
              && Some(c.memo) == Pick(labels, MemoKeys, 1)
              && Some(c.amount) == Pick(labels, AmountKeys, 2)
              && c.date in labels && c.memo in labels && c.amount in labels
  {
    PickChoice(labels, DateKeys, 0);
    PickChoice(labels, MemoKeys, 1);
    PickChoice(labels, AmountKeys, 2);
  }

  /** A header row whose first label holds both a date and an amount keyword. */
  const FechaValorLabels: seq<string> := ["Fecha Valor", "Concepto", "Importe"]

  /** One label can serve two roles: `Fecha Valor` is both the date and the amount column. */
  lemma FechaValorTwice()
    ensures ResolveHeuristic(FechaValorLabels) == Ok(Columns("Fecha Valor", "Concepto", "Fecha Valor"))
  {
    LowerLabels();
    DateRole();
    MemoRole();
    AmountRole();
  }

  lemma LowerLabels()
    ensures Lower(FechaValorLabels[0]) == "fecha valor"
    ensures Lower(FechaValorLabels[1]) == "concepto"
  {
    assert Lower("Fecha Valor") == "fecha valor";
    assert Lower("Concepto") == "concepto";
  }

  lemma DateRole()
    requires Lower(FechaValorLabels[0]) == "fecha valor"
    ensures Pick(FechaValorLabels, DateKeys, 0) == Some("Fecha Valor")
  {
    KeywordAt(FechaValorLabels[0], DateKeys, 0, 0);
    assert FirstMatch(FechaValorLabels, DateKeys) == Some(0);
  }

  lemma MemoRole()
    requires Lower(FechaValorLabels[0]) == "fecha valor"
    requires Lower(FechaValorLabels[1]) == "concepto"
    ensures Pick(FechaValorLabels, MemoKeys, 1) == Some("Concepto")
  {
    var labels := FechaValorLabels;
    KeywordAt(labels[1], MemoKeys, 1, 0);
    NoMemoKeyword();
    assert !HasKeyword(labels[0], MemoKeys);
    FirstMatchSecond(labels, MemoKeys);
  }

  lemma FirstMatchSecond(labels: seq<string>, keys: seq<string>)
    requires |labels| >= 2 && !HasKeyword(labels[0], keys) && HasKeyword(labels[1], keys)
    ensures FirstMatch(labels, keys) == Some(1)
  {
    assert labels[1..][0] == labels[1];
  }

  lemma AmountRole()
    requires Lower(FechaValorLabels[0]) == "fecha valor"
    ensures Pick(FechaValorLabels, AmountKeys, 2) == Some("Fecha Valor")
  {
    KeywordAt(FechaValorLabels[0], AmountKeys, 1, 6);
    assert FirstMatch(FechaValorLabels, AmountKeys) == Some(0);
  }

  lemma KeywordAt(name: string, keys: seq<string>, k: nat, i: nat)
    requires k < |keys| && OccursAt(Lower(name), keys[k], i)
    ensures HasKeyword(name, keys)
  {
    ContainsAt(Lower(name), keys[k]);
  }

  lemma NoMemoKeyword()
    ensures forall k :: 0 <= k < |MemoKeys| ==> !Contains("fecha valor", MemoKeys[k])
  {
    NoDesc();
    NoConcep();
  }

  lemma NoDesc()
    ensures !Contains("fecha valor", "desc")
  {
    assert "desc"[0] == 'd';
    MissingChar("fecha valor", "desc", 'd');
  }

  lemma NoConcep()
    ensures !Contains("fecha valor", "concep")
  {
    assert "concep"[2] == 'n';
    MissingChar("fecha valor", "concep", 'n');
  }

  /** The columns a bank's statement uses, with the labels the table has from then on. */
  function BankColumns(bank: Bank, labels: seq<string>): Result<Columns, Failure> {
    match bank
    case BBVA => Ok(Columns("Fecha", "Concepto", "Importe"))
    case Santander => Ok(Columns("Fecha Valor", "Concepto", "Importe"))
    case Inversis => ResolveHeuristic(StripLabels(labels))
  }

  // ----- null-date filter -----

  /** `df.dropna(subset=[date])`: the rows whose date cell is not empty, in order. */
  function DropNullDates(labels: seq<string>, rows: seq<Row>, date: string): (r: seq<Row>)
    ensures |r| <= |rows|
    ensures forall i :: 0 <= i < |r| ==> Lookup(labels, r[i], date) != Some(Null)
  {
    if rows == [] then []
    else
      DropNullDates(labels, rows[..|rows| - 1], date)
      + if Lookup(labels, rows[|rows| - 1], date) == Some(Null) then [] else [rows[|rows| - 1]]
  }

  /** A row is kept exactly when its date cell is not empty. */
  lemma {:induction false} DropNullDatesKeeps(labels: seq<string>, rows: seq<Row>, date: string)
    ensures forall row :: row in DropNullDates(labels, rows, date)
              <==> row in rows && Lookup(labels, row, date) != Some(Null)
    decreases |rows|
  {
    if rows != [] {
      var n := |rows| - 1;
      DropNullDatesKeeps(labels, rows[..n], date);
      assert rows == rows[..n] + [rows[n]];
    }
  }

  /** Dropping the rows without a date leaves the converter's records unchanged. */
  lemma {:induction false} DropNullDatesSameRecords(labels: seq<string>, rows: seq<Row>, cols: Columns)
    ensures Records(labels, DropNullDates(labels, rows, cols.date), cols) == Records(labels, rows, cols)
    decreases |rows|
  {
    if rows != [] {
      var n := |rows| - 1;
      var kept := DropNullDates(labels, rows[..n], cols.date);
      DropNullDatesSameRecords(labels, rows[..n], cols);
      if Lookup(labels, rows[n], cols.date) == Some(Null) {
        NullDateSkipped(labels, rows[n], cols);
        assert DropNullDates(labels, rows, cols.date) == kept;
      } else {
        assert DropNullDates(labels, rows, cols.date) == kept + [rows[n]];
        RecordsStep(labels, kept + [rows[n]], |kept|, cols);
        assert (kept + [rows[n]])[..|kept|] == kept;
        assert (kept + [rows[n]])[..|kept| + 1] == kept + [rows[n]];
      }
    }
  }

  // ----- the conversion -----

  /**
   * From a parsed statement to the OFX text: resolve the bank's columns,
   * strip the labels, drop rows without a date, then `create_ofx`.
   */
  method Convert(bank: Bank, labels: seq<string>, rows: seq<Row>) returns (r: Result<string, Failure>)
    ensures BankColumns(bank, labels).Err? ==> r == Err(BankColumns(bank, labels).error)
    ensures BankColumns(bank, labels).Ok? ==>
              var cols := BankColumns(bank, labels).value;
              var names := StripLabels(labels);
              if cols.date !in names then r == Err(MissingColumn(cols.date))
              else if cols.memo !in names then r == Err(MissingColumn(cols.memo))
              else if cols.amount !in names then r == Err(MissingColumn(cols.amount))
              else r == Ok(Header + Blocks(Records(names, rows, cols)) + Footer)
  {
    var resolved := BankColumns(bank, labels);
    if resolved.Err? {
      return Err(resolved.error);
    }
    var cols := resolved.value;
    var names: seq<string>;
    if bank == Inversis {
      // stripped before the heuristic reads them, then once more
      names := StripLabels(labels);
      StripLabelsIdempotent(labels);
      names := StripLabels(names);
    } else {
      names := StripLabels(labels);
    }
    assert names == StripLabels(labels);
    if cols.date !in names {
      return Err(MissingColumn(cols.date));
    }
    var kept := DropNullDates(names, rows, cols.date);
    if cols.memo !in names {
      return Err(MissingColumn(cols.memo));
    }
    if cols.amount !in names {
      return Err(MissingColumn(cols.amount));
    }
    DropNullDatesSameRecords(names, rows, cols);
    var doc := CreateOfx(names, kept, cols);
    return Ok(doc);
  }
}

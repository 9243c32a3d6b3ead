/** The CSV checkpoint between stages: every stage saves its table with
    `to_csv(index=False)` and the next one reloads it with `read_csv`
    (app.py:59, 75, 78-79, 90, 93, 104, 107). Only the effect on cell values
    is modelled: a missing cell is written as an empty field, a timestamp as
    its text, and on reading every field equal to one of pandas' default NA
    markers (the empty field among them) comes back missing. Timestamps are
    not re-parsed, so they come back as text. */
module Checkpoint {
  import opened Strings
  import opened Table
  import Calendar

  /** pandas' default `na_values` for `read_csv`. */
  const NaTokens: set<string> := {
    "", "#N/A", "#N/A N/A", "#NA", "-1.#IND", "-1.#QNAN", "-NaN", "-nan",
    "1.#IND", "1.#QNAN", "<NA>", "N/A", "NA", "NULL", "NaN", "None", "n/a",
    "nan", "null"
  }

  /** A column whose written form is date-only: every cell is missing or a
      timestamp at midnight (pandas then drops the time of day). */
  predicate DateOnlyColumn(d: Dataset, column: string) {
    forall i :: 0 <= i < |d.rows| ==>
      match Get(d.rows[i], column)
      case Missing => true
      case Text(_) => false
      case Date(ts) => ts % 86400 == 0
  }

  /** The CSV field written for a cell. The field is empty only for a
      missing cell or an empty text, and a timestamp is written as a
      digit-ended text. */
  function WriteCell(c: Cell, dateOnly: bool): (r: string)
    ensures r == "" <==> c == Missing || c == Text("")
    ensures c.Date? ==> |r| >= 1 && IsDigit(r[|r| - 1])
  {
    match c
    case Missing => ""
    case Text(s) => s
    case Date(ts) => Calendar.TimestampText(ts, dateOnly)
  }

  /** The cell `read_csv` makes of a field. Writing that cell out again
      gives the field back, except that every NA marker is written as the
      empty field. The cell is settled: a further checkpoint keeps it. */
  function ReadField(s: string): (c: Cell)
    ensures c == Missing <==> s in NaTokens
    ensures c != Missing ==> c == Text(s)
    ensures forall dateOnly :: WriteCell(c, dateOnly) == (if s in NaTokens then "" else s)
    ensures Settled(c)
  {
    if s in NaTokens then Missing else Text(s)
  }

  function ReloadCell(c: Cell, dateOnly: bool): Cell {
    ReadField(WriteCell(c, dateOnly))
  }

  /** Cells that survive a save and reload unchanged. */
  predicate Settled(c: Cell) {
    c.Missing? || (c.Text? && c.s !in NaTokens)
  }

  /** Every NA marker is empty or ends in a non-digit, while every written
      timestamp ends in a digit. */
  lemma NaTokensEndInNonDigit()
    ensures forall t :: t in NaTokens ==> t == "" || !IsDigit(t[|t| - 1])
  {
  }

  /** Every NA marker is empty or starts with '#', '-', '1', '<', 'N' or
      'n', so a text starting with any other letter is none of them. */
  lemma LetterLedText(s: string)
    requires |s| >= 1 && ('a' <= s[0] <= 'z' || 'A' <= s[0] <= 'Z') && s[0] != 'N' && s[0] != 'n'
    ensures s !in NaTokens
  {
    assert forall t :: t in NaTokens ==> t == "" || t[0] in "#-1<Nn";
  }

  /** A text ending in a digit is neither an NA marker nor blank. */
  lemma DigitEndedText(s: string)
    requires |s| >= 1 && IsDigit(s[|s| - 1])
    ensures s !in NaTokens && !IsBlank(s)
  {
    NaTokensEndInNonDigit();
    assert !IsSpace(s[|s| - 1]);
  }

  /** A reloaded cell is always settled: no timestamp, no NA marker. */
  lemma ReloadCellSettled(c: Cell, dateOnly: bool)
    ensures Settled(ReloadCell(c, dateOnly))
  {
  }

  /** Saving and reloading once more changes nothing about a settled cell. */
  lemma ReloadSettledCell(c: Cell, dateOnly: bool)
    requires Settled(c)
    ensures ReloadCell(c, dateOnly) == c
  {
  }

  /** What each reloaded cell is: the text written for the cell unless it is
      an NA marker, in which case missing. A timestamp never becomes missing
      and never comes back blank. */
  lemma ReloadCellCases(c: Cell, dateOnly: bool)
    ensures c.Missing? ==> ReloadCell(c, dateOnly) == Missing
    ensures c.Text? ==> ReloadCell(c, dateOnly) == (if c.s in NaTokens then Missing else c)
    ensures c.Date? ==> ReloadCell(c, dateOnly).Text?
                        && !IsBlank(ReloadCell(c, dateOnly).s)
  {
    if c.Date? {
      DigitEndedText(Calendar.TimestampText(c.ts, dateOnly));
    }
  }

  function ReloadRow(d: Dataset, row: Row): (r: Row)
    ensures forall c :: c in r <==> c in d.columns
  {
    map c | c in d.columns :: ReloadCell(Get(row, c), DateOnlyColumn(d, c))
  }

  /** The table the next stage reads back after this one was saved. */
  function Reload(d: Dataset): (r: Dataset)
    ensures r.columns == d.columns && |r.rows| == |d.rows|
    ensures forall i, c :: 0 <= i < |d.rows| && c in d.columns ==>
              Get(r.rows[i], c) == ReloadCell(Get(d.rows[i], c), DateOnlyColumn(d, c))
    ensures forall i, c :: 0 <= i < |d.rows| && c !in d.columns ==> Get(r.rows[i], c) == Missing
  {
    Dataset(d.columns, seq(|d.rows|, i requires 0 <= i < |d.rows| => ReloadRow(d, d.rows[i])))
  }

  /** A table as `read_csv` returns it: every row has exactly the table's
      columns and every cell is settled. */
  ghost predicate SettledTable(d: Dataset) {
    forall i :: 0 <= i < |d.rows| ==>
      && (forall c :: c in d.rows[i] <==> c in d.columns)
      && (forall c :: c in d.rows[i] ==> Settled(d.rows[i][c]))
  }

  lemma ReloadIsSettled(d: Dataset)
    ensures SettledTable(Reload(d))
  {
    var r := Reload(d);
    forall i, c | 0 <= i < |r.rows| && c in r.rows[i]
      ensures Settled(r.rows[i][c])
    {
      ReloadCellSettled(Get(d.rows[i], c), DateOnlyColumn(d, c));
    }
  }

  /** Saving and reloading a settled table gives it back unchanged. */
  lemma ReloadSettledTable(d: Dataset)
    requires SettledTable(d)
    ensures Reload(d) == d
  {
    var r := Reload(d);
    forall i | 0 <= i < |d.rows|
      ensures r.rows[i] == d.rows[i]
    {
      forall c | c in d.columns
        ensures r.rows[i][c] == d.rows[i][c]
      {
        ReloadSettledCell(d.rows[i][c], DateOnlyColumn(d, c));
      }
    }
  }

  /** The checkpoint is a fixpoint after one pass: saving and reloading a
      reloaded table gives the same table. */
  lemma ReloadIdempotent(d: Dataset)
    ensures Reload(Reload(d)) == Reload(d)
  {
    ReloadIsSettled(d);
    ReloadSettledTable(Reload(d));
  }

  /** Keeping some of the rows of a settled table keeps it settled. */
  lemma SubTableSettled(d: Dataset, rows: seq<Row>)
    requires SettledTable(d)
    requires forall x :: x in rows ==> x in d.rows
    ensures SettledTable(Dataset(d.columns, rows))
  {
    forall i | 0 <= i < |rows|
      ensures (forall c :: c in rows[i] <==> c in d.columns)
              && (forall c :: c in rows[i] ==> Settled(rows[i][c]))
    {
      assert rows[i] in d.rows;
      var j :| 0 <= j < |d.rows| && d.rows[j] == rows[i];
    }
  }
}

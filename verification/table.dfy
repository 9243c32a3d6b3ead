/** The in-memory tables the pipeline passes between its stages.

    A dataset is an ordered list of column names and a sequence of rows; a
    row maps column names to cells. A cell is missing (pandas' NaN / NaT),
    a text, or a parsed timestamp in whole seconds. Reading a column a row
    has no entry for gives a missing cell, as a column that was never filled
    holds NaN. */
module Table {
  import Strings
  import Calendar

  datatype Cell = Missing | Text(s: string) | Date(ts: int)

  type Row = map<string, Cell>

  datatype Dataset = Dataset(columns: seq<string>, rows: seq<Row>)

  /** The errors the pipeline can end with. */
  datatype Error =
    /** `ValueError` raised once every delimiter/encoding attempt failed. */
    | Unreadable
    /** Whatever the spreadsheet reader raised for this path. */
    | SpreadsheetUnreadable(path: string)
    /** `StopIteration` from the column search for this hint. */
    | ColumnNotFound(hint: string)
    /** `KeyError` for a column looked up by its exact name. */
    | MissingColumn(column: string)

  function Get(row: Row, column: string): Cell {
    if column in row then row[column] else Missing
  }

  /** The column list after `df[name] = ...`: a new name is appended, an
      existing one keeps its place. */
  function WithColumn(columns: seq<string>, name: string): (r: seq<string>)
    ensures name in r
    ensures columns <= r && |r| <= |columns| + 1
    ensures forall c :: c in r <==> c in columns || c == name
    ensures name in columns ==> r == columns
  {
    if name in columns then columns else columns + [name]
  }

  /** Python's `str()` of a cell: a missing cell as `read_csv` returns it
      (NaN) prints as "nan", a timestamp in the form `%Y-%m-%d %H:%M:%S`. The
      stages print only reloaded cells, so a missing cell is never NaT here.
      Only a missing cell and the text "nan" print as "nan", a timestamp
      prints as a digit-ended text, and a blank print comes only from a text. */
  function Str(c: Cell): (r: string)
    ensures r == "nan" <==> c == Missing || c == Text("nan")
    ensures c.Date? ==> |r| >= 1 && Strings.IsDigit(r[|r| - 1])
    ensures Strings.IsBlank(r) ==> c.Text?
  {
    match c
    case Missing => assert "nan"[0] == 'n' && !Strings.IsSpace('n'); "nan"
    case Text(s) => s
    case Date(ts) => Calendar.TimestampText(ts, false)
  }

  /** `c` is one of the given text labels (pandas' `isin` on a cell: a
      missing cell or a timestamp equals no text label). */
  predicate IsLabel(c: Cell, labels: set<string>) {
    c.Text? && c.s in labels
  }
}

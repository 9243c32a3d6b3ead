/** The five filtering stages of `rodar_pipeline` (app.py:43-111), each a
    pure function from the table it reads to the table it saves. */
module Stages {
  import opened Wrappers
  import opened Strings
  import opened Table
  import opened Selection
  import Calendar
  import Columns

  const LoginColumn := "Data do último login"
  const InactiveColumn := "Data Inferior 6 meses"
  const NameColumn := "Nome"
  const InstallerColumn := "NOME_INSTALADOR"
  const IdleColumn := "PRESTADOR SEM SERVIÇO"
  const ReceiptColumn := "Recebimento de O.S"

  const StatusHint := "status"
  const CategoryHint := "categoria"
  const ExcludedStatuses: set<string> := {"Cancelado", "Confirmada", "Agendada", "Distribuida"}
  const ExcludedCategories: set<string> := {"Serviço loja", "Frete móveis planejados"}
  const InactiveReceipt := "inativo"

  /** The inactivity window, in days. */
  const WindowDays := 180
  const MicrosPerSecond := 1_000_000

  /** Rows whose `column` holds none of `labels` (`~df[column].isin(labels)`). */
  function Outside(column: string, labels: set<string>): Row -> bool {
    row => !IsLabel(Get(row, column), labels)
  }

  // ---------------------------------------------------------------------
  // Stage 1: last login and the six-month test (app.py:47-56)

  /** The timestamp `pd.to_datetime(..., format=..., errors="coerce")` gives
      a cell: a timestamp stays, a text is parsed, anything else is NaT. */
  function LoginTime(c: Cell): Option<int> {
    match c
    case Missing => None
    case Date(ts) => Some(ts)
    case Text(s) => Calendar.ParseLogin(s)
  }

  /** A login text yields a timestamp exactly when it is an admitted
      spelling of a valid `%d/%m/%Y %H:%M:%S` stamp, and the timestamp is
      that stamp's seconds. */
  lemma LoginTimeSpelled(s: string, t: int)
    ensures LoginTime(Text(s)) == Some(t)
            <==> exists st, sp :: Calendar.Admits(st, sp) && s == Calendar.Spell(st, sp)
                                  && t == Calendar.Seconds(st)
  {
    if LoginTime(Text(s)) == Some(t) {
      LoginTimeIsSpelled(s);
    }
    if exists st, sp :: Calendar.Admits(st, sp) && s == Calendar.Spell(st, sp) && t == Calendar.Seconds(st) {
      var st, sp :| Calendar.Admits(st, sp) && s == Calendar.Spell(st, sp) && t == Calendar.Seconds(st);
      Calendar.ParseLoginOfSpelling(st, sp);
    }
  }

  lemma LoginTimeIsSpelled(s: string)
    requires LoginTime(Text(s)).Some?
    ensures exists st, sp :: Calendar.Admits(st, sp) && s == Calendar.Spell(st, sp)
                             && LoginTime(Text(s)).value == Calendar.Seconds(st)
  {
    var st := Calendar.ParseStamp(s).value;
    Calendar.ParsedIsSpelled(s);
  }

  /** `ts < now - 180 days`, with `now` read in microseconds. */
  predicate IsInactive(ts: int, nowMicros: int) {
    ts * MicrosPerSecond < nowMicros - WindowDays * 86400 * MicrosPerSecond
  }

  function MarkInactive(row: Row, nowMicros: int): Row {
    var t := LoginTime(Get(row, LoginColumn));
    var login := if t.Some? then Date(t.value) else Missing;
    row[LoginColumn := login]
       [InactiveColumn := if t.Some? && IsInactive(t.value, nowMicros) then login else Missing]
  }

  function Stage1(d: Dataset, nowMicros: int): (r: Result<Dataset, Error>)
    ensures r.Err? <==> LoginColumn !in d.columns
    ensures r.Err? ==> r.error == MissingColumn(LoginColumn)
    ensures r.Ok? ==> d.columns <= r.value.columns
                      && forall c :: c in r.value.columns <==> c in d.columns || c == InactiveColumn
    ensures r.Ok? ==> r.value.columns == WithColumn(d.columns, InactiveColumn)
    ensures r.Ok? ==> |r.value.rows| == |d.rows|
    ensures r.Ok? ==> forall i, c :: 0 <= i < |d.rows| && c != LoginColumn && c != InactiveColumn ==>
                        Get(r.value.rows[i], c) == Get(d.rows[i], c)
    ensures r.Ok? ==> forall i :: 0 <= i < |d.rows| ==>
                        var t := LoginTime(Get(d.rows[i], LoginColumn));
                        var login := Get(r.value.rows[i], LoginColumn);
                        var inactive := Get(r.value.rows[i], InactiveColumn);
                        && (login.Date? <==> t.Some?) && (t.Some? ==> login.ts == t.value)
                        && !login.Text? && !inactive.Text?
                        && (inactive.Date? <==> t.Some? && IsInactive(t.value, nowMicros))
                        && (inactive.Date? ==> inactive.ts == t.value)
  {
    if LoginColumn !in d.columns then Err(MissingColumn(LoginColumn))
    else
      Ok(Dataset(WithColumn(d.columns, InactiveColumn),
                 seq(|d.rows|, i requires 0 <= i < |d.rows| => MarkInactive(d.rows[i], nowMicros))))
  }

  // ---------------------------------------------------------------------
  // Stage 2: excluded statuses and categories (app.py:64-72)

  /** A monthly row survives when neither its status nor its category is one
      of the excluded labels. */
  function MonthlyKeep(status: string, category: string): Row -> bool {
    Both(Outside(status, ExcludedStatuses), Outside(category, ExcludedCategories))
  }

  function Stage2(d: Dataset): (r: Result<Dataset, Error>)
    ensures var s := Columns.Resolve(d.columns, StatusHint);
            var c := Columns.Resolve(d.columns, CategoryHint);
            && (r.Err? <==> s.Err? || c.Err?)
            && (s.Err? ==> r == Err(ColumnNotFound(StatusHint)))
            && (s.Ok? && c.Err? ==> r == Err(ColumnNotFound(CategoryHint)))
            && (r.Ok? ==> r.value.columns == d.columns
                          && ExactSelection(d.rows, MonthlyKeep(s.value, c.value), r.value.rows))
  {
    var status :- Columns.Resolve(d.columns, StatusHint);
    var category :- Columns.Resolve(d.columns, CategoryHint);
    var kept := Filter(Filter(d.rows, Outside(status, ExcludedStatuses)),
                       Outside(category, ExcludedCategories));
    FilterTwice(d.rows, Outside(status, ExcludedStatuses), Outside(category, ExcludedCategories));
    FilterIsExactSelection(d.rows, MonthlyKeep(status, category));
    Ok(Dataset(d.columns, kept))
  }

  // ---------------------------------------------------------------------
  // Stage 3: providers without service (app.py:81-87)

  /** `set(monthly["NOME_INSTALADOR"].dropna().astype(str).str.strip())`. */
  function InstallerNames(m: Dataset): set<string> {
    set i | 0 <= i < |m.rows| && Get(m.rows[i], InstallerColumn) != Missing
      :: Trim(Str(Get(m.rows[i], InstallerColumn)))
  }

  /** Some monthly row names an installer equal, after trimming both sides,
      to the trimmed text of `name`. */
  ghost predicate Served(name: Cell, m: Dataset) {
    exists j :: 0 <= j < |m.rows| && Get(m.rows[j], InstallerColumn) != Missing
                && Trim(Str(Get(m.rows[j], InstallerColumn))) == Trim(Str(name))
  }

  /** The lambda of app.py:86. */
  function IdleMark(name: Cell, names: set<string>): Cell {
    if Trim(Str(name)) !in names then name else Text("")
  }

  function Stage3(roster: Dataset, monthly: Dataset): (r: Result<Dataset, Error>)
    ensures r.Err? <==> InstallerColumn !in monthly.columns || NameColumn !in roster.columns
    ensures InstallerColumn !in monthly.columns ==> r == Err(MissingColumn(InstallerColumn))
    ensures InstallerColumn in monthly.columns && NameColumn !in roster.columns ==>
              r == Err(MissingColumn(NameColumn))
    ensures r.Ok? ==> roster.columns <= r.value.columns
                      && forall c :: c in r.value.columns <==> c in roster.columns || c == IdleColumn
    ensures r.Ok? ==> r.value.columns == WithColumn(roster.columns, IdleColumn)
    ensures r.Ok? ==> |r.value.rows| == |roster.rows|
    ensures r.Ok? ==> forall i, c :: 0 <= i < |roster.rows| && c != IdleColumn ==>
                        Get(r.value.rows[i], c) == Get(roster.rows[i], c)
    ensures r.Ok? ==> forall i :: 0 <= i < |roster.rows| ==>
                        var name := Get(roster.rows[i], NameColumn);
                        Get(r.value.rows[i], IdleColumn) == (if Served(name, monthly) then Text("") else name)
  {
    if InstallerColumn !in monthly.columns then Err(MissingColumn(InstallerColumn))
    else if NameColumn !in roster.columns then Err(MissingColumn(NameColumn))
    else
      var names := InstallerNames(monthly);
      var rows := seq(|roster.rows|, i requires 0 <= i < |roster.rows| =>
                        roster.rows[i][IdleColumn := IdleMark(Get(roster.rows[i], NameColumn), names)]);
      assert forall i :: 0 <= i < |roster.rows| ==>
               (Served(Get(roster.rows[i], NameColumn), monthly)
                <==> Trim(Str(Get(roster.rows[i], NameColumn))) in names);
      Ok(Dataset(WithColumn(roster.columns, IdleColumn), rows))
  }

  // ---------------------------------------------------------------------
  // Stage 4: inactive and without service (app.py:95-101)

  /** `notna()` and a non-blank `astype(str)` for the inactivity date, and a
      non-blank `astype(str)` for the provider-without-service cell. */
  function FlagKeep(): Row -> bool {
    row => && Get(row, InactiveColumn) != Missing
           && Trim(Str(Get(row, InactiveColumn))) != ""
           && Trim(Str(Get(row, IdleColumn))) != ""
  }

  function Stage4(d: Dataset): (r: Result<Dataset, Error>)
    ensures r.Err? <==> InactiveColumn !in d.columns || IdleColumn !in d.columns
    ensures InactiveColumn !in d.columns ==> r == Err(MissingColumn(InactiveColumn))
    ensures InactiveColumn in d.columns && IdleColumn !in d.columns ==> r == Err(MissingColumn(IdleColumn))
    ensures r.Ok? ==> r.value.columns == d.columns && ExactSelection(d.rows, FlagKeep(), r.value.rows)
  {
    if InactiveColumn !in d.columns then Err(MissingColumn(InactiveColumn))
    else if IdleColumn !in d.columns then Err(MissingColumn(IdleColumn))
    else
      FilterIsExactSelection(d.rows, FlagKeep());
      Ok(Dataset(d.columns, Filter(d.rows, FlagKeep())))
  }

  // ---------------------------------------------------------------------
  // Stage 5: inactive order receipt (app.py:107-109)

  function ReceiptKeep(): Row -> bool {
    Outside(ReceiptColumn, {InactiveReceipt})
  }

  function Stage5(d: Dataset): (r: Result<Dataset, Error>)
    ensures r.Err? <==> ReceiptColumn !in d.columns
    ensures r.Err? ==> r.error == MissingColumn(ReceiptColumn)
    ensures r.Ok? ==> r.value.columns == d.columns && ExactSelection(d.rows, ReceiptKeep(), r.value.rows)
    ensures r.Ok? ==> forall i :: 0 <= i < |r.value.rows| ==>
                        Get(r.value.rows[i], ReceiptColumn) != Text(InactiveReceipt)
  {
    if ReceiptColumn !in d.columns then Err(MissingColumn(ReceiptColumn))
    else
      FilterIsExactSelection(d.rows, ReceiptKeep());
      var kept := Filter(d.rows, ReceiptKeep());
      assert forall i :: 0 <= i < |kept| ==> ReceiptKeep()(kept[i]);
      Ok(Dataset(d.columns, kept))
  }

  /** Removing the inactive receipts a second time removes nothing more. */
  lemma Stage5Idempotent(d: Dataset)
    requires Stage5(d).Ok?
    ensures Stage5(Stage5(d).value) == Stage5(d)
  {
    FilterIdempotent(d.rows, ReceiptKeep());
  }
}

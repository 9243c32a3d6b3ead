/** `rodar_pipeline` (app.py:43-111): read the roster, stage 1, read the
    monthly file, stage 2, then stages 3 to 5, each reading back what the
    previous stage saved. The clock reading of app.py:53 is the parameter
    `nowMicros`. The value is the table saved as the final artifact. */
module Pipeline {
  import opened Wrappers
  import opened Strings
  import opened Table
  import opened Selection
  import opened Checkpoint
  import opened Stages
  import Reader

  function Run(roster: Reader.Upload, monthly: Reader.Upload, nowMicros: int): Result<Dataset, Error> {
    var raw :- Reader.Read(roster);
    var base1 :- Stage1(raw, nowMicros);
    var mensal :- Reader.Read(monthly);
    var part1 :- Stage2(mensal);
    Finish(base1, part1)
  }

  /** Stages 3 to 5, from the tables stages 1 and 2 saved. */
  function Finish(base1: Dataset, part1: Dataset): Result<Dataset, Error>
    requires InactiveColumn in base1.columns
  {
    var base2 :- Stage3(Reload(base1), Reload(part1));
    // Stage 4 cannot fail here: stage 1 added the inactivity column and
    // stage 3 the provider-without-service column.
    var flagged := Stage4(Reload(base2)).value;
    Stage5(Reload(flagged))
  }

  /** What the final table keeps of roster row `i`: the last login parsed to
      a timestamp older than the window, the provider-without-service cell
      did not come back blank, and the receipt is not "inativo". The name is
      compared as it reads back from the first checkpoint against the monthly
      table as it reads back from its checkpoint. */
  ghost predicate Flagged(raw: Dataset, part1: Dataset, nowMicros: int, i: int)
    requires 0 <= i < |raw.rows|
  {
    var row := raw.rows[i];
    var t := LoginTime(Get(row, LoginColumn));
    var name := ReloadCell(Get(row, NameColumn), DateOnlyColumn(raw, NameColumn));
    && t.Some? && IsInactive(t.value, nowMicros)
    && (Served(name, Reload(part1)) || !(name.Text? && IsBlank(name.s)))
    && Get(row, ReceiptColumn) != Text(InactiveReceipt)
  }

  /** `row` is roster row `i` as the pipeline carries it along: in every
      roster column the stages do not write, it holds the roster cell read
      back once from a checkpoint. */
  ghost predicate FromRoster(raw: Dataset, i: int, row: Row) {
    && 0 <= i < |raw.rows|
    && forall c :: c in raw.columns && c != LoginColumn && c != InactiveColumn && c != IdleColumn ==>
         Get(row, c) == ReloadCell(Get(raw.rows[i], c), DateOnlyColumn(raw, c))
  }

  /** A roster row is flagged when its login parses to a time older than
      the window, its name is a text that survives the checkpoint and is not
      blank, and its receipt is not "inativo". */
  lemma FlaggedWhen(raw: Dataset, part1: Dataset, nowMicros: int, i: int, t: int, name: string)
    requires 0 <= i < |raw.rows|
    requires LoginTime(Get(raw.rows[i], LoginColumn)) == Some(t) && IsInactive(t, nowMicros)
    requires Get(raw.rows[i], NameColumn) == Text(name) && name !in NaTokens && !IsBlank(name)
    requires Get(raw.rows[i], ReceiptColumn) != Text(InactiveReceipt)
    ensures Flagged(raw, part1, nowMicros, i)
  {
    ReloadCellCases(Text(name), DateOnlyColumn(raw, NameColumn));
  }

  /** `idx` lists, in increasing order, the positions of the flagged roster
      rows, and row `k` of `f` is roster row `idx[k]`. */
  ghost predicate FlaggedAt(raw: Dataset, part1: Dataset, nowMicros: int, idx: seq<nat>, f: Dataset) {
    && |idx| == |f.rows|
    && (forall k :: 0 <= k < |idx| ==> idx[k] < |raw.rows|)
    && (forall k, l :: 0 <= k < l < |idx| ==> idx[k] < idx[l])
    && (forall i :: 0 <= i < |raw.rows| ==> (i in idx <==> Flagged(raw, part1, nowMicros, i)))
    && (forall k :: 0 <= k < |idx| ==> FromRoster(raw, idx[k], f.rows[k]))
  }

  // ---------------------------------------------------------------------
  // Stage 4 after the checkpoint

  /** What stage 4's provider-without-service test says of a cell after a
      checkpoint: it fails only for a non-empty, whitespace-only text. A name
      stage 3 blanked out (`""`) reads back as NaN, whose text is "nan", so it
      passes the test. */
  lemma ReloadedIdleTest(c: Cell, dateOnly: bool)
    ensures Trim(Str(ReloadCell(c, dateOnly))) == ""
            <==> c.Text? && c.s !in NaTokens && IsBlank(c.s)
    ensures Trim(Str(ReloadCell(Text(""), dateOnly))) == "nan"
  {
    ReloadCellCases(c, dateOnly);
    if c.Date? {
      assert !IsBlank(ReloadCell(c, dateOnly).s);
    }
    assert Trim("nan") == "nan" by {
      assert !IsSpace('n');
    }
  }

  // ---------------------------------------------------------------------
  // Errors

  /** Stage 4 never fails inside the pipeline: stage 1 and stage 3 add the
      two columns it reads, and the checkpoints keep the columns. The run
      ends in error only for an unreadable file, an unresolved hint, or a
      missing login, installer, name or receipt column. */
  lemma RunErrors(roster: Reader.Upload, monthly: Reader.Upload, nowMicros: int)
    requires Run(roster, monthly, nowMicros).Err?
    ensures var e := Run(roster, monthly, nowMicros).error;
            || e == Unreadable
            || e.SpreadsheetUnreadable?
            || e == ColumnNotFound(StatusHint) || e == ColumnNotFound(CategoryHint)
            || e == MissingColumn(LoginColumn) || e == MissingColumn(InstallerColumn)
            || e == MissingColumn(NameColumn) || e == MissingColumn(ReceiptColumn)
  {
    var e := Run(roster, monthly, nowMicros).error;
    var rr := Reader.Read(roster);
    if rr.Err? {
      assert e == rr.error;
      return;
    }
    var s1 := Stage1(rr.value, nowMicros);
    if s1.Err? {
      assert e == s1.error;
      return;
    }
    var rm := Reader.Read(monthly);
    if rm.Err? {
      assert e == rm.error;
      return;
    }
    var s2 := Stage2(rm.value);
    if s2.Err? {
      assert e == s2.error;
      return;
    }
    FinishErrors(s1.value, s2.value);
  }

  /** Stages 3 to 5 fail only on a missing installer, name or receipt
      column. */
  lemma FinishErrors(base1: Dataset, part1: Dataset)
    requires InactiveColumn in base1.columns
    ensures Finish(base1, part1).Err? ==>
              var e := Finish(base1, part1).error;
              e == MissingColumn(InstallerColumn) || e == MissingColumn(NameColumn)
              || e == MissingColumn(ReceiptColumn)
  {
    var s3 := Stage3(Reload(base1), Reload(part1));
    if s3.Ok? {
      var flagged := Stage4(Reload(s3.value)).value;
      assert Finish(base1, part1) == Stage5(Reload(flagged));
    }
  }

  /** Once stages 1 and 2 have succeeded, the run succeeds exactly when the
      monthly table has an installer column and the roster has a name and a
      receipt column. */
  lemma FinishSucceeds(base1: Dataset, part1: Dataset)
    requires InactiveColumn in base1.columns
    ensures Finish(base1, part1).Ok?
            <==> InstallerColumn in part1.columns && NameColumn in base1.columns
                 && ReceiptColumn in base1.columns
  {
    var s3 := Stage3(Reload(base1), Reload(part1));
    if s3.Ok? {
      var flagged := Stage4(Reload(s3.value)).value;
      assert Finish(base1, part1) == Stage5(Reload(flagged));
    }
  }

  // ---------------------------------------------------------------------
  // The final table

  /** The stages a successful run went through. */
  lemma RunStages(roster: Reader.Upload, monthly: Reader.Upload, nowMicros: int)
    requires Run(roster, monthly, nowMicros).Ok?
    ensures Reader.Read(roster).Ok? && Reader.Read(monthly).Ok?
    ensures Stage1(Reader.Read(roster).value, nowMicros).Ok?
    ensures Stage2(Reader.Read(monthly).value).Ok?
    ensures var base1 := Stage1(Reader.Read(roster).value, nowMicros).value;
            var part1 := Stage2(Reader.Read(monthly).value).value;
            && Stage3(Reload(base1), Reload(part1)).Ok?
            && var base2 := Stage3(Reload(base1), Reload(part1)).value;
               && Stage4(Reload(base2)).Ok?
               && Run(roster, monthly, nowMicros) == Stage5(Reload(Stage4(Reload(base2)).value))
  {
    var base1 := Stage1(Reader.Read(roster).value, nowMicros).value;
    var part1 := Stage2(Reader.Read(monthly).value).value;
    assert Run(roster, monthly, nowMicros) == Finish(base1, part1);
    FinishStages(base1, part1);
  }

  lemma FinishStages(base1: Dataset, part1: Dataset)
    requires InactiveColumn in base1.columns && Finish(base1, part1).Ok?
    ensures Stage3(Reload(base1), Reload(part1)).Ok?
    ensures var base2 := Stage3(Reload(base1), Reload(part1)).value;
            && Stage4(Reload(base2)).Ok?
            && Finish(base1, part1) == Stage5(Reload(Stage4(Reload(base2)).value))
  {
  }

  /** The header of the final table is the roster's, with the inactivity
      column and then the provider-without-service column appended where the
      roster does not already have them. */
  lemma RunColumns(roster: Reader.Upload, monthly: Reader.Upload, nowMicros: int)
    requires Run(roster, monthly, nowMicros).Ok?
    ensures Run(roster, monthly, nowMicros).value.columns
            == WithColumn(WithColumn(Reader.Read(roster).value.columns, InactiveColumn), IdleColumn)
  {
    RunStages(roster, monthly, nowMicros);
  }

  /** The rows the final table is drawn from: the roster after stage 3 as
      stage 4 reads it back. */
  lemma FinalIsSelection(base2: Dataset, f: Dataset)
    requires Stage4(Reload(base2)).Ok?
    requires Stage5(Reload(Stage4(Reload(base2)).value)) == Ok(f)
    ensures f.rows == Filter(Reload(base2).rows, Both(FlagKeep(), ReceiptKeep()))
  {
    var r2 := Reload(base2);
    var flagged := Stage4(r2).value;
    ReloadIsSettled(base2);
    SubTableSettled(r2, flagged.rows);
    ReloadSettledTable(flagged);
    FilterTwice(r2.rows, FlagKeep(), ReceiptKeep());
  }

  /** A roster column the stages do not write reaches stage 4 as the
      roster cell read back once. */
  lemma CellThroughStages(raw: Dataset, m: Dataset, nowMicros: int, i: int, c: string)
    requires Stage1(raw, nowMicros).Ok?
    requires Stage3(Reload(Stage1(raw, nowMicros).value), m).Ok?
    requires 0 <= i < |raw.rows|
    requires c in raw.columns && c != LoginColumn && c != InactiveColumn && c != IdleColumn
    ensures var base2 := Stage3(Reload(Stage1(raw, nowMicros).value), m).value;
            Get(Reload(base2).rows[i], c) == ReloadCell(Get(raw.rows[i], c), DateOnlyColumn(raw, c))
  {
    var base1 := Stage1(raw, nowMicros).value;
    var r1 := Reload(base1);
    var base2 := Stage3(r1, m).value;
    var dateOnly := DateOnlyColumn(raw, c);
    DateOnlyAfterStage1(raw, nowMicros, c);
    var cellR1 := Get(r1.rows[i], c);
    assert cellR1 == ReloadCell(Get(raw.rows[i], c), dateOnly);
    ReloadCellSettled(Get(raw.rows[i], c), dateOnly);
    assert Get(base2.rows[i], c) == cellR1;
    ReloadSettledCell(cellR1, DateOnlyColumn(base2, c));
  }

  /** The inactivity date reaches stage 4 as stage 1 wrote it, read back. */
  lemma InactiveThroughStages(raw: Dataset, m: Dataset, nowMicros: int, i: int)
    requires Stage1(raw, nowMicros).Ok?
    requires Stage3(Reload(Stage1(raw, nowMicros).value), m).Ok?
    requires 0 <= i < |raw.rows|
    ensures var base1 := Stage1(raw, nowMicros).value;
            var base2 := Stage3(Reload(base1), m).value;
            Get(Reload(base2).rows[i], InactiveColumn)
              == ReloadCell(Get(base1.rows[i], InactiveColumn), DateOnlyColumn(base1, InactiveColumn))
  {
    var base1 := Stage1(raw, nowMicros).value;
    var r1 := Reload(base1);
    var base2 := Stage3(r1, m).value;
    var inactive1 := Get(base1.rows[i], InactiveColumn);
    var inactiveR1 := Get(r1.rows[i], InactiveColumn);
    ReloadCellSettled(inactive1, DateOnlyColumn(base1, InactiveColumn));
    assert Get(base2.rows[i], InactiveColumn) == inactiveR1;
    ReloadSettledCell(inactiveR1, DateOnlyColumn(base2, InactiveColumn));
  }

  /** Stage 4's date test on row `i` after both checkpoints holds exactly
      when the roster's last login is older than the window. */
  lemma InactiveTestAt(raw: Dataset, m: Dataset, nowMicros: int, i: int)
    requires Stage1(raw, nowMicros).Ok?
    requires Stage3(Reload(Stage1(raw, nowMicros).value), m).Ok?
    requires 0 <= i < |raw.rows|
    ensures var base2 := Stage3(Reload(Stage1(raw, nowMicros).value), m).value;
            var c := Get(Reload(base2).rows[i], InactiveColumn);
            var t := LoginTime(Get(raw.rows[i], LoginColumn));
            (c != Missing && Trim(Str(c)) != "") <==> t.Some? && IsInactive(t.value, nowMicros)
  {
    var base1 := Stage1(raw, nowMicros).value;
    InactiveThroughStages(raw, m, nowMicros, i);
    var inactive1 := Get(base1.rows[i], InactiveColumn);
    ReloadCellCases(inactive1, DateOnlyColumn(base1, InactiveColumn));
  }

  /** Stage 4's provider-without-service test on row `i` after both
      checkpoints. */
  lemma IdleTestAt(raw: Dataset, m: Dataset, nowMicros: int, i: int)
    requires Stage1(raw, nowMicros).Ok?
    requires Stage3(Reload(Stage1(raw, nowMicros).value), m).Ok?
    requires 0 <= i < |raw.rows|
    ensures var base2 := Stage3(Reload(Stage1(raw, nowMicros).value), m).value;
            var c := Get(Reload(base2).rows[i], IdleColumn);
            var name := ReloadCell(Get(raw.rows[i], NameColumn), DateOnlyColumn(raw, NameColumn));
            Trim(Str(c)) != "" <==> Served(name, m) || !(name.Text? && IsBlank(name.s))
  {
    var base1 := Stage1(raw, nowMicros).value;
    var r1 := Reload(base1);
    var base2 := Stage3(r1, m).value;
    DateOnlyAfterStage1(raw, nowMicros, NameColumn);
    var name := Get(r1.rows[i], NameColumn);
    assert name == ReloadCell(Get(raw.rows[i], NameColumn), DateOnlyColumn(raw, NameColumn));
    var idle := Get(base2.rows[i], IdleColumn);
    assert idle == if Served(name, m) then Text("") else name;
    ReloadedIdleTest(idle, DateOnlyColumn(base2, IdleColumn));
    ReloadCellSettled(Get(raw.rows[i], NameColumn), DateOnlyColumn(raw, NameColumn));
  }

  /** Stage 1 leaves every other column as it was, so also whether that
      column is written date-only. */
  lemma DateOnlyAfterStage1(raw: Dataset, nowMicros: int, c: string)
    requires Stage1(raw, nowMicros).Ok? && c != LoginColumn && c != InactiveColumn
    ensures DateOnlyColumn(Stage1(raw, nowMicros).value, c) == DateOnlyColumn(raw, c)
  {
  }

  /** Stage 5's receipt test on row `i` after the checkpoints. */
  lemma ReceiptTestAt(raw: Dataset, m: Dataset, nowMicros: int, i: int)
    requires Stage1(raw, nowMicros).Ok?
    requires Stage3(Reload(Stage1(raw, nowMicros).value), m).Ok?
    requires ReceiptColumn in raw.columns
    requires 0 <= i < |raw.rows|
    ensures var base2 := Stage3(Reload(Stage1(raw, nowMicros).value), m).value;
            Get(Reload(base2).rows[i], ReceiptColumn) == Text(InactiveReceipt)
            <==> Get(raw.rows[i], ReceiptColumn) == Text(InactiveReceipt)
  {
    CellThroughStages(raw, m, nowMicros, i, ReceiptColumn);
    ReloadedReceipt(Get(raw.rows[i], ReceiptColumn), DateOnlyColumn(raw, ReceiptColumn));
  }

  /** A receipt reads back as "inativo" exactly when it was "inativo". */
  lemma ReloadedReceipt(c: Cell, dateOnly: bool)
    ensures ReloadCell(c, dateOnly) == Text(InactiveReceipt) <==> c == Text(InactiveReceipt)
  {
    if c.Date? {
      var s := WriteCell(c, dateOnly);
      assert IsDigit(s[|s| - 1]);
      assert s != InactiveReceipt by {
        assert !IsDigit(InactiveReceipt[|InactiveReceipt| - 1]);
      }
    }
  }

  /** Row `i` of the table stage 4 reads is kept to the end exactly when
      roster row `i` is flagged. */
  lemma KeepAtIffFlagged(raw: Dataset, part1: Dataset, nowMicros: int, i: int)
    requires Stage1(raw, nowMicros).Ok?
    requires Stage3(Reload(Stage1(raw, nowMicros).value), Reload(part1)).Ok?
    requires ReceiptColumn in raw.columns
    requires 0 <= i < |raw.rows|
    ensures var base1 := Stage1(raw, nowMicros).value;
            var base2 := Stage3(Reload(base1), Reload(part1)).value;
            Both(FlagKeep(), ReceiptKeep())(Reload(base2).rows[i]) <==> Flagged(raw, part1, nowMicros, i)
  {
    var m := Reload(part1);
    var base2 := Stage3(Reload(Stage1(raw, nowMicros).value), m).value;
    var out := Reload(base2).rows[i];
    InactiveTestAt(raw, m, nowMicros, i);
    IdleTestAt(raw, m, nowMicros, i);
    ReceiptTestAt(raw, m, nowMicros, i);
    KeepTests(out);
  }

  /** The two masks of stages 4 and 5, spelled out on one row. */
  lemma KeepTests(row: Row)
    ensures Both(FlagKeep(), ReceiptKeep())(row) <==>
              && Get(row, InactiveColumn) != Missing
              && Trim(Str(Get(row, InactiveColumn))) != ""
              && Trim(Str(Get(row, IdleColumn))) != ""
              && Get(row, ReceiptColumn) != Text(InactiveReceipt)
  {
    BothAt(FlagKeep(), ReceiptKeep(), row);
    FlagKeepAt(row);
    ReceiptKeepAt(row);
  }

  lemma FlagKeepAt(row: Row)
    ensures FlagKeep()(row) <==>
              && Get(row, InactiveColumn) != Missing
              && Trim(Str(Get(row, InactiveColumn))) != ""
              && Trim(Str(Get(row, IdleColumn))) != ""
  {
  }

  lemma ReceiptKeepAt(row: Row)
    ensures ReceiptKeep()(row) <==> Get(row, ReceiptColumn) != Text(InactiveReceipt)
  {
  }

  /** The receipt column of the final table is a roster column: no stage
      adds it. */
  lemma ReceiptFromRoster(raw: Dataset, part1: Dataset, nowMicros: int)
    requires Stage1(raw, nowMicros).Ok?
    requires Stage3(Reload(Stage1(raw, nowMicros).value), Reload(part1)).Ok?
    requires ReceiptColumn in Stage3(Reload(Stage1(raw, nowMicros).value), Reload(part1)).value.columns
    ensures ReceiptColumn in raw.columns
  {
  }

  /** On every row of the table stage 4 reads, the two masks agree with
      `Flagged`. */
  lemma KeepIffFlagged(raw: Dataset, part1: Dataset, nowMicros: int)
    requires Stage1(raw, nowMicros).Ok?
    requires Stage3(Reload(Stage1(raw, nowMicros).value), Reload(part1)).Ok?
    requires ReceiptColumn in raw.columns
    ensures var base2 := Stage3(Reload(Stage1(raw, nowMicros).value), Reload(part1)).value;
            var rows := Reload(base2).rows;
            && |rows| == |raw.rows|
            && forall i :: 0 <= i < |rows| ==>
                 (Both(FlagKeep(), ReceiptKeep())(rows[i]) <==> Flagged(raw, part1, nowMicros, i))
  {
    forall i | 0 <= i < |raw.rows|
      ensures var base2 := Stage3(Reload(Stage1(raw, nowMicros).value), Reload(part1)).value;
              Both(FlagKeep(), ReceiptKeep())(Reload(base2).rows[i]) <==> Flagged(raw, part1, nowMicros, i)
    {
      KeepAtIffFlagged(raw, part1, nowMicros, i);
    }
  }

  /** Selecting from a table row-aligned with the roster picks, in order,
      the roster rows the mask agrees are flagged. */
  lemma SelectsFlagged(raw: Dataset, part1: Dataset, nowMicros: int, rows: seq<Row>, keep: Row -> bool,
                       idx: seq<nat>, f: Dataset)
    requires |rows| == |raw.rows|
    requires forall i :: 0 <= i < |rows| ==> (keep(rows[i]) <==> Flagged(raw, part1, nowMicros, i))
    requires forall i :: 0 <= i < |rows| ==> FromRoster(raw, i, rows[i])
    requires SelectsAt(rows, keep, idx, f.rows)
    ensures FlaggedAt(raw, part1, nowMicros, idx, f)
  {
    PositionsFlagged(raw, part1, nowMicros, rows, keep, idx);
    PickedFromRoster(raw, rows, idx, f.rows);
  }

  lemma PositionsFlagged(raw: Dataset, part1: Dataset, nowMicros: int, rows: seq<Row>, keep: Row -> bool, idx: seq<nat>)
    requires |rows| == |raw.rows|
    requires forall i :: 0 <= i < |rows| ==> (keep(rows[i]) <==> Flagged(raw, part1, nowMicros, i))
    requires forall i :: 0 <= i < |rows| ==> (keep(rows[i]) <==> i in idx)
    ensures forall i :: 0 <= i < |raw.rows| ==> (i in idx <==> Flagged(raw, part1, nowMicros, i))
  {
  }

  lemma PickedFromRoster(raw: Dataset, rows: seq<Row>, idx: seq<nat>, r: seq<Row>)
    requires forall i :: 0 <= i < |rows| ==> FromRoster(raw, i, rows[i])
    requires |idx| == |r|
    requires forall k :: 0 <= k < |idx| ==> idx[k] < |rows| && r[k] == rows[idx[k]]
    ensures forall k :: 0 <= k < |idx| ==> FromRoster(raw, idx[k], r[k])
  {
  }

  /** Every row of the table stage 4 reads is the roster row at the same
      position. */
  lemma RowsFromRoster(raw: Dataset, m: Dataset, nowMicros: int)
    requires Stage1(raw, nowMicros).Ok?
    requires Stage3(Reload(Stage1(raw, nowMicros).value), m).Ok?
    ensures var rows := Reload(Stage3(Reload(Stage1(raw, nowMicros).value), m).value).rows;
            && |rows| == |raw.rows|
            && forall i :: 0 <= i < |rows| ==> FromRoster(raw, i, rows[i])
  {
    var rows := Reload(Stage3(Reload(Stage1(raw, nowMicros).value), m).value).rows;
    forall i | 0 <= i < |rows|
      ensures FromRoster(raw, i, rows[i])
    {
      forall c | c in raw.columns && c != LoginColumn && c != InactiveColumn && c != IdleColumn
        ensures Get(rows[i], c) == ReloadCell(Get(raw.rows[i], c), DateOnlyColumn(raw, c))
      {
        CellThroughStages(raw, m, nowMicros, i, c);
      }
    }
  }

  /** The selection of roster rows, stated on the tables the stages pass
      along. */
  lemma FlaggedSelection(raw: Dataset, part1: Dataset, nowMicros: int, f: Dataset)
    requires Stage1(raw, nowMicros).Ok?
    requires Stage3(Reload(Stage1(raw, nowMicros).value), Reload(part1)).Ok?
    requires ReceiptColumn in raw.columns
    requires f.rows == Filter(Reload(Stage3(Reload(Stage1(raw, nowMicros).value), Reload(part1)).value).rows,
                              Both(FlagKeep(), ReceiptKeep()))
    ensures exists idx :: FlaggedAt(raw, part1, nowMicros, idx, f)
  {
    var rows := Reload(Stage3(Reload(Stage1(raw, nowMicros).value), Reload(part1)).value).rows;
    var keep := Both(FlagKeep(), ReceiptKeep());
    KeepIffFlagged(raw, part1, nowMicros);
    RowsFromRoster(raw, Reload(part1), nowMicros);
    FilterSelectsAt(rows, keep);
    SelectsFlagged(raw, part1, nowMicros, rows, keep, KeptPositions(rows, keep), f);
  }

  /** End to end: the final table holds, in roster order, one row for each
      flagged roster row and no other, and each of its rows carries that
      roster row's cells in the columns the stages do not write. */
  lemma RunSelectsFlagged(roster: Reader.Upload, monthly: Reader.Upload, nowMicros: int)
    requires Run(roster, monthly, nowMicros).Ok?
    ensures var raw := Reader.Read(roster).value;
            var part1 := Stage2(Reader.Read(monthly).value).value;
            var f := Run(roster, monthly, nowMicros).value;
            exists idx :: FlaggedAt(raw, part1, nowMicros, idx, f)
  {
    RunStages(roster, monthly, nowMicros);
    var raw := Reader.Read(roster).value;
    var part1 := Stage2(Reader.Read(monthly).value).value;
    var base2 := Stage3(Reload(Stage1(raw, nowMicros).value), Reload(part1)).value;
    var f := Run(roster, monthly, nowMicros).value;
    FinalIsSelection(base2, f);
    ReceiptFromRoster(raw, part1, nowMicros);
    FlaggedSelection(raw, part1, nowMicros, f);
  }

  /** Every row the two masks keep from a read-back table carries a
      non-blank inactivity text and a receipt other than "inativo". */
  lemma KeptRowsAreInactive(d: Dataset, f: Dataset)
    requires f.rows == Filter(Reload(d).rows, Both(FlagKeep(), ReceiptKeep()))
    ensures forall k :: 0 <= k < |f.rows| ==>
              && Get(f.rows[k], InactiveColumn).Text?
              && !IsBlank(Get(f.rows[k], InactiveColumn).s)
              && Get(f.rows[k], ReceiptColumn) != Text(InactiveReceipt)
  {
    var r := Reload(d);
    ReloadIsSettled(d);
    forall k | 0 <= k < |f.rows|
      ensures && Get(f.rows[k], InactiveColumn).Text?
              && !IsBlank(Get(f.rows[k], InactiveColumn).s)
              && Get(f.rows[k], ReceiptColumn) != Text(InactiveReceipt)
    {
      var row := f.rows[k];
      assert row in r.rows;
      var j :| 0 <= j < |r.rows| && r.rows[j] == row;
      KeepTests(row);
      InactiveCellSettled(r, j);
    }
  }

  lemma InactiveCellSettled(r: Dataset, j: int)
    requires SettledTable(r) && 0 <= j < |r.rows|
    ensures var c := Get(r.rows[j], InactiveColumn);
            c != Missing && Trim(Str(c)) != "" ==> c.Text? && !IsBlank(c.s)
  {
    var c := Get(r.rows[j], InactiveColumn);
    assert Settled(c);
  }

  /** Every row of the final table carries an inactivity date and an order
      receipt other than "inativo". */
  lemma FinalRowsAreInactive(roster: Reader.Upload, monthly: Reader.Upload, nowMicros: int)
    requires Run(roster, monthly, nowMicros).Ok?
    ensures var f := Run(roster, monthly, nowMicros).value;
            forall k :: 0 <= k < |f.rows| ==>
              && Get(f.rows[k], InactiveColumn).Text?
              && !IsBlank(Get(f.rows[k], InactiveColumn).s)
              && Get(f.rows[k], ReceiptColumn) != Text(InactiveReceipt)
  {
    RunStages(roster, monthly, nowMicros);
    var raw := Reader.Read(roster).value;
    var part1 := Stage2(Reader.Read(monthly).value).value;
    var base2 := Stage3(Reload(Stage1(raw, nowMicros).value), Reload(part1)).value;
    var f := Run(roster, monthly, nowMicros).value;
    FinalIsSelection(base2, f);
    KeptRowsAreInactive(base2, f);
  }

  /** Stage 5 run again on its own output, read back from the final
      artifact, removes nothing more. */
  lemma Stage5StableAfterCheckpoint(d: Dataset)
    requires Stage5(Reload(d)).Ok?
    ensures Stage5(Reload(Stage5(Reload(d)).value)) == Stage5(Reload(d))
  {
    var r := Reload(d);
    var out := Stage5(r).value;
    ReloadIsSettled(d);
    SubTableSettled(r, out.rows);
    ReloadSettledTable(out);
    Stage5Idempotent(r);
  }
}

/** Worked examples on small concrete tables: the column search, the
    exclusion rules of stages 2 and 5, and the name matching of stage 3. */
module Scenarios {
  import opened Wrappers
  import opened Strings
  import opened Table
  import opened Selection
  import opened Stages
  import Columns
  import Calendar
  import Checkpoint
  import Pipeline
  import Reader

  /** The column search takes the first column, in header order, whose
      lowered name contains the hint. */
  lemma ResolveFirstOfTwo()
    ensures Columns.Resolve(["Status Pedido", "Outro Status"], StatusHint) == Ok("Status Pedido")
  {
    var low := Lower("Status Pedido");
    assert low[0] == 's' && low[1] == 't' && low[2] == 'a' && low[3] == 't' && low[4] == 'u' && low[5] == 's';
    assert low[..6] == StatusHint;
    assert Strings.OccursAt(low, StatusHint, 0);
    Columns.ResolvePicksEarliest(["Status Pedido", "Outro Status"], StatusHint, 0);
  }

  /** A monthly table with no column naming a category cannot be filtered. */
  lemma NoCategoryColumn()
    ensures Stage2(Dataset(["Status"], [])) == Err(ColumnNotFound(CategoryHint))
  {
    assert Columns.Matches("Status", StatusHint) by {
      assert Strings.OccursAt(Lower("Status"), StatusHint, 0);
    }
    Columns.ResolvePicksEarliest(["Status"], StatusHint, 0);
    assert !Columns.Matches("Status", CategoryHint) by {
      assert |Lower("Status")| < |CategoryHint|;
    }
  }

  /** Stage 2 drops a row for its status alone and a row for its category
      alone, and keeps a row with neither. */
  lemma MonthlyExclusionIsEitherRule(status: string, category: string)
    requires status != category
    ensures MonthlyKeep(status, category)(map[status := Text("Aberta"), category := Text("Instalação")])
    ensures !MonthlyKeep(status, category)(map[status := Text("Confirmada"), category := Text("Instalação")])
    ensures !MonthlyKeep(status, category)(map[status := Text("Aberta"), category := Text("Serviço loja")])
  {
    BothAt(Outside(status, ExcludedStatuses), Outside(category, ExcludedCategories),
           map[status := Text("Aberta"), category := Text("Instalação")]);
    BothAt(Outside(status, ExcludedStatuses), Outside(category, ExcludedCategories),
           map[status := Text("Confirmada"), category := Text("Instalação")]);
    BothAt(Outside(status, ExcludedStatuses), Outside(category, ExcludedCategories),
           map[status := Text("Aberta"), category := Text("Serviço loja")]);
  }

  /** Stage 5 compares the receipt exactly: "inativo" goes, "Inativo" stays. */
  lemma ReceiptIsCaseSensitive()
    ensures !ReceiptKeep()(map[ReceiptColumn := Text("inativo")])
    ensures ReceiptKeep()(map[ReceiptColumn := Text("Inativo")])
  {
    assert "Inativo" != InactiveReceipt by {
      assert "Inativo"[0] != InactiveReceipt[0];
    }
  }

  /** Stage 3 matches names after trimming, but not across letter case. */
  lemma NameMatchingTrimsButKeepsCase()
    ensures Trim(" João Silva ") == "João Silva"
    ensures Trim("joão silva") != "João Silva"
  {
    var s := " João Silva ";
    assert !IsSpace(s[1]) && !IsSpace(s[10]) && IsSpace(s[11]);
    assert FirstNonSpace(s, 1) == 1;
    assert FirstNonSpace(s, 0) == 1;
    assert LastNonSpace(s, 1, 11) == 11;
    assert LastNonSpace(s, 1, 12) == 11;
    assert s[1..11] == "João Silva";
    assert Trim("joão silva")[0] == 'j' by {
      assert !IsSpace('j');
      assert FirstNonSpace("joão silva", 0) == 0;
    }
  }

  /** A last login on 1 January 2020 at 10:00 parses to its timestamp and,
      seen from 1 January 2024, lies outside the six-month window. */
  lemma LoginExample()
    ensures LoginTime(Text("01/01/2020 10:00:00")) == Some(1577872800)
    ensures IsInactive(1577872800, 1704067200 * MicrosPerSecond)
  {
    var st := Calendar.Stamp(1, 1, 2020, 10, 0, 0);
    Calendar.ParseRender(st);
    RenderExample();
    SecondsExample();
  }

  lemma RenderExample()
    ensures Calendar.Render(Calendar.Stamp(1, 1, 2020, 10, 0, 0)) == "01/01/2020 10:00:00"
  {
    DigitPairs();
    assert Calendar.FourDigits(2020) == "2020";
  }

  lemma DigitPairs()
    ensures TwoDigits(0) == "00" && TwoDigits(1) == "01" && TwoDigits(10) == "10" && TwoDigits(20) == "20"
  {
    assert DigitChar(0) == '0' && DigitChar(1) == '1' && DigitChar(2) == '2';
  }

  lemma SecondsExample()
    ensures Calendar.Seconds(Calendar.Stamp(1, 1, 2020, 10, 0, 0)) == 1577872800
  {
    assert Calendar.DaysFromCivil(2020, 1, 1) == 18262;
  }

  /** An ISO-ordered date does not fit the day/month/year layout. */
  lemma IsoLoginIsMissing()
    ensures LoginTime(Text("2020-01-01 10:00:00")) == None
  {
    var s := "2020-01-01 10:00:00";
    assert Calendar.DayNumber(s) == Some(Calendar.Scan(20, s[2..]));
    assert Calendar.Expect('/', s[2..]) == None;
  }

  /** A provider stage 3 found in the monthly table gets an empty cell, which
      the checkpoint turns into NaN; stage 4 renders NaN as "nan" and so keeps
      the row once its inactivity date is set. */
  lemma ServedProviderPassesIdleTest()
    ensures Checkpoint.ReloadCell(Text(""), false) == Missing
    ensures FlagKeep()(map[InactiveColumn := Text("2020-01-01 10:00:00"),
                           IdleColumn := Checkpoint.ReloadCell(Text(""), false)])
  {
    var row := map[InactiveColumn := Text("2020-01-01 10:00:00"), IdleColumn := Missing];
    Pipeline.FlagKeepAt(row);
    assert !IsBlank("2020-01-01 10:00:00") by {
      assert !IsSpace("2020-01-01 10:00:00"[0]);
    }
    assert !IsBlank("nan") by {
      assert !IsSpace("nan"[0]);
    }
  }

  // ---------------------------------------------------------------------
  // One run end to end

  /** A roster with one provider, "A", last seen on 1 January 2020 and with
      an active receipt. */
  const RosterTable := Dataset([NameColumn, LoginColumn, ReceiptColumn],
                               [map[NameColumn := Text("A"), LoginColumn := Text("01/01/2020 10:00:00"),
                                    ReceiptColumn := Text("ativo")]])

  /** A monthly table with one open installation order, by installer "B". */
  const MonthlyTable := Dataset([InstallerColumn, "Status", "Categoria"],
                                [map[InstallerColumn := Text("B"), "Status" := Text("Aberta"),
                                     "Categoria" := Text("Instalação")]])

  function NoAttempt(a: Reader.Attempt): Option<Dataset> {
    None
  }

  const RosterUpload := Reader.Upload("roster.xlsx", Some(RosterTable), NoAttempt)
  const MonthlyUpload := Reader.Upload("mensal.xlsx", Some(MonthlyTable), NoAttempt)

  /** 1 January 2024, in microseconds. */
  const Now := 1704067200 * MicrosPerSecond

  /** A file name ending in ".xlsx" goes to the spreadsheet reader. */
  lemma XlsxIsSpreadsheet(path: string)
    requires |path| > 5 && path[|path| - 5..] == ".xlsx"
    requires path[0] != '.' && '/' !in path[..|path| - 5]
    ensures Reader.IsSpreadsheet(path)
  {
    XlsxExtension(path);
    LowerOfLowercase(".xlsx");
  }

  lemma XlsxExtension(path: string)
    requires |path| > 5 && path[|path| - 5..] == ".xlsx"
    requires path[0] != '.' && '/' !in path[..|path| - 5]
    ensures Reader.Extension(path) == ".xlsx"
  {
    var name := path[..|path| - 5];
    assert path == name + path[|path| - 5..];
    assert "" + name == name;
    Reader.ExtensionOfName("", name, ".xlsx");
  }

  lemma RosterRead()
    ensures Reader.Read(RosterUpload) == Ok(RosterTable)
  {
    XlsxIsSpreadsheet(RosterUpload.path);
  }

  lemma MonthlyRead()
    ensures Reader.Read(MonthlyUpload) == Ok(MonthlyTable)
  {
    XlsxIsSpreadsheet(MonthlyUpload.path);
  }

  lemma MonthlyColumnsResolve()
    ensures Stage2(MonthlyTable).Ok?
  {
    var cols := MonthlyTable.columns;
    assert Columns.Matches(cols[1], StatusHint) by {
      assert Lower("Status")[1..] == "tatus";
      assert Strings.OccursAt(Lower("Status"), StatusHint, 0);
    }
    assert Columns.Matches(cols[2], CategoryHint) by {
      assert Lower("Categoria")[1..] == "ategoria";
      assert Strings.OccursAt(Lower("Categoria"), CategoryHint, 0);
    }
    Columns.ResolvePicksEarliest(cols, StatusHint, 1);
    Columns.ResolvePicksEarliest(cols, CategoryHint, 2);
  }

  /** The one roster row is flagged: its login is old, its name is not
      blank, and its receipt is not "inativo". */
  lemma ProviderAFlagged(part1: Dataset)
    ensures Pipeline.Flagged(RosterTable, part1, Now, 0)
  {
    var row := RosterTable.rows[0];
    assert Get(row, LoginColumn) == Text("01/01/2020 10:00:00");
    assert Get(row, NameColumn) == Text("A");
    assert Get(row, ReceiptColumn) == Text("ativo");
    LoginExample();
    Checkpoint.LetterLedText("A");
    assert !IsBlank("A") by {
      assert !IsSpace("A"[0]);
    }
    assert "ativo" != InactiveReceipt by {
      assert "ativo"[0] != InactiveReceipt[0];
    }
    Pipeline.FlaggedWhen(RosterTable, part1, Now, 0, 1577872800, "A");
  }

  /** A one-row roster whose row is flagged ends as a one-row table
      holding that row. */
  lemma OnlyRowKept(raw: Dataset, part1: Dataset, nowMicros: int, idx: seq<nat>, f: Dataset)
    requires |raw.rows| == 1
    requires Pipeline.FlaggedAt(raw, part1, nowMicros, idx, f)
    requires Pipeline.Flagged(raw, part1, nowMicros, 0)
    ensures |f.rows| == 1 && Pipeline.FromRoster(raw, 0, f.rows[0])
  {
    assert 0 in idx;
    IncreasingBelow(idx, 1);
  }

  /** What the saved row of the example holds in the roster's own columns. */
  lemma ProviderARow(row: Row)
    requires Pipeline.FromRoster(RosterTable, 0, row)
    ensures Get(row, NameColumn) == Text("A") && Get(row, ReceiptColumn) == Text("ativo")
  {
    var first := RosterTable.rows[0];
    assert Get(first, NameColumn) == Text("A");
    assert Get(first, ReceiptColumn) == Text("ativo");
    Checkpoint.LetterLedText("A");
    Checkpoint.LetterLedText("ativo");
    Checkpoint.ReloadCellCases(Text("A"), Checkpoint.DateOnlyColumn(RosterTable, NameColumn));
    Checkpoint.ReloadCellCases(Text("ativo"), Checkpoint.DateOnlyColumn(RosterTable, ReceiptColumn));
  }

  lemma ExampleRunSucceeds()
    ensures Reader.Read(RosterUpload) == Ok(RosterTable)
    ensures Reader.Read(MonthlyUpload) == Ok(MonthlyTable)
    ensures Stage2(MonthlyTable).Ok?
    ensures Pipeline.Run(RosterUpload, MonthlyUpload, Now).Ok?
  {
    RosterRead();
    MonthlyRead();
    MonthlyColumnsResolve();
    var base1 := Stage1(RosterTable, Now).value;
    var part1 := Stage2(MonthlyTable).value;
    assert Pipeline.Run(RosterUpload, MonthlyUpload, Now) == Pipeline.Finish(base1, part1);
    Pipeline.FinishSucceeds(base1, part1);
  }

  /** The whole run on those two uploads as of 1 January 2024 succeeds and
      saves exactly provider "A", with the receipt the roster gave. */
  lemma OneInactiveProvider()
    ensures Pipeline.Run(RosterUpload, MonthlyUpload, Now).Ok?
    ensures var f := Pipeline.Run(RosterUpload, MonthlyUpload, Now).value;
            && |f.rows| == 1
            && Get(f.rows[0], NameColumn) == Text("A")
            && Get(f.rows[0], ReceiptColumn) == Text("ativo")
  {
    ExampleRunSucceeds();
    var part1 := Stage2(MonthlyTable).value;
    Pipeline.RunSelectsFlagged(RosterUpload, MonthlyUpload, Now);
    var f := Pipeline.Run(RosterUpload, MonthlyUpload, Now).value;
    var idx :| Pipeline.FlaggedAt(RosterTable, part1, Now, idx, f);
    ProviderAFlagged(part1);
    OnlyRowKept(RosterTable, part1, Now, idx, f);
    ProviderARow(f.rows[0]);
  }
}

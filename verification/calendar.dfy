/** Timestamps of the roster's last-login column.

    The column is parsed with the pattern `%d/%m/%Y %H:%M:%S` and invalid
    values become missing (app.py:47-51). The parser here follows the regular
    expressions that pattern compiles to: day, month, hour, minute and second
    are one or two digits (the day may also be a blank followed by a non-zero
    digit), the year is exactly four digits, the single blank of the pattern
    matches one or more whitespace characters, and the whole text must be
    consumed. A parsed date must then exist in the proleptic Gregorian
    calendar. Timestamps are whole seconds since 1970-01-01 00:00:00 on the
    same naive local clock as the pipeline's `now`. */
module Calendar {
  import opened Wrappers
  import opened Strings

  datatype Stamp = Stamp(day: nat, month: nat, year: nat, hour: nat, minute: nat, second: nat)

  predicate IsLeapYear(year: int) {
    year % 4 == 0 && (year % 100 != 0 || year % 400 == 0)
  }

  function DaysInMonth(year: int, month: int): nat {
    if month == 2 then (if IsLeapYear(year) then 29 else 28)
    else if month == 4 || month == 6 || month == 9 || month == 11 then 30
    else 31
  }

  /** The field ranges the pattern accepts (seconds up to 61, as the pattern's
      `%S` does) together with the calendar check on the date. */
  predicate Valid(st: Stamp) {
    && 1 <= st.year <= 9999
    && 1 <= st.month <= 12
    && 1 <= st.day <= DaysInMonth(st.year, st.month)
    && st.hour <= 23
    && st.minute <= 59
    && st.second <= 61
  }

  /** Days from 1970-01-01 to the given civil date (proleptic Gregorian). */
  function DaysFromCivil(year: int, month: int, day: int): int {
    var y := if month <= 2 then year - 1 else year;
    var era := y / 400;
    var yoe := y - era * 400;
    var mp := if month > 2 then month - 3 else month + 9;
    var doy := (153 * mp + 2) / 5 + day - 1;
    var doe := yoe * 365 + yoe / 4 - yoe / 100 + doy;
    era * 146097 + doe - 719468
  }

  /** The civil date (year, month, day) of a day count since 1970-01-01,
      by the same 400-year era arithmetic as `DaysFromCivil`. */
  function CivilFromDays(days: int): (int, int, int) {
    var z := days + 719468;
    var era := z / 146097;
    var doe := z % 146097;
    var yoe := (doe - doe / 1460 + doe / 36524 - doe / 146096) / 365;
    var doy := doe - (365 * yoe + yoe / 4 - yoe / 100);
    var mp := (5 * doy + 2) / 153;
    var day := doy - (153 * mp + 2) / 5 + 1;
    var month := if mp < 10 then mp + 3 else mp - 9;
    var year := yoe + era * 400 + (if month <= 2 then 1 else 0);
    (year, month, day)
  }

  /** Seconds since the epoch. Time fields are added linearly, so a second
      of 60 or 61 spills into the following minute. */
  function Seconds(st: Stamp): int {
    DaysFromCivil(st.year, st.month, st.day) * 86400
      + st.hour * 3600 + st.minute * 60 + st.second
  }

  // ---------------------------------------------------------------------
  // Parsing `%d/%m/%Y %H:%M:%S`

  /** A number read from the front of a text, and what follows it. */
  datatype Scan = Scan(value: nat, rest: string)

  /** One or two ASCII digits, taking two when there are two. */
  function Number(s: string): (r: Option<Scan>)
    ensures r.Some? ==> r.value.value < 100 && |r.value.rest| < |s|
  {
    if |s| >= 2 && IsDigit(s[0]) && IsDigit(s[1]) then
      Some(Scan(10 * DigitValue(s[0]) + DigitValue(s[1]), s[2..]))
    else if |s| >= 1 && IsDigit(s[0]) then
      Some(Scan(DigitValue(s[0]), s[1..]))
    else None
  }

  /** The day field: a number, or a blank followed by one non-zero digit. */
  function DayNumber(s: string): (r: Option<Scan>)
    ensures r.Some? ==> r.value.value < 100
  {
    if |s| >= 2 && s[0] == ' ' && IsDigit(s[1]) && s[1] != '0' then
      Some(Scan(DigitValue(s[1]), s[2..]))
    else Number(s)
  }

  /** Exactly four ASCII digits. */
  function YearNumber(s: string): (r: Option<Scan>)
    ensures r.Some? ==> r.value.value < 10000
  {
    if |s| >= 4 && IsDigit(s[0]) && IsDigit(s[1]) && IsDigit(s[2]) && IsDigit(s[3]) then
      Some(Scan(1000 * DigitValue(s[0]) + 100 * DigitValue(s[1])
                + 10 * DigitValue(s[2]) + DigitValue(s[3]), s[4..]))
    else None
  }

  /** The literal character `c` at the front of `s`. */
  function Expect(c: char, s: string): Option<string> {
    if |s| >= 1 && s[0] == c then Some(s[1..]) else None
  }

  /** One or more whitespace characters at the front of `s`. */
  function SkipSpaces(s: string): Option<string> {
    var n := FirstNonSpace(s, 0);
    if n == 0 then None else Some(s[n..])
  }

  /** Parses a last-login text; `None` when the text does not match the
      pattern or names a date that does not exist. */
  function ParseStamp(s: string): (r: Option<Stamp>)
    ensures r.Some? ==> Valid(r.value)
  {
    var d :- DayNumber(s);
    var s1 :- Expect('/', d.rest);
    var m :- Number(s1);
    var s2 :- Expect('/', m.rest);
    var y :- YearNumber(s2);
    var s3 :- SkipSpaces(y.rest);
    var h :- Number(s3);
    var s4 :- Expect(':', h.rest);
    var mi :- Number(s4);
    var s5 :- Expect(':', mi.rest);
    var sec :- Number(s5);
    var st := Stamp(d.value, m.value, y.value, h.value, mi.value, sec.value);
    if sec.rest == [] && Valid(st) then Some(st) else None
  }

  /** The timestamp `pd.to_datetime(..., errors="coerce")` gives a text. */
  function ParseLogin(s: string): Option<int> {
    var st :- ParseStamp(s);
    Some(Seconds(st))
  }

  // ---------------------------------------------------------------------
  // Rendering

  /** Four digits of a year below 10000, as the pattern's `%Y` reads them. */
  function FourDigits(y: nat): (r: string)
    requires y < 10000
    ensures |r| == 4 && IsDigit(r[0]) && IsDigit(r[1]) && IsDigit(r[2]) && IsDigit(r[3])
    ensures 1000 * DigitValue(r[0]) + 100 * DigitValue(r[1])
            + 10 * DigitValue(r[2]) + DigitValue(r[3]) == y
  {
    var r := TwoDigits(y / 100) + TwoDigits(y % 100);
    assert r[0] == TwoDigits(y / 100)[0] && r[1] == TwoDigits(y / 100)[1];
    assert r[2] == TwoDigits(y % 100)[0] && r[3] == TwoDigits(y % 100)[1];
    r
  }

  /** The canonical spelling `dd/mm/yyyy hh:mm:ss` of a stamp. */
  function Render(st: Stamp): string
    requires Valid(st)
  {
    TwoDigits(st.day) + ("/" + (TwoDigits(st.month) + ("/" + (FourDigits(st.year)
      + (" " + (TwoDigits(st.hour) + (":" + (TwoDigits(st.minute)
      + (":" + TwoDigits(st.second))))))))))
  }

  /** The text pandas writes for a timestamp when saving a datetime column
      (`%Y-%m-%d %H:%M:%S`, or `%Y-%m-%d` when the whole column is at
      midnight), which is also Python's `str()` of a timestamp in the first
      form. The year is written unpadded, as pandas does. */
  function TimestampText(ts: int, dateOnly: bool): (r: string)
    ensures |r| >= 1 && IsDigit(r[|r| - 1])
  {
    var (year, month, day) := CivilFromDays(ts / 86400);
    var tod := ts % 86400;
    var date := IntText(year) + "-" + Pad2(month) + "-" + Pad2(day);
    if dateOnly then date
    else date + " " + Pad2(tod / 3600) + ":" + Pad2(tod % 3600 / 60) + ":" + Pad2(tod % 60)
  }

  // ---------------------------------------------------------------------
  // Properties of the parser

  lemma NumberOfTwoDigits(n: nat, rest: string)
    requires n < 100
    ensures Number(TwoDigits(n) + rest) == Some(Scan(n, rest))
  {
    var s := TwoDigits(n) + rest;
    assert s[0] == TwoDigits(n)[0] && s[1] == TwoDigits(n)[1];
    assert s[2..] == rest;
  }

  lemma DayNumberOfTwoDigits(n: nat, rest: string)
    requires n < 100
    ensures DayNumber(TwoDigits(n) + rest) == Some(Scan(n, rest))
  {
    NumberOfTwoDigits(n, rest);
    assert (TwoDigits(n) + rest)[0] == TwoDigits(n)[0];
  }

  lemma YearOfFourDigits(y: nat, rest: string)
    requires y < 10000
    ensures YearNumber(FourDigits(y) + rest) == Some(Scan(y, rest))
  {
    var f := FourDigits(y);
    var s := f + rest;
    assert s[0] == f[0] && s[1] == f[1] && s[2] == f[2] && s[3] == f[3];
    assert s[4..] == rest;
  }

  lemma ExpectFront(c: char, rest: string)
    ensures Expect(c, [c] + rest) == Some(rest)
  {
    assert ([c] + rest)[1..] == rest;
  }

  lemma SkipOneSpace(rest: string)
    requires |rest| >= 1 && IsDigit(rest[0])
    ensures SkipSpaces(" " + rest) == Some(rest)
  {
    var s := " " + rest;
    assert s[1] == rest[0];
    assert s[1..] == rest;
  }

  /** Round trip: the canonical spelling of every valid stamp parses back to
      that same stamp. */
  lemma {:induction false} ParseRender(st: Stamp)
    requires Valid(st)
    ensures ParseStamp(Render(st)) == Some(st)
    ensures ParseLogin(Render(st)) == Some(Seconds(st))
  {
    var t6 := ":" + TwoDigits(st.second);
    var t5 := TwoDigits(st.minute) + t6;
    var t4 := ":" + t5;
    var t3 := TwoDigits(st.hour) + t4;
    var t2 := " " + t3;
    var t1 := FourDigits(st.year) + t2;
    var t0 := "/" + t1;
    var u := TwoDigits(st.month) + t0;
    var v := "/" + u;
    assert Render(st) == TwoDigits(st.day) + v;
    DayNumberOfTwoDigits(st.day, v);
    ExpectFront('/', u);
    NumberOfTwoDigits(st.month, t0);
    ExpectFront('/', t1);
    YearOfFourDigits(st.year, t2);
    assert t3[0] == TwoDigits(st.hour)[0];
    SkipOneSpace(t3);
    NumberOfTwoDigits(st.hour, t4);
    ExpectFront(':', t5);
    NumberOfTwoDigits(st.minute, t6);
    ExpectFront(':', TwoDigits(st.second));
    NumberOfTwoDigits(st.second, []);
    assert TwoDigits(st.second) + [] == TwoDigits(st.second);
  }

  // ---------------------------------------------------------------------
  // Every spelling the pattern admits

  /** How a numeric field is written: two digits, or one digit for a value
      below ten. */
  datatype Width = One | Two

  /** The day may also be written as a blank followed by one non-zero
      digit. */
  datatype DayWidth = DayOne | DayTwo | DayBlank

  /** The choices a text makes when it spells a stamp in the layout
      `%d/%m/%Y %H:%M:%S`: the width of every field but the year, and the
      whitespace run that stands for the pattern's blank. */
  datatype Spelling = Spelling(day: DayWidth, month: Width, hour: Width, minute: Width, second: Width,
                               gap: string)

  function Field(n: nat, w: Width): (r: string)
    requires n < 100 && (w == One ==> n < 10)
    ensures 1 <= |r| <= 2 && IsDigit(r[0]) && IsDigit(r[|r| - 1])
  {
    if w == Two then TwoDigits(n) else [DigitChar(n)]
  }

  function DayField(n: nat, w: DayWidth): (r: string)
    requires n < 100 && (w != DayTwo ==> 1 <= n < 10)
    ensures |r| >= 1 && IsDigit(r[|r| - 1])
  {
    match w
    case DayTwo => TwoDigits(n)
    case DayOne => [DigitChar(n)]
    case DayBlank => [' ', DigitChar(n)]
  }

  /** `sp` can spell the valid stamp `st`: one-digit fields hold values
      below ten, a blank-padded day is at least one, and the gap is a
      non-empty run of whitespace. */
  predicate Admits(st: Stamp, sp: Spelling) {
    && Valid(st)
    && (sp.day != DayTwo ==> st.day < 10)
    && (sp.month == One ==> st.month < 10)
    && (sp.hour == One ==> st.hour < 10)
    && (sp.minute == One ==> st.minute < 10)
    && (sp.second == One ==> st.second < 10)
    && |sp.gap| >= 1 && IsBlank(sp.gap)
  }

  /** The text that spells `st` with the choices `sp`. */
  function Spell(st: Stamp, sp: Spelling): string
    requires Admits(st, sp)
  {
    DayField(st.day, sp.day) + ("/" + (Field(st.month, sp.month) + ("/" + (FourDigits(st.year)
      + (sp.gap + TimeText(st, sp))))))
  }

  /** The time of day as `sp` spells it. */
  function TimeText(st: Stamp, sp: Spelling): string
    requires Admits(st, sp)
  {
    Field(st.hour, sp.hour) + (":" + (Field(st.minute, sp.minute) + (":" + Field(st.second, sp.second))))
  }

  /** The canonical spelling is one of them. */
  lemma RenderIsSpelling(st: Stamp)
    requires Valid(st)
    ensures Admits(st, Spelling(DayTwo, Two, Two, Two, Two, " "))
    ensures Render(st) == Spell(st, Spelling(DayTwo, Two, Two, Two, Two, " "))
  {
  }

  // Reading a spelled field back

  predicate EndsField(rest: string) {
    rest == [] || !IsDigit(rest[0])
  }

  lemma NumberOfField(n: nat, w: Width, rest: string)
    requires n < 100 && (w == One ==> n < 10) && EndsField(rest)
    ensures Number(Field(n, w) + rest) == Some(Scan(n, rest))
  {
    if w == Two {
      NumberOfTwoDigits(n, rest);
    } else {
      var s := Field(n, w) + rest;
      assert s[0] == DigitChar(n) && s[1..] == rest;
      assert |s| >= 2 ==> s[1] == rest[0];
    }
  }

  lemma DayNumberOfField(n: nat, w: DayWidth, rest: string)
    requires n < 100 && (w != DayTwo ==> 1 <= n < 10) && EndsField(rest)
    ensures DayNumber(DayField(n, w) + rest) == Some(Scan(n, rest))
  {
    var s := DayField(n, w) + rest;
    match w
    case DayTwo =>
      DayNumberOfTwoDigits(n, rest);
    case DayOne =>
      assert s[0] == DigitChar(n) && s[1..] == rest;
      assert |s| >= 2 ==> s[1] == rest[0];
    case DayBlank =>
      assert s[0] == ' ' && s[1] == DigitChar(n) && s[2..] == rest;
      assert DigitChar(n) != '0';
  }

  lemma SkipGap(gap: string, rest: string)
    requires |gap| >= 1 && IsBlank(gap)
    requires |rest| >= 1 && !IsSpace(rest[0])
    ensures SkipSpaces(gap + rest) == Some(rest)
  {
    var s := gap + rest;
    assert forall i :: 0 <= i < |gap| ==> s[i] == gap[i];
    assert s[|gap|] == rest[0];
    assert FirstNonSpace(s, 0) == |gap|;
    assert s[|gap|..] == rest;
  }

  /** The time of day of a spelling, read field by field. */
  lemma {:induction false} TimeTextParses(st: Stamp, sp: Spelling)
    requires Admits(st, sp)
    ensures var t := TimeText(st, sp);
            && |t| >= 1 && !IsSpace(t[0])
            && Number(t).Some? && Number(t).value.value == st.hour
            && Expect(':', Number(t).value.rest).Some?
            && var s4 := Expect(':', Number(t).value.rest).value;
               && Number(s4).Some? && Number(s4).value.value == st.minute
               && Expect(':', Number(s4).value.rest).Some?
               && var s5 := Expect(':', Number(s4).value.rest).value;
                  Number(s5) == Some(Scan(st.second, []))
  {
    var sec := Field(st.second, sp.second);
    var t6 := ":" + sec;
    var t5 := Field(st.minute, sp.minute) + t6;
    var t4 := ":" + t5;
    var t3 := Field(st.hour, sp.hour) + t4;
    assert t3 == TimeText(st, sp);
    assert t3[0] == Field(st.hour, sp.hour)[0];
    NumberOfField(st.hour, sp.hour, t4);
    ExpectFront(':', t5);
    NumberOfField(st.minute, sp.minute, t6);
    ExpectFront(':', sec);
    NumberOfField(st.second, sp.second, []);
    assert sec + [] == sec;
  }

  /** Every admitted spelling of a stamp parses back to that stamp. */
  lemma ParseLoginOfSpelling(st: Stamp, sp: Spelling)
    requires Admits(st, sp)
    ensures ParseLogin(Spell(st, sp)) == Some(Seconds(st))
  {
    ParseSpell(st, sp);
  }

  lemma {:induction false} ParseSpell(st: Stamp, sp: Spelling)
    requires Admits(st, sp)
    ensures ParseStamp(Spell(st, sp)) == Some(st)
  {
    var t3 := TimeText(st, sp);
    var t2 := sp.gap + t3;
    var t1 := FourDigits(st.year) + t2;
    var t0 := "/" + t1;
    var u := Field(st.month, sp.month) + t0;
    var v := "/" + u;
    assert Spell(st, sp) == DayField(st.day, sp.day) + v;
    DayNumberOfField(st.day, sp.day, v);
    ExpectFront('/', u);
    NumberOfField(st.month, sp.month, t0);
    ExpectFront('/', t1);
    YearOfFourDigits(st.year, t2);
    TimeTextParses(st, sp);
    SkipGap(sp.gap, t3);
  }

  // Recovering the spelling from an accepted text

  /** The width `Number` reads at the front of `s`. */
  function NumberWidth(s: string): Width {
    if |s| >= 2 && IsDigit(s[0]) && IsDigit(s[1]) then Two else One
  }

  /** The width `DayNumber` reads at the front of `s`. */
  function DayWidthOf(s: string): DayWidth {
    if |s| >= 2 && s[0] == ' ' && IsDigit(s[1]) && s[1] != '0' then DayBlank
    else if NumberWidth(s) == Two then DayTwo
    else DayOne
  }

  lemma TwoDigitsOf(a: char, b: char)
    requires IsDigit(a) && IsDigit(b)
    ensures TwoDigits(10 * DigitValue(a) + DigitValue(b)) == [a, b]
  {
    var n := 10 * DigitValue(a) + DigitValue(b);
    assert n / 10 == DigitValue(a) && n % 10 == DigitValue(b);
  }

  lemma NumberSpelled(s: string)
    requires Number(s).Some?
    ensures var sc := Number(s).value;
            && (NumberWidth(s) == One ==> sc.value < 10)
            && s == Field(sc.value, NumberWidth(s)) + sc.rest
  {
    if NumberWidth(s) == Two {
      TwoDigitsOf(s[0], s[1]);
      assert s == [s[0], s[1]] + s[2..];
    } else {
      assert s == [s[0]] + s[1..];
    }
  }

  lemma DaySpelled(s: string)
    requires DayNumber(s).Some? && DayNumber(s).value.value >= 1
    ensures var sc := DayNumber(s).value;
            && (DayWidthOf(s) != DayTwo ==> sc.value < 10)
            && s == DayField(sc.value, DayWidthOf(s)) + sc.rest
  {
    if DayWidthOf(s) == DayBlank {
      assert s == [' ', s[1]] + s[2..];
    } else {
      NumberSpelled(s);
    }
  }

  lemma YearSpelled(s: string)
    requires YearNumber(s).Some?
    ensures s == FourDigits(YearNumber(s).value.value) + YearNumber(s).value.rest
  {
    var y := YearNumber(s).value.value;
    var r := FourDigits(y);
    assert DigitValue(r[0]) == DigitValue(s[0]) && DigitValue(r[1]) == DigitValue(s[1])
           && DigitValue(r[2]) == DigitValue(s[2]) && DigitValue(r[3]) == DigitValue(s[3]);
    assert r == s[..4];
    assert s == s[..4] + s[4..];
  }

  lemma ExpectSpelled(c: char, s: string)
    requires Expect(c, s).Some?
    ensures s == [c] + Expect(c, s).value
  {
    assert s == [s[0]] + s[1..];
  }

  lemma GapSpelled(s: string)
    requires SkipSpaces(s).Some?
    ensures var n := |s| - |SkipSpaces(s).value|;
            && 1 <= n <= |s| && IsBlank(s[..n]) && s == s[..n] + SkipSpaces(s).value
  {
    var n := FirstNonSpace(s, 0);
    assert SkipSpaces(s).value == s[n..];
    assert forall i :: 0 <= i < n ==> s[..n][i] == s[i];
    assert s == s[..n] + s[n..];
  }

  /** The time of day of an accepted text is spelled field by field. */
  lemma {:induction false} TimeSpelled(t: string)
    requires Number(t).Some?
    requires Expect(':', Number(t).value.rest).Some?
    requires var s4 := Expect(':', Number(t).value.rest).value;
             && Number(s4).Some? && Expect(':', Number(s4).value.rest).Some?
             && var s5 := Expect(':', Number(s4).value.rest).value;
                Number(s5).Some? && Number(s5).value.rest == []
    ensures var h := Number(t).value;
            var s4 := Expect(':', h.rest).value;
            var mi := Number(s4).value;
            var s5 := Expect(':', mi.rest).value;
            var sec := Number(s5).value;
            && (NumberWidth(t) == One ==> h.value < 10)
            && (NumberWidth(s4) == One ==> mi.value < 10)
            && (NumberWidth(s5) == One ==> sec.value < 10)
            && t == Field(h.value, NumberWidth(t)) + (":" + (Field(mi.value, NumberWidth(s4))
                      + (":" + Field(sec.value, NumberWidth(s5)))))
  {
    var h := Number(t).value;
    var s4 := Expect(':', h.rest).value;
    var mi := Number(s4).value;
    var s5 := Expect(':', mi.rest).value;
    var sec := Number(s5).value;
    NumberSpelled(t);
    ExpectSpelled(':', h.rest);
    NumberSpelled(s4);
    ExpectSpelled(':', mi.rest);
    NumberSpelled(s5);
    assert s5 == Field(sec.value, NumberWidth(s5));
  }

  /** The date of an accepted text is spelled field by field, up to the
      text after the year. */
  lemma {:induction false} DateSpelled(s: string)
    requires DayNumber(s).Some? && DayNumber(s).value.value >= 1
    requires Expect('/', DayNumber(s).value.rest).Some?
    requires var s1 := Expect('/', DayNumber(s).value.rest).value;
             && Number(s1).Some? && Expect('/', Number(s1).value.rest).Some?
             && YearNumber(Expect('/', Number(s1).value.rest).value).Some?
    ensures var d := DayNumber(s).value;
            var s1 := Expect('/', d.rest).value;
            var m := Number(s1).value;
            var y := YearNumber(Expect('/', m.rest).value).value;
            && (DayWidthOf(s) != DayTwo ==> d.value < 10)
            && (NumberWidth(s1) == One ==> m.value < 10)
            && s == DayField(d.value, DayWidthOf(s)) + ("/" + (Field(m.value, NumberWidth(s1))
                      + ("/" + (FourDigits(y.value) + y.rest))))
  {
    var d := DayNumber(s).value;
    var s1 := Expect('/', d.rest).value;
    var m := Number(s1).value;
    var s2 := Expect('/', m.rest).value;
    DaySpelled(s);
    ExpectSpelled('/', d.rest);
    NumberSpelled(s1);
    ExpectSpelled('/', m.rest);
    YearSpelled(s2);
  }

  /** Every text the parser accepts is an admitted spelling of the stamp it
      returns. */
  lemma {:induction false} ParsedIsSpelled(s: string)
    requires ParseStamp(s).Some?
    ensures exists sp :: Admits(ParseStamp(s).value, sp) && s == Spell(ParseStamp(s).value, sp)
  {
    var st := ParseStamp(s).value;
    var d := DayNumber(s).value;
    var s1 := Expect('/', d.rest).value;
    var m := Number(s1).value;
    var y := YearNumber(Expect('/', m.rest).value).value;
    var s3 := SkipSpaces(y.rest).value;
    var h := Number(s3).value;
    var s4 := Expect(':', h.rest).value;
    var mi := Number(s4).value;
    var s5 := Expect(':', mi.rest).value;
    assert st == Stamp(d.value, m.value, y.value, h.value, mi.value, Number(s5).value.value);
    DateSpelled(s);
    GapSpelled(y.rest);
    TimeSpelled(s3);
    var gap := y.rest[..|y.rest| - |s3|];
    var sp := Spelling(DayWidthOf(s), NumberWidth(s1), NumberWidth(s3), NumberWidth(s4), NumberWidth(s5), gap);
    assert Admits(st, sp);
    assert s3 == TimeText(st, sp);
    assert y.rest == gap + s3;
    assert s == Spell(st, sp);
  }

  /** The texts the parser accepts are exactly the admitted spellings of
      valid stamps, and each parses to the stamp it spells. */
  lemma ParseStampSpellings(s: string, st: Stamp)
    ensures ParseStamp(s) == Some(st) <==> exists sp :: Admits(st, sp) && s == Spell(st, sp)
  {
    if ParseStamp(s) == Some(st) {
      ParsedIsSpelled(s);
    }
    if exists sp :: Admits(st, sp) && s == Spell(st, sp) {
      var sp :| Admits(st, sp) && s == Spell(st, sp);
      ParseSpell(st, sp);
    }
  }
}

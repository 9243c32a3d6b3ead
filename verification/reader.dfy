/** The tolerant file reader `ler_arquivo` (app.py:22-37).

    A spreadsheet extension goes straight to the spreadsheet reader.
    Anything else is tried as delimited text with each delimiter (`;`, `,`,
    tab, outer loop) and each encoding (`utf-8-sig`, `UTF-16`, `cp1252`,
    inner loop); the first attempt that parses and yields more than one
    column is returned, and when none does the reader raises. The parsers
    themselves are not modelled: an upload carries the outcome of the
    spreadsheet reader and of every delimited-text attempt. */
module Reader {
  import opened Wrappers
  import opened Strings
  import opened Table

  datatype Encoding = Utf8Sig | Utf16 | Cp1252

  datatype Attempt = Attempt(delimiter: char, encoding: Encoding)

  const Delimiters: seq<char> := [';', ',', '\t']
  const Encodings: seq<Encoding> := [Utf8Sig, Utf16, Cp1252]

  /** The nine attempts in the order the two nested loops make them. */
  const Attempts: seq<Attempt> := [
    Attempt(';', Utf8Sig), Attempt(';', Utf16), Attempt(';', Cp1252),
    Attempt(',', Utf8Sig), Attempt(',', Utf16), Attempt(',', Cp1252),
    Attempt('\t', Utf8Sig), Attempt('\t', Utf16), Attempt('\t', Cp1252)
  ]

  /** An uploaded file: its path, what the spreadsheet reader makes of it
      (`None` when it raises) and what each delimited-text attempt makes of
      it (`None` when `read_csv` raises). */
  datatype Upload = Upload(path: string, sheet: Option<Dataset>, parse: Attempt -> Option<Dataset>)

  // ---------------------------------------------------------------------
  // The extension test (`os.path.splitext(path)[1].lower()`)

  /** Position of the last `c` in `s`, or -1. */
  function LastIndexOf(s: string, c: char): (r: int)
    ensures -1 <= r < |s|
    ensures r >= 0 ==> s[r] == c
    ensures forall k :: r < k < |s| ==> s[k] != c
  {
    if |s| == 0 then -1
    else if s[|s| - 1] == c then |s| - 1
    else LastIndexOf(s[..|s| - 1], c)
  }

  /** `dot` starts the extension of `path`: it is a dot, no dot or slash
      follows it, and the file name before it is not made of dots only. */
  predicate ExtensionStart(path: string, dot: int) {
    && 0 <= dot < |path|
    && path[dot] == '.'
    && (forall k :: dot < k < |path| ==> path[k] != '.' && path[k] != '/')
    && (exists k :: 0 <= k < dot && path[k] != '.' && NoSlash(path, k, dot))
  }

  predicate NoSlash(path: string, from: int, to: int)
    requires 0 <= from <= to <= |path|
  {
    forall j :: from <= j < to ==> path[j] != '/'
  }

  /** `os.path.splitext(path)[1]` for POSIX paths. */
  function Extension(path: string): (r: string)
    ensures r != "" ==> ExtensionStart(path, |path| - |r|) && r == path[|path| - |r|..]
    ensures r == "" ==> forall dot :: !ExtensionStart(path, dot)
  {
    var sep := LastIndexOf(path, '/');
    var dot := LastIndexOf(path, '.');
    if dot > sep && exists k :: sep < k < dot && path[k] != '.' then
      assert forall k :: sep < k < dot ==> NoSlash(path, k, dot);
      path[dot..]
    else
      assert forall d :: ExtensionStart(path, d) ==> d == dot;
      path[..0]
  }

  predicate IsSpreadsheet(path: string) {
    Lower(Extension(path)) in {".xlsx", ".xls"}
  }

  // ---------------------------------------------------------------------
  // The delimited-text search

  /** An attempt the reader accepts: it parsed and found more than one
      column. */
  predicate Fits(outcome: Option<Dataset>) {
    outcome.Some? && |outcome.value.columns| > 1
  }

  /** Position of the first fitting outcome, or `|outcomes|` when none fits. */
  function FirstFit(outcomes: seq<Option<Dataset>>): (k: nat)
    ensures k <= |outcomes|
    ensures k < |outcomes| ==> Fits(outcomes[k])
    ensures forall j :: 0 <= j < k ==> !Fits(outcomes[j])
  {
    if |outcomes| == 0 then 0
    else if Fits(outcomes[0]) then 0
    else 1 + FirstFit(outcomes[1..])
  }

  function Outcomes(parse: Attempt -> Option<Dataset>): (r: seq<Option<Dataset>>)
    ensures |r| == |Attempts| && forall i :: 0 <= i < |Attempts| ==> r[i] == parse(Attempts[i])
  {
    seq(|Attempts|, i requires 0 <= i < |Attempts| => parse(Attempts[i]))
  }

  /** The nested loops of app.py:28-37. */
  function ReadDelimited(parse: Attempt -> Option<Dataset>): (r: Result<Dataset, Error>)
    ensures r.Ok? ==> |r.value.columns| >= 2
    ensures r.Ok? ==> exists i :: 0 <= i < |Attempts| && parse(Attempts[i]) == Some(r.value)
                         && forall j :: 0 <= j < i ==> !Fits(parse(Attempts[j]))
    ensures r.Err? <==> forall a :: a in Attempts ==> !Fits(parse(a))
    ensures r.Err? ==> r.error == Unreadable
  {
    var outcomes := Outcomes(parse);
    var k := FirstFit(outcomes);
    if k < |outcomes| then
      assert parse(Attempts[k]) == Some(outcomes[k].value);
      Ok(outcomes[k].value)
    else
      assert forall a :: a in Attempts ==> exists i :: 0 <= i < |Attempts| && Attempts[i] == a;
      Err(Unreadable)
  }

  /** `ler_arquivo`. */
  function Read(u: Upload): (r: Result<Dataset, Error>)
    ensures IsSpreadsheet(u.path) ==> (r.Ok? <==> u.sheet.Some?)
    ensures IsSpreadsheet(u.path) && u.sheet.Some? ==> r.value == u.sheet.value
    ensures IsSpreadsheet(u.path) && u.sheet.None? ==> r.error == SpreadsheetUnreadable(u.path)
    ensures !IsSpreadsheet(u.path) && r.Ok? ==> |r.value.columns| >= 2
    ensures !IsSpreadsheet(u.path) ==> (r.Err? <==> forall a :: a in Attempts ==> !Fits(u.parse(a)))
    ensures !IsSpreadsheet(u.path) ==> r == ReadDelimited(u.parse)
  {
    if IsSpreadsheet(u.path) then
      if u.sheet.Some? then Ok(u.sheet.value) else Err(SpreadsheetUnreadable(u.path))
    else ReadDelimited(u.parse)
  }

  // ---------------------------------------------------------------------
  // Properties

  /** The attempts are every (delimiter, encoding) pair, ordered by
      delimiter first and encoding second. */
  lemma AttemptsOrder()
    ensures |Attempts| == |Delimiters| * |Encodings|
    ensures forall i :: 0 <= i < |Attempts| ==>
              Attempts[i] == Attempt(Delimiters[i / 3], Encodings[i % 3])
    ensures forall d, e :: d in Delimiters && e in Encodings ==> Attempt(d, e) in Attempts
  {
  }

  /** A spreadsheet never reaches the delimited-text search: what the
      attempts would have given does not matter. */
  lemma SpreadsheetSkipsSearch(path: string, sheet: Option<Dataset>,
                               p: Attempt -> Option<Dataset>, q: Attempt -> Option<Dataset>)
    requires IsSpreadsheet(path)
    ensures Read(Upload(path, sheet, p)) == Read(Upload(path, sheet, q))
  {
  }

  /** A file whose name ends in `.<ext>` has `.<ext>` as extension. */
  lemma ExtensionOfName(dir: string, name: string, ext: string)
    requires dir == [] || dir[|dir| - 1] == '/'
    requires |name| >= 1 && name[0] != '.' && '/' !in name
    requires |ext| >= 1 && ext[0] == '.' && '.' !in ext[1..] && '/' !in ext[1..]
    ensures Extension(dir + name + ext) == ext
  {
    var p := dir + name + ext;
    var dot := |dir| + |name|;
    assert p[dot..] == ext;
    assert p[|dir|] == name[0];
    forall k | dot < k < |p|
      ensures p[k] != '.' && p[k] != '/'
    {
      assert p[k] == ext[1..][k - dot - 1];
    }
    forall j | |dir| <= j < dot
      ensures p[j] != '/'
    {
      assert p[j] == name[j - |dir|];
    }
    assert NoSlash(p, |dir|, dot);
    assert ExtensionStart(p, dot);
    var r := Extension(p);
    assert r != "";
    var e := |p| - |r|;
    assert ExtensionStart(p, e);
  }
}

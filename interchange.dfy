/**
 * CSV interchange: exporting the secrets list as rows of text, choosing the file to
 * import, detecting its format from the header row and mapping rows back to
 * secrets. The CSV reader and writer are abstracted: a file is the sequence of rows
 * of fields they consume or produce.
 */
module Interchange {
  import opened Wrappers
  import opened Strings
  import opened Records

  type Row = seq<string>

  /** The header `exportSecrets` writes, in column order. */
  const NativeHeader: Row := ["Description", "Id", "PIN", "Email", "Notes"]

  /** The header of a CSV file exported by OI Safe 1.1.0. */
  const OiSafeHeader: Row := ["Category", "Description", "Website", "Username", "Password", "Notes"]

  /**
   * Comparing a header with a signature column by column, the way a chain of `&&`
   * evaluates: it stops at the first column that differs, and reading a column the
   * header does not have throws (`OutOfRange`).
   */
  datatype Probe = Match | Mismatch | OutOfRange

  function ProbeHeader(h: Row, sig: Row): (p: Probe)
    ensures p == Match <==> |sig| <= |h| && forall i | 0 <= i < |sig| :: EqualsIgnoreCase(h[i], sig[i])
    ensures p == OutOfRange <==> |h| < |sig| && forall i | 0 <= i < |h| :: EqualsIgnoreCase(h[i], sig[i])
    decreases sig
  {
    if sig == [] then Match
    else if h == [] then OutOfRange
    else if !EqualsIgnoreCase(h[0], sig[0]) then Mismatch
    else ProbeHeader(h[1..], sig[1..])
  }

  /** `isSecretsCsv`. */
  function IsSecretsCsv(h: Row): Probe {
    ProbeHeader(h, NativeHeader)
  }

  /** `isOiSafeCsv`. */
  function IsOiSafeCsv(h: Row): Probe {
    ProbeHeader(h, OiSafeHeader)
  }

  datatype Format = Native | OiSafe | Unknown

  /**
   * The format `importSecrets` settles on for a header row: the native test first,
   * OI Safe only when it fails; `None` when either test throws.
   */
  function DetectFormat(h: Row): Option<Format> {
    match IsSecretsCsv(h)
    case Match => Some(Native)
    case OutOfRange => None
    case Mismatch =>
      match IsOiSafeCsv(h)
      case Match => Some(OiSafe)
      case Mismatch => Some(Unknown)
      case OutOfRange => None
  }

  /**
   * Detection is case-insensitive, looks at the first five or six columns only, and
   * throws exactly when a header shorter than a signature agrees with it as far as
   * it goes.
   */
  lemma DetectFormatCases(h: Row)
    ensures DetectFormat(h) == Some(Native) <==>
      5 <= |h| && forall i | 0 <= i < 5 :: EqualsIgnoreCase(h[i], NativeHeader[i])
    ensures DetectFormat(h) == Some(OiSafe) <==>
      6 <= |h| && forall i | 0 <= i < 6 :: EqualsIgnoreCase(h[i], OiSafeHeader[i])
    ensures DetectFormat(h).None? <==>
      || (|h| < 5 && forall i | 0 <= i < |h| :: EqualsIgnoreCase(h[i], NativeHeader[i]))
      || (|h| < 6 && forall i | 0 <= i < |h| :: EqualsIgnoreCase(h[i], OiSafeHeader[i]))
  {
  }

  /** Columns after the sixth never change the detected format. */
  lemma ExtraColumnsIgnored(h: Row, extra: Row)
    requires |h| >= 6
    ensures DetectFormat(h + extra) == DetectFormat(h)
  {
  }

  /** The notes OI Safe rows are given: notes, a blank line, the category, and the website if any. */
  function OiSafeNote(row: Row): string
    requires |row| >= 6
  {
    row[5] + "\n\n" + "Category: " + row[0] + "\n" + (if |row[2]| > 0 then "Website: " + row[2] + "\n" else "")
  }

  /**
   * One data row as a secret; `None` when the row is too short for the columns read
   * (an `ArrayIndexOutOfBoundsException`). Native and unknown rows map by position.
   */
  function MapRow(fmt: Format, row: Row): (r: Option<Secret>)
    ensures r.Some? <==> |row| >= (if fmt == OiSafe then 6 else 5)
  {
    if fmt == OiSafe then
      if |row| < 6 then None
      else Some(Secret(row[1], row[3], row[4], "", OiSafeNote(row)))
    else
      if |row| < 5 then None
      else Some(Secret(row[0], row[1], row[2], row[3], row[4]))
  }

  /**
   * An OI Safe row loses no column: description, username and password are copied,
   * the notes start with the row's notes, the category follows after a blank line,
   * and the website appears exactly when it is not empty.
   */
  lemma OiSafeKeepsEveryColumn(row: Row)
    requires |row| >= 6
    ensures var s := MapRow(OiSafe, row).value;
      && s.description == row[1] && s.username == row[3] && s.password == row[4] && s.email == ""
      && OccursAt(s.note, row[5], 0)
      && OccursAt(s.note, "Category: " + row[0] + "\n", |row[5]| + 2)
      && (|row[2]| > 0 ==> OccursAt(s.note, "Website: " + row[2] + "\n", |row[5]| + |row[0]| + 13))
      && (|row[2]| == 0 ==> |s.note| == |row[5]| + |row[0]| + 13)
  {
  }

  /** What `importSecrets` leaves in the list and returns. */
  datatype ImportResult = ImportResult(secrets: seq<Secret>, ok: bool)

  /**
   * Mapping data rows in order until one is too short: the secrets of the rows
   * before it, and whether every row mapped.
   */
  function MapRows(fmt: Format, rows: seq<Row>): (r: ImportResult)
    ensures |r.secrets| <= |rows|
    ensures forall i {:trigger r.secrets[i]} {:trigger MapRow(fmt, rows[i])} | 0 <= i < |r.secrets| :: MapRow(fmt, rows[i]) == Some(r.secrets[i])
    ensures r.ok <==> |r.secrets| == |rows|
    ensures !r.ok ==> MapRow(fmt, rows[|r.secrets|]).None?
    decreases |rows|
  {
    if |rows| == 0 then ImportResult([], true)
    else
      var prev := MapRows(fmt, rows[..|rows| - 1]);
      if !prev.ok then prev
      else match MapRow(fmt, rows[|rows| - 1])
        case None => ImportResult(prev.secrets, false)
        case Some(s) => ImportResult(prev.secrets + [s], true)
  }

  /** The file handed to the reader: one that cannot be opened, or its rows and whether reading ended in an error. */
  datatype CsvSource = Unopenable | Csv(rows: seq<Row>, readError: bool)

  /**
   * `importSecrets`: the list is cleared; the first row is the header and is never
   * imported; the result is true only for a recognised format whose every row
   * mapped and whose reading reached the end; after an exception the secrets of the
   * rows before it are kept.
   */
  function Import(src: CsvSource): (r: ImportResult)
    ensures src.Unopenable? || |src.rows| == 0 || DetectFormat(src.rows[0]).None? ==> r == ImportResult([], false)
    ensures src.Csv? && |src.rows| > 0 ==> |r.secrets| < |src.rows|
    ensures src.Csv? && |src.rows| > 0 && DetectFormat(src.rows[0]).Some? ==>
      var fmt := DetectFormat(src.rows[0]).value;
      && (forall i | 0 <= i < |r.secrets| :: MapRow(fmt, src.rows[i + 1]) == Some(r.secrets[i]))
      && (r.ok <==> fmt != Unknown && !src.readError && |r.secrets| == |src.rows| - 1)
      && (|r.secrets| < |src.rows| - 1 ==> MapRow(fmt, src.rows[|r.secrets| + 1]).None?)
  {
    if src.Unopenable? || |src.rows| == 0 then ImportResult([], false)
    else match DetectFormat(src.rows[0])
      case None => ImportResult([], false)
      case Some(fmt) =>
        var m := MapRows(fmt, src.rows[1..]);
        ImportResult(m.secrets, m.ok && fmt != Unknown && !src.readError)
  }

  /** The list `importSecrets` clears and appends to. */
  class SecretList {
    var items: seq<Secret>

    constructor ()
      ensures items == []
    {
      items := [];
    }

    method Clear()
      modifies this
      ensures items == []
    {
      items := [];
    }

    method Add(s: Secret)
      modifies this
      ensures items == old(items) + [s]
    {
      items := items + [s];
    }
  }

  /** `importSecrets`: clear `list`, detect the format, then read the data rows into it. */
  method ImportSecrets(list: SecretList, src: CsvSource) returns (success: bool)
    modifies list
    ensures list.items == Import(src).secrets && success == Import(src).ok
  {
    list.Clear();
    if src.Unopenable? || |src.rows| == 0 {
      return false;
    }
    var fmt := DetectFormat(src.rows[0]);
    if fmt.None? {
      return false;
    }
    var allRead := ReadRows(list, fmt.value, src.rows[1..]);
    success := allRead && fmt.value != Unknown && !src.readError;
  }

  /** Reading one more row, after all the rows before it mapped. */
  lemma MapRowsStep(fmt: Format, rows: seq<Row>, i: nat)
    requires i < |rows| && MapRows(fmt, rows[..i]).ok
    ensures var prev := MapRows(fmt, rows[..i]);
      MapRows(fmt, rows[..i + 1]) ==
        if MapRow(fmt, rows[i]).None? then ImportResult(prev.secrets, false)
        else ImportResult(prev.secrets + [MapRow(fmt, rows[i]).value], true)
  {
  }

  /** The first row that does not map decides the result of mapping them all. */
  lemma MapRowsFirstFailure(fmt: Format, rows: seq<Row>, i: nat)
    requires i < |rows| && MapRows(fmt, rows[..i]).ok && MapRow(fmt, rows[i]).None?
    ensures MapRows(fmt, rows) == ImportResult(MapRows(fmt, rows[..i]).secrets, false)
  {
  }

  /** The read loop of `importSecrets`: append the secret of each row until one is too short. */
  method ReadRows(list: SecretList, fmt: Format, rows: seq<Row>) returns (allRead: bool)
    requires list.items == []
    modifies list
    ensures list.items == MapRows(fmt, rows).secrets && allRead == MapRows(fmt, rows).ok
  {
    var i := 0;
    while i < |rows|
      invariant 0 <= i <= |rows|
      invariant MapRows(fmt, rows[..i]) == ImportResult(list.items, true)
    {
      var s := MapRow(fmt, rows[i]);
      MapRowsStep(fmt, rows, i);
      if s.None? {
        MapRowsFirstFailure(fmt, rows, i);
        return false;
      }
      list.Add(s.value);
      i := i + 1;
    }
    assert rows[..i] == rows;
    return true;
  }

  /** The row `exportSecrets` writes for one secret; `render` is `getPassword(true)`. */
  function ExportRow(s: Secret, render: Secret -> string): Row {
    [s.description, s.username, render(s), s.email, s.note]
  }

  /** Everything `exportSecrets` writes: the header, then one row per secret in list order. */
  function ExportRows(secrets: seq<Secret>, render: Secret -> string): (rows: seq<Row>)
    ensures |rows| == |secrets| + 1 && rows[0] == NativeHeader
    ensures forall i | 0 <= i < |secrets| :: rows[i + 1] == ExportRow(secrets[i], render)
    decreases |secrets|
  {
    if |secrets| == 0 then [NativeHeader]
    else ExportRows(secrets[..|secrets| - 1], render) + [ExportRow(secrets[|secrets| - 1], render)]
  }

  /**
   * `exportSecrets`, refilling one five-element row per secret. `opens` says whether
   * the file could be created; the result is the rows handed to the writer and
   * whether at least one secret row was written.
   */
  method ExportSecrets(secrets: seq<Secret>, render: Secret -> string, opens: bool)
    returns (written: seq<Row>, success: bool)
    ensures opens ==> written == ExportRows(secrets, render)
    ensures !opens ==> written == []
    ensures success <==> opens && |secrets| > 0
  {
    written, success := [], false;
    if !opens {
      return;
    }
    var row := new string[5];
    row[0], row[1], row[2], row[3], row[4] := "Description", "Id", "PIN", "Email", "Notes";
    assert row[..] == NativeHeader;
    written := [row[..]];
    var k := 0;
    while k < |secrets|
      invariant 0 <= k <= |secrets|
      invariant written == ExportRows(secrets[..k], render)
      invariant success <==> k > 0
    {
      var s := secrets[k];
      row[0], row[1], row[2], row[3], row[4] := s.description, s.username, render(s), s.email, s.note;
      assert secrets[..k + 1][..k] == secrets[..k];
      assert row[..] == ExportRow(s, render);
      written := written + [row[..]];
      success := true;
      k := k + 1;
    }
    assert secrets[..k] == secrets;
  }

  /**
   * Importing what was exported takes the native branch, succeeds, and gives back
   * every secret in order, with the password as exported.
   */
  lemma ExportThenImport(secrets: seq<Secret>, render: Secret -> string)
    ensures var r := Import(Csv(ExportRows(secrets, render), false));
      && r.ok && |r.secrets| == |secrets|
      && forall i | 0 <= i < |secrets| :: r.secrets[i] == secrets[i].(password := render(secrets[i]))
  {
  }

  /** The two CSV files `getFileToImport` looks for. */
  datatype CsvFile = SecretsCsv | OiSafeCsv

  /**
   * `getFileToImport`, given each file's modification time if it exists: the newer
   * of the two, the OI Safe file on a tie, nothing when neither exists.
   */
  function FileToImport(secretsCsv: Option<int>, oiSafeCsv: Option<int>): (r: Option<CsvFile>)
    ensures r.None? <==> secretsCsv.None? && oiSafeCsv.None?
    ensures r == Some(SecretsCsv) ==> secretsCsv.Some? && (oiSafeCsv.Some? ==> secretsCsv.value > oiSafeCsv.value)
    ensures r == Some(OiSafeCsv) ==> oiSafeCsv.Some? && (secretsCsv.Some? ==> oiSafeCsv.value >= secretsCsv.value)
  {
    if secretsCsv.Some? && oiSafeCsv.Some? then
      if secretsCsv.value > oiSafeCsv.value then Some(SecretsCsv) else Some(OiSafeCsv)
    else if secretsCsv.Some? then Some(SecretsCsv)
    else if oiSafeCsv.Some? then Some(OiSafeCsv)
    else None
  }
}

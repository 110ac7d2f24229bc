/** The file readers of the test suite's `ReadUtil` class: the guard that a
    path names an existing regular file, the Excel reader that turns the
    data rows of a sheet into tuples, the CSV reader that strips every value
    of every parsed row, and the text reader that strips, filters and
    optionally splits lines.

    The file system and the third-party parsers are inputs: the file system
    is a map from path to what the path resolves to, and each reader takes
    what its parser (openpyxl, csv.DictReader, text-mode line iteration)
    yields for the file. */
module ReadUtil {
  import opened PyStr

  /** Python's `None` or a value. */
  datatype Option<+T> = None | Some(value: T)

  /** The exceptions the readers raise, one per raise site. */
  datatype Error =
    | FileNotFound(path: string)       // FileNotFoundError: the path does not exist
    | NotAFile(path: string)           // ValueError: the path exists but is not a regular file
    | UnsupportedFormat(path: string)  // ValueError: neither ".xlsx" nor ".xls"
    | UnboundDataList                  // UnboundLocalError: `data_list` is never bound for ".xls"
    | NotAString                       // AttributeError: `.strip()` on a CSV value that is not a str

  /** A guard that returns nothing or raises. */
  datatype Outcome = Pass | Fail(error: Error)

  /** A reader's return value or the exception it raises. */
  datatype Result<+T> = Ok(value: T) | Err(error: Error)

  /** What a path resolves to once symbolic links are followed, as
      `os.path.exists` and `os.path.isfile` see it: a regular file, a
      directory, or some other existing node (a device, a socket, a pipe). */
  datatype Node = RegularFile | Directory | Special

  /** The paths that exist. A broken link is simply absent. */
  type FileSystem = map<string, Node>

  // ---------------------------------------------------------------------
  // _check_file_exists

  /** The two guards, existence first: a missing path raises
      FileNotFoundError, an existing path that is not a regular file raises
      ValueError, and a regular file passes. */
  function CheckFileExists(fs: FileSystem, path: string): (r: Outcome)
    ensures r == Fail(FileNotFound(path)) <==> path !in fs
    ensures r == Fail(NotAFile(path)) <==> path in fs && fs[path] != RegularFile
    ensures r == Pass <==> path in fs && fs[path] == RegularFile
  {
    if path !in fs then Fail(FileNotFound(path))
    else if fs[path] != RegularFile then Fail(NotAFile(path))
    else Pass
  }

  // ---------------------------------------------------------------------
  // read_excel

  /** A cell value as openpyxl hands it over with `data_only=True`. Dates
      and times are not distinguished from the other kinds. */
  datatype Value = Str(s: string) | Int(i: int) | Float(f: real) | Bool(b: bool)

  /** A sheet cell: `None` when empty. */
  type Cell = Option<Value>

  /** A sheet as openpyxl iterates it: row 1 is `sheet[0]`. */
  type Sheet = seq<seq<Cell>>

  /** `col.value if col.value is not None else ''`. */
  function NormalizeCell(c: Cell): Value {
    match c
    case None => Str("")
    case Some(v) => v
  }

  /** The tuple built from one sheet row: as wide as the row, an empty cell
      becomes '' and every other value is kept as it is (including 0,
      False and ''). So a row without empty cells loses no value, and
      normalising a normalised tuple again changes nothing. */
  function NormalizeRow(row: seq<Cell>): (r: seq<Value>)
    ensures |r| == |row|
    ensures forall j :: 0 <= j < |row| && row[j].Some? ==> r[j] == row[j].value
    ensures forall j :: 0 <= j < |row| && row[j].None? ==> r[j] == Str("")
  {
    seq(|row|, j requires 0 <= j < |row| => NormalizeCell(row[j]))
  }

  /** The number of rows `iter_rows(min_row=header_row + 2)` yields: every
      row after the header row, none when the sheet ends before that. */
  function DataRowCount(rows: nat, headerRow: nat): (n: nat)
    ensures n + headerRow + 1 == rows || (n == 0 && rows <= headerRow + 1)
  {
    if headerRow + 1 <= rows then rows - (headerRow + 1) else 0
  }

  /** `read_excel(file_path, sheet_name, header_row)` with the selected
      sheet given as `sheet`. The file guard runs first, then the extension
      gate. For ".xlsx" the result holds one tuple per sheet row from
      1-based row `header_row + 2` to the end, in order, blank rows
      included. A ".xls" path passes the gate but raises, because the only
      branch that binds `data_list` is the ".xlsx" one. */
  method ReadExcel(fs: FileSystem, path: string, sheet: Sheet, headerRow: nat)
    returns (r: Result<seq<seq<Value>>>)
    ensures path !in fs ==> r == Err(FileNotFound(path))
    ensures path in fs && fs[path] != RegularFile ==> r == Err(NotAFile(path))
    ensures CheckFileExists(fs, path) == Pass && !EndsWith(path, ".xlsx") && !EndsWith(path, ".xls")
      ==> r == Err(UnsupportedFormat(path))
    ensures CheckFileExists(fs, path) == Pass && EndsWith(path, ".xls") ==> r == Err(UnboundDataList)
    ensures r.Ok? <==> CheckFileExists(fs, path) == Pass && EndsWith(path, ".xlsx")
    ensures r.Ok? ==> |r.value| == DataRowCount(|sheet|, headerRow)
    ensures r.Ok? ==> forall i :: 0 <= i < |r.value| ==> r.value[i] == NormalizeRow(sheet[headerRow + 1 + i])
  {
    var check := CheckFileExists(fs, path);
    if check.Fail? {
      return Err(check.error);
    }
    var isXlsx := EndsWith(path, ".xlsx");
    var isXls := EndsWith(path, ".xls");
    if !(isXlsx || isXls) {
      return Err(UnsupportedFormat(path));
    }
    if isXlsx {
      XlsxIsNotXls(path);
      var dataList: seq<seq<Value>> := [];
      var startRow := headerRow + 2;
      var rowNumber := startRow;
      while rowNumber <= |sheet|
        invariant startRow <= rowNumber
        invariant rowNumber <= |sheet| + 1 || rowNumber == startRow
        invariant |dataList| == rowNumber - startRow
        invariant forall i :: 0 <= i < |dataList| ==> dataList[i] == NormalizeRow(sheet[headerRow + 1 + i])
      {
        var data := NormalizeRow(sheet[rowNumber - 1]);
        dataList := dataList + [data];
        rowNumber := rowNumber + 1;
      }
      r := Ok(dataList);
    } else {
      r := Err(UnboundDataList);
    }
  }

  /** Whatever the sheet holds, a ".xls" workbook never yields rows. */
  method XlsNeverReads(fs: FileSystem, path: string, sheet: Sheet, headerRow: nat)
    returns (r: Result<seq<seq<Value>>>)
    requires EndsWith(path, ".xls")
    ensures r.Err?
    ensures r.error == UnboundDataList || r.error == FileNotFound(path) || r.error == NotAFile(path)
  {
    r := ReadExcel(fs, path, sheet, headerRow);
  }

  /** Every cell of the row is empty. */
  predicate IsBlank(row: seq<Cell>) {
    forall j :: 0 <= j < |row| ==> row[j].None?
  }

  /** A wholly blank data row is not skipped: it comes out, at its own
      position, as a tuple of '' as wide as the row. */
  method BlankRowKept(fs: FileSystem, path: string, sheet: Sheet, headerRow: nat, i: nat)
    returns (r: Result<seq<seq<Value>>>)
    requires CheckFileExists(fs, path) == Pass && EndsWith(path, ".xlsx")
    requires headerRow + 1 + i < |sheet|
    requires IsBlank(sheet[headerRow + 1 + i])
    ensures r.Ok? && i < |r.value|
    ensures r.value[i] == seq(|sheet[headerRow + 1 + i]|, _ => Str(""))
  {
    r := ReadExcel(fs, path, sheet, headerRow);
  }

  // ---------------------------------------------------------------------
  // read_csv

  /** A value of a row as csv.DictReader builds it: a string for a field
      under a header, `None` (its `restval`) for a header the row is too
      short to fill, or the list of surplus fields of a row longer than the
      header. */
  datatype CsvField = Text(s: string) | Missing | Surplus(fields: seq<string>)

  /** A row as csv.DictReader builds it; surplus fields sit under the key
      `None` (its `restkey`). */
  type CsvRow = map<Option<string>, CsvField>

  /** `{k: v.strip() for k, v in row.items()}`: the same keys, each value
      stripped of surrounding whitespace; a value that is not a string has
      no `strip` and raises AttributeError. */
  function CleanRow(row: CsvRow): (r: Result<map<Option<string>, string>>)
    ensures r.Ok? <==> forall k :: k in row ==> row[k].Text?
    ensures r.Err? ==> r.error == NotAString
    ensures r.Ok? ==> r.value.Keys == row.Keys
    ensures r.Ok? ==> forall k :: k in row ==> r.value[k] == Strip(row[k].s)
  {
    if forall k :: k in row ==> row[k].Text? then
      Ok(map k | k in row :: Strip(row[k].s))
    else
      Err(NotAString)
  }

  /** Cleaning a cleaned row changes nothing. */
  lemma CleanRowIdempotent(row: CsvRow)
    requires CleanRow(row).Ok?
    ensures var clean := CleanRow(row).value;
      CleanRow(map k | k in clean :: Text(clean[k])) == Ok(clean)
  {
    var clean := CleanRow(row).value;
    var again := map k | k in clean :: Text(clean[k]);
    forall k | k in again ensures Strip(again[k].s) == clean[k] {
      StripIdempotent(row[k].s);
    }
    assert CleanRow(again).value == clean;
  }

  /** `read_csv(file_path, delimiter, encoding)` with the parsed rows given
      as `rows`. After the file guard, one cleaned map per parsed row, in
      order; the first row holding a value that is not a string raises. */
  method ReadCsv(fs: FileSystem, path: string, rows: seq<CsvRow>)
    returns (r: Result<seq<map<Option<string>, string>>>)
    ensures CheckFileExists(fs, path).Fail? ==> r == Err(CheckFileExists(fs, path).error)
    ensures r.Ok? <==> CheckFileExists(fs, path) == Pass && forall i :: 0 <= i < |rows| ==> CleanRow(rows[i]).Ok?
    ensures CheckFileExists(fs, path) == Pass && r.Err? ==> r.error == NotAString
    ensures r.Ok? ==> |r.value| == |rows|
    ensures r.Ok? ==> forall i :: 0 <= i < |rows| ==>
      r.value[i].Keys == rows[i].Keys &&
      forall k :: k in rows[i] ==> r.value[i][k] == Strip(rows[i][k].s)
  {
    var check := CheckFileExists(fs, path);
    if check.Fail? {
      return Err(check.error);
    }
    var dataList: seq<map<Option<string>, string>> := [];
    for i := 0 to |rows|
      invariant |dataList| == i
      invariant forall j :: 0 <= j < i ==> CleanRow(rows[j]) == Ok(dataList[j])
    {
      var cleanRow := CleanRow(rows[i]);
      if cleanRow.Err? {
        return Err(cleanRow.error);
      }
      dataList := dataList + [cleanRow.value];
    }
    r := Ok(dataList);
  }

  // ---------------------------------------------------------------------
  // read_txt

  /** An element of `read_txt`'s result: the stripped line, or its pieces
      when a separator is given. */
  datatype TxtEntry = Line(text: string) | Fields(items: seq<string>)

  /** `if split:` — a separator is used when it is given and non-empty. */
  predicate Splits(split: Option<string>) {
    split.Some? && split.value != ""
  }

  /** `[item.strip() for item in items]`. */
  function StripAll(items: seq<string>): seq<string> {
    seq(|items|, i requires 0 <= i < |items| => Strip(items[i]))
  }

  /** The entry for an already stripped, non-empty line. */
  function Entry(line: string, split: Option<string>): TxtEntry {
    if Splits(split) then Fields(StripAll(Split(line, split.value))) else Line(line)
  }

  /** What one line adds to `read_txt`'s result: nothing when it is blank
      once stripped, otherwise the entry of the stripped line. */
  function LineEntries(line: string, split: Option<string>): seq<TxtEntry> {
    var stripped := Strip(line);
    if stripped == "" then [] else [Entry(stripped, split)]
  }

  /** What the loop of `read_txt` has appended after reading `lines`. */
  function TxtEntries(lines: seq<string>, split: Option<string>): seq<TxtEntry> {
    if lines == [] then []
    else TxtEntries(lines[..|lines| - 1], split) + LineEntries(lines[|lines| - 1], split)
  }

  /** `read_txt(file_path, encoding, split)` with the lines of the file
      given as `lines`. After the file guard, the entries of the lines in
      order. */
  method ReadTxt(fs: FileSystem, path: string, lines: seq<string>, split: Option<string>)
    returns (r: Result<seq<TxtEntry>>)
    ensures CheckFileExists(fs, path).Fail? ==> r == Err(CheckFileExists(fs, path).error)
    ensures CheckFileExists(fs, path) == Pass ==> r == Ok(TxtEntries(lines, split))
  {
    var check := CheckFileExists(fs, path);
    if check.Fail? {
      return Err(check.error);
    }
    var dataList: seq<TxtEntry> := [];
    for i := 0 to |lines|
      invariant dataList == TxtEntries(lines[..i], split)
    {
      assert lines[..i + 1][..i] == lines[..i];
      var line := Strip(lines[i]);
      if line == "" {
        continue;
      }
      if Splits(split) {
        var lineData := StripAll(Split(line, split.value));
        dataList := dataList + [Fields(lineData)];
      } else {
        dataList := dataList + [Line(line)];
      }
    }
    assert lines[..|lines|] == lines;
    r := Ok(dataList);
  }

  /** The positions of the lines that are not blank once stripped, in
      increasing order. */
  function Kept(lines: seq<string>): (ks: seq<nat>)
    ensures forall k :: 0 <= k < |ks| ==> ks[k] < |lines|
  {
    if lines == [] then []
    else
      var ks := Kept(lines[..|lines| - 1]);
      if Strip(lines[|lines| - 1]) == "" then ks else ks + [|lines| - 1]
  }

  /** The kept positions increase, and a position is kept if and only if
      its line strips to a non-empty string. */
  lemma {:induction false} KeptSpec(lines: seq<string>)
    ensures forall k, m :: 0 <= k < m < |Kept(lines)| ==> Kept(lines)[k] < Kept(lines)[m]
    ensures forall i :: 0 <= i < |lines| ==> (i in Kept(lines) <==> Strip(lines[i]) != "")
  {
    if lines != [] {
      var prefix := lines[..|lines| - 1];
      KeptSpec(prefix);
      assert forall i :: 0 <= i < |prefix| ==> prefix[i] == lines[i];
    }
  }

  /** `read_txt` keeps exactly the lines that are not blank once stripped,
      in source order: there is one entry per kept position (see KeptSpec)
      and the k-th entry is made from the line at the k-th kept position. */
  lemma {:induction false} TxtEntriesAreKeptLines(lines: seq<string>, split: Option<string>)
    ensures |TxtEntries(lines, split)| == |Kept(lines)|
    ensures forall k :: 0 <= k < |Kept(lines)| ==>
      TxtEntries(lines, split)[k] == Entry(Strip(lines[Kept(lines)[k]]), split)
  {
    if lines != [] {
      var prefix, last := lines[..|lines| - 1], lines[|lines| - 1];
      TxtEntriesAreKeptLines(prefix, split);
      var es, ks := TxtEntries(prefix, split), Kept(prefix);
      assert TxtEntries(lines, split) == es + LineEntries(last, split);
      forall k | 0 <= k < |ks|
        ensures TxtEntries(lines, split)[k] == Entry(Strip(lines[Kept(lines)[k]]), split)
      {
        assert Kept(lines)[k] == ks[k];
        assert lines[ks[k]] == prefix[ks[k]];
      }
    }
  }

  /** The lines are processed independently and in order: reading two runs
      of lines one after the other gives the entries of each, concatenated. */
  lemma {:induction false} TxtEntriesAppend(a: seq<string>, b: seq<string>, split: Option<string>)
    ensures TxtEntries(a + b, split) == TxtEntries(a, split) + TxtEntries(b, split)
    decreases |b|
  {
    if b == [] {
      assert a + b == a;
    } else {
      var b', last := b[..|b| - 1], b[|b| - 1];
      TxtEntriesAppend(a, b', split);
      assert (a + b)[..|a + b| - 1] == a + b';
      assert (a + b)[|a + b| - 1] == last;
      assert TxtEntries(a + b, split) == TxtEntries(a + b', split) + LineEntries(last, split);
      assert TxtEntries(b, split) == TxtEntries(b', split) + LineEntries(last, split);
    }
  }

  /** A line that is blank once stripped contributes nothing; any other
      line contributes exactly its entry. */
  lemma TxtEntriesOfLine(line: string, split: Option<string>)
    ensures AllSpace(line) ==> TxtEntries([line], split) == []
    ensures !AllSpace(line) ==> TxtEntries([line], split) == [Entry(Strip(line), split)]
  {
    StripEmptyIff(line);
    assert [line][..0] == [];
  }

  /** What each entry holds. Without a separator it is the stripped line:
      non-empty, with no whitespace at either end. With a separator it is
      the pieces of the stripped line, at least one, each stripped and none
      containing the separator, and joining the unstripped pieces gives the
      line back. */
  lemma EntryShape(line: string, split: Option<string>)
    requires line != "" && IsStripped(line)
    ensures !Splits(split) ==> Entry(line, split) == Line(line)
    ensures Splits(split) ==> Entry(line, split).Fields?
    ensures Splits(split) ==> var items := Entry(line, split).items;
      |items| >= 1 &&
      forall i :: 0 <= i < |items| ==> Strip(items[i]) == items[i] && Find(items[i], split.value) == -1
    ensures Splits(split) ==> Join(Split(line, split.value), split.value) == line
  {
    if Splits(split) {
      var sep := split.value;
      var pieces := Split(line, sep);
      var items := StripAll(pieces);
      SplitJoin(line, sep);
      forall i | 0 <= i < |items|
        ensures Strip(items[i]) == items[i] && Find(items[i], sep) == -1
      {
        StripIdempotent(pieces[i]);
        StripKeepsOccurrences(pieces[i], sep);
      }
    }
  }

  /** An occurrence of a separator in the stripped form of a string is an
      occurrence in the string itself, shifted by what `lstrip()` cut off. */
  lemma StripKeepsOccurrences(s: string, sep: string)
    ensures |LStrip(s)| <= |s|
    ensures forall j :: OccursAt(Strip(s), sep, j) ==> OccursAt(s, sep, |s| - |LStrip(s)| + j)
  {
    var r := Strip(s);
    StripSpec(s);
    var i := |s| - |LStrip(s)|;
    assert r == s[i..i + |r|];
    forall j | OccursAt(r, sep, j) ensures OccursAt(s, sep, i + j) {
      OccursInSlice(s, sep, i, |r|, j);
    }
  }
}

# ReadUtil: the case-file readers of a data-driven API test suite

The suite logs into an e-commerce admin service, calls its coupon-listing
endpoint and checks the answers against expectations kept in spreadsheet
files. The only logic in it that can be stated and proved is in the
`ReadUtil` class of `utils/read_utils.py`, and this project models it:

- `_check_file_exists`: two guards on a path, existence first, then
  "is a regular file".
- `read_excel`: the file guard, the extension gate (".xlsx" or ".xls"), and
  the loop that turns every sheet row after the header row into a tuple
  whose empty cells become `''`.
- `read_csv`: the file guard and the loop that strips every value of every
  row that `csv.DictReader` parsed, keeping the keys.
- `read_txt`: the file guard and the loop that strips each line, skips
  blank ones and, when a separator is given, splits the line and strips
  each piece.

The file system is a map from path to what the path resolves to
(`ReadUtil.FileSystem`). The third-party parsers are not modelled: each
reader takes what its parser yields as an input. `ReadExcel` takes the
selected sheet as a sequence of rows of optional cell values. `ReadCsv`
takes the rows `csv.DictReader` built. `ReadTxt` takes the lines that
text-mode iteration yields. Every exception a reader raises is an `Err` of
the result, with one `Error` constructor per raise site.

Python's `str.strip`, `str.find`, `str.split` with a separator, `str.join`
and `str.endswith` are modelled in module `PyStr` (file `pystr.dfy`), with
CPython's set of whitespace characters. The readers are in module
`ReadUtil` (file `read_util.dfy`). The readers are imperative: each one
builds its result in a loop, as the source does, and is proved against the
properties below. The one-row pieces are pure functions: the tuple
generator, the dict comprehension and the list comprehension.

Where the behaviour differs from what the code's documentation and the
suite's design description say, the model follows the code:

- `read_excel` returns tuples, not the header-keyed dicts that its
  docstring and type hint promise. The header row is skipped, not read.
- Blank sheet rows are kept. The code that skipped them is commented out.
- A path ending in ".xls" passes the format gate, but `read_excel` then
  raises `UnboundLocalError`. This is because `data_list` is bound only in
  the ".xlsx" branch. So ".xls" files are accepted by the gate but never
  read.
- The file guard only checks that the path is a regular file. It does not
  check that the file is a readable spreadsheet.

## Model

| member | source | states |
|---|---|---|
| `ReadUtil.CheckFileExists` | utils/read_utils.py:19-28 | A missing path raises FileNotFoundError. An existing path that is not a regular file raises ValueError. A regular file passes. Each outcome holds exactly under its condition, so the existence check decides first. |
| `ReadUtil.ReadExcel` | utils/read_utils.py:30-75 | File guard errors come first, whatever the extension. A path ending in neither ".xlsx" nor ".xls" raises the format ValueError. A ".xls" path raises UnboundLocalError. There is a result exactly for an existing regular ".xlsx" file. The result has one tuple per sheet row after the header row (from 1-based row `header_row + 2`), never a negative count. Tuple i is the normalised sheet row `header_row + 1 + i` (0-based), so no row is dropped or reordered, blank rows included. |
| `ReadUtil.XlsNeverReads` | utils/read_utils.py:46-75 | For any ".xls" path, file system and sheet, `read_excel` raises. The error is a guard error or UnboundLocalError, never a returned list. |
| `ReadUtil.NormalizeRow` | utils/read_utils.py:68 | The tuple is as wide as the sheet row. An empty (`None`) cell becomes `''`. Every other value is kept unchanged. |
| `ReadUtil.BlankRowKept` | utils/read_utils.py:61-69 | For an existing ".xlsx" file, a wholly blank data row is kept, not skipped. At its own position in `read_excel`'s result it is a tuple of empty strings as wide as the row. |
| `ReadUtil.DataRowCount` | utils/read_utils.py:60-66 | `iter_rows(min_row=header_row + 2)` yields the sheet's row count minus `header_row + 1`, or zero when the sheet has no row after the header row. |
| `ReadUtil.CleanRow` | utils/read_utils.py:95-97 | The cleaned row has exactly the parsed row's keys, and each value is that row's value stripped. It fails with AttributeError exactly when some value is not a string. That happens for DictReader's `None` restval, or for its restkey list. |
| `ReadUtil.CleanRowIdempotent` | utils/read_utils.py:97 | Cleaning an already cleaned row gives the same row. |
| `ReadUtil.ReadCsv` | utils/read_utils.py:77-99 | File guard errors come first. There is a result exactly when every parsed row holds only strings, and otherwise the error is AttributeError. The result has one map per parsed row, in order, each with the row's keys and stripped values. |
| `ReadUtil.ReadTxt` | utils/read_utils.py:126-151 | File guard errors come first. Otherwise the result is the entries of the lines in order, as `TxtEntries` defines them. Their meaning is given by the lemmas below. |
| `ReadUtil.KeptSpec` | utils/read_utils.py:141-144 | The positions of kept lines increase. A position is kept if and only if its line strips to a non-empty string. |
| `ReadUtil.TxtEntriesAreKeptLines` | utils/read_utils.py:140-150 | `read_txt` yields one entry per kept line, in source order. The k-th entry is made from the k-th kept line. |
| `ReadUtil.TxtEntriesAppend` | utils/read_utils.py:141-150 | Lines are processed independently and in order. The entries of two runs of lines read one after the other are the entries of each, concatenated. |
| `ReadUtil.TxtEntriesOfLine` | utils/read_utils.py:142-144 | A line that is empty or whitespace-only contributes nothing. Any other line contributes exactly one entry. |
| `ReadUtil.EntryShape` | utils/read_utils.py:145-150 | Take a stripped, non-empty line. With `split` `None` or `''`, the entry is the stripped line itself. With a non-empty `split`, the entry is a list of at least one piece. Each piece is stripped and none contains the separator. Joining the unstripped pieces gives the line back. |
| `ReadUtil.StripKeepsOccurrences` | utils/read_utils.py:147 | An occurrence of the separator in a stripped piece is an occurrence in the unstripped piece, so stripping a piece cannot create the separator. |
| `PyStr.LStripSpec` | utils/read_utils.py:142 | `lstrip()` keeps a suffix that does not start with whitespace. Everything it cuts off is whitespace. |
| `PyStr.RStripSpec` | utils/read_utils.py:142 | `rstrip()` keeps a prefix that does not end with whitespace. Everything it cuts off is whitespace. |
| `PyStr.StripSpec` | utils/read_utils.py:142 | `strip()` returns a slice of the line with no whitespace at either end. What it cuts off on both sides is whitespace only. |
| `PyStr.StripIdempotent` | utils/read_utils.py:142 | Stripping twice is stripping once. |
| `PyStr.StripEmptyIff` | utils/read_utils.py:142-143 | `strip()` gives `''` (a falsy line) exactly when the line is whitespace only. |
| `PyStr.StripIgnoresNewline` | utils/read_utils.py:141-142 | The newline a text-mode line ends with makes no difference after `strip()`. |
| `PyStr.Find` | utils/read_utils.py:147 | The separator search: the result is -1 exactly when the separator does not occur. Otherwise it is the first index where the separator occurs. |
| `PyStr.Split` | utils/read_utils.py:147 | `line.split(split)` gives at least one piece. There is exactly one piece, the whole line, when the separator does not occur, and at least two when it does. No piece contains the separator. With `SplitJoin` and `SplitTakesFirstOccurrence` below, these fix the pieces to be Python's. |
| `PyStr.SplitJoin` | utils/read_utils.py:147 | Joining the pieces of `split` with the separator gives back the line. |
| `PyStr.SplitTakesFirstOccurrence` | utils/read_utils.py:147 | Every piece but the last ends at the first occurrence of the separator in what remains, a left-to-right scan. Together with the join round trip this fixes the pieces, also for a separator that overlaps itself. |
| `PyStr.FindInPrefix` | utils/read_utils.py:147 | The first occurrence of the separator in a string is also the first in the prefix that ends with it. |
| `PyStr.FirstOccurrence` | utils/read_utils.py:147 | An occurrence of the separator with no earlier occurrence is the index the search returns. |
| `PyStr.XlsxIsNotXls` | utils/read_utils.py:46-47 | A path ending in ".xlsx" does not end in ".xls", so the two format flags never hold together. |

## Left out

- `read_json` (utils/read_utils.py:114-124) is left out. It is a thin wrapper over `json.load`, a foreign parser, with an `or {}` fallback.
- The commented-out YAML reader and the `__main__` demonstration block are left out.
- Real file-system access is not modelled. `os.path.exists` and `os.path.isfile` become lookups in a map from path to node kind, with symbolic links already resolved. Reading a regular file is assumed to succeed. An `open` that fails (no permission, bad encoding) is not modelled.
- openpyxl is not modelled. `load_workbook`, formula evaluation with `data_only=True`, sheet selection by name or `wb.active` (and the KeyError for an unknown sheet name) and `wb.close()` are all outside the model. The selected sheet is an input.
- Cell values are strings, integers, floats (as reals) and booleans. Datetime values are not a separate kind.
- `csv.DictReader` is not modelled: delimiters, quoting, file encodings and its skipping of empty lines. Its parsed rows are an input.
- Text-mode reading is not modelled: decoding and universal-newline translation. The lines are an input. `PyStr.StripIgnoresNewline` shows that a line's trailing newline does not matter.
- `ReadUtil.ReadExcel`: takes `header_row` as a natural number. For a negative `header_row`, what `iter_rows` does with `min_row` below 1 is openpyxl's behaviour, which is not modelled.
- `ReadUtil.CleanRow`: the result is a map, so the insertion order of the keys of Python's dict is not modelled. The model also does not capture which non-string value raises first.
- `ReadUtil.ReadCsv`: when a row fails, the model does not capture which row's value raised, only that AttributeError is raised.
- The test modules (`test_cases/`), the HTTP clients (`apis/`), the logging fixture and the `StrToDict` and `AssertUtils` helpers are not part of this model. The first three are test-runner wiring and network calls. The two helpers' source is not among the files modelled.

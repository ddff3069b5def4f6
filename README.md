# DNS test report renderer, modelled in Dafny

The repository is one script, `dns_test.py`. It reads saved diagnostic captures
and prints four tables, in this order:

- **DOH**: the `"data"` field of every answer in two DNS-over-HTTPS JSON responses.
  The IPv4 response comes first, then the IPv6 one.
- **DOT**: the stripped lines of two DNS-over-TLS address lists.
- **DNS**: the same for two plain DNS address lists.
- **Ping**: a two-column IPv4/IPv6 table built from a list of `"time=..."` strings.

This project models what happens between reading the files and printing the
tables. Its inputs are the decoded file contents and its outputs are the tables, each
a header row plus string rows:

- `text.dfy` (`Text`): Python's `str.strip()` and `str.replace(pat, rep)`, and the
  ping cell cleaning `replace("time=", "")`, as pure functions with lemmas.
- `tables.dfy` (`Tables`): the table and report values, `dict.get` with a default,
  and single-column row lists.
- `doh.dfy` (`Doh`): the DoH table. A loop adds one row per answer, IPv4 answers first.
- `line_list.dfy` (`LineList`): the DoT and DNS tables. Both run the same code on
  different files, so one method covers both.
- `ping.dfy` (`Ping`): padding the results by four `list.insert` calls, the four
  paired rows, and the `IndexError` raised by a list that is too short.
- `script.dfy` (`Script`): the four reporters run in order. A ping `IndexError`
  ends the run after three reports.
- `wrappers.dfy` (`Wrappers`): `Option` and `Result`.

Modelling decisions:

- **Whitespace.** `IsWhitespace` is the whole set for which Python's `str.isspace()`
  holds:
  - TAB, LF, VT, FF, CR;
  - U+001C to U+001F and SPACE;
  - U+0085, U+00A0, U+1680, U+2000 to U+200A, U+2028, U+2029, U+202F, U+205F, U+3000.
- **Replace.** `Replace` scans from the left. It replaces non-overlapping occurrences
  and never rescans the text it inserted. This is CPython's algorithm for a non-empty
  pattern. The script only ever calls it with the pattern `"time="`.
- **DoH input shapes.**
  - A DoH response is a map from field names to answer lists. Of those fields only
    `"Answer"` is read.
  - An answer is a map from field names to strings. Only `"data"` is read.
- **Ping input shape.** The ping results are a sequence of strings.
- **Removing the time label.** The label `"time="` heads every ping entry, so
  the evident intent is to drop that prefix. The code calls
  `replace("time=", "")`, which removes every occurrence anywhere in the cell. The
  model follows the code:
  - `CleanLabelled` shows that a leading label is removed;
  - `CleanUnchangedIff` shows that a cell is unchanged exactly when it holds no label;
  - `CleanSinglePass` shows that a single pass can leave a new `"time="` behind.
- **Crash index.** A results list of a length other than 4 or at least 8 crashes at
  the first out-of-range read. The model returns `Failure(IndexError(i))` whose `i`
  is the index Python reads first out of range. The read order is 0, 4, 1, 5, 2, 6,
  3, 7.

## Model

| member | source | states |
|---|---|---|
| `Text.IsWhitespace` | dns_test.py:40 | the characters `str.isspace()` accepts, which `strip()` removes: SPACE, TAB, LF and CR are among them, while digits, letters, `.`, `:` and the zero-width space U+200B are not |
| `Text.Strip` | dns_test.py:40 | the stripped line is no longer than the line and neither starts nor ends with whitespace |
| `Text.StripBounds` | dns_test.py:40 | gives the bounds `i`, `j` of the slice `strip()` keeps: everything before `i` and from `j` on is whitespace, and the slice neither starts nor ends with it |
| `Text.StripIsSlice` | dns_test.py:40 | the stripped line is a contiguous slice of the line, and everything cut off on either side is whitespace |
| `Text.StripUnique` | dns_test.py:40 | any slice with whitespace-only margins and non-whitespace ends is exactly what `strip()` returns |
| `Text.StripIdempotent` | dns_test.py:40-43 | stripping a stripped line changes nothing |
| `Text.StripEmptyIff` | dns_test.py:39-44 | a line strips to `""` if and only if it is all whitespace (the empty line and a bare newline included) |
| `Text.StripKeeps` | dns_test.py:40 | a line without surrounding whitespace is kept unchanged |
| `Text.StripLine` | dns_test.py:33-40 | a line as `readlines()` returns it, text plus `"\n"`, strips to its text when that text has no leading or trailing whitespace |
| `Text.StripAddressLines` | dns_test.py:39-44 | `"8.8.8.8\n"`, `"8.8.4.4\n"` and `"2001:4860::1\n"` strip to the bare addresses |
| `Text.Replace` | dns_test.py:77-80 | a string shorter than the pattern is returned unchanged, and replacing with `""` never lengthens a string |
| `Text.ReplaceLength` | dns_test.py:77-80 | `replace` changes the length by `\|rep\| - \|pat\|` once per replaced occurrence |
| `Text.ReplacedPositiveIff` | dns_test.py:77-80 | the left-to-right scan replaces at least one occurrence if and only if the pattern occurs in the string |
| `Text.ReplaceNothing` | dns_test.py:77-80 | a scan that replaces no occurrence returns its input |
| `Text.ReplaceAbsent` | dns_test.py:77-80 | a string in which the pattern does not occur is returned unchanged |
| `Text.Clean` | dns_test.py:77-80 | `replace("time=", "")` never lengthens a cell and leaves a cell shorter than `"time="` unchanged |
| `Text.CleanLength` | dns_test.py:77-80 | `replace("time=", "")` shortens a cell by exactly 5 times the number of labels removed |
| `Text.CleanUnchangedIff` | dns_test.py:77-80 | a cell is unchanged by cleaning if and only if it contains no `"time="` |
| `Text.CleanLabelled` | dns_test.py:77-80 | a leading `"time="` is removed and the scan continues after it |
| `Text.CleanLabelledValue` | dns_test.py:77-80 | `"time=" + x` renders as `x` when `x` contains no `"time="` |
| `Text.CleanAround` | dns_test.py:77-80 | a `"time="` at any position is removed, and the text before and after it is cleaned independently: `Clean(a + "time=" + b) == Clean(a) + Clean(b)` |
| `Text.CleanTrailingLabel` | dns_test.py:77-80 | a label at the end of a value is removed: `"10mstime="` cleans to `"10ms"` |
| `Text.CleanNotAvailable` | dns_test.py:71-80 | the padding entry `"time=N/A"` renders as `"N/A"` |
| `Text.CleanSinglePass` | dns_test.py:77-80 | one pass can leave a label behind: `"ttime=ime="` cleans to `"time="`, which a second pass cleans to `""`, so cleaning is not idempotent |
| `Tables.Table.AddRow` | dns_test.py:18-22 | `add_row` keeps the headers and every earlier row, and puts the new row last |
| `Tables.GetOr` | dns_test.py:13-14 | `dict.get(key, default)` is the mapped value when the key is present and the default otherwise |
| `Tables.AddressRows` | dns_test.py:17-28 | a single-column table body has one row per cell, row `i` holding exactly cell `i` |
| `Tables.AddressRowsAppend` | dns_test.py:39-44 | the rows of two cell lists added one after the other are the first list's rows followed by the second's |
| `Doh.Answers` | dns_test.py:13-14 | `doc.get("Answer", [])`: the document's answer list, or no answers when the field is missing |
| `Doh.AnswerData` | dns_test.py:17-28 | `answer.get("data", "")`: the answer's address, or `""` when the field is missing |
| `Doh.DataValues` | dns_test.py:17-28 | one cell per answer, in order, each the answer's `"data"` value or `""` when it has none |
| `Doh.DohRows` | dns_test.py:17-28 | the DoH table body: the single-column body of the IPv4 answers' cells followed by the IPv6 answers' cells, one one-column row per answer |
| `Doh.AddAnswerRows` | dns_test.py:17-22 | one loop of `add_row` calls keeps the headers and earlier rows and appends one single-column row per answer, in order |
| `Doh.DohTable` | dns_test.py:13-28 | the "Address" table has `\|answers4\| + \|answers6\|` single-column rows: the IPv4 answers' `data` (or `""`) in order, then the IPv6 ones'; a document without `"Answer"` contributes no row |
| `Doh.DohRowsShape` | dns_test.py:13-28 | the DoH rows are one single-column row per answer, the IPv4 document's first; a document without `"Answer"` leaves the other document's rows alone |
| `Doh.DohExample` | dns_test.py:13-28 | IPv4 document `{"Answer":[{"data":"1.1.1.1"}]}` and IPv6 document `{"Answer":[{"data":"::1"}]}` give the rows `1.1.1.1`, `::1` |
| `LineList.Stripped` | dns_test.py:39-44 | one cell per line, in order, each the stripped line; nothing is filtered out |
| `LineList.LineListRows` | dns_test.py:39-44 | the line-list table body: the single-column body of the first file's stripped lines followed by the second file's, one one-column row per line (lines 57-62 for DNS) |
| `LineList.AddStrippedRows` | dns_test.py:39-41 | one loop of `add_row` calls keeps the headers and earlier rows and appends one row per line, holding the stripped line, in order |
| `LineList.LineListTable` | dns_test.py:38-44 | the "Address" table has `\|lines\| + \|lines6\|` single-column rows: every stripped line of the first file in order, then of the second; the same code is lines 56-62 for DNS |
| `LineList.LineListRowsShape` | dns_test.py:38-44 | the line-list rows are one single-column row per line, the first file's first, row `i` holding line `i` stripped |
| `LineList.LineListCellsStripped` | dns_test.py:39-44 | every cell of a line-list table is one column, already stripped, with no surrounding whitespace |
| `LineList.BlankLineKept` | dns_test.py:39-44 | a blank or whitespace-only line of either file still gives a row, holding `""`, at its place in the concatenation of the two files |
| `LineList.LineListExample` | dns_test.py:33-44 | files `"8.8.8.8\n8.8.4.4\n"` and `"2001:4860::1\n"` give the rows `8.8.8.8`, `8.8.4.4`, `2001:4860::1` |
| `Ping.Insert` | dns_test.py:71-74 | `list.insert(i, x)` lengthens the list by one: the entries before position `min(i, len)` are kept, `x` comes next, then the rest |
| `Ping.Padded` | dns_test.py:70-74 | four results become eight, the four results then four `"time=N/A"`; any other list is left as it is |
| `Ping.PadResults` | dns_test.py:70-74 | the four inserts at indices 4 to 7 turn a 4-entry list into 8 entries: the first 4 unchanged, then four `"time=N/A"` (the same as appending them); any other list is unchanged |
| `Ping.FirstOutOfRange` | dns_test.py:77-80 | the position of the first read, in evaluation order, whose index is out of range: every earlier read is in range |
| `Ping.ReadsInRange` | dns_test.py:77-80 | all eight reads are in range if and only if the padded list has at least 8 entries |
| `Ping.PingTable` | dns_test.py:70-80 | the table is built if and only if the input has exactly 4 or at least 8 entries; it is then the IPv4/IPv6 table of the padded list's paired rows, and otherwise the run fails with `IndexError` at the first out-of-range read |
| `Ping.FailingIndex` | dns_test.py:77-80 | the failing read is `results[0]` for an empty list, `results[4]` for 1 to 3 entries, and `results[n]` for `n` = 5 to 7 entries |
| `Ping.PingRows` | dns_test.py:77-80 | exactly 4 two-column rows; row `i` is the cleaned entry `i` and the cleaned entry `i + 4` |
| `Ping.PingRowsIgnoreTail` | dns_test.py:77-80 | entries after index 7 do not affect the table |
| `Ping.IPv4OnlyRows` | dns_test.py:70-80 | with 4 results, row `i` is the cleaned result `i` and `"N/A"` |
| `Ping.PingExample` | dns_test.py:68-80 | `["time=10ms","time=12ms","time=11ms","time=13ms"]` gives the rows (`10ms`, `N/A`), (`12ms`, `N/A`), (`11ms`, `N/A`), (`13ms`, `N/A`) |
| `Script.Run` | dns_test.py:13-83 | the reports are DOH, DOT, DNS and Ping, in that order, each the table its reporter builds; a ping list that is too short ends the run after the first three reports with `IndexError(i)`, `i` being the first index of the read order that is out of range |

## Left out

- File reading (`open`, `read`, `readlines`, lines 5-8, 33-36, 51-54, 68): this is I/O. The model takes the file contents as already read. Lines arrive as `readlines()` returns them, each ending in `"\n"` except perhaps the last.
- `json.loads` and `json.load` (lines 11-12, 69): these are library parsing calls. The model takes their results as decoded values. Answers are maps to strings and ping results are strings; both are typing assumptions.
- The `KeyError` for a ping document without `"results"` (line 70), and crashes on missing files or malformed JSON: these are faults inside library and I/O calls.
- PrettyTable's bordered rendering and every `print` (lines 1, 15-16, 29-31, 46-48, 64-66, 81-83): a report is modelled as its title and its table (headers and rows) only.
- The unused `subprocess` import (line 3): it does nothing.
- `Text.Replace`: modelled only for a non-empty pattern (Python's special case for an empty pattern is not modelled), and without `replace`'s count argument. The script uses neither.
- `Ping.Insert`: modelled only for non-negative indices (Python's negative-index insert is not modelled). The script inserts only at 4 to 7.

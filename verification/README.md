# FinScope extraction pipeline in Dafny

This project models the extraction code of FinScope, a small pipeline
for annual 10-K filings. It has three parts.

- **Document flattener** (`sec_filings_cleaner.py`). `extract_text_with_tables`
  walks a parsed HTML document in pre-order. It keeps the non-empty text of
  every `p` element. For every `table` element it builds one table: one row
  per `tr` descendant, holding the non-empty trimmed texts of that row's
  `td`/`th` descendants. `save_cleaned_data` writes this artifact as text.
  Modules `Flattener` and `Artifact`.
- **Windowed pattern search** (`extract_relevant_data` in
  `sec_filing_analysis.py`). It finds the first line of a cleaned artifact
  that matches a pattern and joins the slice
  `lines[max(i - before, 0) : i + after]`. When nothing matches it returns the
  sentinel `"Relevant data segment not found."`. Module `WindowSearch`.
- **Folder and company heuristics** (`sec_filing_analysis.py`):
  - the ticker/display-name table `company_names` and its inverse (module
    `Companies`);
  - the accession-folder regular expression `-([0-9]{2})-[0-9]+$`;
  - the `'30'` century cutoff, and the deduplicated newest-first year list;
  - the `-YY-` directory test of `get_cleaned_data_path`.

  The last three are in module `FilingYears`.

`Strings` models the Python `str` operations these parts rely on: `join`,
one-character `split`, `in`, `<` and counting. `Wrappers` holds `Option`.

Modelling choices:

- A file is the sequence of its lines with their terminators kept, as
  `readlines` returns them.
- The compiled regular expression of the search is a predicate
  `matches: string -> bool`.
- Python slicing is modelled in full (`WindowSearch.PySlice`), including
  negative bounds and out-of-range ends. So the search needs no precondition.
- Python's `$` also matches before one final newline. `FilingYears.Anchored`
  models this.
- The markup tree is `Flattener.Node`. The library's two text extractions
  are parameters: `paraText` for `get_text(strip=True)` and `cellText` for
  `.text.strip()`.
- A Python dict is the sequence of its pairs in insertion order. A later
  pair for the same key wins, as in the dict comprehension that builds the
  inverse table.
- The file system is given as data: the listing of a company's `10-K`
  directory (`FilingYears.Folder`), the steps of `os.walk`
  (`FilingYears.WalkEntry`), and the base-directory listing
  (`Companies.DirEntry`).
- The source has no reader for the artifact. `Artifact.Parse` is this
  model's reader, written to state the round trip. It reads the paragraphs
  up to the first `"\n\nTables:\n"`. It then splits the rest into lines,
  splits those into tables at empty lines, and splits each row at tabs.

Points where the code does something other than its own comments or a
first reading suggest, which the model follows:

- **Search window.** The docstring of `extract_relevant_data`
  (`sec_filing_analysis.py:88`) says `lines_after` counts lines after the
  matched line. But the code's slice is end-exclusive at `i + lines_after`.
  So the matched line is one of the `lines_after` lines, and
  `lines_after = 0` leaves it out.
- **One line of context.** With lines `["Americas\t$10", "Europe\t$5"]`, a
  match on the first line and one line of context on each side, the code
  gives only the first line, not both (`WindowSearch.AmericasExample`).
- **Table rows.** `find_all` collects all descendants, not only children.
  So the rows of a nested table also count as rows of the outer table, and
  the nested table also produces a table of its own.

## Model

| member | source | states |
|---|---|---|
| WindowSearch.Search | sec_filing_analysis.py:99-107 | The result is the sentinel exactly when no line matches. Otherwise the text is the joined Python slice from `max(i - before, 0)` to `i + after`, where `i` is the first matching index. |
| WindowSearch.ExtractRelevantData | sec_filing_analysis.py:99-107 | The loop returns exactly the rendered result of the search (the joined window, or the sentinel string). |
| WindowSearch.FirstMatchFrom | sec_filing_analysis.py:99-100 | The scan returns the least matching index at or after its start, and no match when no line from there on matches. |
| WindowSearch.PySlice | sec_filing_analysis.py:105 | Python slicing never fails. It is the plain subsequence for in-range bounds, an upper bound past the end is cut to the length, and an empty or inverted range gives nothing. |
| WindowSearch.FoundWindow | sec_filing_analysis.py:102-105 | With non-negative context sizes and first match `i`, the result is exactly lines `max(i-before,0)` up to `min(i+after,N)`, end excluded. |
| WindowSearch.WindowClippedAtTop | sec_filing_analysis.py:102 | A match within `before` lines of the top gives a window that starts at line 0, so no negative index is used. |
| WindowSearch.WindowShape | sec_filing_analysis.py:102-105 | The window holds at most `before + after` lines. With `after = 0` the matched line is left out. With `after >= 1` the matched line is in it at its own position. |
| WindowSearch.NotFoundIsSentinel | sec_filing_analysis.py:107 | When no line matches, the caller receives exactly `"Relevant data segment not found."`. |
| WindowSearch.AmericasExample | sec_filing_analysis.py:99-105 | Two lines with a match on line 0 and one line of context each side give only the matched line. |
| Companies.Get | sec_filing_analysis.py:25 | `d.get(key, default)` gives the default for an absent key, and otherwise the value of a pair holding that key. |
| Companies.GetCompanies | sec_filing_analysis.py:25 | The shown companies are exactly the display names of the listed entries that are directories. |
| Companies.GetCompaniesAppend | sec_filing_analysis.py:25 | The names follow the listing: the list for a listing split in two is the list for each part, in order. |
| Companies.GetCompaniesOne | sec_filing_analysis.py:25 | One entry gives its display name when it is a directory and nothing otherwise. |
| Companies.GetCompaniesKeepsDuplicates | sec_filing_analysis.py:25 | Duplicates are kept: directories `AAPL` and `Apple` are both shown as `Apple`. |
| Companies.Inverse | sec_filing_analysis.py:38 | The inverse table swaps every pair in place. Its keys are exactly the values of the table, and its values exactly the keys. |
| Companies.DisplayName | sec_filing_analysis.py:25 | A directory that is not a ticker is shown under its own name. A ticker is shown under the display name paired with it in `company_names`. |
| Companies.DirName | sec_filing_analysis.py:67 | A name that is not a display name is searched under its own name. A display name is searched under the ticker paired with it in `company_names`. |
| Companies.InverseUndoes | sec_filing_analysis.py:38 | For a table with no repeated keys or values, looking up a key's value in the inverse table gives the key back. |
| Companies.AbsentNameMapsToItself | sec_filing_analysis.py:67 | A name that is not a display name maps to itself as the directory name. |
| Companies.TickerRoundTrip | sec_filing_analysis.py:14 | For each of AAPL, MSFT and V, the directory of its display name is the ticker itself. |
| Companies.ListedDirectoryRoundTrip | sec_filing_analysis.py:25 | A listed directory is found again from its shown name exactly when it is a ticker or is not itself a display name. |
| FilingYears.TickerCompanyDir | sec_filing_analysis.py:69 | A ticker's display name resolves to `<base>/<ticker>/10-K`. |
| FilingYears.PathJoin | sec_filing_analysis.py:76 | The joined path is at least as long as its last component and at most one separator longer than both parts. Joining onto an empty path gives the component unchanged. |
| FilingYears.PathJoinEndsWith | sec_filing_analysis.py:76 | `os.path.join(a, b)` always ends with `b`, whether `b` is absolute, `a` is empty, or `a` already ends with a separator. |
| FilingYears.ParseYY | sec_filing_analysis.py:47-48 | A captured group is always exactly two ASCII digits. |
| FilingYears.CenturyYear | sec_filing_analysis.py:49 | The year is `"20"` or `"19"` followed by the group. For two digits, the prefix is `"20"` exactly when the first digit is below 3, so Python's string comparison with `'30'` acts as a numeric cutoff. |
| FilingYears.FolderYear | sec_filing_analysis.py:47-49 | A folder yields a year exactly when the expression matches. The year has four characters and ends with the captured group. |
| FilingYears.ParseYYIsRegex | sec_filing_analysis.py:47-48 | A folder yields a two-digit group exactly when the regular expression matches, with `$` allowing one final newline. The group is the two digits after the match's first dash. |
| FilingYears.FolderYearRange | sec_filing_analysis.py:49 | A folder's year is four digits, lies in 1930..2029, and its last two characters are the captured group. |
| FilingYears.FolderContainsNeedle | sec_filing_analysis.py:71-75 | `'-' + year[-2:] + '-'` is a substring of the folder name the year came from. |
| FilingYears.YearNeedle | sec_filing_analysis.py:71-75 | For a year that came from a folder name, the needle is the regular expression's captured group between two dashes, so the lookup searches for the same `-YY-` the listing matched. |
| FilingYears.CollectYears | sec_filing_analysis.py:44-50 | The appended years are exactly the years of the listed folders that hold `cleaned_data.txt` and match the expression. |
| FilingYears.InsertDescending | sec_filing_analysis.py:52 | Inserting into a strictly descending list keeps it strictly descending, and adds exactly the new element. |
| FilingYears.SortedUniqueDescending | sec_filing_analysis.py:52 | `sorted(set(xs), reverse=True)` is strictly descending and has the same elements as `xs`. |
| FilingYears.YearsForCompany | sec_filing_analysis.py:42-53 | A missing directory gives no years. Otherwise the result is strictly descending, and a year is in it exactly when some folder with cleaned data yields it. |
| FilingYears.DescendingHasNoDuplicates | sec_filing_analysis.py:52 | A strictly descending year list has no repeats. |
| FilingYears.DescendingIsUnique | sec_filing_analysis.py:52 | Two strictly descending lists with the same elements are equal, so the year list is determined by its set of years. |
| FilingYears.CleanedDataPath | sec_filing_analysis.py:73-78 | The result is `None` exactly when no walked directory both has the file and contains the needle. Otherwise it is the file's path in the first such directory. |
| FilingYears.ListedYearIsFound | sec_filing_analysis.py:71-76 | A year is found again from the folder it came from: if some walk step has that folder's path, under any parent directory, as its root and lists `cleaned_data.txt` among its files, the path lookup for that year succeeds. The step's other files and their order do not matter. |
| FilingYears.ListedYearsAreFound | sec_filing_analysis.py:44-76 | Every year in the list for a company is found again by the path lookup, when the walk visits each listed folder that holds the cleaned file and sees the file there. |
| Artifact.Save | sec_filings_cleaner.py:42-49 | The written text starts with the `Text Content:` header and always ends with a newline. `Artifact.RoundTrip` is its partner. |
| Artifact.TablesTextIsLines | sec_filings_cleaner.py:46-49 | The tables section is each table's row lines followed by an empty line, every line newline-terminated. |
| Artifact.TableNewlineCount | sec_filings_cleaner.py:47-49 | With newline-free cells, one table writes one newline per row plus one. |
| Artifact.TablesNewlineCount | sec_filings_cleaner.py:46-49 | With newline-free cells, the tables section holds (total rows + number of tables) newlines. |
| Artifact.HeaderFoundAfterText | sec_filings_cleaner.py:44-45 | When the joined paragraphs have no blank line, the first `"\n\nTables:\n"` starts right after them. |
| Artifact.ParseTableLines | sec_filings_cleaner.py:46-49 | The table lines read back as the tables when every row is a non-empty line of tab-free cells. |
| Artifact.RoundTrip | sec_filings_cleaner.py:43-49 | Reading back a saved artifact gives the same paragraphs and tables, when paragraphs are non-empty single lines and rows are non-empty lines of tab- and newline-free cells. |
| Artifact.EmptyRowSplitsTable | sec_filings_cleaner.py:47-49 | A row with no cells is saved as an empty line, so reading it back splits its table in two. |
| Flattener.Walk | sec_filings_cleaner.py:18 | Every node of the forest is walked, the first node first, and the walk is never shorter than the forest. `Flattener.WalkCount` states that each node is walked exactly once. |
| Flattener.FindAll | sec_filings_cleaner.py:25-27 | The result holds exactly the descendants of the element, at any depth, that carry one of the tag names. `Flattener.NamedAppend` fixes their order and multiplicity. |
| Flattener.NamedAppend | sec_filings_cleaner.py:25-27 | Selecting by tag distributes over concatenation, so `find_all` returns each matching descendant once, in document order. |
| Flattener.RowOf | sec_filings_cleaner.py:27-29 | A row holds exactly the non-empty texts of the `td`/`th` elements below the `tr` element. |
| Flattener.TableOf | sec_filings_cleaner.py:24-29 | A table has one row per `tr` element at any depth below it, nested tables' rows included. The row at each position is the row of the `tr` at that position in document order. |
| Flattener.ExtractTable | sec_filings_cleaner.py:24-29 | The inner loop builds, for each `tr` found below the `table` element, that row's non-empty cell texts, in order. |
| Flattener.ExtractTextWithTables | sec_filings_cleaner.py:14-31 | The loop over the pre-order walk builds exactly the list of non-empty `p` texts and the list of one table per `table` node, in walk order. |
| Flattener.WalkCount | sec_filings_cleaner.py:18 | The walk visits every node of the tree once: counting walked nodes equals counting the tree recursively. |
| Flattener.ParagraphCount | sec_filings_cleaner.py:18-21 | The text list has one entry per `p` element with non-empty text, at any depth, and each entry is non-empty. |
| Flattener.TableCount | sec_filings_cleaner.py:22-30 | There is one table per `table` element at any depth, nested ones included. |
| Flattener.RowCount | sec_filings_cleaner.py:25-29 | A table has one row per `tr` element anywhere below it. |
| Flattener.EmptyRow | sec_filings_cleaner.py:27-29 | A row is empty exactly when all its `td`/`th` cells have empty text. The empty row still stays in the table. |
| Flattener.NonEmpty | sec_filings_cleaner.py:29 | The filtered cells are all non-empty, and are exactly the non-empty ones of the input. |
| Flattener.NonEmptyAppend | sec_filings_cleaner.py:29 | Dropping empty cells distributes over concatenation, so the kept cells stay in source order. |
| Flattener.TablesCellsNonEmpty | sec_filings_cleaner.py:27-29 | No emitted table has an empty cell. |
| Flattener.FlattenedRoundTrip | sec_filings_cleaner.py:18-49 | If no `p` text holds a newline, no `td`/`th` text holds a tab or newline, and every `tr` has a non-empty cell, the flattened document saves and reads back unchanged. The texts of other elements, such as a whole table spanning lines, are not constrained. |

## Left out

- `sec_10k_downloader.py`: a loop over a third-party downloader with no logic of its own.
- File and directory I/O is given as data, not modelled: `open`, `readlines`, `os.listdir`, `os.path.isdir`, `os.path.exists`, `os.walk`, `clean_html` and `process_directory`. Write and read failures and UTF-8 decoding errors are left out with them.
- The `NotADirectoryError` from `os.listdir` on a `10-K` entry that is a file is left out. A `Folder` is always a directory with its entries.
- HTML parsing and the text extraction rules of the markup library are left out. `get_text(strip=True)` and `.text.strip()` are uninterpreted parameters.
- Compiling and running the user's regular expression in `extract_relevant_data` is left out, including `re.error` for a malformed pattern. It is a predicate parameter.
- The Streamlit widgets, the per-analysis-type patterns and prompt templates, `range_years`, and the completion API request are left out. They are UI wiring and network I/O.
- The years are sorted in Python's string order, not numerically. For the four-digit years produced here the two orders agree, but no lemma states that.
- `get_cleaned_data_path` takes the walk of the company's directory as a parameter. The model does not tie that walk to `CompanyDir(company)`.

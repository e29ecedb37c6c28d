# darshan-summarizer parser, modelled in Dafny

This project models `darshan_summarizer/parser.py`. That module turns the text dump that `darshan-parser` prints for a Darshan
I/O profiling log into files an analyst can load:

- a `header.txt` with the run metadata;
- per instrumentation module (POSIX, MPI-IO, STDIO, ...), a `<module>.csv` with one row per record and one column per
  counter;
- per module, a `<module>_description.txt` with the comment text that describes the counters.

It also models `list_darshan_modules`, which reads the module names back from a directory.

The project has six modules:

- `PyStr` (`pystr.dfy`): the Python string operations the parser relies on, with Python's semantics:
  - `str.splitlines`, with all of its line boundaries;
  - `str.split()` on runs of whitespace;
  - blank-after-`strip()`;
  - the `in` test for substrings, `startswith` and `endswith`;
  - `str.replace`, `'\n'.join`;
  - `re.findall(r'<(.*?)>')`, which is lazy and does not cross a newline.
- `Header` (`header.dfy`): `extract_header`. `ExtractHeader` is the loop; `HeaderText` is what it computes.
- `Scanner` (`scanner.dfy`): `SKIP_LINES` and the line scanner `extract_modules`.
  - `Step` is the state change for one line, with the rules in the source's order. `Scan` folds it over the lines.
  - The class `ModuleScanner` holds the Python loop variables as fields. Its `Feed` is proved to perform `Step`.
  - `ExtractModules` loops over the lines and is proved to return `Scan(...).modules`.
- `Reshape` (`reshape.dfy`): the long-to-wide pivot
  `pivot_table(index=<all columns but counter and value>, columns='counter', values='value', aggfunc='first')`, as pure
  functions over the rows.
- `Output` (`output.dfy`): `parse_darshan_to_csv` and `list_darshan_modules`.
  - The output directory is a map from file name to content, and the directory listing is a parameter.
  - A `.csv` file's content is the wide table it serialises.
- `Wrappers` (`wrappers.dfy`): `Option`.

Where the prose description of the program and the code differ, the model follows the code:

- A module name that reappears in a later block replaces the earlier entry; the two are not merged.
- The warning lines of `SKIP_LINES` are not filtered out of the header.
- A warning line or a "module data" line is dropped even inside a data block.
- Inside a block, a line starting with `#` is a data row, not a description line.
- A `#<module>` line does not reset the current module name. A second `#<module>` line with no blank line before it
  therefore keeps appending rows to the same module.
- Comment lines are collected from the first line of the log on, the header's included. A module whose block has no
  "module data" banner before it therefore gets the header's comment lines in its description.

## Model

| member | source | states |
|---|---|---|
| PyStr.StartsWith | darshan_summarizer/parser.py:113 | the definition `StartsWithAppend` is about: `line.startswith(p)`, the first characters of the line are `p` |
| PyStr.StartsWithAppend | darshan_summarizer/parser.py:113 | `startswith(p)` holds exactly when the line is `p` followed by some string |
| PyStr.EndsWith | darshan_summarizer/parser.py:215 | the definition `EndsWithAppend` is about: `file.endswith(q)`, the last characters of the name are `q` |
| PyStr.EndsWithAppend | darshan_summarizer/parser.py:215 | `endswith(q)` holds exactly when the name is some string followed by `q` |
| PyStr.Contains | darshan_summarizer/parser.py:82 | the definition `ContainsAt` is about: Python's `p in s`, a match at the start or further on |
| PyStr.ContainsAt | darshan_summarizer/parser.py:82 | the `in` test for substrings holds exactly when the pattern occurs at some position |
| PyStr.SplitLines | darshan_summarizer/parser.py:81 | `splitlines` yields lines free of every line-boundary character, and no lines exactly for the empty string |
| PyStr.Split | darshan_summarizer/parser.py:129 | `split()` yields non-empty tokens without whitespace, and no tokens exactly when the line is all whitespace |
| PyStr.IsBlank | darshan_summarizer/parser.py:125 | `not line.strip()`: every character is Python whitespace (the empty line included) |
| PyStr.SplitKeepsNonSpace | darshan_summarizer/parser.py:129 | the tokens of `split()`, concatenated, are the line with all whitespace removed: nothing but whitespace is lost |
| PyStr.Join | darshan_summarizer/parser.py:135 | `'\n'.join(current_description)`: the parts in order with the separator between neighbours |
| PyStr.FindBracketed | darshan_summarizer/parser.py:114 | no group found by the lazy `<(.*?)>` holds a `>` or a newline |
| PyStr.BracketedNext | darshan_summarizer/parser.py:114 | `<g>` after a prefix without `<` is found as group `g`, and the search resumes after its `>` |
| PyStr.Replace | darshan_summarizer/parser.py:116 | the definition `ReplaceRemovesChar`, `ReplaceAbsent` and `StripCsv` are about: `str.replace`, every non-overlapping occurrence from the left replaced |
| PyStr.ReplaceRemovesChar | darshan_summarizer/parser.py:116 | replacing a character by text that lacks it leaves no occurrence of that character |
| PyStr.ReplaceAbsent | darshan_summarizer/parser.py:216 | `replace` leaves a string that does not contain the pattern unchanged |
| Header.HeaderLength | darshan_summarizer/parser.py:81-83 | the header ends at the first line containing "log file regions": no earlier line contains it |
| Header.HeaderText | darshan_summarizer/parser.py:80-85 | the definition the header lemmas are about: the lines of `splitlines` before the first one holding "log file regions", each followed by "\n" |
| Header.ExtractHeader | darshan_summarizer/parser.py:80-85 | the loop returns the lines before the first sentinel line, each followed by "\n" |
| Header.HeaderLacksSentinel | darshan_summarizer/parser.py:80-85 | the header text never contains "log file regions", not even across a line boundary |
| Header.HeaderRoundTrip | darshan_summarizer/parser.py:80-85 | splitting the header text into lines gives back exactly the lines before the sentinel line |
| Header.HeaderWithoutSentinel | darshan_summarizer/parser.py:80-85 | when the log does not contain the sentinel, every line of the log is kept |
| Scanner.ColumnNames | darshan_summarizer/parser.py:114-116 | one name per `<...>` group, and no name contains a space |
| Scanner.ColumnNamesRoundTrip | darshan_summarizer/parser.py:113-116 | a `#<module>...` line printed from a list of names is recognised, and its names are read back in order with spaces turned into `_` |
| Scanner.SkipLines | darshan_summarizer/parser.py:16-24 | the seven warning lines, verbatim, that `Step` drops wherever they occur |
| Scanner.Step | darshan_summarizer/parser.py:103-137 | the rules for one line, in order (spelled out after this table); other modules' entries never change and no entry is ever removed |
| Scanner.ModuleScanner.Feed | darshan_summarizer/parser.py:103-137 | one loop iteration on the object's fields (which creates the entry, then appends) produces exactly the state `Step` specifies |
| Scanner.Scan | darshan_summarizer/parser.py:98-137 | the definition the scanner lemmas are about: `Step` applied line by line from the empty state; the current module always has an entry |
| Scanner.ExtractModules | darshan_summarizer/parser.py:88-139 | the loop returns the module map of `Scan` over all lines |
| Scanner.ExtractedModules | darshan_summarizer/parser.py:88-139 | the dictionary `extract_modules` returns: the modules of `Scan` over the `splitlines` of the log |
| Scanner.ScanInv | darshan_summarizer/parser.py:113-137 | for every input, each module has at least one row, no row is empty, the first row's first token is the module's name, and no column name holds a space |
| Scanner.ExtractedModulesWellFormed | darshan_summarizer/parser.py:88-139 | every module `extract_modules` returns has that shape |
| Scanner.ScanFromLines | darshan_summarizer/parser.py:104-137 | every row is the tokens of an input line that is neither in `SKIP_LINES` nor contains "module data"; every description is such comment lines joined by "\n" |
| Reshape.IndexColumnsExact | darshan_summarizer/parser.py:181 | the index columns are exactly the columns other than `counter` and `value` |
| Reshape.IndexColumnsInOrder | darshan_summarizer/parser.py:181 | the index columns keep their original relative order |
| Reshape.IndexColumns | darshan_summarizer/parser.py:181 | the definition `IndexColumnsExact` and `IndexColumnsInOrder` are about: the columns other than `counter` and `value`, in order |
| Reshape.KeyAgreement | darshan_summarizer/parser.py:182-184 | two rows share an index tuple exactly when they agree in every index column |
| Reshape.Distinct | darshan_summarizer/parser.py:182-187 | duplicates are removed and nothing else: same elements, each once |
| Reshape.Cells | darshan_summarizer/parser.py:186 | the definition `CellsDomain` and `CellsFirstObserved` are about: counter to value for one index tuple, the earliest observation winning |
| Reshape.CellsDomain | darshan_summarizer/parser.py:182-187 | a wide row has a cell for a counter exactly when some observation with its index tuple records that counter |
| Reshape.CellsFirstObserved | darshan_summarizer/parser.py:186 | `aggfunc='first'`: the cell holds the value of the first matching observation |
| Reshape.GroupKeys | darshan_summarizer/parser.py:183 | the distinct index tuples, each once, covering every observation (`GroupKeysFrom` gives the converse) |
| Reshape.GroupKeysFrom | darshan_summarizer/parser.py:183 | every grouped index tuple comes from some observation |
| Reshape.GroupCounters | darshan_summarizer/parser.py:184 | the distinct counters, each once, covering every observation (`GroupCountersFrom` gives the converse) |
| Reshape.GroupCountersFrom | darshan_summarizer/parser.py:184 | every grouped counter comes from some observation |
| Reshape.PivotKeysUnique | darshan_summarizer/parser.py:182-187 | no two wide rows share an index tuple |
| Reshape.PivotKeysCover | darshan_summarizer/parser.py:182-187 | every long row's index tuple has a wide row |
| Reshape.PivotKeysFrom | darshan_summarizer/parser.py:182-187 | every wide row's index tuple is that of some long row |
| Reshape.PivotCounters | darshan_summarizer/parser.py:181-187 | the index columns are those of line 181; the counter columns are exactly the distinct `counter` values, each once |
| Reshape.PivotCell | darshan_summarizer/parser.py:182-187 | each cell is present exactly when a long row with that index tuple and counter exists, lies in a counter column, and holds the first such row's value |
| Reshape.Pivot | darshan_summarizer/parser.py:182-187 | the definition the `Pivot*` lemmas are about: the long rows grouped by index tuple, one column per distinct counter, first value per cell |
| Output.CsvName | darshan_summarizer/parser.py:190 | the definition `ArtifactNamesDistinct` and `ArtifactNameParts` are about: `f"{module_name}.csv"` |
| Output.DescriptionName | darshan_summarizer/parser.py:191 | the definition `ArtifactNamesDistinct` and `ArtifactNameParts` are about: `f"{module_name}_description.txt"` |
| Output.ArtifactNameParts | darshan_summarizer/parser.py:190-191 | `<m>.csv` ends in `.csv` and not in `_description.txt`, `<m>_description.txt` the reverse, `header.txt` in neither, and removing the suffix gives back `m` |
| Output.ArtifactNamesDistinct | darshan_summarizer/parser.py:164-191 | `header.txt`, `<m>.csv` and `<m>_description.txt` never coincide, for any module names |
| Output.Written | darshan_summarizer/parser.py:163-195 | the definition the writer contracts are about: `header.txt` and each module's `.csv` table and `_description.txt` text in the output, replacing files of those names, every other file unchanged |
| Output.WriteFiles | darshan_summarizer/parser.py:190-195 | the two writes of one iteration: `<m>.csv` gets the table and `<m>_description.txt` the description, replacing files of those names |
| Output.ParseDarshanToCsv | darshan_summarizer/parser.py:152-195 | empty content gives the `ValueError` and an untouched directory; otherwise the result is `header.txt`, each module's pivoted table and description written over the old directory, and every other file unchanged |
| Output.WriteArtifacts | darshan_summarizer/parser.py:163-195 | the header write and the loop over the modules leave exactly the `Written` directory, whatever the iteration order |
| Output.WriteModule | darshan_summarizer/parser.py:170-195 | one iteration pivots a module and writes its two files, replacing files of those names |
| Output.WriteModuleKeeps | darshan_summarizer/parser.py:190-195 | writing one more module's files keeps every file written for earlier modules and every unrelated file |
| Output.WrittenUnique | darshan_summarizer/parser.py:170-195 | one directory at most satisfies the write contract, so the order the modules are written in does not matter |
| Output.WriteIdempotent | darshan_summarizer/parser.py:164-195 | writing the same artifacts into the output again changes nothing |
| Output.ListDarshanModules | darshan_summarizer/parser.py:213-218 | the loop returns, in listing order, each `.csv` entry with `.csv` removed |
| Output.ListedModules | darshan_summarizer/parser.py:213-218 | the definition `ListDarshanModules` is proved against: each `.csv` entry of the listing, in order, with every `.csv` removed |
| Output.ListedModulesExact | darshan_summarizer/parser.py:214-217 | a name is listed exactly when some `.csv` entry, with every `.csv` removed, equals it |
| Output.StripCsv | darshan_summarizer/parser.py:216 | removing `.csv` from `<m>.csv` gives back `m` when `m` does not contain `.csv` |
| Output.ListAfterWrite | darshan_summarizer/parser.py:190-217 | after the writer, the listing gives exactly the written module names, provided every `.csv` file the directory held before was one of theirs (a re-run included) and no name contains `.csv` |

`Scanner.Step` applies these rules to each line, in order:

- a `SKIP_LINES` line changes nothing;
- a "module data" line only empties the description buffer;
- a `#<module>` line sets the column names and turns on block mode;
- a comment outside a block is added to the description;
- a blank line inside a block ends it and clears the module name;
- a data row adds exactly one non-empty row, its tokens, to the block's module, and changes nothing else;
- the first row of a block creates the module's entry, replacing any earlier one, with the current columns and the
  description joined by "\n".

## Left out

- `parse_darshan_log` (darshan_summarizer/parser.py:27-65) runs `darshan-parser` in a shell and reads and deletes a
  temporary file. It is I/O throughout; its `.darshan` extension check is not modelled either.
- pandas:
  - `pd.DataFrame(...)` and `to_csv` are foreign library calls.
  - A `.csv` artifact holds the `WideTable` that `to_csv` would serialise, not its text.
  - `WideTable.indexColumns` records the index columns that `reset_index` turns back into ordinary columns.
- Output.ParseDarshanToCsv requires every module to be `Tabular`: every row as wide as the header, distinct column names,
  and a `counter` and a `value` column. This does not model:
  - pandas' errors otherwise;
  - its padding of short rows with NaN;
  - its behaviour for an empty index list.
- Output.ParseDarshanToCsv writes a table where pandas raises. `reset_index` inserts each index column beside the
  counter columns and raises `ValueError` when a counter value equals an index column name, such as a row
  `POSIX 0 17 rank 4` under `#<module> <rank> <record id> <counter> <value>`. Python then stops with `header.txt` and
  the earlier modules' files written; the model writes every module, because `Tabular` does not exclude such a row.
- Reshape.Pivot does not model the row and column order. pandas sorts the rows by index tuple and the counter columns by
  name; the model keeps first-seen order, and no stated property depends on it. NaN cells are absent map entries.
- Output.ParseDarshanToCsv does not model the directory as a path tree:
  - `os.makedirs(output_dir, exist_ok=True)` is not modelled;
  - the output directory is one flat map, and every write succeeds;
  - `os.path.join` discards `output_dir` for a module name that starts with `/`, so Python writes that module's files
    outside the directory; the model keeps them in the map;
  - for a module name such as `a/b`, Python's `open` fails with `FileNotFoundError` when `output_dir/a` does not exist;
    the model has no such error path.
- Output.ListDarshanModules: the result of `os.listdir` is the `listing` parameter, in whatever order the operating
  system gives it.
- The `tqdm` wrapper and every `print` call are output-only and are left out.
- `darshan_summarizer/agent.py`, `prompts.py`, `main.py`, `jupyter_kernel.py`, `code_execution_server.py`,
  `__init__.py` and `setup.py` are not part of this model. They are LLM orchestration, prompt text, CLI dispatch,
  Jupyter and MCP server glue, and packaging.

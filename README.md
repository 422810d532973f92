# ExcelMerger join engine in Dafny

ExcelMerger joins uploaded CSV and spreadsheet files on a join-key column.
This project models two parts of it:

- **`FileMerger`** (merge_files.php):
  - Every lookup file gets an index. Each join value is cut into 2-character chunks, and the chunks are the path of a nested PHP array (`setNestedValue`).
  - The array is flushed to an index file every `chunkSize` rows (`writeIndexChunk`).
  - The index file is repaired, decoded once and cached (`getDataFromIndex`).
  - The rows of the main file are then merged with what each index finds under their own join value. The CSV path and the spreadsheet path assemble rows differently (`mergeCsvFiles`, `mergeExcelFiles`).
- **The header-selection page** (select_headers.php):
  - It drops uploads whose `name|path` key was seen before.
  - It numbers the form fields of the survivors 0, 1, 2, … Field 0 is the main file of the merge.

Modules, in dependency order:

| file | module | contents |
|---|---|---|
| outcome.dfy | `Outcome` | `Option`, `Result`, the exceptions and fatal errors of the merger |
| php_values.dfy | `PhpValues` | PHP arrays as ordered maps with string keys (`V`, `Assign`, `ArrayMerge`, `Find`) |
| php_strings.dfy | `PhpStrings` | `str_split($k, 2)`, `strtolower`, `trim`, `array_search`, duplicate-free lists, extensions |
| trie.dfy | `Trie` | `setNestedValue`, the lookup walk, batches filled row by row |
| index_file.dfy | `IndexFiles` | index files as written by `writeIndexChunk` and decoded by the loader |
| build.dfy | `Build` | the row loop of the index builders, and its windows of `chunkSize` rows |
| columns.dfy | `Columns` | join-key and column resolution, the stored records, `buildFinalHeader` |
| assemble.dfy | `Assemble` | row assembly of the CSV merge and the spreadsheet merge |
| merger.dfy | `Merger` | class `FileMerger`: artifacts on disk, the decode cache, the imperative loops |
| select_headers.dfy | `SelectHeaders` | the de-duplication loop and the positional form fields |

`FileMerger` is a class:

- Its fields are `tempDir`, `chunkSize`, `disk` (the index artifacts by name) and `cache` (the static `$cache` of `getDataFromIndex`).
- The loops that change the merger's state or drive a file are `method`s with `while` loops. Each is proved equal to a specification function:
  - the row loops of the builders (`RowLoop`, equal to `Build.Run`);
  - the CSV and spreadsheet row loops (`CsvRowLoop`, `SheetRowLoop`, equal to `CsvBody` and `SheetBody`);
  - the index loop of each row (`MergeRow`, equal to `MergeMatches`);
  - the walk of `getDataFromIndex` (equal to `Trie.Lookup`);
  - the CSV base-row and spreadsheet fill loops (`BaseRow`, `FillRow`);
  - the file loop of `processFiles` (`ProcessFiles`, equal to `BuildAll`);
  - the de-duplication loop of the page (`SelectHeaders.RemoveDuplicates`, equal to `Dedup`).
- The loops that only compute a value from their inputs are recursive functions:
  - the `setNestedValue` walk (`Trie.SetNestedValue`);
  - the column-index and record loops (`Columns.ColumnIndices`, `Columns.Record`);
  - the header reads (`Columns.SheetHeader`, `Assemble.RowData`);
  - the concatenation of the column lists (`PhpStrings.Flatten`);
  - `buildFinalHeader` (`Columns.AppendMissing`);
  - the form loop of the page (`SelectHeaders.Submit`, `SelectHeaders.Ticked`).
- The properties are proved about those functions.

Every method keeps `Valid()`: each cached index is what its artifact decodes to.

## Model

| member | source | states |
|---|---|---|
| PhpValues.AssignSpec | merge_files.php:503-509 | `$m[$k] = $v` makes k find v, leaves every other key's value alone, and appends k only when it is new (an existing key keeps its position) |
| PhpValues.AssignKeepsUnique | merge_files.php:503-509 | assignment never creates a duplicate key |
| PhpValues.ArrayMergeFind | merge_files.php:356 | after `array_merge(a, b)`, a key of b has b's value, and any other key keeps a's |
| PhpValues.ArrayMergeKeys | merge_files.php:356 | `array_merge` keeps a's keys in place as a prefix, adds only b's new keys, gives exactly the union of the keys, and keeps keys unique |
| PhpStrings.StrSplit2 | merge_files.php:158 | `str_split($k, 2)` on one-byte (ASCII) text: the chunks concatenate to k; there are ⌈\|k\|/2⌉ of them; all have 2 characters except an odd key's last, which has 1 (no padding) |
| PhpStrings.FirstChunkIsHead | merge_files.php:558-559 | the top-level key of a stored value is the first two characters of its join value |
| PhpStrings.SplitPrefix | merge_files.php:158 | build and lookup split keys alike: a chunk path that is a prefix of another comes from a key that is a prefix of the other |
| PhpStrings.SplitDiverges | merge_files.php:158 | keys of which neither is a prefix of the other give chunk paths of which neither is a prefix of the other |
| PhpStrings.Trim | merge_files.php:217 | `trim` leaves no whitespace at either end |
| PhpStrings.TrimSlice | merge_files.php:217 | `trim` removes whitespace only: its result is a slice of the cell, and every character outside the slice is whitespace |
| PhpStrings.TrimLeft | merge_files.php:217 | the result is a suffix starting at a non-whitespace character, and every dropped character is whitespace |
| PhpStrings.TrimRight | merge_files.php:217 | the result is a prefix ending at a non-whitespace character, and every dropped character is whitespace |
| PhpStrings.ArraySearch | merge_files.php:138 | `array_search`: no result exactly when the needle is absent; otherwise the position of its first occurrence |
| PhpStrings.Distinct | merge_files.php:149 | the distinct elements of a list: the same elements, no longer, a subsequence of the list (its order kept) |
| PhpStrings.DistinctFirstOrder | merge_files.php:149 | the distinct elements come in the order of their first occurrences: of two, the earlier one occurs first in the list |
| PhpStrings.DistinctNoDup | merge_files.php:149 | the first occurrences hold no duplicate |
| PhpStrings.Flatten | merge_files.php:324-328 | the concatenated column lists are as long as all lists together |
| PhpStrings.FlattenHas | merge_files.php:324-328 | every listed column is in the concatenation |
| PhpStrings.FlattenFrom | merge_files.php:324-328 | every column of the concatenation comes from one of the lists |
| PhpStrings.Extension | merge_files.php:107 | `pathinfo(..., PATHINFO_EXTENSION)`: the suffix of the path after its last `.`, which holds no `/`; `""` exactly when the last segment has no `.` |
| Trie.SetNestedValue | merge_files.php:498-510 | the insertion fails (PHP Error) exactly when its walk would index into a string; otherwise the root stays an array |
| Trie.LookupAfterSet | merge_files.php:498-510 | after inserting a record at a path, walking that path finds exactly that record |
| Trie.SetReplacesBelow | merge_files.php:498-510 | below the inserted path the new record replaces the old subtree wholesale (last write wins) |
| Trie.SetKeepsDivergent | merge_files.php:498-510 | lookups on paths that diverge from the inserted one are unchanged |
| Trie.SetAddsStringsBelow | merge_files.php:498-510 | an insertion adds strings only below its own path |
| Trie.LookupStopsAtMissingChunk | merge_files.php:534-540 | the walk gives null as soon as a chunk is absent |
| Trie.PrefixFindsBranch | merge_files.php:534-543 | a key whose chunks are a proper prefix of an inserted path finds the intermediate branch (holding the next chunk), not null |
| Trie.Store | merge_files.php:165 | storing a row fails exactly when its path runs into a string |
| Trie.ApartFromStrings | merge_files.php:158 | join values that are equal, or of which neither is a prefix of the other, have compatible chunk paths |
| Trie.FillSucceeds | merge_files.php:156-178 | with prefix-free join values, storing the rows one by one never raises the Error |
| Trie.StoreStringsBelow | merge_files.php:165 | one such store succeeds and leaves strings only below stored paths |
| Trie.FillFindsLast | merge_files.php:156-178 | with prefix-free join values, a lookup in the batch finds the last record stored under a join value |
| Trie.FillMisses | merge_files.php:534-540 | a join value whose path diverges from every stored one finds null |
| Trie.StoreTop | merge_files.php:498-507 | storing assigns the row's first chunk at the top level of the batch |
| Trie.FillUnique | merge_files.php:558-560 | a batch has each top-level key once: one line per first chunk |
| Trie.StoreKeys | merge_files.php:558-560 | a store adds exactly its row's first chunk to the top-level keys |
| Trie.FillFirstChunks | merge_files.php:558-560 | the top-level keys of a batch are exactly the first chunks of its rows |
| IndexFiles.WriteIndexChunk | merge_files.php:549-564 | the first chunk truncates the file and writes `{`; later chunks append, keeping the brace state; a file that does not exist starts empty |
| IndexFiles.Unescape | merge_files.php:526 | a decoded key is never longer than the text written between the quotes |
| IndexFiles.UnescapeQuotable | merge_files.php:559 | a key without quote, backslash or control character reads back as itself |
| IndexFiles.UnescapeBareQuote | merge_files.php:559 | a key holding a quote and no backslash makes the whole file undecodable |
| IndexFiles.EscapedChunkIsRenamed | merge_files.php:559 | the chunk `\n` (backslash, n) is read back as a newline, so its subtree sits under another key |
| IndexFiles.DecodeKeys | merge_files.php:526 | a decoded list of lines has all its lines |
| IndexFiles.Decode | merge_files.php:524-526 | the repaired text decodes only when the file was opened with `{`, and then to an array |
| IndexFiles.DecodeReadable | merge_files.php:524-526 | a braced file with readable keys decodes to all its lines folded by assignment: a repeated key keeps its first position and takes its last value |
| IndexFiles.LastBatchWins | merge_files.php:558-560 | a top-level key present in several batches keeps only the last batch's subtree |
| IndexFiles.LastBatchWinsLines | merge_files.php:558-560 | the same on the written lines |
| IndexFiles.SameFirstEntry | merge_files.php:534-537 | a lookup depends only on the top-level entry of its first chunk |
| Build.WindowsCover | merge_files.php:170-183 | the full windows of `chunkSize` rows followed by the remainder give back the rows |
| Build.AllWindowsCover | merge_files.php:170-183 | all batches together give back the rows, in order |
| Build.WindowsSnoc | merge_files.php:170-172 | one more row completes the pending window or extends it |
| Build.WindowsCount | merge_files.php:170 | rows = full windows × chunkSize + remainder |
| Build.CounterTests | merge_files.php:170-182 | the tests `$rowCount % chunkSize === 0`, `$rowCount === chunkSize` and `$rowCount <= chunkSize` read off the window count and the remainder |
| Build.ShapedStep | merge_files.php:156-178 | one iteration keeps the loop state in step with the windows |
| Build.RunShape | merge_files.php:156-178 | after the loop the counter is the row count. A file exists exactly when a full window was flushed; it is braced, and holds one batch per full window, each the window's rows stored in order. The pending batch holds the remainder |
| Build.RunNeverCrashes | merge_files.php:156-178 | with prefix-free join values the loop never raises the Error |
| Build.CrashIsFinal | merge_files.php:165 | the Error ends the build: later rows change nothing |
| Build.RunAfterStop | merge_files.php:156 | the loop state after a crash is the state of the whole run |
| Build.PendingEmpty | merge_files.php:181 | with non-empty join values the pending batch is empty exactly when the remainder is |
| Build.BuildShape | merge_files.php:153-187 | a build of prefix-free, non-empty join values processes every row. It writes no file for no rows. Otherwise the file is braced and holds one batch per window of `chunkSize` rows (the last one possibly shorter), each the window's rows stored in order |
| Build.BatchCount | merge_files.php:170-183 | n rows give ⌈n/chunkSize⌉ batches |
| Build.BatchQuotable | merge_files.php:559 | quotable join values give quotable top-level keys |
| Build.BuiltIndexFindsRow | merge_files.php:153-187 | end to end: for ASCII join values, a row that is the last in its window with its join value is found again in the decoded file, provided no later window shares its first chunk |
| Build.LaterBatchHidesKey | merge_files.php:558-560 | with `chunkSize` 1, the rows `abcd` then `abef`: the build succeeds, but `abcd` is no longer found |
| Columns.KeyColumn | merge_files.php:138-142 | the join key resolves exactly when its form (lower-cased on the spreadsheet path) is in the header, to the first matching position, as `array_search` does; otherwise "Join key not found" |
| Columns.ColumnIndicesKeys | merge_files.php:145-151 | the record's columns are the requested columns found in the header, first occurrences, in requested order; missing ones are dropped |
| Columns.ColumnIndicesFind | merge_files.php:145-151 | each kept column maps to the position of its first match in the header |
| Columns.ColumnIndicesUnique | merge_files.php:149 | no column appears twice |
| Columns.Record | merge_files.php:160-163 | a record has one entry per kept column, in that order |
| Columns.RecordFind | merge_files.php:160-163 | a record holds the row's cell for each kept column, `''` when the row has no such cell |
| Columns.IndexedRows | merge_files.php:138-163 | the build fails exactly when the join key does not resolve; otherwise entry i is data row i keyed by its cell in the join-key column, with its record of the resolved columns |
| Columns.IndexedRowsUnique | merge_files.php:160-163 | the stored records have each column once |
| Columns.SheetWidth | merge_files.php:209-211 | the sheet width is the widest of the header and the rows, and at least one column |
| Columns.MaxLength | merge_files.php:209-211 | the widest row, or the given width when that is wider: a bound that one of them attains |
| Columns.AppendMissingSpec | merge_files.php:573-579 | the accumulated header is kept as a prefix; the result holds exactly the old and the listed columns; what is appended is duplicate-free and new |
| Columns.AppendMissingSubseq | merge_files.php:573-579 | the appended columns are a subsequence of the list: the order of the listed columns is kept |
| Columns.AppendMissingOrder | merge_files.php:573-579 | the appended columns come in the order of their first occurrence in the list, as the `in_array` test keeps the first one |
| Columns.BuildFinalHeaderSpec | merge_files.php:569-582 | `buildFinalHeader`: the main header first; then every listed column not in the main header, once, in the order of its first occurrence in the concatenated lists |
| Assemble.MergeMatchesFind | merge_files.php:352-358 | after the index loop, a column has the value of the last index that matched with it, else the base row's |
| Assemble.MergeMatchesKeys | merge_files.php:352-358 | the base row's columns stay in front; unique keys stay unique; when no index matches, the row is unchanged (an unmatched index adds nothing) |
| Assemble.MergeIntoEmptyKeys | merge_files.php:344-348 | assigning columns one by one into `[]` keeps their first occurrences |
| Assemble.Zip | merge_files.php:342 | `array_combine` pairs header name i with cell i |
| Assemble.CombineFind | merge_files.php:342 | the combined row has a value exactly for the header's names: the cell of the name's last position |
| Assemble.Projection | merge_files.php:344-348 | the base row is built over exactly the first file's columns |
| Assemble.ProjectionFind | merge_files.php:344-348 | each of them reads the main row by name |
| Assemble.CsvBaseSpec | merge_files.php:344-348 | the CSV base row is the first file's columns, once each, each with the main row's value or `''` |
| Assemble.CsvRow | merge_files.php:342 | a CSV row is assembled exactly when it is as wide as the header |
| Assemble.CsvRowShape | merge_files.php:342-361 | a CSV output line is at least as wide as the first file's distinct columns and is the merged row's values. It is just the base row when nothing matched, which can be narrower than the header |
| Assemble.CsvRowValue | merge_files.php:342-361 | each cell is the last matching index's value for its column, else the main row's |
| Assemble.EmitComplete | merge_files.php:334-375 | when every row assembles, one line per row, in order |
| Assemble.EmitStops | merge_files.php:334-375 | otherwise the lines of the rows before the first failing row, then the width error of that row |
| Assemble.CsvBodyComplete | merge_files.php:334-375 | rows all as wide as the header give one line per row, each its assembled row |
| Assemble.CsvBodyStops | merge_files.php:334-375 | the first row of another width stops the merge after the lines already written |
| Assemble.CsvBodyFails | merge_files.php:342 | the CSV merge fails exactly when some row's width differs from the header's |
| Assemble.CsvMergeCount | merge_files.php:324-380 | a successful CSV merge returns the number of data rows. Its header line is all files' column lists concatenated, as long as all lists together |
| Assemble.RowData | merge_files.php:446-450 | the spreadsheet loop reads one cell per header column, `''` past the row's end |
| Assemble.FinalRow | merge_files.php:468-472 | one cell per output column: the merged value, or `''` where nothing was merged |
| Assemble.SheetRow | merge_files.php:441-474 | a spreadsheet output line has exactly one cell per output column |
| Assemble.SheetRowValue | merge_files.php:453-472 | cell j is the output column's value after the index loop, `''` if none |
| Assemble.SheetBody | merge_files.php:441-485 | one line per data row, each as wide as the output header |
| Assemble.SheetBodyAt | merge_files.php:441-474 | line i is row i's assembled line |
| Assemble.SheetMerge | merge_files.php:387-491 | the spreadsheet merge fails, writing nothing, exactly when the lower-cased join key is not in the trimmed, lower-cased header; otherwise it returns the number of data rows and writes the concatenated column lists as the header line, then one line per row |
| Assemble.UnmatchedCsvRow | merge_files.php:342-361 | a CSV row that matches nothing beyond its own index comes out with just its own columns |
| Assemble.UnmatchedSheetRow | merge_files.php:468-472 | the same row on the spreadsheet path is filled to the output header with `''` |
| Merger.IndexNameInjective | merge_files.php:121 | two sources never share an index artifact |
| Merger.SavedFrom | merge_files.php:170-183 | a build that changed only its own artifact leaves the rest of the directory as it was |
| Merger.CoherentWrite | merge_files.php:517-528 | writing an uncached artifact keeps the cache coherent |
| Merger.FileMerger.constructor | merge_files.php:17-30 | a merger starts with its directory and chunk size and an empty cache |
| Merger.FileMerger.WriteChunk | merge_files.php:549-564 | writes exactly one artifact, as `writeIndexChunk` defines, and nothing else |
| Merger.FileMerger.StoreRow | merge_files.php:156-177 | one loop iteration advances the state exactly as the specification's step |
| Merger.FileMerger.RowLoop | merge_files.php:156-178 | the row loop leaves the artifact, pending batch and counter of the specification's run, touching no other artifact |
| Merger.FileMerger.StoreRows | merge_files.php:153-187 | the build saves exactly the specified file under its artifact name and returns the specified outcome |
| Merger.FileMerger.BuildIndex | merge_files.php:101-151 | `buildIndex` as specified. A missing source throws. An existing artifact is returned without reading the source. Otherwise the header is read, the join key resolved and the rows stored |
| Merger.FileMerger.GetDataFromIndex | merge_files.php:515-544 | the result is the walk of the decoded artifact, or null when it is missing or unreadable. Only a successful first decode adds a cache entry, and the disk is untouched |
| Merger.FileMerger.MergeRow | merge_files.php:352-358 | the index loop gives the specified merged row |
| Merger.FileMerger.BaseRow | merge_files.php:344-348 | the loop over the first file's columns builds the CSV base row |
| Merger.FileMerger.CsvLine | merge_files.php:337-361 | one CSV line as specified |
| Merger.FileMerger.MergeCsvFiles | merge_files.php:299-381 | the CSV merge's lines and outcome are the specified ones |
| Merger.FileMerger.CsvRowLoop | merge_files.php:334-375 | the CSV row loop emits the specified lines and stops at the first bad row |
| Merger.FileMerger.FillRow | merge_files.php:468-472 | the per-header fill gives the specified line |
| Merger.FileMerger.SheetLine | merge_files.php:442-474 | one spreadsheet line as specified |
| Merger.FileMerger.MergeExcelFiles | merge_files.php:387-495 | the spreadsheet merge's lines and outcome are the specified ones |
| Merger.FileMerger.SheetRowLoop | merge_files.php:441-485 | the spreadsheet row loop emits one specified line per row |
| Merger.FileMerger.MergeFiles | merge_files.php:285-294 | dispatch on the main file's extension |
| Merger.FileMerger.ProcessFiles | merge_files.php:35-96 | no files throws. Otherwise every file with a join key and a column list is indexed, in order, the main file included; the first failure ends the run. The main file is then merged with those indexes, under `$joinKeys[0]` |
| Merger.BuildAllStops | merge_files.php:57-61 | once a build throws, later files are not indexed |
| Merger.IncludedFacts | merge_files.php:48-53 | the indexed positions are increasing and are exactly the files with both a join key and a column list |
| Merger.ParallelSnoc | merge_files.php:63-64 | appending to both lists keeps them parallel |
| Merger.BuildAllPlan | merge_files.php:48-65 | `indexFiles` and `allColumns` are parallel: entry j is the artifact and the column list of the j-th included file |
| Merger.BuildSpecName | merge_files.php:121 | a successful build names its source's artifact |
| Merger.MainIndexedFirst | merge_files.php:48-68 | a main file with a join key and columns is indexed first, so each main row is also looked up in its own index |
| SelectHeaders.SeenKeysFrom | select_headers.php:57-60 | every key in `$seen` belongs to an earlier upload |
| SelectHeaders.DedupStep | select_headers.php:57-61 | an upload is kept exactly when its key is not in `$seen` yet; afterwards its key is in it |
| SelectHeaders.KeptFacts | select_headers.php:56-62 | the kept positions are increasing (the result is an order-preserving subsequence) and are exactly the first uploads of their key |
| SelectHeaders.Pick | select_headers.php:59 | the kept uploads, in order |
| SelectHeaders.PickSnoc | select_headers.php:59 | keeping one more upload appends it |
| SelectHeaders.RemoveDuplicates | select_headers.php:51-62 | the loop leaves exactly the first upload of each key, in upload order |
| SelectHeaders.Visit | select_headers.php:57-61 | one pass of the loop keeps `$uniqueFiles` and `$seen` in step with the specification |
| SelectHeaders.DedupKeysDistinct | select_headers.php:57-60 | no two survivors share a `name\|path` key |
| SelectHeaders.DedupKeepsFirst | select_headers.php:56-61 | the first upload of a key survives; a later one is dropped, and its key is represented by an earlier upload |
| SelectHeaders.DedupCoversKeys | select_headers.php:56-62 | every key of the upload list still has a survivor |
| SelectHeaders.FirstWithKey | select_headers.php:56-61 | every key has a first upload |
| SelectHeaders.DedupKeepsMain | select_headers.php:56-61 | the first upload survives at position 0 |
| SelectHeaders.JoinedKeysCollide | select_headers.php:57 | `("a\|b", "c")` and `("a", "b\|c")` share the key `a\|b\|c`, so the second is dropped |
| SelectHeaders.KeyOptions | select_headers.php:81-90 | the merge-key select always has an option |
| SelectHeaders.ChosenKey | select_headers.php:81-85 | the chosen merge key is one of the file's headers when it has any |
| SelectHeaders.Ticked | select_headers.php:74-77 | the submitted columns are exactly the headers whose box is ticked: one per ticked box, in page order |
| SelectHeaders.TickedAt | select_headers.php:74-77 | the box ticked at position j sends headers[j] as the entry that follows those of the boxes ticked before it |
| SelectHeaders.Submit | select_headers.php:64-96 | one `files[i]` per survivor; `join_keys[i]` for exactly i < n; `columns[i]` only for such i |
| SelectHeaders.SubmitPositions | select_headers.php:64-95 | field index i carries the i-th survivor: its name and path (or their empty-value replacements), the merge key chosen for it, and the headers ticked for it, sent only when there is one; field 0 is the first upload, which merge_files.php:68 takes as the main file |

## Left out

- File I/O: `fopen`/`fgetcsv`/`fputcsv`, PhpSpreadsheet cell reading and output files. A source is given as its lines (`Content`); the output as the list of lines written. A source that cannot be opened is modelled like a missing one.
- Progress `echo`, `flush`, `gc_collect_cycles`, the timestamped output name, the download button, `cleanup` and the download endpoint: these are output or housekeeping only.
- JSON: values are not serialised. An index file is its brace state plus its batches, and the decoder reads each line's key back: escapes are interpreted; a bare quote, a control character, a trailing backslash or an unknown escape make the file undecodable. `\u` escapes (read as undecodable) and JSON depth limits are not modelled.
- `md5` file naming: the artifact name puts the path in place of its hash (`Merger.IndexName`), which is injective, as md5 is assumed to be here.
- PHP value semantics: keys are exact strings. Integer-key normalisation (and `array_merge`'s renumbering of such keys) and the loose `==` of `array_search` and `in_array` are not modelled.
- `str_split("")`: modelled as PHP 8.2 and later define it (`[]`), so an empty join value stores its record as the whole batch.
- Spreadsheet cells are strings; numbers cast with `(string)`, floats and null cells (read as `''`) are not distinguished.
- A CSV blank line is a one-cell row `[""]`, as `fgetcsv` returns `[null]`. A main CSV file with no header line is the `NoHeader` error. In the source, `fgetcsv` returns `false` and `array_search($joinKey, false)` throws a `TypeError`; that is an `Error`, which `catch (Exception)` does not catch, so the request ends with a fatal error rather than an error message.
- `array_combine` on a CSV row of another width than the header throws a `ValueError` in PHP 8: the merge stops there with the lines already written (`RowWidth`).
- Merger.FileMerger.constructor: requires `chunkSize > 0`; the source's only caller passes 5000, and 0 would make `%` fail.
- Merger.FileMerger.GetDataFromIndex: the cache is a field of one merger; in PHP it is a function-static variable shared by all instances in the process.
- Assemble.SheetMerge: that every data line is as wide as the output header is stated by `Assemble.SheetBody` and `Assemble.SheetRow`, not by `SheetMerge` itself.
- PhpStrings.StrSplit2: join values are taken as one-byte (ASCII) text, where a character is a byte. PHP's `str_split` cuts bytes, so a multi-byte UTF-8 character can be split across chunks, and `json_encode`/`json_decode` then reject the invalid UTF-8 and the whole index reads as null. The UTF-8 checks of `json_encode`/`json_decode` are not modelled; `Build.BuiltIndexFindsRow` assumes ASCII join values, and the first-chunk sharing behind `IndexFiles.LastBatchWins` is by characters, which differs from bytes for non-ASCII keys.
- `htmlspecialchars` on the form fields, the session check that exits on an empty upload list, and the script that disables the button: these are page markup. The model submits the raw name and path.
- The form is modelled as what the browser posts for a user's choices (`SelectHeaders.Choice`); the rendering of the page is not.

Behaviour of the source worth knowing:

- Odd-length keys are not padded.
- The CSV path matches header names case-sensitively, with no trimming.
- There is no reserved leaf field: records and branches are both arrays, so a key that is a prefix of another finds a branch.
- A CSV row is not padded to the header width: a row that matches nothing but its own index comes out as wide as the first file's columns, narrower than the output header (`Assemble.UnmatchedCsvRow`).
- A failure after the header line leaves the lines already written.
- A main row with an empty join value is looked up under the empty chunk path, so `getDataFromIndex` returns the whole decoded index, and `array_merge` adds every first-chunk entry of it to the row as a column (`Trie.Lookup` with the path `[]`).

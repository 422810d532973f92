/**
 * How one output line is put together from a main-file row and the index
 * lookups, for a CSV main file (`mergeCsvFiles`) and for a spreadsheet main
 * file (`mergeExcelFiles`).
 */
module Assemble {
  import opened Outcome
  import opened PhpValues
  import opened PhpStrings
  import opened Trie
  import opened Columns

  /** What `getDataFromIndex` returns for one index: None for a missing or undecodable index, else the lookup. */
  function Matched(index: Option<V>, path: seq<string>): Option<Entries> {
    match index
    case None => None
    case Some(t) => Lookup(t, path)
  }

  /** The loop over the index files: every match is `array_merge`d into the row, in index order. */
  function MergeMatches(base: Entries, indexes: seq<Option<V>>, path: seq<string>): Entries
    decreases |indexes|
  {
    if indexes == [] then base
    else
      var acc := MergeMatches(base, indexes[..|indexes| - 1], path);
      match Matched(indexes[|indexes| - 1], path)
      case None => acc
      case Some(m) => ArrayMerge(acc, m)
  }

  /** The value a column ends with: from the last index whose match has it, else from the base row. */
  function LastMatch(base: Entries, indexes: seq<Option<V>>, path: seq<string>, col: string): Option<V>
    decreases |indexes|
  {
    if indexes == [] then Find(base, col)
    else match Matched(indexes[|indexes| - 1], path)
      case Some(m) => if col in Keys(m) then FindLast(m, col) else LastMatch(base, indexes[..|indexes| - 1], path, col)
      case None => LastMatch(base, indexes[..|indexes| - 1], path, col)
  }

  /** Later matches overwrite same-named columns in place; every other column keeps its value. */
  lemma {:induction false} MergeMatchesFind(base: Entries, indexes: seq<Option<V>>, path: seq<string>, col: string)
    ensures Find(MergeMatches(base, indexes, path), col) == LastMatch(base, indexes, path, col)
    decreases |indexes|
  {
    if indexes != [] {
      var front := indexes[..|indexes| - 1];
      MergeMatchesFind(base, front, path, col);
      match Matched(indexes[|indexes| - 1], path)
      case None =>
      case Some(m) => ArrayMergeFind(MergeMatches(base, front, path), m, col);
    }
  }

  /** The base row's columns stay in front, in order; matches only overwrite them or append after them. */
  lemma {:induction false} MergeMatchesKeys(base: Entries, indexes: seq<Option<V>>, path: seq<string>)
    ensures |base| <= |MergeMatches(base, indexes, path)|
    ensures Keys(MergeMatches(base, indexes, path))[..|base|] == Keys(base)
    ensures UniqueKeys(base) ==> UniqueKeys(MergeMatches(base, indexes, path))
    ensures (forall j :: 0 <= j < |indexes| ==> Matched(indexes[j], path).None?) ==> MergeMatches(base, indexes, path) == base
    decreases |indexes|
  {
    if indexes != [] {
      var front := indexes[..|indexes| - 1];
      MergeMatchesKeys(base, front, path);
      var acc := MergeMatches(base, front, path);
      match Matched(indexes[|indexes| - 1], path)
      case None =>
      case Some(m) =>
        ArrayMergeKeys(acc, m);
        assert Keys(ArrayMerge(acc, m))[..|base|] == Keys(ArrayMerge(acc, m))[..|acc|][..|base|];
    }
  }

  /** The keys of an array built by assigning pairs into `[]` are the distinct keys, at their first occurrence. */
  lemma {:induction false} MergeIntoEmptyKeys<T>(b: seq<(string, T)>)
    ensures Keys(ArrayMerge([], b)) == Distinct(Keys(b))
    decreases |b|
  {
    if b != [] {
      var front := b[..|b| - 1];
      var last := b[|b| - 1];
      assert front + [last] == b;
      KeysAppend(front, last);
      MergeIntoEmptyKeys(front);
      AssignSpec(ArrayMerge([], front), last.0, last.1);
      assert Keys(b)[..|b| - 1] == Keys(front);
    }
  }

  /** Pairs up header names and cells. */
  function Zip(ks: seq<string>, vs: seq<string>): (z: Entries)
    requires |ks| == |vs|
    ensures |z| == |ks|
    ensures Keys(z) == ks
    ensures forall i :: 0 <= i < |ks| ==> z[i] == (ks[i], Str(vs[i]))
    decreases |ks|
  {
    if ks == [] then []
    else
      var rest := Zip(ks[1..], vs[1..]);
      assert Keys([(ks[0], Str(vs[0]))] + rest) == [ks[0]] + Keys(rest);
      [(ks[0], Str(vs[0]))] + rest
  }

  /** `array_combine($header, $row)` for rows as wide as the header: a repeated name takes its last cell. */
  function Combine(header: seq<string>, row: seq<string>): Entries
    requires |header| == |row|
  {
    ArrayMerge([], Zip(header, row))
  }

  /** The value array_combine gives a name: the cell under the name's last occurrence in the header. */
  lemma CombineFind(header: seq<string>, row: seq<string>, name: string)
    requires |header| == |row|
    ensures Find(Combine(header, row), name) == FindLast(Zip(header, row), name)
    ensures Find(Combine(header, row), name).Some? <==> name in header
  {
    ArrayMergeFind([], Zip(header, row), name);
  }

  /** `$mergedRow[$col] = $_mergedRow[$col]` for the first file's columns, starting from `[]`. */
  function CsvBase(combined: Entries, firstColumns: seq<string>): Entries {
    ArrayMerge([], Projection(combined, firstColumns))
  }

  /** `$m[$k]` read for output: an unset key reads as null, which fputcsv writes as `''`. */
  function ValueOrEmpty(m: Entries, k: string): V {
    match Find(m, k)
    case Some(v) => v
    case None => Str("")
  }

  /** The pairs the base-row loop assigns: each listed column with the main row's value for it. */
  function Projection(combined: Entries, columns: seq<string>): (p: Entries)
    ensures Keys(p) == columns
    decreases |columns|
  {
    if columns == [] then []
    else
      var n := |columns| - 1;
      var rest := Projection(combined, columns[..n]);
      var x := (columns[n], ValueOrEmpty(combined, columns[n]));
      KeysAppend(rest, x);
      assert columns[..n] + [columns[n]] == columns;
      rest + [x]
  }

  lemma {:induction false} ProjectionFind(combined: Entries, columns: seq<string>, col: string)
    ensures FindLast(Projection(combined, columns), col) == if col in columns then Some(ValueOrEmpty(combined, col)) else None
    decreases |columns|
  {
    if columns != [] {
      var n := |columns| - 1;
      var p := Projection(combined, columns);
      var rest := Projection(combined, columns[..n]);
      assert p[..|p| - 1] == rest;
      ProjectionFind(combined, columns[..n], col);
      assert columns[..n] + [columns[n]] == columns;
    }
  }

  /** The base row: the first file's columns, each once, in order, valued from the main row. */
  lemma CsvBaseSpec(combined: Entries, firstColumns: seq<string>, col: string)
    ensures Keys(CsvBase(combined, firstColumns)) == Distinct(firstColumns)
    ensures Find(CsvBase(combined, firstColumns), col) == if col in firstColumns then Some(ValueOrEmpty(combined, col)) else None
  {
    MergeIntoEmptyKeys(Projection(combined, firstColumns));
    ArrayMergeFind([], Projection(combined, firstColumns), col);
    ProjectionFind(combined, firstColumns, col);
  }

  /**
   * One CSV output line: None when the row's width differs from the header
   * (array_combine's ValueError); otherwise the values of the merged row,
   * in its key order.
   */
  function CsvRow(header: seq<string>, row: seq<string>, keyIndex: nat, firstColumns: seq<string>, indexes: seq<Option<V>>): (r: Option<seq<string>>)
    ensures r.Some? <==> |row| == |header|
  {
    if |row| != |header| then None
    else
      var merged := MergeMatches(CsvBase(Combine(header, row), firstColumns), indexes, StrSplit2(CellAt(row, keyIndex)));
      Some(Cells(merged))
  }

  /** What fputcsv writes for an array: its values in order. */
  function Cells(m: Entries): (cs: seq<string>)
    ensures |cs| == |m|
    ensures forall i :: 0 <= i < |m| ==> cs[i] == CellText(m[i].1)
  {
    seq(|m|, i requires 0 <= i < |m| => CellText(m[i].1))
  }

  /**
   * The CSV line's cells start with the first file's columns, each once and
   * in order, then any column a match adds; with no match at all the line has
   * exactly the first file's distinct columns, so it can be narrower than the header.
   */
  lemma CsvRowShape(header: seq<string>, row: seq<string>, keyIndex: nat, firstColumns: seq<string>, indexes: seq<Option<V>>)
    requires |row| == |header|
    ensures CsvRow(header, row, keyIndex, firstColumns, indexes).Some?
    ensures |Distinct(firstColumns)| <= |CsvRow(header, row, keyIndex, firstColumns, indexes).value|
    ensures var merged := MergeMatches(CsvBase(Combine(header, row), firstColumns), indexes, StrSplit2(CellAt(row, keyIndex)));
      Keys(merged)[..|Distinct(firstColumns)|] == Distinct(firstColumns)
    ensures (forall j :: 0 <= j < |indexes| ==> Matched(indexes[j], StrSplit2(CellAt(row, keyIndex))).None?) ==>
      |CsvRow(header, row, keyIndex, firstColumns, indexes).value| == |Distinct(firstColumns)|
  {
    var base := CsvBase(Combine(header, row), firstColumns);
    CsvBaseSpec(Combine(header, row), firstColumns, "");
    MergeMatchesKeys(base, indexes, StrSplit2(CellAt(row, keyIndex)));
  }

  /** Where a CSV data row's cell for a column comes from: the last index that matched it, else the main row. */
  lemma CsvRowValue(header: seq<string>, row: seq<string>, keyIndex: nat, firstColumns: seq<string>, indexes: seq<Option<V>>, col: string)
    requires |row| == |header|
    ensures var merged := MergeMatches(CsvBase(Combine(header, row), firstColumns), indexes, StrSplit2(CellAt(row, keyIndex)));
      Find(merged, col) == LastMatch(CsvBase(Combine(header, row), firstColumns), indexes, StrSplit2(CellAt(row, keyIndex)), col)
  {
    MergeMatchesFind(CsvBase(Combine(header, row), firstColumns), indexes, StrSplit2(CellAt(row, keyIndex)), col);
  }

  /** The lines written after the header line, and the Error that stopped the loop, if any. */
  datatype Body = Body(lines: seq<seq<string>>, failed: Option<Error>)

  /** Writes the rows' lines in order, stopping at the first row that has none. */
  function Emit(results: seq<Option<seq<string>>>): Body
    decreases |results|
  {
    if results == [] then Body([], None)
    else
      var b := Emit(results[..|results| - 1]);
      if b.failed.Some? then b
      else match results[|results| - 1]
        case None => Body(b.lines, Some(RowWidth(|results| - 1)))
        case Some(cells) => Body(b.lines + [cells], None)
  }

  /** Without a failure every row had a line, and they were written in row order. */
  lemma {:induction false} EmitComplete(results: seq<Option<seq<string>>>)
    requires Emit(results).failed.None?
    ensures |Emit(results).lines| == |results|
    ensures forall i :: 0 <= i < |results| ==> results[i] == Some(Emit(results).lines[i])
    decreases |results|
  {
    if results != [] {
      var n := |results| - 1;
      var front := results[..n];
      EmitComplete(front);
      forall i | 0 <= i < |results| ensures results[i] == Some(Emit(results).lines[i]) {
        if i < n { assert results[i] == front[i]; }
      }
    }
  }

  /** A failure names the first row without a line; the lines of the rows before it are kept. */
  lemma {:induction false} EmitStops(results: seq<Option<seq<string>>>) returns (i: nat)
    requires Emit(results).failed.Some?
    ensures i < |results| && results[i].None?
    ensures Emit(results).failed == Some(RowWidth(i))
    ensures |Emit(results).lines| == i
    ensures forall k :: 0 <= k < i ==> results[k] == Some(Emit(results).lines[k])
    decreases |results|
  {
    var n := |results| - 1;
    var front := results[..n];
    if Emit(front).failed.Some? {
      i := EmitStops(front);
      forall k | 0 <= k <= i ensures results[k] == front[k] {
      }
    } else {
      i := n;
      EmitComplete(front);
      forall k | 0 <= k < n ensures results[k] == front[k] {
      }
    }
  }

  /** One more row of the loop: its line is written, or a row without one stops the loop with its number. */
  lemma EmitNext(results: seq<Option<seq<string>>>, n: nat)
    requires n < |results| && Emit(results[..n]).failed.None?
    ensures Emit(results[..n + 1]) == match results[n]
      case Some(cells) => Body(Emit(results[..n]).lines + [cells], None)
      case None => Body(Emit(results[..n]).lines, Some(RowWidth(n)))
  {
    assert results[..n + 1][..n] == results[..n];
  }

  /** Once a row has stopped the loop, later rows change nothing. */
  lemma {:induction false} EmitStopped(results: seq<Option<seq<string>>>, n: nat)
    requires n <= |results| && Emit(results[..n]).failed.Some?
    ensures Emit(results) == Emit(results[..n])
    decreases |results|
  {
    if n < |results| {
      var front := results[..|results| - 1];
      assert front[..n] == results[..n];
      EmitStopped(front, n);
    } else {
      assert results[..n] == results;
    }
  }

  /** The CSV row loop: one line per row, stopping at the first row whose width differs from the header. */
  function CsvBody(header: seq<string>, rows: seq<seq<string>>, keyIndex: nat, firstColumns: seq<string>, indexes: seq<Option<V>>): Body {
    Emit(seq(|rows|, i requires 0 <= i < |rows| => CsvRow(header, rows[i], keyIndex, firstColumns, indexes)))
  }

  /** Without a failure, the CSV row loop wrote one line per row, in row order, and every row had the header's width. */
  lemma CsvBodyComplete(header: seq<string>, rows: seq<seq<string>>, keyIndex: nat, firstColumns: seq<string>, indexes: seq<Option<V>>)
    requires CsvBody(header, rows, keyIndex, firstColumns, indexes).failed.None?
    ensures forall i :: 0 <= i < |rows| ==> |rows[i]| == |header|
    ensures |CsvBody(header, rows, keyIndex, firstColumns, indexes).lines| == |rows|
    ensures forall i :: 0 <= i < |rows| ==>
      Some(CsvBody(header, rows, keyIndex, firstColumns, indexes).lines[i]) == CsvRow(header, rows[i], keyIndex, firstColumns, indexes)
  {
    var results := seq(|rows|, i requires 0 <= i < |rows| => CsvRow(header, rows[i], keyIndex, firstColumns, indexes));
    EmitComplete(results);
    forall i | 0 <= i < |rows| ensures |rows[i]| == |header| {
      assert results[i].Some?;
    }
  }

  /**
   * A failure names the first row whose width differs from the header; the
   * lines of the rows before it are kept.
   */
  lemma CsvBodyStops(header: seq<string>, rows: seq<seq<string>>, keyIndex: nat, firstColumns: seq<string>, indexes: seq<Option<V>>)
    returns (i: nat)
    requires CsvBody(header, rows, keyIndex, firstColumns, indexes).failed.Some?
    ensures i < |rows| && |rows[i]| != |header|
    ensures CsvBody(header, rows, keyIndex, firstColumns, indexes).failed == Some(RowWidth(i))
    ensures |CsvBody(header, rows, keyIndex, firstColumns, indexes).lines| == i
    ensures forall k :: 0 <= k < i ==> |rows[k]| == |header|
  {
    var results := seq(|rows|, i requires 0 <= i < |rows| => CsvRow(header, rows[i], keyIndex, firstColumns, indexes));
    i := EmitStops(results);
    assert results[i].None?;
    forall k | 0 <= k < i ensures |rows[k]| == |header| {
      assert results[k].Some?;
    }
  }

  /** The CSV row loop fails exactly when some row's width differs from the header's. */
  lemma CsvBodyFails(header: seq<string>, rows: seq<seq<string>>, keyIndex: nat, firstColumns: seq<string>, indexes: seq<Option<V>>)
    ensures CsvBody(header, rows, keyIndex, firstColumns, indexes).failed.Some? <==> exists i :: 0 <= i < |rows| && |rows[i]| != |header|
  {
    if CsvBody(header, rows, keyIndex, firstColumns, indexes).failed.Some? {
      var i := CsvBodyStops(header, rows, keyIndex, firstColumns, indexes);
    } else {
      CsvBodyComplete(header, rows, keyIndex, firstColumns, indexes);
    }
  }

  /** What a merge leaves: the lines of the output file, and the rows processed or the Error. */
  datatype Merge = Merge(lines: seq<seq<string>>, outcome: Result<nat>)

  /**
   * `mergeCsvFiles` on the main file's lines: an empty file has no header;
   * a header without the join key is the Exception; otherwise the header
   * line is every file's column list in turn, then one line per row.
   */
  function CsvMerge(lines: seq<seq<string>>, joinKey: string, allColumns: seq<seq<string>>, indexes: seq<Option<V>>, path: string): Merge {
    if lines == [] then Merge([], Err(NoHeader(path)))
    else match ArraySearch(lines[0], joinKey)
      case None => Merge([], Err(JoinKeyNotFound(joinKey, path)))
      case Some(k) =>
        var first := if allColumns == [] then [] else allColumns[0];
        var b := CsvBody(lines[0], lines[1..], k, first, indexes);
        match b.failed
        case Some(e) => Merge([Flatten(allColumns)] + b.lines, Err(e))
        case None => Merge([Flatten(allColumns)] + b.lines, Ok(|b.lines|))
  }

  /** The CSV merge returns the number of data rows, after a header line as wide as all column lists together. */
  lemma CsvMergeCount(lines: seq<seq<string>>, joinKey: string, allColumns: seq<seq<string>>, indexes: seq<Option<V>>, path: string)
    requires CsvMerge(lines, joinKey, allColumns, indexes, path).outcome.Ok?
    ensures CsvMerge(lines, joinKey, allColumns, indexes, path).outcome.value == |lines| - 1
    ensures |CsvMerge(lines, joinKey, allColumns, indexes, path).lines| == |lines|
    ensures CsvMerge(lines, joinKey, allColumns, indexes, path).lines[0] == Flatten(allColumns)
    ensures |CsvMerge(lines, joinKey, allColumns, indexes, path).lines[0]| == TotalLength(allColumns)
  {
    var k := ArraySearch(lines[0], joinKey).value;
    var first := if allColumns == [] then [] else allColumns[0];
    CsvBodyComplete(lines[0], lines[1..], k, first, indexes);
  }

  /** The cells the spreadsheet loop reads from a data row, one per header column; a cell past the row's end reads as `''`. */
  function RowData(row: seq<string>, width: nat): (cells: seq<string>)
    ensures |cells| == width
    ensures forall i :: 0 <= i < width ==> cells[i] == CellAt(row, i)
  {
    if width == 0 then [] else RowData(row, width - 1) + [CellAt(row, width - 1)]
  }

  /** The output line built by header: each output column's merged value, `''` where the merged row has none. */
  function FinalRow(merged: Entries, columns: seq<string>): (cells: seq<string>)
    ensures |cells| == |columns|
    ensures forall j :: 0 <= j < |columns| ==> cells[j] == CellText(ValueOrEmpty(merged, columns[j]))
  {
    if columns == [] then []
    else FinalRow(merged, columns[..|columns| - 1]) + [CellText(ValueOrEmpty(merged, columns[|columns| - 1]))]
  }

  /**
   * One spreadsheet output line: the row combined with the trimmed header,
   * the matches merged in, then one cell per output column.
   */
  function SheetRow(header: seq<string>, row: seq<string>, keyIndex: nat, finalHeader: seq<string>, indexes: seq<Option<V>>): (cells: seq<string>)
    ensures |cells| == |finalHeader|
  {
    FinalRow(MergeMatches(Combine(header, RowData(row, |header|)), indexes, StrSplit2(CellAt(row, keyIndex))), finalHeader)
  }

  /** Each spreadsheet cell: the last index that matched the column, else the main row's cell under that header name, else `''`. */
  lemma SheetRowValue(header: seq<string>, row: seq<string>, keyIndex: nat, finalHeader: seq<string>, indexes: seq<Option<V>>, j: nat)
    requires j < |finalHeader|
    ensures SheetRow(header, row, keyIndex, finalHeader, indexes)[j] ==
      match LastMatch(Combine(header, RowData(row, |header|)), indexes, StrSplit2(CellAt(row, keyIndex)), finalHeader[j])
      case Some(v) => CellText(v)
      case None => ""
  {
    MergeMatchesFind(Combine(header, RowData(row, |header|)), indexes, StrSplit2(CellAt(row, keyIndex)), finalHeader[j]);
  }

  /** The spreadsheet row loop: one line per data row, each as wide as the output header. */
  function SheetBody(header: seq<string>, rows: seq<seq<string>>, keyIndex: nat, finalHeader: seq<string>, indexes: seq<Option<V>>): (lines: seq<seq<string>>)
    ensures |lines| == |rows|
    ensures forall i :: 0 <= i < |lines| ==> |lines[i]| == |finalHeader|
    decreases |rows|
  {
    if rows == [] then []
    else SheetBody(header, rows[..|rows| - 1], keyIndex, finalHeader, indexes) + [SheetRow(header, rows[|rows| - 1], keyIndex, finalHeader, indexes)]
  }

  /** Line i of the spreadsheet body is data row i assembled. */
  lemma {:induction false} SheetBodyAt(header: seq<string>, rows: seq<seq<string>>, keyIndex: nat, finalHeader: seq<string>, indexes: seq<Option<V>>, i: nat)
    requires i < |rows|
    ensures SheetBody(header, rows, keyIndex, finalHeader, indexes)[i] == SheetRow(header, rows[i], keyIndex, finalHeader, indexes)
    decreases |rows|
  {
    var front := rows[..|rows| - 1];
    var last := SheetRow(header, rows[|rows| - 1], keyIndex, finalHeader, indexes);
    var lines := SheetBody(header, front, keyIndex, finalHeader, indexes);
    assert SheetBody(header, rows, keyIndex, finalHeader, indexes) == lines + [last];
    if i < |front| {
      SheetBodyAt(header, front, keyIndex, finalHeader, indexes, i);
      assert front[i] == rows[i];
      assert (lines + [last])[i] == lines[i];
    } else {
      assert i == |rows| - 1;
      assert (lines + [last])[i] == last;
    }
  }

  /** The spreadsheet row loop takes one more row. */
  lemma SheetBodyNext(header: seq<string>, rows: seq<seq<string>>, keyIndex: nat, finalHeader: seq<string>, indexes: seq<Option<V>>, n: nat)
    requires n < |rows|
    ensures SheetBody(header, rows[..n + 1], keyIndex, finalHeader, indexes) ==
      SheetBody(header, rows[..n], keyIndex, finalHeader, indexes) + [SheetRow(header, rows[n], keyIndex, finalHeader, indexes)]
  {
    assert rows[..n + 1][..n] == rows[..n];
  }

  /**
   * `mergeExcelFiles`: the join key is searched case-insensitively in the
   * trimmed header; the header line is every file's column list in turn,
   * and every data line has exactly one cell per header column.
   */
  function SheetMerge(t: Table, joinKey: string, allColumns: seq<seq<string>>, indexes: seq<Option<V>>, path: string): (r: Merge)
    ensures r.outcome.Err? <==> Lower(joinKey) !in NormAll(SheetHeader(t), true)
    ensures r.outcome.Err? ==> r.lines == []
    ensures r.outcome.Ok? ==> r.outcome.value == |t.rows| && |r.lines| == |t.rows| + 1
    ensures r.outcome.Ok? ==> r.lines[0] == Flatten(allColumns)
  {
    var header := SheetHeader(t);
    match KeyColumn(header, joinKey, true, path)
    case Err(e) => Merge([], Err(e))
    case Ok(k) =>
      var finalHeader := Flatten(allColumns);
      var body := SheetBody(header, t.rows, k, finalHeader, indexes);
      Merge([finalHeader] + body, Ok(|t.rows|))
  }

  /** The records of a two-row example: a person table and a city table, both joined on "id". */
  const AliceRec: Entries := [("id", Str("1")), ("name", Str("Alice"))]
  const BobRec: Entries := [("id", Str("2")), ("name", Str("Bob"))]
  /** The decoded index of the person table, which is also the main file. */
  const PeopleIndex := Arr([("1", Arr(AliceRec)), ("2", Arr(BobRec))])
  /** The decoded index of the city table: ids 1 and 3. */
  const CityIndex := Arr([("1", Arr([("city", Str("Paris"))])), ("3", Arr([("city", Str("Rome"))]))])

  lemma BobRowCells(merged: Entries)
    requires merged == MergeMatches(BobRec, [Some(PeopleIndex), Some(CityIndex)], ["2"])
    ensures merged == BobRec
  {
    var people := PeopleIndex.entries;
    assert people[1..] == [("2", Arr(BobRec))];
    assert Find(people, "2") == Some(Arr(BobRec));
    assert ["2"][1..] == [];
    assert Lookup(Arr(BobRec), []) == Some(BobRec);
    assert Matched(Some(PeopleIndex), ["2"]) == Some(BobRec);
    var cities := CityIndex.entries;
    assert cities[1..][1..] == [];
    assert Find(cities, "2") == None;
    assert Matched(Some(CityIndex), ["2"]) == None;
    var one: seq<Option<V>> := [Some(PeopleIndex)];
    assert [Some(PeopleIndex), Some(CityIndex)][..1] == one;
    assert one[..0] == [];
    MergeIntoEmpty(BobRec);
    assert ArrayMerge(BobRec, BobRec) == BobRec by {
      assert BobRec[..1] == [("id", Str("2"))];
      assert BobRec[..1][..0] == [];
    }
    assert MergeMatches(BobRec, [], ["2"]) == BobRec;
    assert MergeMatches(BobRec, one, ["2"]) == ArrayMerge(BobRec, BobRec);
    assert MergeMatches(BobRec, [Some(PeopleIndex), Some(CityIndex)], ["2"]) == MergeMatches(BobRec, one, ["2"]);
  }

  /** Bob's row combined with its header is Bob's record, and no index adds a column to it. */
  lemma BobMerged()
    ensures Combine(["id", "name"], ["2", "Bob"]) == BobRec
    ensures StrSplit2("2") == ["2"]
    ensures MergeMatches(BobRec, [Some(PeopleIndex), Some(CityIndex)], ["2"]) == BobRec
  {
    var h := ["id", "name"];
    var row := ["2", "Bob"];
    assert Zip(h, row) == BobRec by {
      assert Zip(h[1..], row[1..]) == [("name", Str("Bob"))];
    }
    MergeIntoEmpty(BobRec);
    BobRowCells(MergeMatches(BobRec, [Some(PeopleIndex), Some(CityIndex)], ["2"]));
  }

  /**
   * Joining the person table (id, name) with the city table (id, city) on id:
   * Bob's id has no city, so the CSV path writes the two cells `2,Bob` under
   * a three-column header, while the spreadsheet path writes `2,Bob,`.
   */
  lemma UnmatchedCsvRow()
    ensures CsvRow(["id", "name"], ["2", "Bob"], 0, ["id", "name"], [Some(PeopleIndex), Some(CityIndex)]) == Some(["2", "Bob"])
  {
    BobMerged();
    var h := ["id", "name"];
    assert Projection(BobRec, h) == BobRec by {
      assert Projection(BobRec, h[..1]) == [("id", Str("2"))];
    }
    assert CsvBase(BobRec, h) == BobRec;
    assert Cells(BobRec) == ["2", "Bob"];
  }

  /** The same row through the spreadsheet path: one cell per output column, `''` for the missing city. */
  lemma UnmatchedSheetRow()
    ensures SheetRow(["id", "name"], ["2", "Bob"], 0, ["id", "name", "city"], [Some(PeopleIndex), Some(CityIndex)]) == ["2", "Bob", ""]
  {
    BobMerged();
    var row := ["2", "Bob"];
    assert RowData(row, 2) == row;
    var fh := ["id", "name", "city"];
    assert Find(BobRec, "city") == None;
    assert ValueOrEmpty(BobRec, "city") == Str("");
    assert FinalRow(BobRec, fh)[2] == "";
    assert FinalRow(BobRec, fh) == ["2", "Bob", ""];
  }
}

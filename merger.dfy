/**
 * The `FileMerger` object: the index artifacts it leaves in its temporary
 * directory, the cache of decoded indexes that `getDataFromIndex` keeps, and
 * the operations that build indexes, look rows up and merge the main file.
 */
module Merger {
  import opened Outcome
  import opened PhpValues
  import opened PhpStrings
  import opened Trie
  import opened IndexFiles
  import opened Build
  import opened Columns
  import opened Assemble

  /** One entry of the join request: the file's display name and its path. */
  datatype FileMeta = FileMeta(name: string, path: string)

  /** A source file as read: its CSV records, or its sheet's rows with the header row first. */
  type Content = seq<seq<string>>

  /** A sheet read as a table: row 1 is the header, rows 2 onwards the data. */
  function AsTable(content: Content): Table {
    if content == [] then Table([], []) else Table(content[0], content[1..])
  }

  /** The artifact name of a source's index, `tempDir . 'index_' . md5(path) . '.json'`, with the path in place of its hash. */
  function IndexName(tempDir: string, path: string): string {
    tempDir + "index_" + path + ".json"
  }

  /** Two sources never share an index artifact. */
  lemma IndexNameInjective(tempDir: string, p: string, q: string)
    requires IndexName(tempDir, p) == IndexName(tempDir, q)
    ensures p == q
  {
    var n := |tempDir| + 6;
    assert |p| == |q|;
    assert IndexName(tempDir, p)[n..n + |p|] == p;
    assert IndexName(tempDir, q)[n..n + |q|] == q;
  }

  /** The rows a build stores, once the header is read and the join key resolved. */
  function SourceRows(path: string, content: Content, key: string, columns: seq<string>): Result<seq<Keyed>> {
    if IsSpreadsheet(path) then
      var t := AsTable(content);
      IndexedRows(SheetHeader(t), t.rows, key, columns, true, path)
    else if content == [] then Err(NoHeader(path))
    else IndexedRows(content[0], content[1..], key, columns, false, path)
  }

  /** The disk after a build that wrote the artifact `name`, or none. */
  function Saved(disk: map<string, IndexFile>, name: string, file: Option<IndexFile>): map<string, IndexFile> {
    match file
    case None => disk
    case Some(f) => disk[name := f]
  }

  /**
   * `buildIndex`: a missing source is an error; an artifact already on disk
   * is reused without reading the source; otherwise the source's rows are
   * stored batch by batch, and a failed build leaves what it wrote so far.
   */
  function BuildSpec(chunkSize: nat, tempDir: string, disk: map<string, IndexFile>, files: map<string, Content>,
                     path: string, columns: seq<string>, key: string): (map<string, IndexFile>, Result<string>)
    requires chunkSize > 0
  {
    if path !in files then (disk, Err(SourceMissing(path)))
    else
      var name := IndexName(tempDir, path);
      if name in disk then (disk, Ok(name))
      else match SourceRows(path, files[path], key, columns)
        case Err(e) => (disk, Err(e))
        case Ok(rows) =>
          var b := BuildRows(chunkSize, rows);
          (Saved(disk, name, b.file), match b.outcome case Ok(_) => Ok(name) case Err(e) => Err(e))
  }

  /** What `getDataFromIndex` walks for each artifact: its decoded content, or None when the file is missing or does not decode. */
  function Indexes(disk: map<string, IndexFile>, names: seq<string>): (r: seq<Option<V>>)
    ensures |r| == |names|
  {
    seq(|names|, j requires 0 <= j < |names| => if names[j] in disk then Decode(disk[names[j]]) else None)
  }

  /** `mergeFiles`: the main file is merged as a sheet or as CSV according to its extension. */
  function MergeMain(files: map<string, Content>, path: string, names: seq<string>, key: string,
                     allColumns: seq<seq<string>>, disk: map<string, IndexFile>): Merge {
    if path !in files then Merge([], Err(SourceMissing(path)))
    else if IsSpreadsheet(path) then SheetMerge(AsTable(files[path]), key, allColumns, Indexes(disk, names), path)
    else CsvMerge(files[path], key, allColumns, Indexes(disk, names), path)
  }

  /** The positions below n of the files that have both a join key and a column list, in order. */
  function Included(n: nat, joinKeys: map<nat, string>, columns: map<nat, seq<string>>): (r: seq<nat>)
    ensures forall a :: 0 <= a < |r| ==> r[a] < n
    decreases n
  {
    if n == 0 then []
    else Included(n - 1, joinKeys, columns) + if n - 1 in joinKeys && n - 1 in columns then [n - 1] else []
  }

  /** The included positions are increasing, and they are exactly the files with both a join key and a column list. */
  lemma {:induction false} IncludedFacts(n: nat, joinKeys: map<nat, string>, columns: map<nat, seq<string>>)
    ensures forall a, b :: 0 <= a < b < |Included(n, joinKeys, columns)| ==> Included(n, joinKeys, columns)[a] < Included(n, joinKeys, columns)[b]
    ensures forall i: nat :: i < n ==> (i in Included(n, joinKeys, columns) <==> i in joinKeys && i in columns)
  {
    if n > 0 {
      IncludedFacts(n - 1, joinKeys, columns);
    }
  }

  /** The column lists `processFiles` collects, one per included file. */
  function PlanColumns(n: nat, joinKeys: map<nat, string>, columns: map<nat, seq<string>>): seq<seq<string>>
    decreases n
  {
    if n == 0 then []
    else PlanColumns(n - 1, joinKeys, columns) + if n - 1 in joinKeys && n - 1 in columns then [columns[n - 1]] else []
  }

  /** The builds of `processFiles` over the first n files, stopping at the first error. */
  function BuildAll(chunkSize: nat, tempDir: string, disk: map<string, IndexFile>, files: map<string, Content>,
                    metas: seq<FileMeta>, joinKeys: map<nat, string>, columns: map<nat, seq<string>>, n: nat): (map<string, IndexFile>, Result<seq<string>>)
    requires chunkSize > 0 && n <= |metas|
    decreases n
  {
    if n == 0 then (disk, Ok([]))
    else
      var prev := BuildAll(chunkSize, tempDir, disk, files, metas, joinKeys, columns, n - 1);
      if prev.1.Err? || !(n - 1 in joinKeys && n - 1 in columns) then prev
      else
        var next := BuildSpec(chunkSize, tempDir, prev.0, files, metas[n - 1].path, columns[n - 1], joinKeys[n - 1]);
        (next.0, match next.1 case Err(e) => Err(e) case Ok(name) => Ok(prev.1.value + [name]))
  }

  /** The join key of the main file: `$joinKeys[0]`, and null, which only matches an empty header name, when it is missing. */
  function MainKey(joinKeys: map<nat, string>): string {
    if 0 in joinKeys then joinKeys[0] else ""
  }

  /** The artifact `name` as `fopen` finds it: None when it does not exist. */
  function Stored(disk: map<string, IndexFile>, name: string): Option<IndexFile> {
    if name in disk then Some(disk[name]) else None
  }

  /** A disk that differs from d0 only at a new artifact `name` is d0 with that artifact saved. */
  lemma SavedFrom(d0: map<string, IndexFile>, d: map<string, IndexFile>, name: string, f: Option<IndexFile>)
    requires name !in d0 && Stored(d, name) == f
    requires forall n :: n != name ==> Stored(d, n) == Stored(d0, n)
    ensures d == Saved(d0, name, f)
  {
    var s := Saved(d0, name, f);
    forall n ensures n in d <==> n in s {
      assert Stored(d, n) == Stored(d0, n) || n == name;
    }
    forall n | n in d ensures d[n] == s[n] {
      assert Stored(d, n) == Stored(s, n);
    }
  }

  /** Every cached index is what its artifact decodes to. */
  predicate Coherent(cache: map<string, V>, disk: map<string, IndexFile>) {
    forall n :: n in cache ==> n in disk && Decode(disk[n]) == Some(cache[n])
  }

  /** Writing an artifact that is not cached keeps the cache coherent. */
  lemma CoherentWrite(cache: map<string, V>, disk: map<string, IndexFile>, name: string, f: IndexFile)
    requires Coherent(cache, disk) && name !in cache
    ensures Coherent(cache, disk[name := f])
  {
  }

  class FileMerger {
    const tempDir: string
    /** The number of rows per index batch. */
    const chunkSize: nat
    /** The index artifacts in the temporary directory, by artifact name. */
    var disk: map<string, IndexFile>
    /** `getDataFromIndex`'s static cache: decoded indexes by artifact name. */
    var cache: map<string, V>

    /** Every cached index is what its artifact decodes to. */
    predicate Valid()
      reads this
    {
      chunkSize > 0 && Coherent(cache, disk)
    }

    /** A merger over a temporary directory that may hold artifacts of earlier runs, with an empty cache. */
    constructor(tempDir: string, chunkSize: nat, disk: map<string, IndexFile>)
      requires chunkSize > 0
      ensures Valid()
      ensures this.tempDir == tempDir && this.chunkSize == chunkSize && this.disk == disk && cache == map[]
    {
      this.tempDir := tempDir;
      this.chunkSize := chunkSize;
      this.disk := disk;
      this.cache := map[];
    }

    /** `writeIndexChunk`: the first batch truncates the artifact and opens it with `{`; later ones append. */
    method WriteChunk(name: string, data: Entries, isFirst: bool)
      requires Valid() && name !in cache
      modifies this
      ensures Valid() && cache == old(cache)
      ensures Stored(disk, name) == Some(WriteIndexChunk(Stored(old(disk), name), data, isFirst))
      ensures forall n :: n != name ==> Stored(disk, n) == Stored(old(disk), n)
    {
      var written := WriteIndexChunk(Stored(disk, name), data, isFirst);
      CoherentWrite(cache, disk, name, written);
      disk := disk[name := written];
    }

    /**
     * One pass of the row loop over row i: store the row in the pending
     * batch, and flush the batch on every chunkSize-th row.
     */
    method StoreRow(name: string, pending: Entries, count: nat, row: Keyed, ghost rows: seq<Keyed>, ghost i: nat)
      returns (pending': Entries, count': nat, crashed: bool)
      requires Valid() && name !in cache
      requires i < |rows| && rows[i] == row
      requires Run(chunkSize, rows[..i]) == Progress(Stored(disk, name), pending, count, false)
      modifies this
      ensures Valid() && cache == old(cache)
      ensures Run(chunkSize, rows[..i + 1]) == Progress(Stored(disk, name), pending', count', crashed)
      ensures forall n :: n != name ==> Stored(disk, n) == Stored(old(disk), n)
    {
      assert rows[..i + 1][..i] == rows[..i];
      var stored := Store(pending, row);
      if stored.None? {
        return pending, count, true;
      }
      pending' := stored.value;
      count' := count + 1;
      crashed := false;
      if count' % chunkSize == 0 {
        WriteChunk(name, pending', count' == chunkSize);
        pending' := [];
      }
    }

    /**
     * The row loop of `buildIndexFromCsv` and `buildIndexFromExcel` for an
     * artifact not on disk yet; it stops at a row that cannot be stored.
     */
    method RowLoop(name: string, rows: seq<Keyed>) returns (pending: Entries, count: nat, crashed: bool)
      requires Valid() && name !in disk
      modifies this
      ensures Valid() && cache == old(cache)
      ensures Run(chunkSize, rows) == Progress(Stored(disk, name), pending, count, crashed)
      ensures forall n :: n != name ==> Stored(disk, n) == Stored(old(disk), n)
    {
      pending, count, crashed := [], 0, false;
      var i := 0;
      while i < |rows| && !crashed
        invariant 0 <= i <= |rows|
        invariant Valid() && cache == old(cache) && name !in cache
        invariant Run(chunkSize, rows[..i]) == Progress(Stored(disk, name), pending, count, crashed)
        invariant forall n :: n != name ==> Stored(disk, n) == Stored(old(disk), n)
      {
        pending, count, crashed := StoreRow(name, pending, count, rows[i], rows, i);
        i := i + 1;
      }
      RunAfterStop(chunkSize, rows, i);
    }

    /** After the row loop: the non-empty remainder is flushed, truncating only if no batch was flushed before. */
    method StoreRows(name: string, rows: seq<Keyed>) returns (outcome: Result<nat>)
      requires Valid() && name !in disk
      modifies this
      ensures Valid() && cache == old(cache)
      ensures disk == Saved(old(disk), name, BuildRows(chunkSize, rows).file)
      ensures outcome == BuildRows(chunkSize, rows).outcome
    {
      ghost var before := disk;
      var pending, count, crashed := RowLoop(name, rows);
      if crashed {
        outcome := Err(StringOffset(count));
      } else {
        if pending != [] {
          WriteChunk(name, pending, count <= chunkSize);
        }
        outcome := Ok(count);
      }
      SavedFrom(before, disk, name, BuildRows(chunkSize, rows).file);
    }

    /** `buildIndex` with its two readers: the source is read as a sheet or as CSV according to its extension. */
    method BuildIndex(files: map<string, Content>, path: string, columns: seq<string>, key: string) returns (r: Result<string>)
      requires Valid()
      modifies this
      ensures Valid() && cache == old(cache)
      ensures (disk, r) == BuildSpec(chunkSize, tempDir, old(disk), files, path, columns, key)
    {
      if path !in files {
        return Err(SourceMissing(path));
      }
      var name := IndexName(tempDir, path);
      if name in disk {
        return Ok(name);
      }
      var rows := SourceRows(path, files[path], key, columns);
      if rows.Err? {
        return Err(rows.error);
      }
      var outcome := StoreRows(name, rows.value);
      if outcome.Err? {
        return Err(outcome.error);
      }
      return Ok(name);
    }

    /**
     * `getDataFromIndex`: the artifact is decoded once and cached; a missing
     * artifact or one that does not decode gives null and is not cached. The
     * path is then walked chunk by chunk; null as soon as a chunk is absent,
     * else the array reached.
     */
    method GetDataFromIndex(name: string, path: seq<string>) returns (r: Option<Entries>)
      requires Valid()
      modifies this
      ensures Valid() && disk == old(disk)
      ensures r == Matched(if name in disk then Decode(disk[name]) else None, path)
      ensures cache == if name in old(cache) || name !in disk || Decode(disk[name]).None? then old(cache)
                       else old(cache)[name := Decode(disk[name]).value]
    {
      if name !in cache {
        if name !in disk {
          return None;
        }
        var decoded := Decode(disk[name]);
        if decoded.None? {
          return None;
        }
        cache := cache[name := decoded.value];
      }
      var current := cache[name];
      var i := 0;
      while i < |path|
        invariant 0 <= i <= |path|
        invariant Lookup(cache[name], path) == Lookup(current, path[i..])
      {
        assert path[i..][1..] == path[i + 1..];
        match current {
          case Str(_) =>
            return None;
          case Arr(es) =>
            match Find(es, path[i]) {
              case None =>
                return None;
              case Some(child) =>
                current := child;
            }
        }
        i := i + 1;
      }
      match current {
        case Str(_) =>
          return None;
        case Arr(es) =>
          return Some(es);
      }
    }

    /** The loop over the index files for one main row: every non-empty match is `array_merge`d in, in index order. */
    method MergeRow(base: Entries, names: seq<string>, path: seq<string>) returns (merged: Entries)
      requires Valid()
      modifies this
      ensures Valid() && disk == old(disk)
      ensures merged == MergeMatches(base, Indexes(disk, names), path)
    {
      merged := base;
      var j := 0;
      while j < |names|
        invariant 0 <= j <= |names|
        invariant Valid() && disk == old(disk)
        invariant merged == MergeMatches(base, Indexes(disk, names)[..j], path)
      {
        ghost var indexes := Indexes(disk, names);
        assert indexes[..j + 1][..j] == indexes[..j];
        var m := GetDataFromIndex(names[j], path);
        if m.Some? && m.value != [] {
          merged := ArrayMerge(merged, m.value);
        }
        j := j + 1;
      }
      assert Indexes(disk, names)[..j] == Indexes(disk, names);
    }

    /** The CSV base row: each of the first file's columns, assigned in order with its value in the main row. */
    static method BaseRow(combined: Entries, columns: seq<string>) returns (row: Entries)
      ensures row == CsvBase(combined, columns)
    {
      row := [];
      var j := 0;
      while j < |columns|
        invariant 0 <= j <= |columns|
        invariant row == ArrayMerge([], Projection(combined, columns[..j]))
      {
        var x := (columns[j], ValueOrEmpty(combined, columns[j]));
        assert columns[..j + 1][..j] == columns[..j];
        var p := Projection(combined, columns[..j + 1]);
        assert p == Projection(combined, columns[..j]) + [x];
        assert p[..|p| - 1] == Projection(combined, columns[..j]);
        row := Assign(row, x.0, x.1);
        j := j + 1;
      }
      assert columns[..j] == columns;
    }

    /** One CSV output line for a row as wide as the header. */
    method CsvLine(header: seq<string>, row: seq<string>, keyIndex: nat, first: seq<string>, names: seq<string>) returns (cells: seq<string>)
      requires Valid() && |row| == |header|
      modifies this
      ensures Valid() && disk == old(disk)
      ensures CsvRow(header, row, keyIndex, first, Indexes(disk, names)) == Some(cells)
    {
      var base := BaseRow(Combine(header, row), first);
      var merged := MergeRow(base, names, StrSplit2(CellAt(row, keyIndex)));
      cells := Cells(merged);
    }

    /**
     * `mergeCsvFiles`: the header line is every file's column list in turn;
     * each row becomes the first file's columns with the matches merged in;
     * a row whose width differs from the header stops the merge.
     */
    method MergeCsvFiles(content: Content, names: seq<string>, joinKey: string, allColumns: seq<seq<string>>, path: string)
      returns (lines: seq<seq<string>>, outcome: Result<nat>)
      requires Valid()
      modifies this
      ensures Valid() && disk == old(disk)
      ensures Merge(lines, outcome) == CsvMerge(content, joinKey, allColumns, Indexes(disk, names), path)
    {
      if content == [] {
        return [], Err(NoHeader(path));
      }
      var header := content[0];
      var k := ArraySearch(header, joinKey);
      if k.None? {
        return [], Err(JoinKeyNotFound(joinKey, path));
      }
      var keyIndex := k.value;
      var first := if allColumns == [] then [] else allColumns[0];
      var body, failed := CsvRowLoop(header, content[1..], keyIndex, first, names);
      lines := [Flatten(allColumns)] + body;
      if failed.Some? {
        outcome := Err(failed.value);
      } else {
        CsvBodyComplete(header, content[1..], keyIndex, first, Indexes(disk, names));
        outcome := Ok(|body|);
      }
    }

    /**
     * The row loop of `mergeCsvFiles`: one line per row, in order, stopping
     * at the first row whose width differs from the header.
     */
    method CsvRowLoop(header: seq<string>, rows: seq<seq<string>>, keyIndex: nat, first: seq<string>, names: seq<string>)
      returns (body: seq<seq<string>>, failed: Option<Error>)
      requires Valid()
      modifies this
      ensures Valid() && disk == old(disk)
      ensures Body(body, failed) == CsvBody(header, rows, keyIndex, first, Indexes(disk, names))
    {
      ghost var indexes := Indexes(disk, names);
      ghost var results := seq(|rows|, i requires 0 <= i < |rows| => CsvRow(header, rows[i], keyIndex, first, indexes));
      body := [];
      var processed: nat := 0;
      while processed < |rows|
        invariant processed <= |rows|
        invariant Valid() && disk == old(disk)
        invariant Emit(results[..processed]) == Body(body, None)
      {
        var row := rows[processed];
        EmitNext(results, processed);
        if |row| != |header| {
          EmitStopped(results, processed + 1);
          return body, Some(RowWidth(processed));
        }
        var cells := CsvLine(header, row, keyIndex, first, names);
        assert results[processed] == Some(cells);
        body := body + [cells];
        processed := processed + 1;
      }
      assert results[..processed] == results;
      failed := None;
    }

    /** The per-header fill: one cell per output column, `''` where the merged row has none. */
    static method FillRow(merged: Entries, finalHeader: seq<string>) returns (cells: seq<string>)
      ensures cells == FinalRow(merged, finalHeader)
    {
      cells := [];
      var j := 0;
      while j < |finalHeader|
        invariant 0 <= j <= |finalHeader|
        invariant cells == FinalRow(merged, finalHeader[..j])
      {
        assert finalHeader[..j + 1][..j] == finalHeader[..j];
        cells := cells + [CellText(ValueOrEmpty(merged, finalHeader[j]))];
        j := j + 1;
      }
      assert finalHeader[..j] == finalHeader;
    }

    /** One spreadsheet output line: the row's cells under the header, the matches merged in, one cell per output column. */
    method SheetLine(header: seq<string>, row: seq<string>, keyIndex: nat, finalHeader: seq<string>, names: seq<string>) returns (cells: seq<string>)
      requires Valid()
      modifies this
      ensures Valid() && disk == old(disk)
      ensures cells == SheetRow(header, row, keyIndex, finalHeader, Indexes(disk, names))
    {
      var merged := MergeRow(Combine(header, RowData(row, |header|)), names, StrSplit2(CellAt(row, keyIndex)));
      cells := FillRow(merged, finalHeader);
    }

    /**
     * `mergeExcelFiles`: the join key is searched case-insensitively in the
     * trimmed header; each data row is combined with the header, the matches
     * merged in, and written with one cell per output column.
     */
    method MergeExcelFiles(t: Table, names: seq<string>, joinKey: string, allColumns: seq<seq<string>>, path: string)
      returns (lines: seq<seq<string>>, outcome: Result<nat>)
      requires Valid()
      modifies this
      ensures Valid() && disk == old(disk)
      ensures Merge(lines, outcome) == SheetMerge(t, joinKey, allColumns, Indexes(disk, names), path)
    {
      var header := SheetHeader(t);
      var k := KeyColumn(header, joinKey, true, path);
      if k.Err? {
        return [], Err(k.error);
      }
      var finalHeader := Flatten(allColumns);
      var body := SheetRowLoop(header, t.rows, k.value, finalHeader, names);
      lines := [finalHeader] + body;
      outcome := Ok(|t.rows|);
    }

    /** The row loop of `mergeExcelFiles`: one line per data row, in order. */
    method SheetRowLoop(header: seq<string>, rows: seq<seq<string>>, keyIndex: nat, finalHeader: seq<string>, names: seq<string>)
      returns (body: seq<seq<string>>)
      requires Valid()
      modifies this
      ensures Valid() && disk == old(disk)
      ensures body == SheetBody(header, rows, keyIndex, finalHeader, Indexes(disk, names))
    {
      ghost var indexes := Indexes(disk, names);
      body := [];
      var i := 0;
      while i < |rows|
        invariant 0 <= i <= |rows|
        invariant Valid() && disk == old(disk)
        invariant body == SheetBody(header, rows[..i], keyIndex, finalHeader, indexes)
      {
        var cells := SheetLine(header, rows[i], keyIndex, finalHeader, names);
        SheetBodyNext(header, rows, keyIndex, finalHeader, indexes, i);
        body := body + [cells];
        i := i + 1;
      }
      assert rows[..i] == rows;
    }

    /** `mergeFiles`: dispatch on the main file's extension. */
    method MergeFiles(files: map<string, Content>, path: string, names: seq<string>, joinKey: string, allColumns: seq<seq<string>>)
      returns (lines: seq<seq<string>>, outcome: Result<nat>)
      requires Valid()
      modifies this
      ensures Valid() && disk == old(disk)
      ensures Merge(lines, outcome) == MergeMain(files, path, names, joinKey, allColumns, disk)
    {
      if path !in files {
        return [], Err(SourceMissing(path));
      }
      if IsSpreadsheet(path) {
        lines, outcome := MergeExcelFiles(AsTable(files[path]), names, joinKey, allColumns, path);
      } else {
        lines, outcome := MergeCsvFiles(files[path], names, joinKey, allColumns, path);
      }
    }

    /**
     * `processFiles`: no files is an error; every file with a join key and a
     * column list is indexed, in order, the main file included; then the
     * first file is merged with all those indexes.
     */
    method ProcessFiles(files: map<string, Content>, metas: seq<FileMeta>, joinKeys: map<nat, string>, columns: map<nat, seq<string>>)
      returns (lines: seq<seq<string>>, outcome: Result<nat>)
      requires Valid()
      modifies this
      ensures Valid()
      ensures metas == [] ==> disk == old(disk) && lines == [] && outcome == Err(NoFiles)
      ensures metas != [] ==>
        var built := BuildAll(chunkSize, tempDir, old(disk), files, metas, joinKeys, columns, |metas|);
        disk == built.0 &&
        match built.1
        case Err(e) => lines == [] && outcome == Err(e)
        case Ok(names) =>
          Merge(lines, outcome) == MergeMain(files, metas[0].path, names, MainKey(joinKeys), PlanColumns(|metas|, joinKeys, columns), disk)
    {
      if metas == [] {
        return [], Err(NoFiles);
      }
      var names: seq<string> := [];
      var allColumns: seq<seq<string>> := [];
      var i := 0;
      while i < |metas|
        invariant 0 <= i <= |metas|
        invariant Valid()
        invariant BuildAll(chunkSize, tempDir, old(disk), files, metas, joinKeys, columns, i) == (disk, Ok(names))
        invariant allColumns == PlanColumns(i, joinKeys, columns)
      {
        if i in joinKeys && i in columns {
          var r := BuildIndex(files, metas[i].path, columns[i], joinKeys[i]);
          if r.Err? {
            BuildAllStops(chunkSize, tempDir, old(disk), files, metas, joinKeys, columns, i + 1, |metas|);
            return [], Err(r.error);
          }
          names := names + [r.value];
          allColumns := allColumns + [columns[i]];
        }
        i := i + 1;
      }
      lines, outcome := MergeFiles(files, metas[0].path, names, MainKey(joinKeys), allColumns);
    }
  }

  /** Once a build fails, the later files are not indexed and the disk stays as that build left it. */
  lemma {:induction false} BuildAllStops(chunkSize: nat, tempDir: string, disk: map<string, IndexFile>, files: map<string, Content>,
                                         metas: seq<FileMeta>, joinKeys: map<nat, string>, columns: map<nat, seq<string>>, n: nat, m: nat)
    requires chunkSize > 0 && n <= m <= |metas|
    requires BuildAll(chunkSize, tempDir, disk, files, metas, joinKeys, columns, n).1.Err?
    ensures BuildAll(chunkSize, tempDir, disk, files, metas, joinKeys, columns, m) == BuildAll(chunkSize, tempDir, disk, files, metas, joinKeys, columns, n)
    decreases m
  {
    if m > n {
      BuildAllStops(chunkSize, tempDir, disk, files, metas, joinKeys, columns, n, m - 1);
    }
  }

  /** Entry j of the artifact names and of the column lists belongs to the file at position `inc[j]`. */
  predicate Parallel(names: seq<string>, inc: seq<nat>, plan: seq<seq<string>>, tempDir: string, metas: seq<FileMeta>, columns: map<nat, seq<string>>) {
    |names| == |inc| && |plan| == |inc| &&
    forall j :: 0 <= j < |inc| ==>
      inc[j] < |metas| && inc[j] in columns && names[j] == IndexName(tempDir, metas[inc[j]].path) && plan[j] == columns[inc[j]]
  }

  lemma ParallelSnoc(names: seq<string>, inc: seq<nat>, plan: seq<seq<string>>, tempDir: string, metas: seq<FileMeta>, columns: map<nat, seq<string>>, i: nat)
    requires Parallel(names, inc, plan, tempDir, metas, columns)
    requires i < |metas| && i in columns
    ensures Parallel(names + [IndexName(tempDir, metas[i].path)], inc + [i], plan + [columns[i]], tempDir, metas, columns)
  {
  }

  /**
   * `indexFiles` and `allColumns` are parallel: entry j belongs to the j-th
   * file, in input order, that has both a join key and a column list, and
   * names that file's index artifact.
   */
  lemma BuildAllPlan(chunkSize: nat, tempDir: string, disk: map<string, IndexFile>, files: map<string, Content>,
                     metas: seq<FileMeta>, joinKeys: map<nat, string>, columns: map<nat, seq<string>>, n: nat)
    requires chunkSize > 0 && n <= |metas|
    requires BuildAll(chunkSize, tempDir, disk, files, metas, joinKeys, columns, n).1.Ok?
    ensures Parallel(BuildAll(chunkSize, tempDir, disk, files, metas, joinKeys, columns, n).1.value,
                     Included(n, joinKeys, columns), PlanColumns(n, joinKeys, columns), tempDir, metas, columns)
  {
    BuildAllNames(chunkSize, tempDir, disk, files, metas, joinKeys, columns, n);
    PlanParallel(tempDir, metas, joinKeys, columns, n);
  }

  /** The artifact names of the files below n that have both a join key and a column list, in order. */
  function PlannedNames(tempDir: string, metas: seq<FileMeta>, joinKeys: map<nat, string>, columns: map<nat, seq<string>>, n: nat): seq<string>
    requires n <= |metas|
  {
    if n == 0 then []
    else
      var front := PlannedNames(tempDir, metas, joinKeys, columns, n - 1);
      if n - 1 in joinKeys && n - 1 in columns then front + [IndexName(tempDir, metas[n - 1].path)] else front
  }

  /** The planned names, the included positions and the planned column lists are parallel. */
  lemma {:induction false} PlanParallel(tempDir: string, metas: seq<FileMeta>, joinKeys: map<nat, string>, columns: map<nat, seq<string>>, n: nat)
    requires n <= |metas|
    ensures Parallel(PlannedNames(tempDir, metas, joinKeys, columns, n), Included(n, joinKeys, columns), PlanColumns(n, joinKeys, columns), tempDir, metas, columns)
  {
    if n > 0 {
      PlanParallel(tempDir, metas, joinKeys, columns, n - 1);
      if n - 1 in joinKeys && n - 1 in columns {
        ParallelSnoc(PlannedNames(tempDir, metas, joinKeys, columns, n - 1), Included(n - 1, joinKeys, columns),
                     PlanColumns(n - 1, joinKeys, columns), tempDir, metas, columns, n - 1);
      }
    }
  }

  /** A run of builds that succeeds returns the planned artifact names. */
  lemma {:induction false} BuildAllNames(chunkSize: nat, tempDir: string, disk: map<string, IndexFile>, files: map<string, Content>,
                                         metas: seq<FileMeta>, joinKeys: map<nat, string>, columns: map<nat, seq<string>>, n: nat)
    requires chunkSize > 0 && n <= |metas|
    requires BuildAll(chunkSize, tempDir, disk, files, metas, joinKeys, columns, n).1.Ok?
    ensures BuildAll(chunkSize, tempDir, disk, files, metas, joinKeys, columns, n).1.value == PlannedNames(tempDir, metas, joinKeys, columns, n)
  {
    if n > 0 {
      BuildAllNext(chunkSize, tempDir, disk, files, metas, joinKeys, columns, n);
      BuildAllNames(chunkSize, tempDir, disk, files, metas, joinKeys, columns, n - 1);
    }
  }

  /** A successful step of the file loop appends the file's artifact name when the file is included, and nothing otherwise. */
  lemma BuildAllNext(chunkSize: nat, tempDir: string, disk: map<string, IndexFile>, files: map<string, Content>,
                     metas: seq<FileMeta>, joinKeys: map<nat, string>, columns: map<nat, seq<string>>, n: nat)
    requires chunkSize > 0 && 0 < n <= |metas|
    requires BuildAll(chunkSize, tempDir, disk, files, metas, joinKeys, columns, n).1.Ok?
    ensures BuildAll(chunkSize, tempDir, disk, files, metas, joinKeys, columns, n - 1).1.Ok?
    ensures BuildAll(chunkSize, tempDir, disk, files, metas, joinKeys, columns, n).1.value ==
      BuildAll(chunkSize, tempDir, disk, files, metas, joinKeys, columns, n - 1).1.value +
      if n - 1 in joinKeys && n - 1 in columns then [IndexName(tempDir, metas[n - 1].path)] else []
  {
    var prev := BuildAll(chunkSize, tempDir, disk, files, metas, joinKeys, columns, n - 1);
    if n - 1 in joinKeys && n - 1 in columns {
      BuildSpecName(chunkSize, tempDir, prev.0, files, metas[n - 1].path, columns[n - 1], joinKeys[n - 1]);
    }
  }

  /** A build that succeeds names its source's artifact. */
  lemma BuildSpecName(chunkSize: nat, tempDir: string, disk: map<string, IndexFile>, files: map<string, Content>,
                      path: string, columns: seq<string>, key: string)
    requires chunkSize > 0
    ensures BuildSpec(chunkSize, tempDir, disk, files, path, columns, key).1.Ok? ==>
      BuildSpec(chunkSize, tempDir, disk, files, path, columns, key).1.value == IndexName(tempDir, path)
  {
  }

  /**
   * The main file is indexed like the others when it has a join key and a
   * column list: its own artifact comes first, so every main row is also
   * looked up in its own index.
   */
  lemma MainIndexedFirst(chunkSize: nat, tempDir: string, disk: map<string, IndexFile>, files: map<string, Content>,
                         metas: seq<FileMeta>, joinKeys: map<nat, string>, columns: map<nat, seq<string>>)
    requires chunkSize > 0 && metas != []
    requires BuildAll(chunkSize, tempDir, disk, files, metas, joinKeys, columns, |metas|).1.Ok?
    requires 0 in joinKeys && 0 in columns
    ensures var names := BuildAll(chunkSize, tempDir, disk, files, metas, joinKeys, columns, |metas|).1.value;
      names != [] && names[0] == IndexName(tempDir, metas[0].path) &&
      |PlanColumns(|metas|, joinKeys, columns)| == |names| && PlanColumns(|metas|, joinKeys, columns)[0] == columns[0]
  {
    BuildAllPlan(chunkSize, tempDir, disk, files, metas, joinKeys, columns, |metas|);
    IncludedFacts(|metas|, joinKeys, columns);
    var inc := Included(|metas|, joinKeys, columns);
    assert 0 in inc;
    assert inc[0] == 0;
  }
}

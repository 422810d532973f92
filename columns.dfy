/**
 * How the builders and the sheet merger find columns: the join key and the
 * projected columns are looked up in the header with `array_search`, exactly
 * for CSV files, and on trimmed, lower-cased cells for spreadsheets.
 */
module Columns {
  import opened Outcome
  import opened PhpValues
  import opened PhpStrings
  import opened Trie

  /** A file as its reader delivers it: a header row and the data rows. */
  datatype Table = Table(header: seq<string>, rows: seq<seq<string>>)

  /** The comparison form of a name: as is for CSV, lower-cased for spreadsheets. */
  function Norm(s: string, folded: bool): string {
    if folded then Lower(s) else s
  }

  function NormAll(header: seq<string>, folded: bool): (r: seq<string>)
    ensures |r| == |header|
    ensures forall i :: 0 <= i < |header| ==> r[i] == Norm(header[i], folded)
  {
    seq(|header|, i requires 0 <= i < |header| => Norm(header[i], folded))
  }

  /** Where the header holds a name: the first matching cell, or None. */
  function Search(header: seq<string>, name: string, folded: bool): Option<nat> {
    ArraySearch(NormAll(header, folded), Norm(name, folded))
  }

  /** The join key's column; a missing join key is the Exception "Join key ... not found". */
  function KeyColumn(header: seq<string>, key: string, folded: bool, path: string): (r: Result<nat>)
    ensures r.Ok? <==> Norm(key, folded) in NormAll(header, folded)
    ensures r.Ok? ==> r.value < |header| && Norm(header[r.value], folded) == Norm(key, folded)
    ensures r.Ok? ==> forall j :: 0 <= j < r.value ==> Norm(header[j], folded) != Norm(key, folded)
    ensures r.Err? ==> r.error == JoinKeyNotFound(key, path)
  {
    match Search(header, key, folded)
    case None => Err(JoinKeyNotFound(key, path))
    case Some(i) => Ok(i)
  }

  /** The requested columns the header has, in request order, repeats included. */
  function Found(header: seq<string>, columns: seq<string>, folded: bool): seq<string>
    decreases |columns|
  {
    if columns == [] then []
    else
      var front := Found(header, columns[..|columns| - 1], folded);
      var col := columns[|columns| - 1];
      if Search(header, col, folded).Some? then front + [col] else front
  }

  /**
   * `$columnIndices`: for each requested column the header has, the position
   * of its first matching cell, keyed by the requested name; a repeated
   * request assigns the same key again.
   */
  function ColumnIndices(header: seq<string>, columns: seq<string>, folded: bool): seq<(string, nat)>
    decreases |columns|
  {
    if columns == [] then []
    else
      var ci := ColumnIndices(header, columns[..|columns| - 1], folded);
      var col := columns[|columns| - 1];
      match Search(header, col, folded)
      case None => ci
      case Some(i) => Assign(ci, col, i)
  }

  /**
   * The keys of `$columnIndices` are the requested columns the header has,
   * each once, in the order of their first request; a missing one is dropped.
   */
  lemma {:induction false} ColumnIndicesKeys(header: seq<string>, columns: seq<string>, folded: bool)
    ensures Keys(ColumnIndices(header, columns, folded)) == Distinct(Found(header, columns, folded))
    decreases |columns|
  {
    if columns != [] {
      var front := columns[..|columns| - 1];
      var col := columns[|columns| - 1];
      ColumnIndicesKeys(header, front, folded);
      var ci := ColumnIndices(header, front, folded);
      var found := Found(header, front, folded);
      if Search(header, col, folded).Some? {
        AssignSpec(ci, col, Search(header, col, folded).value);
        assert (found + [col])[..|found|] == found;
      }
    }
  }

  /** Each key of `$columnIndices` maps to the first header cell matching it. */
  lemma {:induction false} ColumnIndicesFind(header: seq<string>, columns: seq<string>, folded: bool, col: string)
    ensures Find(ColumnIndices(header, columns, folded), col) ==
      if col in columns then Search(header, col, folded) else None
    decreases |columns|
  {
    if columns != [] {
      var front := columns[..|columns| - 1];
      var last := columns[|columns| - 1];
      assert columns == front + [last];
      ColumnIndicesFind(header, front, folded, col);
      var ci := ColumnIndices(header, front, folded);
      if Search(header, last, folded).Some? {
        AssignSpec(ci, last, Search(header, last, folded).value);
      }
    }
  }

  lemma ColumnIndicesUnique(header: seq<string>, columns: seq<string>, folded: bool)
    ensures UniqueKeys(ColumnIndices(header, columns, folded))
  {
    ColumnIndicesKeys(header, columns, folded);
    DistinctNoDup(Found(header, columns, folded));
  }

  /** `$requiredCols`: each resolved column with the row's cell there, `''` where the row is too short. */
  function Record(row: seq<string>, ci: seq<(string, nat)>): (r: Entries)
    ensures |r| == |ci|
    ensures Keys(r) == Keys(ci)
    decreases |ci|
  {
    if ci == [] then []
    else
      var rest := Record(row, ci[1..]);
      assert Keys([(ci[0].0, Str(CellAt(row, ci[0].1)))] + rest) == [ci[0].0] + Keys(rest);
      [(ci[0].0, Str(CellAt(row, ci[0].1)))] + rest
  }

  /** A record reads, for each resolved column, the row's cell at that column's position. */
  lemma {:induction false} RecordFind(row: seq<string>, ci: seq<(string, nat)>, col: string)
    ensures Find(Record(row, ci), col) ==
      match Find(ci, col) case None => None case Some(i) => Some(Str(CellAt(row, i)))
    decreases |ci|
  {
    if ci != [] {
      RecordFind(row, ci[1..], col);
    }
  }

  /** One data row as the builder stores it: its join value, `(string)$row[$keyIndex]`, and its record. */
  function KeyedRow(row: seq<string>, keyIndex: nat, ci: seq<(string, nat)>): Keyed {
    Keyed(CellAt(row, keyIndex), Record(row, ci))
  }

  /**
   * The rows a builder stores, once the join key is resolved; Err when the
   * header has no join-key column.
   */
  function IndexedRows(header: seq<string>, rows: seq<seq<string>>, key: string, columns: seq<string>, folded: bool, path: string): (r: Result<seq<Keyed>>)
    ensures r.Err? <==> Norm(key, folded) !in NormAll(header, folded)
    ensures r.Ok? ==> |r.value| == |rows|
    ensures r.Ok? ==> forall i :: 0 <= i < |rows| ==>
      r.value[i].key == CellAt(rows[i], KeyColumn(header, key, folded, path).value) &&
      r.value[i].record == Record(rows[i], ColumnIndices(header, columns, folded))
  {
    match KeyColumn(header, key, folded, path)
    case Err(e) => Err(e)
    case Ok(k) =>
      var ci := ColumnIndices(header, columns, folded);
      Ok(seq(|rows|, i requires 0 <= i < |rows| => KeyedRow(rows[i], k, ci)))
  }

  /** The records a builder stores have each column once. */
  lemma IndexedRowsUnique(header: seq<string>, rows: seq<seq<string>>, key: string, columns: seq<string>, folded: bool, path: string)
    requires IndexedRows(header, rows, key, columns, folded, path).Ok?
    ensures RecordsUnique(IndexedRows(header, rows, key, columns, folded, path).value)
  {
    ColumnIndicesUnique(header, columns, folded);
  }

  /** The width PhpSpreadsheet reports: the widest row, header included, and at least one column. */
  function SheetWidth(t: Table): (w: nat)
    ensures w >= 1 && w >= |t.header|
    ensures forall i :: 0 <= i < |t.rows| ==> w >= |t.rows[i]|
    ensures w == 1 || w == |t.header| || exists i :: 0 <= i < |t.rows| && w == |t.rows[i]|
  {
    MaxLength(t.rows, if |t.header| >= 1 then |t.header| else 1)
  }

  function MaxLength(rows: seq<seq<string>>, least: nat): (m: nat)
    ensures m >= least
    ensures forall i :: 0 <= i < |rows| ==> m >= |rows[i]|
    ensures m == least || exists i :: 0 <= i < |rows| && m == |rows[i]|
    decreases |rows|
  {
    if rows == [] then least
    else
      var m := MaxLength(rows[1..], if |rows[0]| > least then |rows[0]| else least);
      assert m == least || m == |rows[0]| || exists i :: 1 <= i < |rows| && m == |rows[i]| by {
        if m != least && m != |rows[0]| {
          var i :| 0 <= i < |rows[1..]| && m == |rows[1..][i]|;
          assert m == |rows[i + 1]|;
        }
      }
      m
  }

  /** The spreadsheet header as read: one trimmed cell per column of the sheet. */
  function SheetHeader(t: Table): (h: seq<string>)
    ensures |h| == SheetWidth(t)
    ensures forall i :: 0 <= i < |h| ==> h[i] == Trim(CellAt(t.header, i))
  {
    seq(SheetWidth(t), i requires 0 <= i < SheetWidth(t) => Trim(CellAt(t.header, i)))
  }

  /**
   * `buildFinalHeader`: the main header, then every listed column it does
   * not have yet, in list order.
   */
  function BuildFinalHeader(mainHeader: seq<string>, allColumns: seq<seq<string>>): seq<string> {
    AppendMissing(mainHeader, Flatten(allColumns))
  }

  function AppendMissing(acc: seq<string>, columns: seq<string>): seq<string>
    decreases |columns|
  {
    if columns == [] then acc
    else AppendMissing(if columns[0] in acc then acc else acc + [columns[0]], columns[1..])
  }

  /**
   * The main header stays as it is in front; what follows holds each listed
   * column missing from it exactly once; nothing else is added.
   */
  lemma {:induction false} AppendMissingSpec(acc: seq<string>, columns: seq<string>)
    ensures acc <= AppendMissing(acc, columns)
    ensures forall x :: x in AppendMissing(acc, columns) <==> x in acc || x in columns
    ensures NoDup(AppendMissing(acc, columns)[|acc|..])
    ensures forall x :: x in AppendMissing(acc, columns)[|acc|..] ==> x !in acc
    decreases |columns|
  {
    if columns != [] {
      var c := columns[0];
      var acc' := if c in acc then acc else acc + [c];
      AppendMissingSpec(acc', columns[1..]);
      var r := AppendMissing(acc, columns);
      assert columns == [c] + columns[1..];
      if c !in acc {
        var tail := r[|acc'|..];
        assert r[|acc|..] == [c] + tail;
        forall i, j | 0 <= i < j < |r[|acc|..]| ensures r[|acc|..][i] != r[|acc|..][j] {
          if i == 0 {
            assert r[|acc|..][j] == tail[j - 1] && tail[j - 1] in tail;
            assert c in acc';
          } else {
            assert r[|acc|..][i] == tail[i - 1] && r[|acc|..][j] == tail[j - 1];
          }
        }
      }
    }
  }

  /** The appended columns are a subsequence of the list: some left out, the order of the rest kept. */
  lemma {:induction false} AppendMissingSubseq(acc: seq<string>, columns: seq<string>)
    ensures acc <= AppendMissing(acc, columns)
    ensures IsSubseq(AppendMissing(acc, columns)[|acc|..], columns)
    decreases |columns|
  {
    if columns != [] {
      var c := columns[0];
      var acc' := if c in acc then acc else acc + [c];
      AppendMissingSubseq(acc', columns[1..]);
      var r := AppendMissing(acc, columns);
      assert columns == [c] + columns[1..];
      if c in acc {
        SubseqOfTail(r[|acc|..], columns);
      } else {
        assert r[|acc|..] == [c] + r[|acc'|..];
        SubseqCons(c, r[|acc'|..], columns[1..]);
      }
    }
  }

  /**
   * The appended columns come in the order of their first occurrence in the
   * list: of two appended columns, the earlier one is listed first.
   */
  lemma {:induction false} AppendMissingOrder(acc: seq<string>, columns: seq<string>)
    ensures forall i, j :: |acc| <= i < j < |AppendMissing(acc, columns)| ==>
      FirstIndex(columns, AppendMissing(acc, columns)[i]) < FirstIndex(columns, AppendMissing(acc, columns)[j])
    decreases |columns|
  {
    AppendMissingSpec(acc, columns);
    if columns != [] {
      var c := columns[0];
      var t := columns[1..];
      var acc' := if c in acc then acc else acc + [c];
      AppendMissingOrder(acc', t);
      AppendMissingSpec(acc', t);
      var r := AppendMissing(acc, columns);
      assert r == AppendMissing(acc', t);
      assert columns == [c] + t;
      forall i | |acc'| <= i < |r| ensures r[i] in t && r[i] != c && FirstIndex(columns, r[i]) == FirstIndex(t, r[i]) + 1 {
        assert r[i] in r[|acc'|..] && c in acc';
        SearchCons(c, t, r[i]);
      }
      forall i, j | |acc| <= i < j < |r| ensures FirstIndex(columns, r[i]) < FirstIndex(columns, r[j]) {
        if i < |acc'| {
          assert r[i] == c && columns[0] == c;
        }
      }
    }
  }

  lemma BuildFinalHeaderSpec(mainHeader: seq<string>, allColumns: seq<seq<string>>)
    ensures mainHeader <= BuildFinalHeader(mainHeader, allColumns)
    ensures forall x :: x in BuildFinalHeader(mainHeader, allColumns) <==> x in mainHeader || x in Flatten(allColumns)
    ensures NoDup(BuildFinalHeader(mainHeader, allColumns)[|mainHeader|..])
    ensures forall x :: x in BuildFinalHeader(mainHeader, allColumns)[|mainHeader|..] ==> x !in mainHeader
    ensures IsSubseq(BuildFinalHeader(mainHeader, allColumns)[|mainHeader|..], Flatten(allColumns))
    ensures forall i, j :: |mainHeader| <= i < j < |BuildFinalHeader(mainHeader, allColumns)| ==>
      FirstIndex(Flatten(allColumns), BuildFinalHeader(mainHeader, allColumns)[i]) <
      FirstIndex(Flatten(allColumns), BuildFinalHeader(mainHeader, allColumns)[j])
  {
    AppendMissingSpec(mainHeader, Flatten(allColumns));
    AppendMissingSubseq(mainHeader, Flatten(allColumns));
    AppendMissingOrder(mainHeader, Flatten(allColumns));
  }
}

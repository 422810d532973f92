/**
 * The nested-array index of FileMerger: a record is stored at the path of
 * its key's 2-character chunks (`setNestedValue`) and found again by walking
 * the same path (the loop of `getDataFromIndex`).
 */
module Trie {
  import opened Outcome
  import opened PhpValues
  import opened PhpStrings

  /** Walking `path` from t steps INTO a string before the path ends. */
  predicate HitsString(t: V, path: seq<string>)
    decreases |path|
  {
    path != [] &&
    match t
    case Str(_) => true
    case Arr(es) =>
      match Find(es, path[0])
      case None => false
      case Some(c) => HitsString(c, path[1..])
  }

  /**
   * `setNestedValue($t, $path, $r)`: walks the path, creating `[]` for every
   * chunk that is not set, and replaces whatever sits at its end with r.
   * None stands for the PHP Error raised when the walk has to index into a
   * string (a cell of a record stored at a shorter key).
   */
  function SetNestedValue(t: V, path: seq<string>, r: V): (res: Option<V>)
    ensures res.None? <==> HitsString(t, path)
    ensures res.Some? && path != [] ==> res.value.Arr? && t.Arr?
    ensures res.Some? && r.Arr? ==> res.value.Arr?
    decreases |path|
  {
    if path == [] then Some(r)
    else match t
      case Str(_) => None
      case Arr(es) =>
        var child := match Find(es, path[0]) case Some(c) => c case None => Arr([]);
        match SetNestedValue(child, path[1..], r)
        case None => None
        case Some(c) => Some(Arr(Assign(es, path[0], c)))
  }

  /**
   * The walk of `getDataFromIndex`: None (`null`) as soon as a chunk is not
   * set or the walk meets a string; at the end of the path, the array found
   * there, whether it is a record or an intermediate branch.
   */
  function Lookup(t: V, path: seq<string>): Option<Entries>
    decreases |path|
  {
    if path == [] then (match t case Arr(es) => Some(es) case Str(_) => None)
    else match t
      case Str(_) => None
      case Arr(es) =>
        match Find(es, path[0])
        case None => None
        case Some(c) => Lookup(c, path[1..])
  }

  /** A missing chunk ends the lookup with null, whatever the rest of the path. */
  lemma {:induction false} LookupStopsAtMissingChunk(t: V, path: seq<string>, i: nat, es: Entries)
    requires i < |path|
    requires Lookup(t, path[..i]) == Some(es)
    requires path[i] !in Keys(es)
    ensures Lookup(t, path) == None
    decreases i
  {
    if i == 0 {
      assert t == Arr(es);
    } else {
      assert path[..i][0] == path[0] && path[..i][1..] == path[1..][..i - 1];
      match t
      case Arr(ts) =>
        var c := Find(ts, path[0]).value;
        LookupStopsAtMissingChunk(c, path[1..], i - 1, es);
    }
  }

  /**
   * Storing r at path p: looking up any path q that extends p (p itself
   * included) now reads r at the remainder, so the last record written at a
   * key wins, and every longer key stored below p before is gone.
   */
  lemma {:induction false} SetReplacesBelow(t: V, p: seq<string>, r: V, t': V, q: seq<string>)
    requires SetNestedValue(t, p, r) == Some(t')
    requires p <= q
    ensures Lookup(t', q) == Lookup(r, q[|p|..])
    decreases |p|
  {
    if p != [] {
      var es := t.entries;
      var child := match Find(es, p[0]) case Some(c) => c case None => Arr([]);
      var c :| SetNestedValue(child, p[1..], r) == Some(c) && t' == Arr(Assign(es, p[0], c));
      AssignSpec(es, p[0], c);
      assert q[0] == p[0] && p[1..] <= q[1..];
      SetReplacesBelow(child, p[1..], r, c, q[1..]);
      assert q[1..][|p| - 1..] == q[|p|..];
    }
  }

  /** Round trip: after storing record e at path p, looking p up gives exactly e. */
  lemma LookupAfterSet(t: V, p: seq<string>, e: Entries, t': V)
    requires SetNestedValue(t, p, Arr(e)) == Some(t')
    ensures Lookup(t', p) == Some(e)
  {
    SetReplacesBelow(t, p, Arr(e), t', p);
  }

  /** Neither path is a prefix of the other: they part ways at some chunk. */
  predicate Diverge(p: seq<string>, q: seq<string>) {
    !(p <= q) && !(q <= p)
  }

  /** Two paths that share their first chunk diverge exactly when their tails do. */
  lemma PrefixCons(p: seq<string>, q: seq<string>)
    requires p != [] && q != [] && p[0] == q[0]
    ensures p[1..] <= q[1..] <==> p <= q
    ensures p[1..] < q[1..] <==> p < q
  {
    assert p == [p[0]] + p[1..] && q == [q[0]] + q[1..];
  }

  lemma DivergeTails(p: seq<string>, q: seq<string>)
    requires Diverge(p, q) && p[0] == q[0]
    ensures Diverge(p[1..], q[1..])
  {
    PrefixCons(p, q);
    PrefixCons(q, p);
  }

  /** Storing at p leaves every path that diverges from p reading exactly as before. */
  lemma {:induction false} SetKeepsDivergent(t: V, p: seq<string>, r: V, t': V, q: seq<string>)
    requires SetNestedValue(t, p, r) == Some(t')
    requires Diverge(p, q)
    ensures Lookup(t', q) == Lookup(t, q)
    decreases |p|
  {
    var es := t.entries;
    var child := match Find(es, p[0]) case Some(c) => c case None => Arr([]);
    var c :| SetNestedValue(child, p[1..], r) == Some(c) && t' == Arr(Assign(es, p[0], c));
    AssignSpec(es, p[0], c);
    if q[0] == p[0] {
      DivergeTails(p, q);
      SetKeepsDivergent(child, p[1..], r, c, q[1..]);
    }
  }

  /**
   * A key whose chunk path is a proper prefix of a stored one finds the
   * intermediate branch array (holding the next chunk), not null.
   */
  lemma {:induction false} PrefixFindsBranch(t: V, p: seq<string>, r: V, t': V, q: seq<string>)
    requires SetNestedValue(t, p, r) == Some(t')
    requires q < p
    ensures Lookup(t', q).Some? && p[|q|] in Keys(Lookup(t', q).value)
    decreases |q|
  {
    var es := t.entries;
    var child := match Find(es, p[0]) case Some(c) => c case None => Arr([]);
    var c :| SetNestedValue(child, p[1..], r) == Some(c) && t' == Arr(Assign(es, p[0], c));
    AssignSpec(es, p[0], c);
    if q != [] {
      assert q[0] == p[0] && q[1..] < p[1..];
      PrefixFindsBranch(child, p[1..], r, c, q[1..]);
    }
  }

  /** The only strings a store can put in the walk of q lie below p, and only if p is a proper prefix of q. */
  lemma {:induction false} SetAddsStringsBelow(t: V, p: seq<string>, r: V, t': V, q: seq<string>)
    requires SetNestedValue(t, p, r) == Some(t')
    requires HitsString(t', q)
    ensures HitsString(t, q) || p < q
    decreases |p|
  {
    if p != [] {
      var es := t.entries;
      var child := match Find(es, p[0]) case Some(c) => c case None => Arr([]);
      var c :| SetNestedValue(child, p[1..], r) == Some(c) && t' == Arr(Assign(es, p[0], c));
      AssignSpec(es, p[0], c);
      if q[0] == p[0] {
        SetAddsStringsBelow(child, p[1..], r, c, q[1..]);
        PrefixCons(p, q);
      }
    }
  }

  /** One data row as the builders see it: its join value and its projected record. */
  datatype Keyed = Keyed(key: string, record: Entries)

  /** The chunk path of a join value, the same for building and for lookup. */
  function Path(key: string): seq<string> {
    StrSplit2(key)
  }

  /**
   * `setNestedValue($indexData, str_split($key, 2), $record)` on the batch
   * being accumulated; None when it raises the string-offset Error.
   */
  function Store(batch: Entries, row: Keyed): (r: Option<Entries>)
    ensures r.None? <==> HitsString(Arr(batch), Path(row.key))
  {
    match SetNestedValue(Arr(batch), Path(row.key), Arr(row.record))
    case None => None
    case Some(t) => Some(t.entries)
  }

  /** The batch obtained by storing rows one after the other into `[]`. */
  function Fill(rows: seq<Keyed>): Option<Entries>
    decreases |rows|
  {
    if rows == [] then Some([])
    else match Fill(rows[..|rows| - 1])
      case None => None
      case Some(es) => Store(es, rows[|rows| - 1])
  }

  /** Two join values whose chunk paths are equal or part ways: neither path runs on through the other. */
  predicate Apart(a: string, b: string) {
    a == b || Diverge(Path(a), Path(b))
  }

  /** No join value's chunk path is a proper prefix of another's. */
  predicate PrefixFree(rows: seq<Keyed>) {
    forall r, s :: r in rows && s in rows ==> Apart(r.key, s.key)
  }

  /** Join values that are equal or of which neither is a prefix of the other are apart. */
  lemma ApartFromStrings(a: string, b: string)
    requires a == b || (!(a <= b) && !(b <= a))
    ensures Apart(a, b)
  {
    if a != b {
      SplitDiverges(a, b);
    }
  }

  /** Every walk that meets a string in t runs on below the path of one of the rows. */
  ghost predicate StringsOnlyBelow(t: V, rows: seq<Keyed>) {
    forall q :: HitsString(t, q) ==> exists i :: 0 <= i < |rows| && Path(rows[i].key) < q
  }

  /** With prefix-free join values, storing never raises the string-offset Error. */
  lemma {:induction false} FillSucceeds(rows: seq<Keyed>)
    requires PrefixFree(rows)
    ensures Fill(rows).Some?
    ensures StringsOnlyBelow(Arr(Fill(rows).value), rows)
    decreases |rows|
  {
    if rows != [] {
      var n := |rows| - 1;
      var front := rows[..n];
      var last := rows[n];
      FillSucceeds(front);
      var es := Fill(front).value;
      forall i | 0 <= i < n ensures !(Path(front[i].key) < Path(last.key)) {
        assert front[i] == rows[i];
        assert rows[i] in rows && last in rows;
      }
      StoreStringsBelow(front, es, last);
      assert Fill(rows) == Store(es, last);
      assert front + [last] == rows;
    }
  }

  /**
   * Storing a row whose path no earlier path is a proper prefix of succeeds,
   * and every string it leaves on a path lies below some stored path.
   */
  lemma StoreStringsBelow(front: seq<Keyed>, es: Entries, last: Keyed)
    requires StringsOnlyBelow(Arr(es), front)
    requires forall i :: 0 <= i < |front| ==> !(Path(front[i].key) < Path(last.key))
    ensures Store(es, last).Some?
    ensures StringsOnlyBelow(Arr(Store(es, last).value), front + [last])
  {
    var rows := front + [last];
    var n := |front|;
    var t' := SetNestedValue(Arr(es), Path(last.key), Arr(last.record)).value;
    forall q | HitsString(t', q) ensures exists i :: 0 <= i < |rows| && Path(rows[i].key) < q {
      SetAddsStringsBelow(Arr(es), Path(last.key), Arr(last.record), t', q);
      if HitsString(Arr(es), q) {
        var i :| 0 <= i < |front| && Path(front[i].key) < q;
        assert rows[i] == front[i];
      } else {
        assert Path(rows[n].key) < q;
      }
    }
  }

  /**
   * With prefix-free join values, the record of the last row with a given
   * join value is what a lookup of that value finds in the batch.
   */
  lemma {:induction false} FillFindsLast(rows: seq<Keyed>, i: nat)
    requires PrefixFree(rows)
    requires i < |rows|
    requires forall j :: i < j < |rows| ==> rows[j].key != rows[i].key
    ensures Fill(rows).Some?
    ensures Lookup(Arr(Fill(rows).value), Path(rows[i].key)) == Some(rows[i].record)
    decreases |rows|
  {
    FillSucceeds(rows);
    var n := |rows| - 1;
    var front := rows[..n];
    var last := rows[n];
    assert Fill(front).Some? by { FillSucceeds(front); }
    var es := Fill(front).value;
    var t' := SetNestedValue(Arr(es), Path(last.key), Arr(last.record)).value;
    if i == n {
      LookupAfterSet(Arr(es), Path(last.key), last.record, t');
    } else {
      assert front[i] == rows[i];
      FillFindsLast(front, i);
      assert rows[i] in rows && last in rows;
      SetKeepsDivergent(Arr(es), Path(last.key), Arr(last.record), t', Path(rows[i].key));
    }
  }

  /** A join value whose path parts ways with every stored path is not found: the lookup gives null. */
  lemma {:induction false} FillMisses(rows: seq<Keyed>, k: string)
    requires Fill(rows).Some?
    requires k != ""
    requires forall i :: 0 <= i < |rows| ==> Diverge(Path(rows[i].key), Path(k))
    ensures Lookup(Arr(Fill(rows).value), Path(k)) == None
    decreases |rows|
  {
    if rows != [] {
      var n := |rows| - 1;
      var front := rows[..n];
      var last := rows[n];
      var es := Fill(front).value;
      forall i | 0 <= i < |front| ensures Diverge(Path(front[i].key), Path(k)) {
        assert front[i] == rows[i];
      }
      FillMisses(front, k);
      var t' := SetNestedValue(Arr(es), Path(last.key), Arr(last.record)).value;
      SetKeepsDivergent(Arr(es), Path(last.key), Arr(last.record), t', Path(k));
    }
  }

  /** Every record stored has no duplicate column. */
  predicate RecordsUnique(rows: seq<Keyed>) {
    forall r :: r in rows ==> UniqueKeys(r.record)
  }

  /** Storing at a non-empty path assigns the first chunk at the top level and touches no other top-level key. */
  lemma StoreTop(es: Entries, row: Keyed) returns (c: V)
    requires Store(es, row).Some?
    requires row.key != ""
    ensures Path(row.key)[0] == FirstChunk(row.key)
    ensures Store(es, row).value == Assign(es, FirstChunk(row.key), c)
  {
    FirstChunkIsHead(row.key);
    var p := Path(row.key);
    var child := match Find(es, p[0]) case Some(c) => c case None => Arr([]);
    c := SetNestedValue(child, p[1..], Arr(row.record)).value;
  }

  /** The top level of a batch is a well-formed array: no first chunk is written twice. */
  lemma {:induction false} FillUnique(rows: seq<Keyed>)
    requires Fill(rows).Some?
    requires RecordsUnique(rows)
    ensures UniqueKeys(Fill(rows).value)
    decreases |rows|
  {
    if rows != [] {
      var n := |rows| - 1;
      var front := rows[..n];
      var last := rows[n];
      FillUnique(front);
      var es := Fill(front).value;
      if last.key == "" {
        assert Fill(rows).value == last.record;
      } else {
        var c := StoreTop(es, last);
        AssignKeepsUnique(es, FirstChunk(last.key), c);
      }
    }
  }

  lemma StoreKeys(es: Entries, row: Keyed, c: string)
    requires Store(es, row).Some?
    requires row.key != ""
    ensures c in Keys(Store(es, row).value) <==> c in Keys(es) || c == FirstChunk(row.key)
  {
    var v := StoreTop(es, row);
    AssignSpec(es, FirstChunk(row.key), v);
  }

  /** When no join value is empty, the top-level keys of a batch are exactly the first chunks of its rows. */
  lemma {:induction false} FillFirstChunks(rows: seq<Keyed>, c: string)
    requires Fill(rows).Some?
    requires forall r :: r in rows ==> r.key != ""
    ensures c in Keys(Fill(rows).value) <==> exists r :: r in rows && FirstChunk(r.key) == c
    decreases |rows|
  {
    if rows != [] {
      var n := |rows| - 1;
      var front := rows[..n];
      var last := rows[n];
      assert rows == front + [last];
      FillFirstChunks(front, c);
      var es := Fill(front).value;
      assert Fill(rows) == Store(es, last);
      StoreKeys(es, last, c);
      if c in Keys(es) {
        var r :| r in front && FirstChunk(r.key) == c;
        assert r in rows;
      } else if c == FirstChunk(last.key) {
        assert last in rows;
      } else {
        forall r | r in rows ensures FirstChunk(r.key) != c {
          assert r in front || r == last;
        }
      }
    }
  }

}

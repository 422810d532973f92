/**
 * The row loop shared by `buildIndexFromCsv` and `buildIndexFromExcel`:
 * each row is stored in the pending batch, every chunkSize-th row flushes
 * the batch to the index file, and a non-empty remainder is flushed at the end.
 */
module Build {
  import opened Outcome
  import opened PhpValues
  import opened PhpStrings
  import opened Trie
  import opened IndexFiles

  /**
   * The state of the loop: the index file so far (None before the first
   * flush), the pending batch (`$indexData`), the row counter, and whether a
   * row raised the string-offset Error.
   */
  datatype Progress = Progress(file: Option<IndexFile>, pending: Entries, count: nat, crashed: bool)

  const Start: Progress := Progress(None, [], 0, false)

  /** One iteration of the row loop. */
  function Step(chunkSize: nat, p: Progress, row: Keyed): Progress
    requires chunkSize > 0
  {
    if p.crashed then p
    else match Store(p.pending, row)
      case None => p.(crashed := true)
      case Some(pending) =>
        var count := p.count + 1;
        if count % chunkSize == 0 then
          Progress(Some(WriteIndexChunk(p.file, pending, count == chunkSize)), [], count, false)
        else
          Progress(p.file, pending, count, false)
  }

  /** The loop over the data rows, from the start state. */
  function Run(chunkSize: nat, rows: seq<Keyed>): Progress
    requires chunkSize > 0
    decreases |rows|
  {
    if rows == [] then Start
    else Step(chunkSize, Run(chunkSize, rows[..|rows| - 1]), rows[|rows| - 1])
  }

  /**
   * What a build leaves: the index file on disk, and either the number of
   * rows processed or the Error of the row that could not be stored.
   */
  datatype Built = Built(file: Option<IndexFile>, outcome: Result<nat>)

  /** After the loop: the remainder is flushed if non-empty, truncating only if no batch was flushed before. */
  function Finish(chunkSize: nat, p: Progress): Built {
    if p.crashed then Built(p.file, Err(StringOffset(p.count)))
    else if p.pending != [] then Built(Some(WriteIndexChunk(p.file, p.pending, p.count <= chunkSize)), Ok(p.count))
    else Built(p.file, Ok(p.count))
  }

  function BuildRows(chunkSize: nat, rows: seq<Keyed>): Built
    requires chunkSize > 0
  {
    Finish(chunkSize, Run(chunkSize, rows))
  }

  /** The full windows of chunkSize consecutive rows, from the front. */
  function FullWindows(rows: seq<Keyed>, chunkSize: nat): (ws: seq<seq<Keyed>>)
    requires chunkSize > 0
    decreases |rows|
  {
    if |rows| < chunkSize then [] else [rows[..chunkSize]] + FullWindows(rows[chunkSize..], chunkSize)
  }

  /** The rows after the last full window: fewer than chunkSize. */
  function Rest(rows: seq<Keyed>, chunkSize: nat): (r: seq<Keyed>)
    requires chunkSize > 0
    ensures |r| < chunkSize
    decreases |rows|
  {
    if |rows| < chunkSize then rows else Rest(rows[chunkSize..], chunkSize)
  }

  /** The windows written as batches: the full ones, then the remainder if there is one. */
  function Windows(rows: seq<Keyed>, chunkSize: nat): seq<seq<Keyed>>
    requires chunkSize > 0
  {
    FullWindows(rows, chunkSize) + if Rest(rows, chunkSize) == [] then [] else [Rest(rows, chunkSize)]
  }

  /** Joins windows back into a row sequence. */
  function Joined(ws: seq<seq<Keyed>>): seq<Keyed> {
    if ws == [] then [] else ws[0] + Joined(ws[1..])
  }

  /** The windows cut the rows into consecutive pieces: joined back they give the rows. */
  lemma {:induction false} WindowsCover(rows: seq<Keyed>, c: nat)
    requires c > 0
    ensures Joined(FullWindows(rows, c)) + Rest(rows, c) == rows
    decreases |rows|
  {
    if |rows| >= c {
      var head, tail := rows[..c], rows[c..];
      var wt := FullWindows(tail, c);
      assert FullWindows(rows, c) == [head] + wt;
      assert Rest(rows, c) == Rest(tail, c);
      calc {
        Joined(FullWindows(rows, c)) + Rest(rows, c);
        { JoinedCons(head, wt); }
        (head + Joined(wt)) + Rest(tail, c);
        { AppendAssoc(head, Joined(wt), Rest(tail, c)); }
        head + (Joined(wt) + Rest(tail, c));
        { WindowsCover(tail, c); }
        head + tail;
        { assert head + tail == rows; }
        rows;
      }
    }
  }

  lemma JoinedCons(w: seq<Keyed>, ws: seq<seq<Keyed>>)
    ensures Joined([w] + ws) == w + Joined(ws)
  {
    assert ([w] + ws)[1..] == ws;
  }

  lemma AppendAssoc<T>(a: seq<T>, b: seq<T>, c: seq<T>)
    ensures (a + b) + c == a + (b + c)
  {
  }

  lemma AllWindowsCover(rows: seq<Keyed>, c: nat)
    requires c > 0
    ensures Joined(Windows(rows, c)) == rows
  {
    WindowsCover(rows, c);
    if Rest(rows, c) == [] {
      assert Windows(rows, c) == FullWindows(rows, c);
    } else {
      JoinedSnoc(FullWindows(rows, c), Rest(rows, c));
    }
  }

  lemma {:induction false} JoinedSnoc(ws: seq<seq<Keyed>>, w: seq<Keyed>)
    ensures Joined(ws + [w]) == Joined(ws) + w
    decreases |ws|
  {
    if ws != [] {
      assert (ws + [w])[1..] == ws[1..] + [w];
      JoinedSnoc(ws[1..], w);
    } else {
      assert [w][1..] == [];
    }
  }

  /** One more row either completes the pending window or extends it. */
  lemma {:induction false} WindowsSnoc(rows: seq<Keyed>, x: Keyed, c: nat)
    requires c > 0
    ensures |Rest(rows, c)| + 1 == c ==>
      FullWindows(rows + [x], c) == FullWindows(rows, c) + [Rest(rows, c) + [x]] && Rest(rows + [x], c) == []
    ensures |Rest(rows, c)| + 1 < c ==>
      FullWindows(rows + [x], c) == FullWindows(rows, c) && Rest(rows + [x], c) == Rest(rows, c) + [x]
    decreases |rows|
  {
    if |rows| >= c {
      assert (rows + [x])[..c] == rows[..c];
      assert (rows + [x])[c..] == rows[c..] + [x];
      WindowsSnoc(rows[c..], x, c);
    } else if |rows| + 1 == c {
      assert (rows + [x])[..c] == rows + [x];
      assert (rows + [x])[c..] == [];
    }
  }

  /** Number of rows in terms of windows: |rows| == |FullWindows| * chunkSize + |Rest|. */
  lemma {:induction false} WindowsCount(rows: seq<Keyed>, c: nat)
    requires c > 0
    ensures |rows| == |FullWindows(rows, c)| * c + |Rest(rows, c)|
    decreases |rows|
  {
    if |rows| >= c {
      WindowsCount(rows[c..], c);
      var k := |FullWindows(rows[c..], c)|;
      assert (k + 1) * c == k * c + c;
    }
  }

  lemma DivModUnique(n: nat, c: nat, q: nat, r: nat)
    requires c > 0 && r < c && n == q * c + r
    ensures n / c == q && n % c == r
  {
    var q0, r0 := n / c, n % c;
    assert n == q0 * c + r0;
    assert (q - q0) * c == q * c - q0 * c;
    MulAwayFromZero(q - q0, c);
  }

  /** A non-zero multiple of c is at least c away from zero. */
  lemma MulAwayFromZero(d: int, c: nat)
    ensures d >= 1 ==> d * c >= c
    ensures d <= -1 ==> d * c + c <= 0
  {
    if d >= 1 {
      MulMono(1, d, c);
    }
    if d <= -1 {
      MulMono(1, -d, c);
      assert (-d) * c == -(d * c);
    }
  }

  lemma MulMono(a: nat, b: nat, c: nat)
    requires a <= b
    ensures a * c <= b * c
  {
    assert b * c == a * c + (b - a) * c;
  }

  /**
   * The counter tests of the loop in terms of the windows, for a counter
   * n == k * c + r with r < c (k full windows, r rows pending).
   */
  lemma CounterTests(n: nat, c: nat, k: nat, r: nat)
    requires c > 0 && r < c && n == k * c + r
    ensures n / c == k
    ensures (n + 1) % c == 0 <==> r + 1 == c
    ensures n + 1 == c <==> k == 0 && r + 1 == c
    ensures r > 0 ==> (n <= c <==> k == 0)
    ensures n == 0 <==> k == 0 && r == 0
  {
    DivModUnique(n, c, k, r);
    if r + 1 == c {
      assert n + 1 == (k + 1) * c;
      DivModUnique(n + 1, c, k + 1, 0);
    } else {
      DivModUnique(n + 1, c, k, r + 1);
    }
    if k > 0 {
      MulMono(1, k, c);
    }
  }

  lemma FillSnoc(rows: seq<Keyed>, x: Keyed)
    ensures Fill(rows + [x]) == match Fill(rows) case None => None case Some(es) => Store(es, x)
  {
    assert (rows + [x])[..|rows|] == rows;
  }

  /**
   * The loop state p fits the rows: the counter is the number of rows; a
   * file exists exactly when a full window was reached, it opened with `{`,
   * and it holds one batch per full window, that window's rows stored into
   * `[]`; the pending batch is the rows after the last full window stored
   * into `[]`.
   */
  predicate Shaped(c: nat, rows: seq<Keyed>, p: Progress)
    requires c > 0
  {
    && p.count == |rows|
    && (p.file.Some? <==> FullWindows(rows, c) != [])
    && (p.file.Some? ==> p.file.value.braced && |p.file.value.batches| == |FullWindows(rows, c)|)
    && (p.file.Some? ==> forall j :: 0 <= j < |FullWindows(rows, c)| ==> Fill(FullWindows(rows, c)[j]) == Some(p.file.value.batches[j]))
    && Fill(Rest(rows, c)) == Some(p.pending)
  }

  /** One row that is stored keeps the state fitted to the rows. */
  lemma ShapedStep(c: nat, rows: seq<Keyed>, x: Keyed, p: Progress)
    requires c > 0
    requires Shaped(c, rows, p) && !p.crashed && !Step(c, p, x).crashed
    ensures Shaped(c, rows + [x], Step(c, p, x))
  {
    var ws, rest := FullWindows(rows, c), Rest(rows, c);
    var k, r := |ws|, |rest|;
    WindowsSnoc(rows, x, c);
    WindowsCount(rows, c);
    CounterTests(|rows|, c, k, r);
    FillSnoc(rest, x);
    var pending := Store(p.pending, x).value;
    assert Fill(rest + [x]) == Some(pending);
    var q := Step(c, p, x);
    if r + 1 == c {
      assert (p.count + 1) % c == 0;
      var ws' := ws + [rest + [x]];
      assert FullWindows(rows + [x], c) == ws';
      if k == 0 {
        assert q.file == Some(IndexFile(true, [pending]));
        assert ws' == [rest + [x]];
      } else {
        assert p.count + 1 != c;
        var bs := p.file.value.batches;
        assert q.file == Some(IndexFile(true, bs + [pending]));
        forall j | 0 <= j < |ws'| ensures Fill(ws'[j]) == Some((bs + [pending])[j]) {
          if j < k {
            assert ws'[j] == ws[j];
          }
        }
      }
    } else {
      assert (p.count + 1) % c != 0;
      assert q == Progress(p.file, pending, p.count + 1, false);
    }
  }

  /** The loop's state after the rows, when no row raised the Error, fits the rows (see Shaped). */
  lemma {:induction false} RunShape(c: nat, rows: seq<Keyed>)
    requires c > 0
    requires !Run(c, rows).crashed
    ensures Run(c, rows).count == |rows|
    ensures Run(c, rows).file.Some? <==> FullWindows(rows, c) != []
    ensures Run(c, rows).file.Some? ==> Run(c, rows).file.value.braced
    ensures Run(c, rows).file.Some? ==> |Run(c, rows).file.value.batches| == |FullWindows(rows, c)|
    ensures Run(c, rows).file.Some? ==> forall j :: 0 <= j < |FullWindows(rows, c)| ==>
      Fill(FullWindows(rows, c)[j]) == Some(Run(c, rows).file.value.batches[j])
    ensures Fill(Rest(rows, c)) == Some(Run(c, rows).pending)
    decreases |rows|
  {
    RunShaped(c, rows);
  }

  lemma {:induction false} RunShaped(c: nat, rows: seq<Keyed>)
    requires c > 0
    requires !Run(c, rows).crashed
    ensures Shaped(c, rows, Run(c, rows))
    decreases |rows|
  {
    var n := |rows|;
    if n == 0 {
      assert FullWindows(rows, c) == [];
      assert Rest(rows, c) == [];
    } else {
      var front := rows[..n - 1];
      var x := rows[n - 1];
      assert front + [x] == rows;
      var p := Run(c, front);
      assert Run(c, rows) == Step(c, p, x);
      assert !p.crashed;
      RunShaped(c, front);
      ShapedStep(c, front, x, p);
    }
  }

  /** The rows after the last full window are the last rows. */
  lemma RestIsSuffix(rows: seq<Keyed>, c: nat)
    requires c > 0
    ensures |Rest(rows, c)| <= |rows|
    ensures Rest(rows, c) == rows[|rows| - |Rest(rows, c)|..]
  {
    WindowsCover(rows, c);
    var j := Joined(FullWindows(rows, c));
    assert rows[|j|..] == Rest(rows, c);
  }

  lemma PrefixFreeSlice(rows: seq<Keyed>, lo: nat)
    requires PrefixFree(rows) && lo <= |rows|
    ensures PrefixFree(rows[lo..])
  {
    var w := rows[lo..];
    forall r | r in w ensures r in rows {
      var a :| 0 <= a < |w| && w[a] == r;
      assert rows[lo + a] == r;
    }
  }

  /** With prefix-free join values the loop never raises the string-offset Error. */
  lemma {:induction false} RunNeverCrashes(c: nat, rows: seq<Keyed>)
    requires c > 0
    requires PrefixFree(rows)
    ensures !Run(c, rows).crashed
    decreases |rows|
  {
    var n := |rows|;
    if n > 0 {
      var front := rows[..n - 1];
      var x := rows[n - 1];
      assert front + [x] == rows;
      PrefixFreePrefix(rows, n - 1);
      RunNeverCrashes(c, front);
      var p := Run(c, front);
      assert Run(c, rows) == Step(c, p, x);
      RunShape(c, front);
      var rest := Rest(front, c);
      var w := rest + [x];
      FillSnoc(rest, x);
      RestIsSuffix(front, c);
      var lo := |front| - |rest|;
      SuffixSnoc(rows, lo);
      PrefixFreeSlice(rows, lo);
      PrefixFreeFills(w);
      assert Store(p.pending, x).Some?;
    }
  }

  lemma PrefixFreeFills(rows: seq<Keyed>)
    requires PrefixFree(rows)
    ensures Fill(rows).Some?
  {
    FillSucceeds(rows);
  }

  lemma SuffixSnoc(rows: seq<Keyed>, lo: nat)
    requires lo < |rows|
    ensures rows[..|rows| - 1][lo..] + [rows[|rows| - 1]] == rows[lo..]
  {
  }

  lemma PrefixFreePrefix(rows: seq<Keyed>, hi: nat)
    requires PrefixFree(rows) && hi <= |rows|
    ensures PrefixFree(rows[..hi])
  {
    var w := rows[..hi];
    forall r | r in w ensures r in rows {
      var a :| 0 <= a < |w| && w[a] == r;
      assert rows[a] == r;
    }
  }

  /** Once a row has raised the Error, later rows change nothing: the request has died. */
  lemma {:induction false} CrashIsFinal(c: nat, rows: seq<Keyed>, more: seq<Keyed>)
    requires c > 0
    requires Run(c, rows).crashed
    ensures Run(c, rows + more) == Run(c, rows)
    decreases |more|
  {
    if more == [] {
      assert rows + more == rows;
    } else {
      var front := more[..|more| - 1];
      assert (rows + more)[..|rows + more| - 1] == rows + front;
      CrashIsFinal(c, rows, front);
    }
  }

  /** Where the row loop stops, at the end or at the row that raised the Error, its state is the final one. */
  lemma RunAfterStop(c: nat, rows: seq<Keyed>, i: nat)
    requires c > 0 && i <= |rows|
    requires i < |rows| ==> Run(c, rows[..i]).crashed
    ensures Run(c, rows) == Run(c, rows[..i])
  {
    if i < |rows| {
      CrashIsFinal(c, rows[..i], rows[i..]);
      assert rows[..i] + rows[i..] == rows;
    } else {
      assert rows[..i] == rows;
    }
  }

  /** Every join value is non-empty. */
  predicate KeysNonEmpty(rows: seq<Keyed>) {
    forall r :: r in rows ==> r.key != ""
  }

  lemma {:induction false} JoinedHas(ws: seq<seq<Keyed>>, j: nat, r: Keyed)
    requires j < |ws| && r in ws[j]
    ensures r in Joined(ws)
    decreases j
  {
    if j > 0 {
      JoinedHas(ws[1..], j - 1, r);
    }
  }

  /** Every row of a window is one of the rows. */
  lemma WindowRowIn(rows: seq<Keyed>, c: nat, j: nat, r: Keyed)
    requires c > 0
    requires j < |Windows(rows, c)| && r in Windows(rows, c)[j]
    ensures r in rows
  {
    JoinedHas(Windows(rows, c), j, r);
    AllWindowsCover(rows, c);
  }

  /** With non-empty join values the pending batch is empty exactly when no rows are left after the full windows. */
  lemma PendingEmpty(c: nat, rows: seq<Keyed>)
    requires c > 0
    requires !Run(c, rows).crashed
    requires KeysNonEmpty(rows)
    ensures Run(c, rows).pending == [] <==> Rest(rows, c) == []
  {
    RunShape(c, rows);
    var rest := Rest(rows, c);
    if rest != [] {
      forall r | r in rest ensures r.key != "" {
        RestInRows(rows, c, r);
      }
      var fc := FirstChunk(rest[0].key);
      assert rest[0] in rest;
      FillFirstChunks(rest, fc);
      assert fc in Keys(Run(c, rows).pending);
    } else {
      assert Fill(rest) == Some([]);
    }
  }

  /** A row left after the full windows is one of the rows. */
  lemma RestInRows(rows: seq<Keyed>, c: nat, r: Keyed)
    requires c > 0 && r in Rest(rows, c)
    ensures r in rows
  {
    RestIsSuffix(rows, c);
    var rest := Rest(rows, c);
    var a :| 0 <= a < |rest| && rest[a] == r;
    assert rows[|rows| - |rest| + a] == r;
  }

  /**
   * A build without an Error reports all rows processed; no file is written
   * for zero rows; otherwise the file opened with `{` and holds one batch per
   * window, that window's rows stored into `[]`, in order.
   */
  lemma BuildShape(c: nat, rows: seq<Keyed>)
    requires c > 0
    requires !Run(c, rows).crashed
    requires KeysNonEmpty(rows)
    ensures BuildRows(c, rows).outcome == Ok(|rows|)
    ensures BuildRows(c, rows).file.None? <==> rows == []
    ensures BuildRows(c, rows).file.Some? ==> BuildRows(c, rows).file.value.braced
    ensures BuildRows(c, rows).file.Some? ==> |BuildRows(c, rows).file.value.batches| == |Windows(rows, c)|
    ensures BuildRows(c, rows).file.Some? ==> forall j :: 0 <= j < |Windows(rows, c)| ==>
      Fill(Windows(rows, c)[j]) == Some(BuildRows(c, rows).file.value.batches[j])
  {
    RunShape(c, rows);
    PendingEmpty(c, rows);
    WindowsCount(rows, c);
    CounterTests(|rows|, c, |FullWindows(rows, c)|, |Rest(rows, c)|);
    var ws: seq<seq<Keyed>> := Windows(rows, c);
    if Rest(rows, c) == [] {
      assert ws == FullWindows(rows, c);
    } else {
      assert ws == FullWindows(rows, c) + [Rest(rows, c)];
    }
  }

  /** The number of batches written is the number of rows divided by chunkSize, rounded up. */
  lemma BatchCount(c: nat, rows: seq<Keyed>)
    requires c > 0
    ensures |Windows(rows, c)| == (|rows| + c - 1) / c
  {
    WindowsCount(rows, c);
    var k, r := |FullWindows(rows, c)|, |Rest(rows, c)|;
    if r == 0 {
      DivModUnique(|rows| + c - 1, c, k, c - 1);
    } else {
      assert |rows| + c - 1 == (k + 1) * c + (r - 1);
      DivModUnique(|rows| + c - 1, c, k + 1, r - 1);
    }
  }

  /** A prefix of a quotable join value, such as its first chunk, is quotable. */
  lemma QuotablePrefix(s: string, n: nat)
    requires Quotable(s) && n <= |s|
    ensures Quotable(s[..n])
  {
    assert forall i :: 0 <= i < n ==> s[..n][i] == s[i];
  }

  /** The batch of a window holds only quotable top-level keys when the window's join values are quotable. */
  lemma BatchQuotable(w: seq<Keyed>, batch: Entries)
    requires Fill(w) == Some(batch)
    requires forall r :: r in w ==> r.key != "" && Quotable(r.key)
    ensures AllQuotable(batch)
  {
    forall e | 0 <= e < |batch| ensures Quotable(batch[e].0) {
      KeysAt(batch, e);
      FillFirstChunks(w, batch[e].0);
      var r :| r in w && FirstChunk(r.key) == batch[e].0;
      QuotablePrefix(r.key, |FirstChunk(r.key)|);
    }
  }

  /**
   * End to end: with prefix-free, non-empty, quotable ASCII join values
   * (where a character is a byte, so the 2-character chunks are the 2-byte
   * chunks `str_split` cuts and valid JSON keys), the row
   * at position o of window b, the last in its window with its join value,
   * is found again by a lookup in the decoded index file, provided no row of
   * a later window shares its first chunk.
   */
  lemma BuiltIndexFindsRow(c: nat, rows: seq<Keyed>, b: nat, o: nat)
    requires c > 0
    requires PrefixFree(rows) && RecordsUnique(rows)
    requires forall r :: r in rows ==> r.key != "" && Quotable(r.key)
    requires forall r :: r in rows ==> forall i :: 0 <= i < |r.key| ==> r.key[i] < 128 as char
    requires b < |Windows(rows, c)| && o < |Windows(rows, c)[b]|
    requires forall o' :: o < o' < |Windows(rows, c)[b]| ==> Windows(rows, c)[b][o'].key != Windows(rows, c)[b][o].key
    requires forall j, r :: b < j < |Windows(rows, c)| && r in Windows(rows, c)[j] ==>
      FirstChunk(r.key) != FirstChunk(Windows(rows, c)[b][o].key)
    ensures BuildRows(c, rows).file.Some?
    ensures Decode(BuildRows(c, rows).file.value).Some?
    ensures Lookup(Decode(BuildRows(c, rows).file.value).value, Path(Windows(rows, c)[b][o].key))
      == Some(Windows(rows, c)[b][o].record)
  {
    var ws: seq<seq<Keyed>> := Windows(rows, c);
    var w := ws[b];
    var row := w[o];
    WindowRowIn(rows, c, b, row);
    RunNeverCrashes(c, rows);
    BuildShape(c, rows);
    var f := BuildRows(c, rows).file.value;
    var bs := f.batches;
    forall j | 0 <= j < |bs| ensures AllQuotable(bs[j]) {
      forall r: Keyed | r in ws[j] ensures r.key != "" && Quotable(r.key) {
        WindowRowIn(rows, c, j, r);
      }
      BatchQuotable(ws[j], bs[j]);
    }
    DecodeReadable(f);
    var merged := ArrayMerge([], Lines(bs));
    var fc := FirstChunk(row.key);
    forall r | r in w ensures r.key != "" && r in rows && UniqueKeys(r.record) {
      WindowRowIn(rows, c, b, r);
    }
    FillFirstChunks(w, fc);
    forall j | b < j < |bs| ensures fc !in Keys(bs[j]) {
      forall r: Keyed | r in ws[j] ensures r.key != "" {
        WindowRowIn(rows, c, j, r);
      }
      FillFirstChunks(ws[j], fc);
    }
    LastBatchWins(bs, b, fc);
    FillUnique(w);
    FindLastOfUnique(bs[b], fc);
    FirstChunkIsHead(row.key);
    SameFirstEntry(merged, bs[b], Path(row.key));
    FillFindsLast(w, o);
  }

  /** The two rows of the example below: join values "abcd" and "abef", one column "v". */
  const Early := Keyed("abcd", [("v", Str("1"))])
  const Late := Keyed("abef", [("v", Str("2"))])

  /** The batch holding only row r whose join value has the two chunks ab and cd. */
  function Single(ab: string, cd: string, r: Keyed): Entries {
    [(ab, Arr([(cd, Arr(r.record))]))]
  }

  lemma ExampleBuild()
    ensures BuildRows(1, [Early, Late]) == Built(Some(IndexFile(true, [Single("ab", "cd", Early), Single("ab", "ef", Late)])), Ok(2))
  {
    assert Path("abcd") == ["ab", "cd"] by {
      assert "abcd"[..2] == "ab" && "abcd"[2..] == "cd";
    }
    assert Path("abef") == ["ab", "ef"] by {
      assert "abef"[..2] == "ab" && "abef"[2..] == "ef";
    }
    var b0 := Single("ab", "cd", Early);
    var b1 := Single("ab", "ef", Late);
    assert Store([], Early) == Some(b0);
    assert Store([], Late) == Some(b1);
    var rows := [Early, Late];
    assert rows[..1] == [Early];
    assert [Early][..0] == [];
    assert Run(1, [Early]) == Progress(Some(IndexFile(true, [b0])), [], 1, false);
    assert rows[1] == Late && 2 % 1 == 0;
    assert Run(1, rows) == Step(1, Run(1, [Early]), Late);
    assert WriteIndexChunk(Some(IndexFile(true, [b0])), b1, false) == IndexFile(true, [b0, b1]);
    assert Run(1, rows) == Progress(Some(IndexFile(true, [b0, b1])), [], 2, false);
  }

  lemma ExampleDecode()
    ensures Decode(IndexFile(true, [Single("ab", "cd", Early), Single("ab", "ef", Late)])) == Some(Arr(Single("ab", "ef", Late)))
  {
    var b0 := Single("ab", "cd", Early);
    var b1 := Single("ab", "ef", Late);
    assert [b0, b1][..1] == [b0];
    assert [b0][..0] == [];
    assert Lines([b0]) == b0;
    assert Lines([b0, b1]) == b0 + b1;
    assert AllQuotable(b0 + b1) by {
      assert (b0 + b1)[0].0 == "ab" && (b0 + b1)[1].0 == "ab";
    }
    DecodeKeysQuotable(b0 + b1);
    assert (b0 + b1)[..1] == b0;
    assert ArrayMerge([], b0) == b0;
  }

  /**
   * A later batch hides an earlier key: with chunkSize 1, "abcd" and "abef"
   * land in two batches that both write the top-level key "ab"; the loaded
   * index keeps only the second subtree, so "abcd" is no longer found.
   */
  lemma LaterBatchHidesKey()
    ensures BuildRows(1, [Early, Late]).outcome == Ok(2)
    ensures BuildRows(1, [Early, Late]).file.Some?
    ensures Decode(BuildRows(1, [Early, Late]).file.value).Some?
    ensures Lookup(Decode(BuildRows(1, [Early, Late]).file.value).value, Path("abef")) == Some(Late.record)
    ensures Lookup(Decode(BuildRows(1, [Early, Late]).file.value).value, Path("abcd")) == None
  {
    ExampleBuild();
    ExampleDecode();
    ExampleLookups();
  }

  /** In the second subtree alone, "abef" is found and "abcd" is not. */
  lemma ExampleLookups()
    ensures Lookup(Arr(Single("ab", "ef", Late)), Path("abef")) == Some(Late.record)
    ensures Lookup(Arr(Single("ab", "ef", Late)), Path("abcd")) == None
  {
    assert Path("abcd") == ["ab", "cd"] by {
      assert "abcd"[..2] == "ab" && "abcd"[2..] == "cd";
    }
    assert Path("abef") == ["ab", "ef"] by {
      assert "abef"[..2] == "ab" && "abef"[2..] == "ef";
    }
    var sub := Arr([("ef", Arr(Late.record))]);
    assert Find(Single("ab", "ef", Late), "ab") == Some(sub);
    assert ["ab", "cd"][1..] == ["cd"] && ["ab", "ef"][1..] == ["ef"];
    assert Find(sub.entries, "cd") == None;
    assert Find(sub.entries, "ef") == Some(Arr(Late.record));
    assert ["ef"][1..] == [];
  }
}

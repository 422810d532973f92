/**
 * The header-selection page: the uploaded files kept in the session are
 * de-duplicated on their `name|path` key, keeping each key's first entry in
 * upload order, and the survivors become the positional form fields that the
 * merge request reads back (`files[i]`, `join_keys[i]`, `columns[i]`).
 */
module SelectHeaders {
  import opened Merger
  import opened PhpStrings

  /** One entry of `$_SESSION['uploaded_files']`. */
  datatype Upload = Upload(name: string, path: string, headers: seq<string>)

  /** The de-duplication key: name and path joined by a `|`. */
  function Key(u: Upload): string {
    u.name + "|" + u.path
  }

  /** Entry i is the first entry with its key. */
  predicate IsFirst(files: seq<Upload>, i: nat)
    requires i < |files|
  {
    forall j :: 0 <= j < i ==> Key(files[j]) != Key(files[i])
  }

  /** The keys of the entries before position n: what `$seen` holds after n steps. */
  function SeenKeys(files: seq<Upload>, n: nat): (keys: set<string>)
    requires n <= |files|
    ensures forall j :: 0 <= j < n ==> Key(files[j]) in keys
  {
    if n == 0 then {} else SeenKeys(files, n - 1) + {Key(files[n - 1])}
  }

  /** Every seen key belongs to an earlier entry. */
  lemma {:induction false} SeenKeysFrom(files: seq<Upload>, n: nat, k: string)
    requires n <= |files| && k in SeenKeys(files, n)
    ensures exists j :: 0 <= j < n && Key(files[j]) == k
  {
    if k != Key(files[n - 1]) {
      SeenKeysFrom(files, n - 1, k);
    }
  }

  /** One step of the loop: entry i is first exactly when its key was not seen yet. */
  lemma DedupStep(files: seq<Upload>, i: nat)
    requires i < |files|
    ensures IsFirst(files, i) <==> Key(files[i]) !in SeenKeys(files, i)
    ensures Kept(files, i + 1) == Kept(files, i) + if IsFirst(files, i) then [i] else []
    ensures SeenKeys(files, i + 1) == SeenKeys(files, i) + {Key(files[i])}
  {
    if Key(files[i]) in SeenKeys(files, i) {
      SeenKeysFrom(files, i, Key(files[i]));
    }
  }

  /** The positions below n of the entries that are first with their key, in increasing order. */
  function Kept(files: seq<Upload>, n: nat): (idx: seq<nat>)
    requires n <= |files|
    ensures forall a :: 0 <= a < |idx| ==> idx[a] < n
  {
    if n == 0 then []
    else Kept(files, n - 1) + if IsFirst(files, n - 1) then [n - 1] else []
  }

  /** The kept positions are increasing, and they are exactly the positions of first entries. */
  lemma {:induction false} KeptFacts(files: seq<Upload>, n: nat)
    requires n <= |files|
    ensures forall a, b :: 0 <= a < b < |Kept(files, n)| ==> Kept(files, n)[a] < Kept(files, n)[b]
    ensures forall i :: 0 <= i < n ==> (i in Kept(files, n) <==> IsFirst(files, i))
  {
    if n > 0 {
      KeptFacts(files, n - 1);
    }
  }

  /** The entries at the given positions, in that order. */
  function Pick(files: seq<Upload>, idx: seq<nat>): (r: seq<Upload>)
    requires forall a :: 0 <= a < |idx| ==> idx[a] < |files|
    ensures |r| == |idx|
    ensures forall a :: 0 <= a < |idx| ==> r[a] == files[idx[a]]
  {
    if idx == [] then [] else Pick(files, idx[..|idx| - 1]) + [files[idx[|idx| - 1]]]
  }

  /** What the loop leaves in `$uniqueFiles`: the first entry of each key, in upload order. */
  function Dedup(files: seq<Upload>): seq<Upload> {
    Pick(files, Kept(files, |files|))
  }

  lemma PickSnoc(files: seq<Upload>, idx: seq<nat>, i: nat)
    requires forall a :: 0 <= a < |idx| ==> idx[a] < |files|
    requires i < |files|
    ensures Pick(files, idx + [i]) == Pick(files, idx) + [files[i]]
  {
    assert (idx + [i])[..|idx|] == idx;
  }

  /**
   * `foreach ($files as $file)`: an entry whose key is not yet in `$seen` is
   * appended to `$uniqueFiles` and its key marked as seen.
   */
  method RemoveDuplicates(files: seq<Upload>) returns (unique: seq<Upload>)
    ensures unique == Dedup(files)
  {
    var seen: map<string, bool> := map[];
    unique := [];
    ghost var kept: seq<nat> := [];
    var i := 0;
    while i < |files|
      invariant 0 <= i <= |files|
      invariant kept == Kept(files, i)
      invariant unique == Pick(files, kept)
      invariant (forall k :: k in seen <==> k in SeenKeys(files, i))
    {
      seen, unique, kept := Visit(files, i, seen, unique, kept);
      i := i + 1;
    }
  }

  /** One pass of the loop body, on entry i. */
  method Visit(files: seq<Upload>, i: nat, seen: map<string, bool>, unique: seq<Upload>, ghost kept: seq<nat>)
    returns (seen': map<string, bool>, unique': seq<Upload>, ghost kept': seq<nat>)
    requires i < |files|
    requires kept == Kept(files, i) && unique == Pick(files, kept) && (forall k :: k in seen <==> k in SeenKeys(files, i))
    ensures kept' == Kept(files, i + 1) && unique' == Pick(files, kept') && (forall k :: k in seen' <==> k in SeenKeys(files, i + 1))
  {
    var key := Key(files[i]);
    DedupStep(files, i);
    if key !in seen {
      PickSnoc(files, kept, i);
      unique' := unique + [files[i]];
      kept' := kept + [i];
      seen' := seen[key := true];
    } else {
      seen', unique', kept' := seen, unique, kept;
    }
  }

  /** After de-duplication no two entries share a key. */
  lemma DedupKeysDistinct(files: seq<Upload>)
    ensures forall a, b :: 0 <= a < b < |Dedup(files)| ==> Key(Dedup(files)[a]) != Key(Dedup(files)[b])
  {
    var idx := Kept(files, |files|);
    KeptFacts(files, |files|);
    forall a, b | 0 <= a < b < |idx| ensures Key(files[idx[a]]) != Key(files[idx[b]]) {
      assert idx[b] in idx;
    }
  }

  /**
   * The first entry of a key survives; a later one is dropped, and the
   * entry that stands for its key came earlier in the upload list.
   */
  lemma DedupKeepsFirst(files: seq<Upload>, i: nat)
    requires i < |files|
    ensures IsFirst(files, i) ==> files[i] in Dedup(files)
    ensures !IsFirst(files, i) ==> i !in Kept(files, |files|)
    ensures !IsFirst(files, i) ==> exists a :: 0 <= a < |Dedup(files)| && Key(Dedup(files)[a]) == Key(files[i]) && Kept(files, |files|)[a] < i
  {
    var idx := Kept(files, |files|);
    KeptFacts(files, |files|);
    if IsFirst(files, i) {
      assert i in idx;
      var a :| 0 <= a < |idx| && idx[a] == i;
      assert Dedup(files)[a] == files[i];
    } else {
      var j := FirstWithKey(files, i);
      assert j in idx;
      var a :| 0 <= a < |idx| && idx[a] == j;
      assert Dedup(files)[a] == files[j];
      assert j != i;
    }
  }

  /** Every key of the upload list still has an entry afterwards. */
  lemma DedupCoversKeys(files: seq<Upload>, i: nat)
    requires i < |files|
    ensures exists a :: 0 <= a < |Dedup(files)| && Key(Dedup(files)[a]) == Key(files[i])
  {
    var j := FirstWithKey(files, i);
    var idx := Kept(files, |files|);
    KeptFacts(files, |files|);
    assert j in idx;
    var a :| 0 <= a < |idx| && idx[a] == j;
    assert Dedup(files)[a] == files[j];
  }

  /** The first position holding the key of entry i. */
  lemma {:induction false} FirstWithKey(files: seq<Upload>, i: nat) returns (j: nat)
    requires i < |files|
    ensures j <= i && Key(files[j]) == Key(files[i]) && IsFirst(files, j)
    decreases i
  {
    if IsFirst(files, i) {
      j := i;
    } else {
      var j' :| 0 <= j' < i && Key(files[j']) == Key(files[i]);
      j := FirstWithKey(files, j');
    }
  }

  /** The first upload always survives, at position 0: it is the main file of the merge. */
  lemma DedupKeepsMain(files: seq<Upload>)
    requires files != []
    ensures Dedup(files) != [] && Dedup(files)[0] == files[0]
  {
    var idx := Kept(files, |files|);
    KeptFacts(files, |files|);
    assert IsFirst(files, 0);
    assert 0 in idx;
    assert idx[0] == 0;
  }

  /**
   * Keys are compared as joined strings: `("a|b", "c")` and `("a", "b|c")`
   * are different files but share the key `a|b|c`, so the second is dropped.
   */
  lemma JoinedKeysCollide()
    ensures Dedup([Upload("a|b", "c", []), Upload("a", "b|c", [])]) == [Upload("a|b", "c", [])]
  {
    var files := [Upload("a|b", "c", []), Upload("a", "b|c", [])];
    assert Key(files[0]) == Key(files[1]);
    assert !IsFirst(files, 1);
    var idx := Kept(files, 2);
    assert Kept(files, 1) == [0];
    assert idx == [0];
  }

  /** PHP's `empty()` on a string: true for `""` and for `"0"`. */
  predicate Empty(s: string) {
    s == "" || s == "0"
  }

  /** The choices a user makes for one file on the page: the ticked header checkboxes and the selected merge-key option. */
  datatype Choice = Choice(ticked: seq<bool>, option: nat)

  /** The options of the merge-key select: the headers, or the single empty "-- Loading --" option when there are none. */
  function KeyOptions(headers: seq<string>): (options: seq<string>)
    ensures options != []
  {
    if headers == [] then [""] else headers
  }

  /** A choice the page can produce for an upload: one checkbox per header, one of the select's options. */
  predicate Fits(u: Upload, c: Choice) {
    |c.ticked| == |u.headers| && c.option < |KeyOptions(u.headers)|
  }

  /** The selected option of the merge-key select. */
  function ChosenKey(u: Upload, c: Choice): (key: string)
    requires Fits(u, c)
    ensures u.headers != [] ==> key in u.headers
  {
    KeyOptions(u.headers)[c.option]
  }

  /** The headers whose checkboxes were ticked, in page order: what `columns[$index][]` submits. */
  function Ticked(headers: seq<string>, ticked: seq<bool>): (cols: seq<string>)
    requires |ticked| == |headers|
    ensures |cols| == TickCount(ticked)
    ensures IsSubseq(cols, headers)
    ensures forall c :: c in cols <==> exists j :: 0 <= j < |headers| && ticked[j] && headers[j] == c
    decreases |headers|
  {
    if headers == [] then []
    else
      var n := |headers| - 1;
      var front := Ticked(headers[..n], ticked[..n]);
      assert forall j :: 0 <= j < n ==> headers[..n][j] == headers[j] && ticked[..n][j] == ticked[j];
      if ticked[n] then
        assert (front + [headers[n]])[..|front|] == front;
        front + [headers[n]]
      else front
  }

  /**
   * The ticked box at position j sends headers[j] as the entry after those
   * of the boxes ticked before it: with the count, this fixes every entry.
   */
  lemma {:induction false} TickedAt(headers: seq<string>, ticked: seq<bool>)
    requires |ticked| == |headers|
    ensures forall j :: 0 <= j < |headers| && ticked[j] ==>
      TickCount(ticked[..j]) < |Ticked(headers, ticked)| && Ticked(headers, ticked)[TickCount(ticked[..j])] == headers[j]
    decreases |headers|
  {
    if headers != [] {
      var n := |headers| - 1;
      var hs, ts := headers[..n], ticked[..n];
      TickedAt(hs, ts);
      var front := Ticked(hs, ts);
      var cols := Ticked(headers, ticked);
      assert cols == front + (if ticked[n] then [headers[n]] else []);
      forall j | 0 <= j < |headers| && ticked[j]
        ensures TickCount(ticked[..j]) < |cols| && cols[TickCount(ticked[..j])] == headers[j]
      {
        if j < n {
          assert ts[..j] == ticked[..j] && ts[j] == ticked[j] && hs[j] == headers[j];
        } else {
          assert ticked[..j] == ts;
        }
      }
    }
  }

  /** How many boxes are ticked. */
  function TickCount(ticked: seq<bool>): nat {
    if ticked == [] then 0 else TickCount(ticked[..|ticked| - 1]) + (if ticked[|ticked| - 1] then 1 else 0)
  }

  /** The merge request the page submits: `files[i]`, `join_keys[i]` and, when a box is ticked, `columns[i]`. */
  datatype Request = Request(files: seq<FileMeta>, joinKeys: map<nat, string>, columns: map<nat, seq<string>>)

  /**
   * The form for the surviving uploads: field index i belongs to the i-th
   * survivor; an empty name is shown and sent as 'Unknown File', an empty
   * path as `''`.
   */
  function Submit(unique: seq<Upload>, choices: seq<Choice>): (r: Request)
    requires |choices| == |unique|
    requires forall i :: 0 <= i < |unique| ==> Fits(unique[i], choices[i])
    ensures |r.files| == |unique|
    ensures forall i: nat :: i in r.joinKeys <==> i < |unique|
    ensures forall i: nat :: i in r.columns ==> i < |unique|
  {
    Request(
      seq(|unique|, i requires 0 <= i < |unique| =>
        FileMeta(if Empty(unique[i].name) then "Unknown File" else unique[i].name,
                 if Empty(unique[i].path) then "" else unique[i].path)),
      map i: nat | i < |unique| :: ChosenKey(unique[i], choices[i]),
      map i: nat | i < |unique| && Fits(unique[i], choices[i]) && Ticked(unique[i].headers, choices[i].ticked) != [] :: Ticked(unique[i].headers, choices[i].ticked))
  }

  /**
   * Field index i carries the i-th survivor: its path, its merge key (one of
   * its headers when it has any) and its ticked headers; so the merge's main
   * file, index 0, is the first upload.
   */
  lemma SubmitPositions(files: seq<Upload>, choices: seq<Choice>, i: nat)
    requires |choices| == |Dedup(files)|
    requires forall k :: 0 <= k < |Dedup(files)| ==> Fits(Dedup(files)[k], choices[k])
    requires i < |Dedup(files)|
    ensures var r := Submit(Dedup(files), choices); var u := Dedup(files)[i];
      && r.files[i].path == (if Empty(u.path) then "" else u.path)
      && r.files[i].name == (if Empty(u.name) then "Unknown File" else u.name)
      && r.joinKeys[i] == ChosenKey(u, choices[i])
      && (u.headers != [] ==> r.joinKeys[i] in u.headers)
      && (i in r.columns <==> Ticked(u.headers, choices[i].ticked) != [])
      && (i in r.columns ==> r.columns[i] == Ticked(u.headers, choices[i].ticked))
    ensures files != [] ==> Submit(Dedup(files), choices).files[0].path == (if Empty(files[0].path) then "" else files[0].path)
  {
    if files != [] {
      DedupKeepsMain(files);
    }
  }
}

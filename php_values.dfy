/**
 * PHP arrays as the merger uses them: ordered maps from string keys to values,
 * where a value is either a string cell or another array.
 */
module PhpValues {
  import opened Outcome

  /** One PHP value: a string, or an ordered array keyed by strings. */
  datatype V = Str(s: string) | Arr(entries: seq<(string, V)>)

  type Entries = seq<(string, V)>

  /** The keys of an ordered array, in order. */
  function Keys<T>(m: seq<(string, T)>): (ks: seq<string>)
    ensures |ks| == |m|
  {
    if m == [] then [] else [m[0].0] + Keys(m[1..])
  }

  lemma {:induction false} KeysAt<T>(m: seq<(string, T)>, i: nat)
    requires i < |m|
    ensures Keys(m)[i] == m[i].0
  {
    if i > 0 { KeysAt(m[1..], i - 1); }
  }

  lemma {:induction false} KeysAppend<T>(m: seq<(string, T)>, x: (string, T))
    ensures Keys(m + [x]) == Keys(m) + [x.0]
  {
    if m != [] {
      assert (m + [x])[1..] == m[1..] + [x];
      KeysAppend(m[1..], x);
    }
  }

  predicate NoDup(s: seq<string>) {
    forall i, j :: 0 <= i < j < |s| ==> s[i] != s[j]
  }

  lemma NoDupLast(s: seq<string>)
    requires NoDup(s) && s != []
    ensures s[|s| - 1] !in s[..|s| - 1]
  {
  }

  /** A well-formed PHP array: no key occurs twice. */
  predicate UniqueKeys<T>(m: seq<(string, T)>) {
    NoDup(Keys(m))
  }

  /** `$m[$k]` when it is set: the value stored under k. */
  function Find<T>(m: seq<(string, T)>, k: string): (r: Option<T>)
    ensures r.Some? <==> k in Keys(m)
  {
    if m == [] then None
    else if m[0].0 == k then Some(m[0].1)
    else Find(m[1..], k)
  }

  /** The value of the LAST entry with key k (what a decoder keeps for a duplicated key). */
  function FindLast<T>(m: seq<(string, T)>, k: string): (r: Option<T>)
    ensures r.Some? <==> k in Keys(m)
  {
    if m == [] then None
    else
      var front := m[..|m| - 1];
      assert front + [m[|m| - 1]] == m;
      KeysAppend(front, m[|m| - 1]);
      if m[|m| - 1].0 == k then Some(m[|m| - 1].1)
      else FindLast(front, k)
  }

  /** `$m[$k] = $v`: overwrites in place when k is set, appends otherwise. */
  function Assign<T>(m: seq<(string, T)>, k: string, v: T): (r: seq<(string, T)>)
    ensures |r| == if k in Keys(m) then |m| else |m| + 1
  {
    if m == [] then [(k, v)]
    else if m[0].0 == k then [(k, v)] + m[1..]
    else [m[0]] + Assign(m[1..], k, v)
  }

  /** After `$m[$k] = $v`, k reads v, every other key reads as before, and k is appended only if it was new. */
  lemma {:induction false} AssignSpec<T>(m: seq<(string, T)>, k: string, v: T)
    ensures Find(Assign(m, k, v), k) == Some(v)
    ensures forall j :: j != k ==> Find(Assign(m, k, v), j) == Find(m, j)
    ensures Keys(Assign(m, k, v)) == if k in Keys(m) then Keys(m) else Keys(m) + [k]
  {
    var r := Assign(m, k, v);
    if m == [] {
    } else if m[0].0 == k {
      assert r[1..] == m[1..];
    } else {
      var rest := Assign(m[1..], k, v);
      assert r == [m[0]] + rest;
      assert r[1..] == rest;
      AssignSpec(m[1..], k, v);
      forall j | j != k ensures Find(r, j) == Find(m, j) {
        if j != m[0].0 {
          assert Find(r, j) == Find(rest, j);
        }
      }
    }
  }

  lemma {:induction false} AssignNewKeyAppends<T>(m: seq<(string, T)>, k: string, v: T)
    requires k !in Keys(m)
    ensures Assign(m, k, v) == m + [(k, v)]
  {
    if m != [] {
      AssignNewKeyAppends(m[1..], k, v);
    }
  }

  lemma AppendKeepsNoDup(s: seq<string>, k: string)
    requires NoDup(s) && k !in s
    ensures NoDup(s + [k])
  {
    var t := s + [k];
    forall i, j | 0 <= i < j < |t| ensures t[i] != t[j] {
      if j < |s| {
        assert t[i] == s[i] && t[j] == s[j];
      } else {
        assert t[i] == s[i];
      }
    }
  }

  lemma AssignKeepsUnique<T>(m: seq<(string, T)>, k: string, v: T)
    requires UniqueKeys(m)
    ensures UniqueKeys(Assign(m, k, v))
  {
    AssignSpec(m, k, v);
    if k !in Keys(m) {
      AppendKeepsNoDup(Keys(m), k);
    }
  }

  /**
   * `array_merge($a, $b)` for string keys: every entry of b, in order, is
   * assigned into a, so same-named keys are overwritten in place and new
   * keys are appended.
   */
  function ArrayMerge<T>(a: seq<(string, T)>, b: seq<(string, T)>): (r: seq<(string, T)>)
    decreases |b|
  {
    if b == [] then a
    else Assign(ArrayMerge(a, b[..|b| - 1]), b[|b| - 1].0, b[|b| - 1].1)
  }

  /** Looking a key up after array_merge: b's last entry for it wins, otherwise a's value stands. */
  lemma {:induction false} ArrayMergeFind<T>(a: seq<(string, T)>, b: seq<(string, T)>, k: string)
    ensures Find(ArrayMerge(a, b), k) == if k in Keys(b) then FindLast(b, k) else Find(a, k)
    decreases |b|
  {
    if b != [] {
      var front := b[..|b| - 1];
      var last := b[|b| - 1];
      assert front + [last] == b;
      KeysAppend(front, last);
      ArrayMergeFind(a, front, k);
      AssignSpec(ArrayMerge(a, front), last.0, last.1);
    }
  }

  /** array_merge keeps a's keys in place as a prefix, and its keys are exactly those of a and b. */
  lemma {:induction false} ArrayMergeKeys<T>(a: seq<(string, T)>, b: seq<(string, T)>)
    ensures |a| <= |ArrayMerge(a, b)| <= |a| + |b|
    ensures Keys(ArrayMerge(a, b))[..|a|] == Keys(a)
    ensures forall k :: k in Keys(ArrayMerge(a, b)) <==> k in Keys(a) || k in Keys(b)
    ensures UniqueKeys(a) ==> UniqueKeys(ArrayMerge(a, b))
    decreases |b|
  {
    if b != [] {
      var front := b[..|b| - 1];
      var last := b[|b| - 1];
      assert front + [last] == b;
      KeysAppend(front, last);
      ArrayMergeKeys(a, front);
      var acc := ArrayMerge(a, front);
      AssignSpec(acc, last.0, last.1);
      if UniqueKeys(a) {
        AssignKeepsUnique(acc, last.0, last.1);
      }
      if last.0 !in Keys(acc) {
        assert (Keys(acc) + [last.0])[..|a|] == Keys(acc)[..|a|];
      }
    }
  }

  /** In a well-formed array the first and the last entry for a key are the same entry. */
  lemma {:induction false} FindLastOfUnique<T>(m: seq<(string, T)>, k: string)
    requires UniqueKeys(m)
    ensures FindLast(m, k) == Find(m, k)
  {
    if m != [] {
      var front := m[..|m| - 1];
      var last := m[|m| - 1];
      assert front + [last] == m;
      KeysAppend(front, last);
      if last.0 == k {
        NoDupLast(Keys(m));
        assert Keys(front) == Keys(m)[..|m| - 1];
        AssignNewKeyFound(front, last);
      } else {
        assert UniqueKeys(front) by {
          assert Keys(front) == Keys(m)[..|m| - 1];
        }
        FindLastOfUnique(front, k);
        FindAppendOther(front, last, k);
      }
    }
  }

  lemma {:induction false} AssignNewKeyFound<T>(m: seq<(string, T)>, x: (string, T))
    requires x.0 !in Keys(m)
    ensures Find(m + [x], x.0) == Some(x.1)
  {
    if m != [] {
      assert (m + [x])[1..] == m[1..] + [x];
      AssignNewKeyFound(m[1..], x);
    }
  }

  lemma {:induction false} FindAppendOther<T>(m: seq<(string, T)>, x: (string, T), k: string)
    requires x.0 != k
    ensures Find(m + [x], k) == Find(m, k)
  {
    if m != [] {
      assert (m + [x])[1..] == m[1..] + [x];
      FindAppendOther(m[1..], x, k);
    }
  }

  /** Merging a well-formed array into an empty one gives it back unchanged. */
  lemma {:induction false} MergeIntoEmpty<T>(b: seq<(string, T)>)
    requires UniqueKeys(b)
    ensures ArrayMerge([], b) == b
  {
    if b != [] {
      var front := b[..|b| - 1];
      var last := b[|b| - 1];
      assert front + [last] == b;
      KeysAppend(front, last);
      assert Keys(front) == Keys(b)[..|b| - 1];
      assert UniqueKeys(front);
      MergeIntoEmpty(front);
      NoDupLast(Keys(b));
      AssignNewKeyAppends(front, last.0, last.1);
    }
  }

  /** `$row[$i] ?? ''`: a cell the row does not have reads as the empty string. */
  function CellAt(row: seq<string>, i: nat): string {
    if i < |row| then row[i] else ""
  }

  /** What fputcsv writes for a value: a string as is, a nested array as the text "Array". */
  function CellText(v: V): string {
    match v
    case Str(s) => s
    case Arr(_) => "Array"
  }
}

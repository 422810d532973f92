/**
 * The PHP string and list built-ins the merger relies on: `str_split($k, 2)`,
 * `strtolower`, `trim`, `array_search`, `in_array`, and `pathinfo`'s extension.
 */
module PhpStrings {
  import opened Outcome

  /** Joins chunks back into one string (`implode('', $chunks)`). */
  function Concat(chunks: seq<string>): string {
    if chunks == [] then "" else chunks[0] + Concat(chunks[1..])
  }

  /**
   * `str_split($k, 2)` as PHP 8.2 and later define it: 2-character chunks
   * from the left, the last one a single character when |k| is odd, no
   * padding, and no chunk at all for the empty string.
   */
  function StrSplit2(k: string): (chunks: seq<string>)
    ensures Concat(chunks) == k
    ensures |chunks| == (|k| + 1) / 2
    ensures forall i :: 0 <= i < |chunks| ==>
      |chunks[i]| == (if i == |chunks| - 1 && |k| % 2 == 1 then 1 else 2)
  {
    if |k| <= 2 then (if k == "" then [] else [k])
    else
      var rest := StrSplit2(k[2..]);
      assert ([k[..2]] + rest)[1..] == rest;
      assert k[..2] + k[2..] == k;
      [k[..2]] + rest
  }

  /** The first chunk of a non-empty key: its first two characters, or the whole key if shorter. */
  function FirstChunk(k: string): string {
    if |k| <= 2 then k else k[..2]
  }

  lemma FirstChunkIsHead(k: string)
    requires k != ""
    ensures StrSplit2(k)[0] == FirstChunk(k)
  {
  }

  /** The concatenation of a prefix of the chunks is a prefix of the whole concatenation. */
  lemma {:induction false} ConcatPrefix(chunks: seq<string>, n: nat)
    requires n <= |chunks|
    ensures Concat(chunks[..n]) <= Concat(chunks)
  {
    if n > 0 {
      assert chunks[..n][1..] == chunks[1..][..n - 1];
      ConcatPrefix(chunks[1..], n - 1);
    }
  }

  /**
   * Build and lookup decompose keys the same way, so equal chunk paths
   * come only from equal keys, and a chunk path that is a prefix of
   * another comes from a key that is a prefix of the other key.
   */
  lemma SplitPrefix(a: string, b: string)
    requires StrSplit2(a) <= StrSplit2(b)
    ensures a <= b
  {
    ConcatPrefix(StrSplit2(b), |StrSplit2(a)|);
    assert StrSplit2(b)[..|StrSplit2(a)|] == StrSplit2(a);
  }

  /** Keys that are different and neither a prefix of the other give chunk paths that diverge. */
  lemma SplitDiverges(a: string, b: string)
    requires a != b && !(a <= b) && !(b <= a)
    ensures !(StrSplit2(a) <= StrSplit2(b)) && !(StrSplit2(b) <= StrSplit2(a))
  {
    if StrSplit2(a) <= StrSplit2(b) { SplitPrefix(a, b); }
    if StrSplit2(b) <= StrSplit2(a) { SplitPrefix(b, a); }
  }

  /** PHP 8.2 `strtolower`: ASCII letters only, whatever the locale. */
  function LowerChar(c: char): char {
    if 'A' <= c <= 'Z' then (c as int + 32) as char else c
  }

  function Lower(s: string): (r: string)
    ensures |r| == |s|
    ensures forall i :: 0 <= i < |s| ==> r[i] == LowerChar(s[i])
  {
    seq(|s|, i requires 0 <= i < |s| => LowerChar(s[i]))
  }

  /** The characters `trim` strips by default: space, tab, newline, carriage return, NUL, vertical tab. */
  predicate IsTrimmed(c: char) {
    c == ' ' || c as int == 9 || c as int == 10 || c as int == 13 || c as int == 0 || c as int == 11
  }

  /** `ltrim`: drops the trimmed characters in front, and only those. */
  function TrimLeft(s: string): (r: string)
    ensures |r| <= |s| && r == s[|s| - |r|..]
    ensures forall i :: 0 <= i < |s| - |r| ==> IsTrimmed(s[i])
    ensures r == [] || !IsTrimmed(r[0])
  {
    if s != [] && IsTrimmed(s[0]) then TrimLeft(s[1..]) else s
  }

  /** `rtrim`: drops the trimmed characters at the end, and only those. */
  function TrimRight(s: string): (r: string)
    ensures r <= s
    ensures forall i :: |r| <= i < |s| ==> IsTrimmed(s[i])
    ensures r == [] || !IsTrimmed(r[|r| - 1])
  {
    if s != [] && IsTrimmed(s[|s| - 1]) then TrimRight(s[..|s| - 1]) else s
  }

  /** `trim($s)`: the longest middle part of s that neither starts nor ends with a trimmed character. */
  function Trim(s: string): (r: string)
    ensures r == [] || (!IsTrimmed(r[0]) && !IsTrimmed(r[|r| - 1]))
  {
    TrimRight(TrimLeft(s))
  }

  /**
   * `trim` removes trimmed characters only: the result is the slice of s
   * starting at `front`, and every character outside it is a trimmed one.
   */
  lemma TrimSlice(s: string) returns (front: nat)
    ensures front + |Trim(s)| <= |s| && Trim(s) == s[front..front + |Trim(s)|]
    ensures forall i :: 0 <= i < front ==> IsTrimmed(s[i])
    ensures forall i :: front + |Trim(s)| <= i < |s| ==> IsTrimmed(s[i])
  {
    front := |s| - |TrimLeft(s)|;
    TrimmedSlice(s, TrimLeft(s), Trim(s));
  }

  /** A suffix l of s and a prefix r of l, with only trimmed characters dropped, make r a slice of s. */
  lemma TrimmedSlice(s: string, l: string, r: string)
    requires |l| <= |s| && l == s[|s| - |l|..] && r <= l
    requires forall i :: 0 <= i < |s| - |l| ==> IsTrimmed(s[i])
    requires forall i :: |r| <= i < |l| ==> IsTrimmed(l[i])
    ensures |s| - |l| + |r| <= |s| && r == s[|s| - |l|..|s| - |l| + |r|]
    ensures forall i :: |s| - |l| + |r| <= i < |s| ==> IsTrimmed(s[i])
  {
    var front := |s| - |l|;
    forall i | front + |r| <= i < |s| ensures IsTrimmed(s[i]) {
      assert s[i] == l[i - front];
    }
  }

  /**
   * `array_search($needle, $haystack)` with exact string comparison: the
   * first position holding the needle, or None (PHP's `false`).
   */
  function ArraySearch(haystack: seq<string>, needle: string): (r: Option<nat>)
    ensures r.None? <==> needle !in haystack
    ensures r.Some? ==> r.value < |haystack| && haystack[r.value] == needle
    ensures r.Some? ==> forall j :: 0 <= j < r.value ==> haystack[j] != needle
  {
    if haystack == [] then None
    else if haystack[0] == needle then Some(0)
    else match ArraySearch(haystack[1..], needle)
      case None => None
      case Some(i) => Some(i + 1)
  }

  /**
   * a is a subsequence of b: b with some elements left out, the order of
   * the rest kept.
   */
  predicate IsSubseq<T(==)>(a: seq<T>, b: seq<T>)
    decreases |b|
  {
    a == [] || (b != [] &&
      (IsSubseq(a, b[..|b| - 1]) || (a[|a| - 1] == b[|b| - 1] && IsSubseq(a[..|a| - 1], b[..|b| - 1]))))
  }

  /** Putting the same element in front of both keeps a subsequence. */
  lemma {:induction false} SubseqCons<T>(x: T, a: seq<T>, b: seq<T>)
    requires IsSubseq(a, b)
    ensures IsSubseq([x] + a, [x] + b)
    decreases |b|
  {
    var xb := [x] + b;
    if b == [] {
      assert a == [];
      assert ([x] + a)[..0] == [];
    } else {
      assert xb[..|xb| - 1] == [x] + b[..|b| - 1];
      if a == [] {
        SubseqCons(x, a, b[..|b| - 1]);
      } else if IsSubseq(a, b[..|b| - 1]) {
        SubseqCons(x, a, b[..|b| - 1]);
      } else {
        SubseqCons(x, a[..|a| - 1], b[..|b| - 1]);
        assert ([x] + a)[..|a|] == [x] + a[..|a| - 1];
      }
    }
  }

  /** A subsequence of b's tail is a subsequence of b. */
  lemma {:induction false} SubseqOfTail<T>(a: seq<T>, b: seq<T>)
    requires b != [] && IsSubseq(a, b[1..])
    ensures IsSubseq(a, b)
    decreases |b|
  {
    if a != [] {
      var t := b[1..];
      assert t != [];
      assert t[..|t| - 1] == b[..|b| - 1][1..];
      if IsSubseq(a, t[..|t| - 1]) {
        SubseqOfTail(a, b[..|b| - 1]);
      } else {
        SubseqOfTail(a[..|a| - 1], b[..|b| - 1]);
      }
    }
  }

  /** The distinct strings of s, each at its first occurrence, in order. */
  function Distinct(s: seq<string>): (d: seq<string>)
    ensures forall x :: x in d <==> x in s
    ensures |d| <= |s|
    ensures IsSubseq(d, s)
  {
    if s == [] then []
    else
      var front := Distinct(s[..|s| - 1]);
      assert s == s[..|s| - 1] + [s[|s| - 1]];
      if s[|s| - 1] in front then front else front + [s[|s| - 1]]
  }

  lemma {:induction false} DistinctNoDup(s: seq<string>)
    ensures forall i, j :: 0 <= i < j < |Distinct(s)| ==> Distinct(s)[i] != Distinct(s)[j]
  {
    if s != [] {
      DistinctNoDup(s[..|s| - 1]);
    }
  }

  /** The position of the first occurrence of x in s; |s| when x does not occur. */
  function FirstIndex(s: seq<string>, x: string): (k: nat)
    ensures k <= |s| && (k < |s| ==> s[k] == x)
    ensures forall j :: 0 <= j < k ==> s[j] != x
  {
    match ArraySearch(s, x)
    case Some(k) => k
    case None => |s|
  }

  /** Appending leaves the first occurrence of an element already present where it was. */
  lemma SearchAppend(p: seq<string>, q: seq<string>, x: string)
    requires x in p
    ensures x in p + q && FirstIndex(p + q, x) == FirstIndex(p, x)
  {
    var k, k' := FirstIndex(p + q, x), FirstIndex(p, x);
    assert (p + q)[k'] == x;
    assert k < |p| && p[k] == x;
  }

  /** Putting another element in front moves every first occurrence one place on. */
  lemma SearchCons(c: string, t: seq<string>, x: string)
    requires x in t && x != c
    ensures x in [c] + t && FirstIndex([c] + t, x) == FirstIndex(t, x) + 1
  {
    var k, k' := FirstIndex([c] + t, x), FirstIndex(t, x);
    assert ([c] + t)[k' + 1] == x;
    assert k > 0 && t[k - 1] == x;
  }

  /**
   * Distinct keeps the first occurrences in the order they occur: of two
   * elements of the result, the earlier one occurs first in s.
   */
  lemma {:induction false} DistinctFirstOrder(s: seq<string>)
    ensures forall i, j :: 0 <= i < j < |Distinct(s)| ==> FirstIndex(s, Distinct(s)[i]) < FirstIndex(s, Distinct(s)[j])
  {
    if s != [] {
      var n := |s| - 1;
      var p := s[..n];
      var front := Distinct(p);
      DistinctFirstOrder(p);
      assert s == p + [s[n]];
      forall x | x in front ensures FirstIndex(s, x) == FirstIndex(p, x) {
        SearchAppend(p, [s[n]], x);
      }
      if s[n] !in front {
        assert s[n] !in p;
        assert FirstIndex(s, s[n]) == n;
        forall i, j | 0 <= i < j < |Distinct(s)|
          ensures FirstIndex(s, Distinct(s)[i]) < FirstIndex(s, Distinct(s)[j])
        {
          assert Distinct(s) == front + [s[n]];
          assert Distinct(s)[i] == front[i];
          if j < |front| { assert Distinct(s)[j] == front[j]; }
        }
      }
    }
  }

  /** Every list of a list of lists, one after the other (the nested foreach that builds the output header). */
  function Flatten(lists: seq<seq<string>>): (r: seq<string>)
    ensures |r| == TotalLength(lists)
  {
    if lists == [] then [] else lists[0] + Flatten(lists[1..])
  }

  lemma {:induction false} FlattenHas(lists: seq<seq<string>>, i: nat, x: string)
    requires i < |lists| && x in lists[i]
    ensures x in Flatten(lists)
  {
    if i > 0 { FlattenHas(lists[1..], i - 1, x); }
  }

  /** Every string of a flattened list comes from one of the lists. */
  lemma {:induction false} FlattenFrom(lists: seq<seq<string>>, x: string)
    requires x in Flatten(lists)
    ensures exists i :: 0 <= i < |lists| && x in lists[i]
  {
    if x !in lists[0] {
      FlattenFrom(lists[1..], x);
      var i :| 0 <= i < |lists[1..]| && x in lists[1..][i];
      assert lists[i + 1] == lists[1..][i];
    }
  }

  function TotalLength(lists: seq<seq<string>>): nat {
    if lists == [] then 0 else |lists[0]| + TotalLength(lists[1..])
  }

  /**
   * `pathinfo($path, PATHINFO_EXTENSION)`: what follows the last '.' of the
   * last path segment, or "" when that segment has no '.'.
   */
  function Extension(path: string): (ext: string)
    ensures |ext| <= |path| && ext == path[|path| - |ext|..]
    ensures '/' !in ext && '.' !in ext
    ensures (|ext| < |path| && path[|path| - |ext| - 1] == '.') ||
      (ext == "" && forall i :: 0 <= i < |path| && path[i] == '.' ==> '/' in path[i..])
  {
    ExtensionBefore(path, |path|)
  }

  function ExtensionBefore(path: string, end: nat): (ext: string)
    requires end <= |path|
    requires '/' !in path[end..] && '.' !in path[end..]
    ensures |ext| <= |path| && ext == path[|path| - |ext|..]
    ensures '/' !in ext && '.' !in ext
    ensures (|ext| < |path| && path[|path| - |ext| - 1] == '.') ||
      (ext == "" && forall i :: 0 <= i < |path| && path[i] == '.' ==> '/' in path[i..])
    decreases end
  {
    if end == 0 then
      assert forall i :: 0 <= i < |path| ==> path[i] in path[end..];
      ""
    else if path[end - 1] == '/' then
      assert forall i :: 0 <= i < end ==> path[end - 1] in path[i..];
      assert forall i :: end <= i < |path| ==> path[i] in path[end..];
      ""
    else if path[end - 1] == '.' then path[end..]
    else
      assert path[end - 1..] == [path[end - 1]] + path[end..];
      ExtensionBefore(path, end - 1)
  }

  /** The merger reads a file as a spreadsheet when its extension is xlsx or xls, in any case. */
  predicate IsSpreadsheet(path: string) {
    Lower(Extension(path)) == "xlsx" || Lower(Extension(path)) == "xls"
  }
}

/**
 * The on-disk index: `writeIndexChunk` writes one line `"<key>":<json>,`
 * per top-level entry of a batch, and `getDataFromIndex` repairs the text
 * (strips the last comma, closes the brace) and decodes it.
 */
module IndexFiles {
  import opened Outcome
  import opened PhpValues
  import opened PhpStrings
  import opened Trie

  /**
   * An index file as written: whether it starts with the opening `{` line
   * (it was created with mode 'w'), then the batches flushed to it, in order.
   * The JSON text of the values is not modelled; each entry of a batch stands
   * for one line, its key written between quotes without escaping.
   */
  datatype IndexFile = IndexFile(braced: bool, batches: seq<Entries>)

  /**
   * `writeIndexChunk($indexFile, $data, $isFirst)`: the first batch truncates
   * the file and writes `{`; any other batch is appended, to an empty new file
   * if none exists yet.
   */
  function WriteIndexChunk(file: Option<IndexFile>, data: Entries, isFirst: bool): (r: IndexFile)
    ensures isFirst ==> r.braced && r.batches == [data]
    ensures !isFirst ==> r.braced == (file.Some? && file.value.braced)
    ensures !isFirst ==> r.batches == (if file.Some? then file.value.batches else []) + [data]
  {
    if isFirst then IndexFile(true, [data])
    else match file
      case None => IndexFile(false, [data])
      case Some(f) => IndexFile(f.braced, f.batches + [data])
  }

  /** All lines of the file, batch after batch. */
  function Lines(batches: seq<Entries>): Entries
    decreases |batches|
  {
    if batches == [] then [] else Lines(batches[..|batches| - 1]) + batches[|batches| - 1]
  }

  /** What a JSON string escape `\c` stands for; `\u` needs four hex digits and is not accepted here. */
  function EscapedChar(c: char): Option<char> {
    if c == '"' then Some('"')
    else if c == '\\' then Some('\\')
    else if c == '/' then Some('/')
    else if c == 'b' then Some(8 as char)
    else if c == 'f' then Some(12 as char)
    else if c == 'n' then Some(10 as char)
    else if c == 'r' then Some(13 as char)
    else if c == 't' then Some(9 as char)
    else None
  }

  /**
   * How the decoder reads the text written between the quotes of a key:
   * backslash escapes are interpreted, while a bare quote, a control
   * character or a trailing backslash make the text undecodable (None).
   */
  function Unescape(s: string): (r: Option<string>)
    ensures r.Some? ==> |r.value| <= |s|
    decreases |s|
  {
    if s == [] then Some([])
    else if s[0] == '"' || s[0] < ' ' then None
    else if s[0] == '\\' then
      if |s| < 2 then None
      else match (EscapedChar(s[1]), Unescape(s[2..]))
        case (Some(c), Some(rest)) => Some([c] + rest)
        case _ => None
    else match Unescape(s[1..])
      case Some(rest) => Some([s[0]] + rest)
      case None => None
  }

  /** A key that can be written between quotes as it is: no quote, no backslash, no control character. */
  predicate Quotable(s: string) {
    forall i :: 0 <= i < |s| ==> s[i] != '"' && s[i] != '\\' && s[i] >= ' '
  }

  /** A quotable key reads back as itself. */
  lemma {:induction false} UnescapeQuotable(s: string)
    requires Quotable(s)
    ensures Unescape(s) == Some(s)
    decreases |s|
  {
    if s != [] {
      assert Quotable(s[1..]) by {
        forall i | 0 <= i < |s[1..]| ensures s[1..][i] == s[i + 1] { }
      }
      UnescapeQuotable(s[1..]);
      assert [s[0]] + s[1..] == s;
    }
  }

  /** A key holding a quote but no backslash cannot be read back at all. */
  lemma {:induction false} UnescapeBareQuote(s: string)
    requires '"' in s && '\\' !in s
    ensures Unescape(s) == None
    decreases |s|
  {
    if s[0] != '"' && s[0] >= ' ' {
      UnescapeBareQuote(s[1..]);
    }
  }

  /** Every key of a batch is quotable. */
  predicate AllQuotable(es: Entries) {
    forall i :: 0 <= i < |es| ==> Quotable(es[i].0)
  }

  /** Decoding the lines' keys; None as soon as one of them cannot be read. */
  function DecodeKeys(lines: Entries): (r: Option<Entries>)
    ensures r.Some? ==> |r.value| == |lines|
    decreases |lines|
  {
    if lines == [] then Some([])
    else match (Unescape(lines[0].0), DecodeKeys(lines[1..]))
      case (Some(k), Some(rest)) => Some([(k, lines[0].1)] + rest)
      case _ => None
  }

  lemma {:induction false} DecodeKeysQuotable(lines: Entries)
    requires AllQuotable(lines)
    ensures DecodeKeys(lines) == Some(lines)
    decreases |lines|
  {
    if lines != [] {
      UnescapeQuotable(lines[0].0);
      assert AllQuotable(lines[1..]) by {
        forall i | 0 <= i < |lines[1..]| ensures Quotable(lines[1..][i].0) {
          assert lines[1..][i] == lines[i + 1];
        }
      }
      DecodeKeysQuotable(lines[1..]);
      assert [lines[0]] + lines[1..] == lines;
    }
  }

  /**
   * The repaired text `rtrim(text, ",\n") . "\n}"` decoded into an array:
   * it decodes only if the file braced with `{` and every key can be read;
   * a key met again later keeps its first position and takes the later value.
   */
  function Decode(file: IndexFile): (r: Option<V>)
    ensures r.Some? ==> r.value.Arr? && file.braced
  {
    if !file.braced then None
    else match DecodeKeys(Lines(file.batches))
      case None => None
      case Some(lines) => Some(Arr(ArrayMerge([], lines)))
  }

  /** The lines of several batches are quotable when each batch's are. */
  lemma {:induction false} LinesQuotable(batches: seq<Entries>)
    requires forall j :: 0 <= j < |batches| ==> AllQuotable(batches[j])
    ensures AllQuotable(Lines(batches))
    decreases |batches|
  {
    if batches != [] {
      var front := batches[..|batches| - 1];
      var last: Entries := batches[|batches| - 1];
      forall j | 0 <= j < |front| ensures AllQuotable(front[j]) {
        assert front[j] == batches[j];
      }
      LinesQuotable(front);
      var a: Entries := Lines(front);
      forall i | 0 <= i < |a + last| ensures Quotable((a + last)[i].0) {
        if i >= |a| {
          assert (a + last)[i] == last[i - |a|];
        } else {
          assert (a + last)[i] == a[i];
        }
      }
    }
  }

  /** A file that braced with `{` and holds only quotable keys decodes to the merge of its lines. */
  lemma DecodeReadable(file: IndexFile)
    requires file.braced
    requires forall j :: 0 <= j < |file.batches| ==> AllQuotable(file.batches[j])
    ensures Decode(file) == Some(Arr(ArrayMerge([], Lines(file.batches))))
  {
    LinesQuotable(file.batches);
    DecodeKeysQuotable(Lines(file.batches));
  }

  /** The last entry for a key in two runs of lines is in the second run if the key occurs there. */
  lemma {:induction false} FindLastConcat<T>(a: seq<(string, T)>, b: seq<(string, T)>, k: string)
    ensures FindLast(a + b, k) == if k in Keys(b) then FindLast(b, k) else FindLast(a, k)
    decreases |b|
  {
    if b == [] {
      assert a + b == a;
    } else {
      var front := b[..|b| - 1];
      var last := b[|b| - 1];
      assert front + [last] == b;
      KeysAppend(front, last);
      assert (a + b)[..|a + b| - 1] == a + front;
      FindLastConcat(a, front, k);
    }
  }

  /**
   * When a top-level key occurs in batch b and in no later batch, the loaded
   * index holds batch b's entry for it: later batches win, earlier ones lose.
   */
  lemma {:induction false} LastBatchWins(batches: seq<Entries>, b: nat, k: string)
    requires b < |batches|
    requires k in Keys(batches[b])
    requires forall j :: b < j < |batches| ==> k !in Keys(batches[j])
    ensures Find(ArrayMerge([], Lines(batches)), k) == FindLast(batches[b], k)
    decreases |batches|
  {
    ArrayMergeFind([], Lines(batches), k);
    LastBatchWinsLines(batches, b, k);
  }

  lemma {:induction false} LastBatchWinsLines(batches: seq<Entries>, b: nat, k: string)
    requires b < |batches|
    requires k in Keys(batches[b])
    requires forall j :: b < j < |batches| ==> k !in Keys(batches[j])
    ensures k in Keys(Lines(batches))
    ensures FindLast(Lines(batches), k) == FindLast(batches[b], k)
    decreases |batches|
  {
    var n := |batches| - 1;
    var front := batches[..n];
    FindLastConcat(Lines(front), batches[n], k);
    ArrayMergeKeys(Lines(front), batches[n]);
    KeysConcat(Lines(front), batches[n], k);
    if b < n {
      assert front[b] == batches[b];
      LastBatchWinsLines(front, b, k);
    }
  }

  lemma {:induction false} KeysConcat<T>(a: seq<(string, T)>, b: seq<(string, T)>, k: string)
    ensures k in Keys(a + b) <==> k in Keys(a) || k in Keys(b)
    decreases |a|
  {
    if a != [] {
      assert (a + b)[1..] == a[1..] + b;
      KeysConcat(a[1..], b, k);
    } else {
      assert a + b == b;
    }
  }

  /** A lookup whose first chunk finds the same entry in two arrays gives the same result in both. */
  lemma SameFirstEntry(a: Entries, b: Entries, p: seq<string>)
    requires p != []
    requires Find(a, p[0]) == Find(b, p[0])
    ensures Lookup(Arr(a), p) == Lookup(Arr(b), p)
  {
  }

  /**
   * A chunk `\n` (backslash, n) is written unescaped and read back as a
   * newline: the loaded index files the subtree under a different key.
   */
  lemma EscapedChunkIsRenamed()
    ensures Unescape("\\n") == Some("\n")
    ensures "\n" != "\\n"
  {
    var s := "\\n";
    assert s[0] == '\\' && s[1] == 'n' && s[2..] == [];
    assert EscapedChar('n') == Some('\n');
    assert Unescape(s[2..]) == Some([]);
    assert Unescape(s) == Some(['\n'] + []);
    assert ['\n'] + [] == "\n";
  }
}

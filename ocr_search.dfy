/** `search_ocr_text` of `ocr_search.py`: keep the rows with recognised text,
    split the query into words, and return the media path of every row whose
    text contains one of the words. */
module OcrSearch {
  import opened Wrappers
  import Text
  import Paths
  import FileIndex

  type Row = FileIndex.Row

  /** The folder the search joins every matching name to. */
  const MediaDir: string := "C:\\Users\\floris\\Desktop\\mydata~1741442335680-1\\chat_media"

  /** The rows whose `ocr_text` is not NULL, in table order: the reference
      both list comprehensions are measured against. */
  function WithText(rows: seq<Row>): (kept: seq<Row>)
    ensures |kept| <= |rows|
  {
    if rows == [] then []
    else (if rows[0].ocrText.Some? then [rows[0]] else []) + WithText(rows[1..])
  }

  /** The kept rows are rows of the table with text, and every such row is
      kept. */
  lemma {:induction false} WithTextKeepsExactly(rows: seq<Row>)
    ensures forall k :: 0 <= k < |WithText(rows)| ==> WithText(rows)[k].ocrText.Some?
    ensures forall x :: x in WithText(rows) <==> x in rows && x.ocrText.Some?
  {
    if rows != [] {
      WithTextKeepsExactly(rows[1..]);
      assert forall x :: x in rows <==> x == rows[0] || x in rows[1..];
    }
  }

  /** `[row[0] for row in rows if row[0] is not None]`. */
  function OcrTexts(rows: seq<Row>): seq<string> {
    if rows == [] then []
    else (if rows[0].ocrText.Some? then [rows[0].ocrText.value] else []) + OcrTexts(rows[1..])
  }

  /** `f"{row[1]}{row[2]}"`: the stored filename followed by its extension. */
  function StoredName(row: Row): string {
    row.filename + row.extension
  }

  /** `[f"{row[1]}{row[2]}" for row in rows if row[0] is not None]`. */
  function Filenames(rows: seq<Row>): seq<string> {
    if rows == [] then []
    else (if rows[0].ocrText.Some? then [StoredName(rows[0])] else []) + Filenames(rows[1..])
  }

  /** The two lists are filtered by the same test, so they have one entry per
      row with text and entry `i` of both comes from the same row. */
  lemma ListsAligned(rows: seq<Row>)
    ensures |OcrTexts(rows)| == |Filenames(rows)| == |WithText(rows)|
    ensures forall i :: 0 <= i < |WithText(rows)| ==>
      && WithText(rows)[i].ocrText == Some(OcrTexts(rows)[i])
      && Filenames(rows)[i] == StoredName(WithText(rows)[i])
  {
    TextsAligned(rows);
    NamesAligned(rows);
  }

  lemma {:induction false} TextsAligned(rows: seq<Row>)
    ensures |OcrTexts(rows)| == |WithText(rows)|
    ensures forall i :: 0 <= i < |WithText(rows)| ==> WithText(rows)[i].ocrText == Some(OcrTexts(rows)[i])
  {
    if rows != [] {
      var rest := rows[1..];
      TextsAligned(rest);
      if rows[0].ocrText.Some? {
        var kept, texts := WithText(rows), OcrTexts(rows);
        assert kept == [rows[0]] + WithText(rest);
        assert texts == [rows[0].ocrText.value] + OcrTexts(rest);
        forall i | 1 <= i < |kept| ensures kept[i].ocrText == Some(texts[i]) {
          assert kept[i] == WithText(rest)[i - 1] && texts[i] == OcrTexts(rest)[i - 1];
        }
      } else {
        assert WithText(rows) == WithText(rest);
        assert OcrTexts(rows) == OcrTexts(rest);
      }
    }
  }

  lemma {:induction false} NamesAligned(rows: seq<Row>)
    ensures |Filenames(rows)| == |WithText(rows)|
    ensures forall i :: 0 <= i < |WithText(rows)| ==>
      Filenames(rows)[i] == StoredName(WithText(rows)[i])
  {
    if rows != [] {
      var rest := rows[1..];
      NamesAligned(rest);
      if rows[0].ocrText.Some? {
        var kept, names := WithText(rows), Filenames(rows);
        assert kept == [rows[0]] + WithText(rest);
        assert names == [StoredName(rows[0])] + Filenames(rest);
        forall i | 1 <= i < |kept| ensures names[i] == StoredName(kept[i]) {
          assert kept[i] == WithText(rest)[i - 1] && names[i] == Filenames(rest)[i - 1];
        }
      } else {
        assert WithText(rows) == WithText(rest);
        assert Filenames(rows) == Filenames(rest);
      }
    }
  }

  /** `set(query.split())`. */
  function QueryWords(query: string): (words: set<string>)
    ensures forall w :: w in words ==> Text.IsWord(w)
  {
    set w | w in Text.Split(query)
  }

  /** The query's words are exactly its maximal whitespace-free runs. */
  lemma QueryWordsAreRuns(query: string)
    ensures forall w :: w in QueryWords(query) <==>
      exists i, j :: Text.IsRun(query, i, j) && query[i..j] == w
  {
    Text.SplitIsRuns(query);
  }

  /** `any(word in text for word in query_words)`. */
  predicate Matches(words: set<string>, text: string) {
    exists w :: w in words && Text.Contains(text, w)
  }

  /** The indices `i >= from` of `enumerate(texts)` whose text matches, in
      increasing order. */
  function MatchingFrom(texts: seq<string>, words: set<string>, from: nat): (idx: seq<nat>)
    requires from <= |texts|
    ensures forall k :: 0 <= k < |idx| ==> from <= idx[k] < |texts|
    ensures forall k, l :: 0 <= k < l < |idx| ==> idx[k] < idx[l]
    ensures forall i :: from <= i < |texts| ==> (i in idx <==> Matches(words, texts[i]))
    decreases |texts| - from
  {
    if from == |texts| then []
    else (if Matches(words, texts[from]) then [from] else []) + MatchingFrom(texts, words, from + 1)
  }

  /** The `matching_indices` comprehension. */
  function MatchingIndices(texts: seq<string>, words: set<string>): (idx: seq<nat>)
    ensures forall k :: 0 <= k < |idx| ==> idx[k] < |texts|
    ensures forall k, l :: 0 <= k < l < |idx| ==> idx[k] < idx[l]
    ensures forall i :: 0 <= i < |texts| ==> (i in idx <==> Matches(words, texts[i]))
    ensures |idx| <= |texts|
  {
    var idx := MatchingFrom(texts, words, 0);
    StrictlyIncreasingBounded(idx, |texts|);
    idx
  }

  /** A strictly increasing sequence below `n` has at most `n` entries. */
  lemma {:induction false} StrictlyIncreasingBounded(idx: seq<nat>, n: nat)
    requires forall k :: 0 <= k < |idx| ==> idx[k] < n
    requires forall k, l :: 0 <= k < l < |idx| ==> idx[k] < idx[l]
    ensures |idx| <= n
  {
    if idx != [] {
      var last := idx[|idx| - 1];
      StrictlyIncreasingBounded(idx[..|idx| - 1], last);
    }
  }

  /** The `matching_filepaths` comprehension (without `abspath`). */
  function MatchingPaths(dir: string, names: seq<string>, idx: seq<nat>): (paths: seq<string>)
    requires forall k :: 0 <= k < |idx| ==> idx[k] < |names|
  {
    seq(|idx|, k requires 0 <= k < |idx| => Paths.Join(dir, names[idx[k]]))
  }

  /** `search_ocr_text(query)`; `fetched` is what `SELECT ocr_text, filename,
      extension FROM files` returned, or `None` when the database raised. */
  function SearchOcrText(query: string, fetched: Option<seq<Row>>): (found: seq<string>)
    ensures fetched.None? ==> found == []
    ensures fetched.Some? ==> |found| <= |WithText(fetched.value)|
  {
    match fetched
    case None => []
    case Some(rows) =>
      var texts := OcrTexts(rows);
      var names := Filenames(rows);
      var idx := MatchingIndices(texts, QueryWords(query));
      ListsAligned(rows);
      MatchingPaths(MediaDir, names, idx)
  }

  /** The search stated row by row, without the parallel lists: the media
      path of every row, in table order, whose text matches. */
  function FilterSearch(words: set<string>, rows: seq<Row>): seq<string> {
    if rows == [] then []
    else
      var row := rows[0];
      (if row.ocrText.Some? && Matches(words, row.ocrText.value)
       then [Paths.Join(MediaDir, StoredName(row))] else [])
      + FilterSearch(words, rows[1..])
  }

  /** The parallel-list program computes the row-by-row filter. */
  lemma SearchIsFilter(query: string, rows: seq<Row>)
    ensures SearchOcrText(query, Some(rows)) == FilterSearch(QueryWords(query), rows)
  {
    var words := QueryWords(query);
    var kept := WithText(rows);
    ListsAligned(rows);
    MatchingFromIsFilter(OcrTexts(rows), Filenames(rows), kept, words, 0);
    assert kept[0..] == kept;
    FilterSkipsRowsWithoutText(words, rows);
  }

  /** From index `from` on, the chosen paths are the filter over the rest of
      the rows the two lists were built from. */
  lemma {:induction false} MatchingFromIsFilter(texts: seq<string>, names: seq<string>, kept: seq<Row>,
                                                 words: set<string>, from: nat)
    requires |texts| == |names| == |kept| && from <= |kept|
    requires forall i :: 0 <= i < |kept| ==>
      kept[i].ocrText == Some(texts[i]) && names[i] == StoredName(kept[i])
    ensures MatchingPaths(MediaDir, names, MatchingFrom(texts, words, from)) == FilterSearch(words, kept[from..])
    decreases |kept| - from
  {
    if from < |kept| {
      var head: seq<nat> := if Matches(words, texts[from]) then [from] else [];
      var rest := MatchingFrom(texts, words, from + 1);
      assert MatchingFrom(texts, words, from) == head + rest;
      MatchingFromIsFilter(texts, names, kept, words, from + 1);
      MatchingPathsAppend(MediaDir, names, head, rest);
      var row := kept[from];
      assert MatchingPaths(MediaDir, names, head)
          == if Matches(words, texts[from]) then [Paths.Join(MediaDir, StoredName(row))] else [];
      assert kept[from..][0] == row && kept[from..][1..] == kept[from + 1..];
    }
  }

  lemma MatchingPathsAppend(dir: string, names: seq<string>, a: seq<nat>, b: seq<nat>)
    requires forall k :: 0 <= k < |a| ==> a[k] < |names|
    requires forall k :: 0 <= k < |b| ==> b[k] < |names|
    ensures MatchingPaths(dir, names, a + b) == MatchingPaths(dir, names, a) + MatchingPaths(dir, names, b)
  {
    var l, r := MatchingPaths(dir, names, a), MatchingPaths(dir, names, b);
    forall k | 0 <= k < |a + b| ensures MatchingPaths(dir, names, a + b)[k] == (l + r)[k] {
      if k < |a| { assert (a + b)[k] == a[k]; } else { assert (a + b)[k] == b[k - |a|]; }
    }
  }

  /** Rows without text contribute nothing to the filter. */
  lemma {:induction false} FilterSkipsRowsWithoutText(words: set<string>, rows: seq<Row>)
    ensures FilterSearch(words, WithText(rows)) == FilterSearch(words, rows)
  {
    if rows != [] {
      FilterSkipsRowsWithoutText(words, rows[1..]);
      var kept := WithText(rows);
      if rows[0].ocrText.Some? {
        assert kept == [rows[0]] + WithText(rows[1..]);
        assert kept[0] == rows[0] && kept[1..] == WithText(rows[1..]);
      } else {
        assert kept == WithText(rows[1..]);
      }
    }
  }

  /** A path is found exactly when it is the media path of a row whose text
      contains one of the query's words. */
  lemma {:induction false} FilterFindsMatchingRows(words: set<string>, rows: seq<Row>, p: string)
    ensures p in FilterSearch(words, rows) <==>
      exists r :: r in rows && r.ocrText.Some? && Matches(words, r.ocrText.value)
                  && p == Paths.Join(MediaDir, StoredName(r))
  {
    if rows != [] {
      FilterFindsMatchingRows(words, rows[1..], p);
      assert forall r :: r in rows <==> r == rows[0] || r in rows[1..];
    }
  }

  lemma SearchFindsMatchingRows(query: string, rows: seq<Row>, p: string)
    ensures p in SearchOcrText(query, Some(rows)) <==>
      exists r :: r in rows && r.ocrText.Some? && Matches(QueryWords(query), r.ocrText.value)
                  && p == Paths.Join(MediaDir, StoredName(r))
  {
    SearchIsFilter(query, rows);
    FilterFindsMatchingRows(QueryWords(query), rows, p);
  }

  /** An empty or all-whitespace query has no words and finds nothing. */
  lemma BlankQueryFindsNothing(query: string, fetched: Option<seq<Row>>)
    requires Text.IsBlank(query)
    ensures SearchOcrText(query, fetched) == []
  {
    Text.SplitEmptyIffBlank(query);
    assert QueryWords(query) == {};
    if fetched.Some? {
      NoWordsNoMatches(OcrTexts(fetched.value), 0);
    }
  }

  lemma {:induction false} NoWordsNoMatches(texts: seq<string>, from: nat)
    requires from <= |texts|
    ensures MatchingFrom(texts, {}, from) == []
    decreases |texts| - from
  {
    if from < |texts| {
      NoWordsNoMatches(texts, from + 1);
    }
  }

  /** A query and a text that contains it: the text matches. */
  lemma WordInTextMatches(query: string, text: string, i: nat)
    requires Text.IsWord(query) && Text.OccursAt(text, query, i)
    ensures Matches(QueryWords(query), text)
  {
    Text.SplitUnsplit([query]);
    assert query in QueryWords(query);
    Text.ContainsIffOccurs(text, query);
  }

  /** "invoice total due" matches the query "total" ... */
  lemma TotalMatchesInvoice()
    ensures Matches(QueryWords("total"), "invoice total due")
  {
    WordInTextMatches("total", "invoice total due", 8);
  }

  /** ... but not the query "totally". */
  lemma TotallyMissesInvoice()
    ensures !Matches(QueryWords("totally"), "invoice total due")
  {
    WordMissingLetterMisses("totally", "invoice total due", 6);
  }

  /** A one-word query with a letter that the text lacks does not match. */
  lemma WordMissingLetterMisses(query: string, text: string, k: nat)
    requires Text.IsWord(query) && k < |query| && query[k] !in text
    ensures !Matches(QueryWords(query), text)
  {
    Text.SplitUnsplit([query]);
    assert QueryWords(query) == {query};
    Text.ContainsIffOccurs(text, query);
    OccurrenceHasLetters(text, query, k);
  }

  lemma OccurrenceHasLetters(text: string, w: string, k: nat)
    requires k < |w|
    ensures (exists i :: Text.OccursAt(text, w, i)) ==> w[k] in text
  {
    if exists i :: Text.OccursAt(text, w, i) {
      var i :| Text.OccursAt(text, w, i);
      assert text[i + k] == w[k];
    }
  }

  /** The test is substring containment, not word equality: the query
      "total" also finds a text that only says "totally". */
  lemma SubstringNotToken()
    ensures Matches(QueryWords("total"), "totally free")
  {
    WordInTextMatches("total", "totally free", 0);
  }
}

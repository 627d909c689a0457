/** StarDictAnhViet.get_word_data as a whole: the exact and the
    case-insensitive lookup over the stored rows, the per-row segmentation,
    the collection of sources and pronunciations, and the final
    deduplication of definitions and examples. */
module StarDictQuery {
  import opened Optional
  import opened Text
  import Seqs
  import StarDictImport
  import opened StarDictSegment

  type Row = StarDictImport.Row

  /** `LIMIT 10` of both lookups. */
  const RowLimit: nat := 10

  // ---------------------------------------------------------------------
  // Lookup
  // ---------------------------------------------------------------------

  /** The first `n` elements, or all of them when there are fewer. */
  function Take<T>(xs: seq<T>, n: nat): (r: seq<T>)
    ensures |r| == if |xs| <= n then |xs| else n
    ensures r == xs[..|r|]
  {
    if |xs| <= n then xs else xs[..n]
  }

  /** `WHERE word = ? LIMIT 10`, rows in store order. */
  function ExactRows(store: seq<Row>, word: String): seq<Row> {
    Take(Seqs.Filter(store, (row: Row) => row.word == word), RowLimit)
  }

  /** `WHERE LOWER(word) = LOWER(?) LIMIT 10`; SQLite's LOWER folds the
      ASCII letters only. */
  function FoldedRows(store: seq<Row>, word: String): seq<Row> {
    Take(Seqs.Filter(store, (row: Row) => AsciiLower(row.word) == AsciiLower(word)), RowLimit)
  }

  /** A limited filter is empty exactly when nothing passes the filter, and
      what it keeps passes. */
  lemma TakeFilter(store: seq<Row>, p: Row -> bool)
    ensures Take(Seqs.Filter(store, p), RowLimit) == [] <==> forall i :: 0 <= i < |store| ==> !p(store[i])
    ensures forall row :: row in Take(Seqs.Filter(store, p), RowLimit) ==> row in store && p(row)
  {
    var f := Seqs.Filter(store, p);
    Seqs.FilterKeeps(store, p);
    forall row | row in Take(f, RowLimit) ensures row in store && p(row) {
      var i :| 0 <= i < |Take(f, RowLimit)| && Take(f, RowLimit)[i] == row;
      assert row == f[i];
    }
  }

  /** The rows the loops work on: the exact rows, or else the folded rows,
      or nothing at all (`return None`). */
  function LookupRows(store: seq<Row>, word: String): (r: Option<seq<Row>>)
    ensures r.None? <==> forall i :: 0 <= i < |store| ==> AsciiLower(store[i].word) != AsciiLower(word)
    ensures r.Some? ==> 0 < |r.value| <= RowLimit
    ensures r.Some? ==> forall row :: row in r.value ==> row in store && AsciiLower(row.word) == AsciiLower(word)
    ensures (exists i :: 0 <= i < |store| && store[i].word == word) ==>
      r.Some? && forall row :: row in r.value ==> row.word == word
  {
    TakeFilter(store, (row: Row) => row.word == word);
    TakeFilter(store, (row: Row) => AsciiLower(row.word) == AsciiLower(word));
    var exact := ExactRows(store, word);
    if exact != [] then Some(exact)
    else
      var folded := FoldedRows(store, word);
      if folded != [] then Some(folded) else None
  }

  // ---------------------------------------------------------------------
  // What the loops over the rows collect
  // ---------------------------------------------------------------------

  /** The source of each row, in order. */
  function RowSources(rows: seq<Row>): (r: seq<String>)
    ensures |r| == |rows| && forall i :: 0 <= i < |rows| ==> r[i] == rows[i].source
  {
    seq(|rows|, i requires 0 <= i < |rows| => rows[i].source)
  }

  /** The pronunciation one row offers: the one found, unless it is empty. */
  function RowPronunciation(row: Row): (r: Option<String>)
    ensures r.Some? ==> r.value != [] && IsStripped(r.value)
  {
    var p := Pronunciation(row.definition);
    if p.Some? && p.value != [] then p else None
  }

  /** The non-empty stripped pronunciations of the rows, in row order: the
      candidates of the pronunciation loop. */
  function FoundPronunciations(rows: seq<Row>): (r: seq<String>)
    ensures forall p :: p in r ==> p != [] && IsStripped(p)
    decreases |rows|
  {
    if rows == [] then []
    else
      var p := RowPronunciation(rows[|rows| - 1]);
      FoundPronunciations(rows[..|rows| - 1]) + (if p.Some? then [p.value] else [])
  }

  /** The sources of all rows but the last, and the last one's, are
      sources of the rows. */
  lemma RowSourcesInit(rows: seq<Row>)
    requires rows != []
    ensures forall x :: x in RowSources(rows[..|rows| - 1]) ==> x in RowSources(rows)
    ensures rows[|rows| - 1].source in RowSources(rows)
  {
    var all := RowSources(rows);
    assert all[|rows| - 1] == rows[|rows| - 1].source;
    forall x | x in RowSources(rows[..|rows| - 1]) ensures x in all {
      var i :| 0 <= i < |rows| - 1 && RowSources(rows[..|rows| - 1])[i] == x;
      assert all[i] == x;
    }
  }

  /** Every definition appended by the loop, before deduplication. */
  function AllDefinitions(word: String, rows: seq<Row>): (r: seq<Definition>)
    ensures forall d :: d in r ==> d.word == word && d.source in RowSources(rows)
    decreases |rows|
  {
    if rows == [] then []
    else
      var last := rows[|rows| - 1];
      var init := AllDefinitions(word, rows[..|rows| - 1]);
      var here := Segment(word, last.definition, last.source).definitions;
      RowSourcesInit(rows);
      init + here
  }

  /** Every example appended by the loop, before deduplication. */
  function AllExamples(word: String, rows: seq<Row>): (r: seq<Example>)
    ensures forall e :: e in r ==> e.text != [] && e.source in RowSources(rows)
    decreases |rows|
  {
    if rows == [] then []
    else
      var last := rows[|rows| - 1];
      var init := AllExamples(word, rows[..|rows| - 1]);
      var here := Segment(word, last.definition, last.source).examples;
      RowSourcesInit(rows);
      init + here
  }

  /** Every collected definition carries a mapped part of speech or
      "unknown", every collected example a mapped one. */
  lemma {:induction false} CollectedPos(word: String, rows: seq<Row>)
    ensures forall d :: d in AllDefinitions(word, rows) ==> d.pos == Unknown || d.pos in EnglishPos
    ensures forall e :: e in AllExamples(word, rows) ==> e.pos in EnglishPos
    decreases |rows|
  {
    if rows != [] {
      CollectedPos(word, rows[..|rows| - 1]);
    }
  }

  /** Definitions are told apart by `(pos, definition_vi)`. */
  function DefinitionKey(d: Definition): (String, String) {
    (d.pos, d.meaning)
  }

  /** Examples are told apart by `(text, text_vi)`. */
  function ExampleKey(e: Example): (String, String) {
    (e.text, e.textVi)
  }

  // ---------------------------------------------------------------------
  // The result
  // ---------------------------------------------------------------------

  /** The dictionary `get_word_data` returns. */
  datatype WordData = WordData(
    word: String,
    pronunciations: seq<String>,
    definitions: seq<Definition>,
    examples: seq<Example>,
    sources: seq<String>)

  /** The whole lookup: sources and pronunciations appended when not yet
      present, definitions and examples kept at their first occurrence. */
  function GetWordData(store: seq<Row>, word: String): (r: Option<WordData>)
    ensures r.None? <==> forall i :: 0 <= i < |store| ==> AsciiLower(store[i].word) != AsciiLower(word)
    ensures r.Some? ==> r.value.word == word
  {
    var rows := LookupRows(store, word);
    if rows.None? then None
    else
      Some(WordData(
        word,
        Seqs.AppendUnseen([], {}, FoundPronunciations(rows.value), Seqs.Id),
        Seqs.FirstOccurrences(AllDefinitions(word, rows.value), DefinitionKey),
        Seqs.FirstOccurrences(AllExamples(word, rows.value), ExampleKey),
        Seqs.AppendUnseen([], {}, RowSources(rows.value), Seqs.Id)))
  }

  /** Sources collected without repetition: each row's source is there
      once, and nothing else is. */
  lemma SourcesCollected(rows: seq<Row>)
    requires rows != []
    ensures var r := Seqs.AppendUnseen([], {}, RowSources(rows), Seqs.Id);
      && Seqs.KeysDistinct(r, Seqs.Id)
      && 0 < |r| <= |rows|
      && (forall x :: x in r <==> x in RowSources(rows))
  {
    var srcs := RowSources(rows);
    var r := Seqs.AppendUnseen([], {}, srcs, Seqs.Id);
    Seqs.AppendUnseenDistinct([], {}, srcs, Seqs.Id);
    Seqs.AppendUnseenSubseq([], {}, srcs, Seqs.Id);
    Seqs.AppendUnseenCovers([], {}, srcs, Seqs.Id);
    assert r[0..] == r;
    Seqs.SubseqMembers(r, srcs);
    Seqs.SubseqLength(r, srcs);
    forall x | x in srcs ensures x in r {
      var i :| 0 <= i < |srcs| && srcs[i] == x;
      var j :| 0 <= j < |r| && Seqs.Id(r[j]) == Seqs.Id(srcs[i]);
      assert r[j] == x;
    }
    assert srcs[0] in r;
  }

  /** Pronunciations collected without repetition, each non-empty and
      stripped. */
  lemma PronunciationsCollected(rows: seq<Row>)
    ensures var r := Seqs.AppendUnseen([], {}, FoundPronunciations(rows), Seqs.Id);
      && Seqs.KeysDistinct(r, Seqs.Id)
      && (forall p :: p in r ==> p != [] && IsStripped(p))
  {
    var found := FoundPronunciations(rows);
    var r := Seqs.AppendUnseen([], {}, found, Seqs.Id);
    Seqs.AppendUnseenDistinct([], {}, found, Seqs.Id);
    Seqs.AppendUnseenSubseq([], {}, found, Seqs.Id);
    assert r[0..] == r;
    Seqs.SubseqMembers(r, found);
  }

  /** The promises of the result: no duplicate source, pronunciation,
      definition key or example key; every pronunciation non-empty and
      stripped; every definition and example about `word` and from one of
      the sources; at most ten sources, and exactly the looked-up rows'
      sources; no definition or example key lost by the deduplication. */
  lemma GetWordDataShape(store: seq<Row>, word: String)
    requires GetWordData(store, word).Some?
    ensures var r := GetWordData(store, word).value;
      && Seqs.KeysDistinct(r.sources, Seqs.Id)
      && Seqs.KeysDistinct(r.pronunciations, Seqs.Id)
      && Seqs.KeysDistinct(r.definitions, DefinitionKey)
      && Seqs.KeysDistinct(r.examples, ExampleKey)
      && (forall p :: p in r.pronunciations ==> p != [] && IsStripped(p))
      && (forall d :: d in r.definitions ==> d.word == word && d.source in r.sources)
      && (forall e :: e in r.examples ==> e.text != [] && e.source in r.sources)
      && 0 < |r.sources| <= RowLimit
      && (forall x :: x in r.sources <==> x in RowSources(LookupRows(store, word).value))
      && Seqs.KeySet(r.definitions, DefinitionKey) ==
        Seqs.KeySet(AllDefinitions(word, LookupRows(store, word).value), DefinitionKey)
      && Seqs.KeySet(r.examples, ExampleKey) == Seqs.KeySet(AllExamples(word, LookupRows(store, word).value), ExampleKey)
  {
    var rows := LookupRows(store, word).value;
    SourcesCollected(rows);
    PronunciationsCollected(rows);
    Seqs.FirstOccurrencesDistinct(AllDefinitions(word, rows), DefinitionKey);
    Seqs.FirstOccurrencesDistinct(AllExamples(word, rows), ExampleKey);
    Seqs.FirstOccurrencesKeys(AllDefinitions(word, rows), DefinitionKey);
    Seqs.FirstOccurrencesKeys(AllExamples(word, rows), ExampleKey);
  }

  /** Every part of speech in the result is one of the ten mapped names or
      "unknown"; examples never carry "unknown". */
  lemma GetWordDataPos(store: seq<Row>, word: String)
    requires GetWordData(store, word).Some?
    ensures forall d :: d in GetWordData(store, word).value.definitions ==> d.pos == Unknown || d.pos in EnglishPos
    ensures forall e :: e in GetWordData(store, word).value.examples ==> e.pos in EnglishPos
  {
    var rows := LookupRows(store, word).value;
    CollectedPos(word, rows);
    Seqs.FirstOccurrencesDistinct(AllDefinitions(word, rows), DefinitionKey);
    Seqs.FirstOccurrencesDistinct(AllExamples(word, rows), ExampleKey);
  }

  // ---------------------------------------------------------------------
  // The loops as written
  // ---------------------------------------------------------------------

  /** The loops that append an element unless the list already holds it
      (`if source not in word_data['sources']`, and the same test for
      pronunciations). */
  method AppendAbsent(xs: seq<String>) returns (out: seq<String>)
    ensures out == Seqs.AppendUnseen([], {}, xs, Seqs.Id)
  {
    out := [];
    var i := 0;
    while i < |xs|
      invariant 0 <= i <= |xs|
      invariant out == Seqs.AppendUnseen([], {}, xs[..i], Seqs.Id)
    {
      var x := xs[i];
      Seqs.AppendUnseenSnoc([], {}, xs[..i], x, Seqs.Id);
      assert xs[..i + 1] == xs[..i] + [x];
      assert out[0..] == out;
      Seqs.KeySetId(out);
      if x !in out {
        out := out + [x];
      }
      i := i + 1;
    }
    assert xs[..i] == xs;
  }

  /** `get_word_data` as written: the lookups, the loops collecting
      sources and pronunciations, then the two deduplication passes over
      `seen` sets. */
  method QueryWord(store: seq<Row>, word: String) returns (r: Option<WordData>)
    ensures r == GetWordData(store, word)
    ensures r.None? <==> forall i :: 0 <= i < |store| ==> AsciiLower(store[i].word) != AsciiLower(word)
  {
    var rows := LookupRows(store, word);
    if rows.None? {
      return None;
    }
    var sources := AppendAbsent(RowSources(rows.value));
    var prons := AppendAbsent(FoundPronunciations(rows.value));
    var defs := Seqs.DedupKeepFirst(AllDefinitions(word, rows.value), DefinitionKey);
    var exs := Seqs.DedupKeepFirst(AllExamples(word, rows.value), ExampleKey);
    r := Some(WordData(word, prons, defs, exs, sources));
  }
}

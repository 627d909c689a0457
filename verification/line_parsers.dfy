/** The line-level importers: tab-separated dictionary text files
    (processors/text.py), parallel corpora filtered to short phrases
    (processors/parallel.py and collectors/opus.py), and WordNet synset
    lines (collectors/wordnet.py). Reading the files is left out: a file is
    the sequence of its lines. */
module LineParsers {
  import opened Optional
  import opened Text
  import Seqs
  import Utils
  import StarDictSegment

  const Tab: char := '\t'

  /** An `en_vi` entry dictionary. */
  datatype EnVi = EnVi(englishWord: String, vietnameseMeaning: String, wordType: String, pronunciation: String, example: String)

  /** A `vi_en` entry dictionary. */
  datatype ViEn = ViEn(vietnameseWord: String, englishMeaning: String, wordType: String, example: String)

  /** A field as the parsers leave it: stripped, and free of the column
      separator. */
  predicate CleanField(f: String) {
    IsStripped(f) && Tab !in f
  }

  // ---------------------------------------------------------------------
  // Tab-separated dictionary text files
  // ---------------------------------------------------------------------

  /** A line contributes an entry: after stripping it is not empty, is not
      a `#` comment and has a second tab-separated field. */
  predicate Accepted(line: String) {
    var l := Strip(line);
    l != [] && l[0] != '#' && Tab in l
  }

  /** The tab-separated fields of an accepted line, None for a skipped one. */
  function Fields(line: String): (r: Option<seq<String>>)
    ensures r.Some? <==> Accepted(line)
    ensures r.Some? ==> |r.value| >= 2 && r.value[0] != [] && !IsSpace(r.value[0][0])
    ensures r.Some? ==> forall k :: 0 <= k < |r.value| ==> Tab !in r.value[k]
    ensures r.Some? ==> r.value == SplitOn(Strip(line), Tab)
  {
    var l := Strip(line);
    if l == [] || l[0] == '#' then None
    else
      var parts := SplitOn(l, Tab);
      SplitOnSplits(l, Tab);
      SplitOnFirst(l, Tab);
      SplitPiecesAvoid(l, CharIs(Tab), Tab);
      if |parts| >= 2 then Some(parts) else None
  }

  /** `parts[i].strip() if len(parts) > i else ""`. */
  function Field(parts: seq<String>, i: nat): (f: String)
    ensures (forall k :: 0 <= k < |parts| ==> Tab !in parts[k]) ==> CleanField(f)
    ensures i < |parts| && parts[i] != [] && !IsSpace(parts[i][0]) ==> f != []
  {
    if i < |parts| then
      assert Tab !in parts[i] ==> Tab !in Strip(parts[i]) by {
        if Tab !in parts[i] { StripKeepsOut(parts[i], Tab); }
      }
      StripEmptyIffAllSpace(parts[i]);
      Strip(parts[i])
    else []
  }

  /** One line of an EN-VI text file: word, meaning, type, pronunciation
      and example columns. */
  function ParseEnViLine(line: String): (r: Option<EnVi>)
    ensures r.Some? <==> Accepted(line)
    ensures r.Some? ==> r.value.englishWord != [] && CleanEnVi(r.value)
  {
    match Fields(line)
    case None => None
    case Some(p) => Some(EnViOf(p))
  }

  /** The entry the columns of an EN-VI line make. */
  function EnViOf(p: seq<String>): EnVi {
    EnVi(Field(p, 0), Field(p, 1), Field(p, 2), Field(p, 3), Field(p, 4))
  }

  /** One line of a VI-EN text file: word, meaning, type and example
      columns. */
  function ParseViEnLine(line: String): (r: Option<ViEn>)
    ensures r.Some? <==> Accepted(line)
    ensures r.Some? ==> r.value.vietnameseWord != [] && CleanViEn(r.value)
  {
    match Fields(line)
    case None => None
    case Some(p) => Some(ViEnOf(p))
  }

  /** The entry the columns of a VI-EN line make. */
  function ViEnOf(p: seq<String>): ViEn {
    ViEn(Field(p, 0), Field(p, 1), Field(p, 2), Field(p, 3))
  }

  predicate CleanEnVi(e: EnVi) {
    && CleanField(e.englishWord) && CleanField(e.vietnameseMeaning) && CleanField(e.wordType)
    && CleanField(e.pronunciation) && CleanField(e.example)
  }

  predicate CleanViEn(e: ViEn) {
    CleanField(e.vietnameseWord) && CleanField(e.englishMeaning) && CleanField(e.wordType) && CleanField(e.example)
  }

  /** The entries of a file, one per parsed line, in line order; each is
      what `parse` made of some line. */
  function ParseAll<T>(lines: seq<String>, parse: String -> Option<T>): (r: seq<T>)
    ensures |r| <= |lines|
    decreases |lines|
  {
    if lines == [] then []
    else
      var init := ParseAll(lines[..|lines| - 1], parse);
      match parse(lines[|lines| - 1])
      case None => init
      case Some(e) => init + [e]
  }

  /** Every entry read is what `parse` made of one of the lines. */
  lemma {:induction false} ParseAllFrom<T>(lines: seq<String>, parse: String -> Option<T>)
    ensures forall i :: 0 <= i < |ParseAll(lines, parse)| ==>
      exists j :: 0 <= j < |lines| && parse(lines[j]) == Some(ParseAll(lines, parse)[i])
    decreases |lines|
  {
    if lines != [] {
      var n := |lines|;
      var init := lines[..n - 1];
      ParseAllFrom(init, parse);
      var r := ParseAll(lines, parse);
      var front := ParseAll(init, parse);
      forall i | 0 <= i < |r|
        ensures exists j :: 0 <= j < n && parse(lines[j]) == Some(r[i])
      {
        assert r == front || (parse(lines[n - 1]).Some? && r == front + [parse(lines[n - 1]).value]);
        if i < |front| {
          var j :| 0 <= j < n - 1 && parse(init[j]) == Some(front[i]);
          assert init[j] == lines[j] && r[i] == front[i];
          assert 0 <= j < n && parse(lines[j]) == Some(r[i]);
        } else {
          assert 0 <= n - 1 < n && parse(lines[n - 1]) == Some(r[i]);
        }
      }
    } else {
      assert ParseAll(lines, parse) == [];
    }
  }

  /** Parsing is line by line: a file's entries are its parts' entries. */
  lemma {:induction false} ParseAllAppend<T>(a: seq<String>, b: seq<String>, parse: String -> Option<T>)
    ensures ParseAll(a + b, parse) == ParseAll(a, parse) + ParseAll(b, parse)
    decreases |b|
  {
    if b == [] {
      assert a + b == a;
    } else {
      var ab := a + b;
      assert ab[..|ab| - 1] == a + b[..|b| - 1];
      assert ab[|ab| - 1] == b[|b| - 1];
      ParseAllAppend(a, b[..|b| - 1], parse);
    }
  }

  /** One entry per line `accept` admits. */
  lemma {:induction false} ParseAllCount<T>(lines: seq<String>, parse: String -> Option<T>, accept: String -> bool)
    requires forall l :: parse(l).Some? <==> accept(l)
    ensures |ParseAll(lines, parse)| == |Seqs.Filter(lines, accept)|
    decreases |lines|
  {
    if lines != [] {
      var init := lines[..|lines| - 1];
      assert init + [lines[|lines| - 1]] == lines;
      ParseAllCount(init, parse, accept);
      Seqs.FilterSnoc(init, lines[|lines| - 1], accept);
    }
  }

  /** The reading loop of both text importers. */
  method ParseLines<T>(lines: seq<String>, parse: String -> Option<T>) returns (entries: seq<T>)
    ensures entries == ParseAll(lines, parse)
  {
    entries := [];
    var i := 0;
    while i < |lines|
      invariant 0 <= i <= |lines|
      invariant entries == ParseAll(lines[..i], parse)
    {
      assert lines[..i + 1][..i] == lines[..i];
      match parse(lines[i]) {
        case Some(e) => entries := entries + [e];
        case None =>
      }
      i := i + 1;
    }
    assert lines[..i] == lines;
  }

  /** process_en_vi_txt on the lines of a file: one entry per accepted
      line, each with a non-empty word. */
  function ProcessEnVi(lines: seq<String>): (r: seq<EnVi>)
    ensures |r| == |Seqs.Filter(lines, Accepted)|
    ensures forall i :: 0 <= i < |r| ==> r[i].englishWord != [] && CleanEnVi(r[i])
  {
    ParseAllCount(lines, ParseEnViLine, Accepted);
    ParseAllFrom(lines, ParseEnViLine);
    ParseAll(lines, ParseEnViLine)
  }

  /** process_vi_en_txt on the lines of a file. */
  function ProcessViEn(lines: seq<String>): (r: seq<ViEn>)
    ensures |r| == |Seqs.Filter(lines, Accepted)|
    ensures forall i :: 0 <= i < |r| ==> r[i].vietnameseWord != [] && CleanViEn(r[i])
  {
    ParseAllCount(lines, ParseViEnLine, Accepted);
    ParseAllFrom(lines, ParseViEnLine);
    ParseAll(lines, ParseViEnLine)
  }

  // Writing entries back as lines

  predicate CleanFields(fs: seq<String>) {
    forall k :: 0 <= k < |fs| ==> CleanField(fs[k])
  }

  /** The fields up to the last non-empty one (the first is always kept):
      what survives `strip()` of the joined line. */
  function DropEmptyTail(fs: seq<String>): (r: seq<String>)
    requires fs != []
    ensures 1 <= |r| <= |fs| && r == fs[..|r|]
    ensures forall i :: |r| <= i < |fs| ==> fs[i] == []
    ensures |r| > 1 ==> r[|r| - 1] != []
    ensures |fs| >= 2 && fs[1] != [] ==> |r| >= 2
    decreases |fs|
  {
    if |fs| > 1 && fs[|fs| - 1] == [] then DropEmptyTail(fs[..|fs| - 1]) else fs
  }

  /** Stripping a tab-joined line removes the tabs of trailing empty
      fields and nothing else. */
  lemma {:induction false} StripJoinTabs(fs: seq<String>)
    requires |fs| >= 2 && fs[0] != [] && fs[1] != [] && CleanFields(fs)
    ensures Strip(Join(fs, [Tab])) == Join(DropEmptyTail(fs), [Tab])
    decreases |fs|
  {
    var last := fs[|fs| - 1];
    if last == [] {
      var init := fs[..|fs| - 1];
      assert init + [last] == fs;
      JoinSnoc(init, last, [Tab]);
      var j := Join(init, [Tab]);
      assert Join(fs, [Tab]) == j + [Tab];
      JoinStartsWithFirst(init, [Tab]);
      assert j[..|fs[0]|][0] == fs[0][0];
      TrimLeftOfNonSpace(j);
      assert (j + [Tab])[0] == j[0];
      TrimLeftOfNonSpace(j + [Tab]);
      assert AllSpace([Tab]);
      TrimRightAppendSpace(j, [Tab]);
      assert CleanFields(init);
      StripJoinTabs(init);
    } else {
      JoinEnds(fs, [Tab]);
      StripKeepsStripped(Join(fs, [Tab]));
    }
  }

  /** Tab-joined clean fields parse back to themselves. */
  lemma FieldsOfJoin(fs: seq<String>)
    requires |fs| >= 2 && fs[0] != [] && fs[0][0] != '#' && fs[1] != [] && CleanFields(fs)
    ensures Fields(Join(fs, [Tab])) == Some(DropEmptyTail(fs))
    ensures forall i :: 0 <= i < |fs| ==> Field(DropEmptyTail(fs), i) == fs[i]
  {
    var d := DropEmptyTail(fs);
    var l := Join(d, [Tab]);
    StripJoinTabs(fs);
    assert forall k :: 0 <= k < |d| ==> Tab !in d[k] by {
      forall k | 0 <= k < |d| ensures Tab !in d[k] {
        assert d[k] == fs[k];
      }
    }
    SplitOnJoin(d, Tab);
    JoinStartsWithFirst(d, [Tab]);
    assert l[..|d[0]|][0] == fs[0][0];
    SplitOnSplits(l, Tab);
    assert Accepted(Join(fs, [Tab]));
    forall i | 0 <= i < |fs| ensures Field(d, i) == fs[i] {
      if i < |d| {
        StripKeepsStripped(fs[i]);
      }
    }
  }

  /** The columns an EN-VI entry is written as. */
  function EnViColumns(e: EnVi): seq<String> {
    [e.englishWord, e.vietnameseMeaning, e.wordType, e.pronunciation, e.example]
  }

  /** The columns a VI-EN entry is written as. */
  function ViEnColumns(e: ViEn): seq<String> {
    [e.vietnameseWord, e.englishMeaning, e.wordType, e.example]
  }

  /** An EN-VI entry as a line of a text file. */
  function FormatEnVi(e: EnVi): String {
    Join(EnViColumns(e), [Tab])
  }

  /** A VI-EN entry as a line of a text file. */
  function FormatViEn(e: ViEn): String {
    Join(ViEnColumns(e), [Tab])
  }

  /** The entries a line can carry unchanged: clean fields, a word that
      does not start a comment, and a meaning. */
  predicate WritableEnVi(e: EnVi) {
    e.englishWord != [] && e.englishWord[0] != '#' && e.vietnameseMeaning != [] && CleanEnVi(e)
  }

  predicate WritableViEn(e: ViEn) {
    e.vietnameseWord != [] && e.vietnameseWord[0] != '#' && e.englishMeaning != [] && CleanViEn(e)
  }

  lemma EnViOfColumns(p: seq<String>, e: EnVi)
    requires forall i :: 0 <= i < 5 ==> Field(p, i) == EnViColumns(e)[i]
    ensures EnViOf(p) == e
  {
    assert Field(p, 0) == EnViColumns(e)[0];
    assert Field(p, 1) == EnViColumns(e)[1];
    assert Field(p, 2) == EnViColumns(e)[2];
    assert Field(p, 3) == EnViColumns(e)[3];
    assert Field(p, 4) == EnViColumns(e)[4];
  }

  lemma ViEnOfColumns(p: seq<String>, e: ViEn)
    requires forall i :: 0 <= i < 4 ==> Field(p, i) == ViEnColumns(e)[i]
    ensures ViEnOf(p) == e
  {
    assert Field(p, 0) == ViEnColumns(e)[0];
    assert Field(p, 1) == ViEnColumns(e)[1];
    assert Field(p, 2) == ViEnColumns(e)[2];
    assert Field(p, 3) == ViEnColumns(e)[3];
  }

  lemma ParseEnViLineRoundTrip(e: EnVi)
    requires WritableEnVi(e)
    ensures ParseEnViLine(FormatEnVi(e)) == Some(e)
  {
    var fs := EnViColumns(e);
    assert CleanFields(fs);
    FieldsOfJoin(fs);
    EnViOfColumns(DropEmptyTail(fs), e);
  }

  lemma ParseViEnLineRoundTrip(e: ViEn)
    requires WritableViEn(e)
    ensures ParseViEnLine(FormatViEn(e)) == Some(e)
  {
    var fs := ViEnColumns(e);
    assert CleanFields(fs);
    FieldsOfJoin(fs);
    ViEnOfColumns(DropEmptyTail(fs), e);
  }

  /** Lines that each parse back to their entry read back as the entries. */
  lemma {:induction false} ParseAllRoundTrip<T>(lines: seq<String>, es: seq<T>, parse: String -> Option<T>)
    requires |lines| == |es|
    requires forall i :: 0 <= i < |es| ==> parse(lines[i]) == Some(es[i])
    ensures ParseAll(lines, parse) == es
    decreases |es|
  {
    if es != [] {
      var n := |es|;
      ParseAllRoundTrip(lines[..n - 1], es[..n - 1], parse);
      assert es[..n - 1] + [es[n - 1]] == es;
    }
  }

  /** A file written one entry per line reads back as the same entries. */
  lemma ProcessEnViRoundTrip(lines: seq<String>, es: seq<EnVi>)
    requires |lines| == |es|
    requires forall i :: 0 <= i < |es| ==> WritableEnVi(es[i]) && lines[i] == FormatEnVi(es[i])
    ensures ProcessEnVi(lines) == es
  {
    forall i | 0 <= i < |es| ensures ParseEnViLine(lines[i]) == Some(es[i]) {
      ParseEnViLineRoundTrip(es[i]);
    }
    ParseAllRoundTrip(lines, es, ParseEnViLine);
  }

  lemma ProcessViEnRoundTrip(lines: seq<String>, es: seq<ViEn>)
    requires |lines| == |es|
    requires forall i :: 0 <= i < |es| ==> WritableViEn(es[i]) && lines[i] == FormatViEn(es[i])
    ensures ProcessViEn(lines) == es
  {
    forall i | 0 <= i < |es| ensures ParseViEnLine(lines[i]) == Some(es[i]) {
      ParseViEnLineRoundTrip(es[i]);
    }
    ParseAllRoundTrip(lines, es, ParseViEnLine);
  }

  // ---------------------------------------------------------------------
  // Parallel corpora
  // ---------------------------------------------------------------------

  /** The `en_vi` and `vi_en` lists one importer returns. */
  datatype Corpus = Corpus(enVi: seq<EnVi>, viEn: seq<ViEn>)

  /** `v` is the VI-EN reading of `e`. */
  predicate Mirrors(e: EnVi, v: ViEn) {
    v == ViEn(e.vietnameseMeaning, e.englishWord, e.wordType, e.example)
  }

  /** Both lists have one entry per kept item, the i-th of each mirroring
      the other. */
  predicate Mirrored(c: Corpus) {
    |c.enVi| == |c.viEn| && forall i :: 0 <= i < |c.enVi| ==> Mirrors(c.enVi[i], c.viEn[i])
  }

  /** The entries for (English, Vietnamese) pairs, all with one word type
      and example and no pronunciation. */
  function Entries(pairs: seq<(String, String)>, wordType: String, example: String): (c: Corpus)
    ensures Mirrored(c) && |c.enVi| == |pairs|
    ensures forall i :: 0 <= i < |pairs| ==> c.enVi[i] == EnVi(pairs[i].0, pairs[i].1, wordType, [], example)
  {
    Corpus(
      seq(|pairs|, i requires 0 <= i < |pairs| => EnVi(pairs[i].0, pairs[i].1, wordType, [], example)),
      seq(|pairs|, i requires 0 <= i < |pairs| => ViEn(pairs[i].1, pairs[i].0, wordType, example)))
  }

  lemma EntriesSnoc(pairs: seq<(String, String)>, p: (String, String), wordType: String, example: String)
    ensures Entries(pairs + [p], wordType, example) ==
      Corpus(Entries(pairs, wordType, example).enVi + [EnVi(p.0, p.1, wordType, [], example)],
             Entries(pairs, wordType, example).viEn + [ViEn(p.1, p.0, wordType, example)])
  {
  }

  /** The (English, Vietnamese) pairs of a list of EN-VI entries. */
  function EnViPairs(es: seq<EnVi>): (ps: seq<(String, String)>)
    ensures |ps| == |es|
  {
    seq(|es|, i requires 0 <= i < |es| => (es[i].englishWord, es[i].vietnameseMeaning))
  }

  /** A line `split()` into one to three words: a likely dictionary
      entry. */
  predicate ShortPhrase(s: String) {
    1 <= |Words(s)| <= 3
  }

  predicate ShortPair(p: (String, String)) {
    ShortPhrase(p.0) && ShortPhrase(p.1)
  }

  function Min(a: int, b: int): int {
    if a <= b then a else b
  }

  /** The first `n` line pairs of two files, both sides stripped. */
  function StrippedPairs(a: seq<String>, b: seq<String>, n: nat): (ps: seq<(String, String)>)
    requires n <= |a| && n <= |b|
    ensures |ps| == n
    ensures forall i :: 0 <= i < n ==> ps[i] == (Strip(a[i]), Strip(b[i]))
  {
    seq(n, i requires 0 <= i < n => (Strip(a[i]), Strip(b[i])))
  }

  /** The pairs with one to three words on each side, in order. */
  function KeptPairs(a: seq<String>, b: seq<String>, n: nat): seq<(String, String)>
    requires n <= |a| && n <= |b|
  {
    Seqs.Filter(StrippedPairs(a, b, n), ShortPair)
  }

  /** Every kept pair is short and stripped on both sides. */
  lemma KeptPairsShape(a: seq<String>, b: seq<String>, n: nat)
    requires n <= |a| && n <= |b|
    ensures var ps := KeptPairs(a, b, n);
      forall i :: 0 <= i < |ps| ==> ShortPair(ps[i]) && IsStripped(ps[i].0) && IsStripped(ps[i].1)
  {
    var all := StrippedPairs(a, b, n);
    var r := KeptPairs(a, b, n);
    forall i | 0 <= i < |r| ensures ShortPair(r[i]) && IsStripped(r[i].0) && IsStripped(r[i].1) {
      var j :| 0 <= j < n && all[j] == r[i];
    }
  }

  lemma KeptPairsSnoc(a: seq<String>, b: seq<String>, n: nat)
    requires n < |a| && n < |b|
    ensures var p := (Strip(a[n]), Strip(b[n]));
      KeptPairs(a, b, n + 1) == KeptPairs(a, b, n) + (if ShortPair(p) then [p] else [])
  {
    var p := (Strip(a[n]), Strip(b[n]));
    assert StrippedPairs(a, b, n + 1) == StrippedPairs(a, b, n) + [p];
    Seqs.FilterSnoc(StrippedPairs(a, b, n), p, ShortPair);
  }

  /** How many line pairs process_parallel_corpus reads:
      `min(len(en), len(vi), max_entries)`, none for a negative cap. */
  function ParallelCount(en: seq<String>, vi: seq<String>, maxEntries: int): (n: nat)
    ensures n <= |en| && n <= |vi| && (maxEntries >= 0 ==> n <= maxEntries)
    ensures n == |en| || n == |vi| || n == maxEntries || (n == 0 && maxEntries < 0)
  {
    if maxEntries < 0 then 0 else Min(Min(|en|, |vi|), maxEntries)
  }

  /** process_parallel_corpus: the short-phrase pairs among the first
      lines, mirrored into both directions with empty type, pronunciation
      and example. */
  function ParallelCorpus(en: seq<String>, vi: seq<String>, maxEntries: int): (c: Corpus)
    ensures Mirrored(c)
    ensures forall i :: 0 <= i < |c.enVi| ==>
      && ShortPhrase(c.enVi[i].englishWord) && ShortPhrase(c.enVi[i].vietnameseMeaning)
      && IsStripped(c.enVi[i].englishWord) && IsStripped(c.enVi[i].vietnameseMeaning)
      && c.enVi[i].wordType == [] && c.enVi[i].pronunciation == [] && c.enVi[i].example == []
  {
    KeptPairsShape(en, vi, ParallelCount(en, vi, maxEntries));
    Entries(KeptPairs(en, vi, ParallelCount(en, vi, maxEntries)), [], [])
  }

  /** A pair is kept exactly when both sides are short phrases, in line
      order: the kept pairs are a subsequence of the examined ones and
      every short examined pair is among them. */
  lemma ParallelCorpusKeeps(en: seq<String>, vi: seq<String>, maxEntries: int)
    ensures var n := ParallelCount(en, vi, maxEntries);
      var kept := EnViPairs(ParallelCorpus(en, vi, maxEntries).enVi);
      && Seqs.IsSubseq(kept, StrippedPairs(en, vi, n))
      && forall j :: 0 <= j < n && ShortPair((Strip(en[j]), Strip(vi[j]))) ==> (Strip(en[j]), Strip(vi[j])) in kept
  {
    var n := ParallelCount(en, vi, maxEntries);
    var all := StrippedPairs(en, vi, n);
    Seqs.FilterKeeps(all, ShortPair);
    var c := ParallelCorpus(en, vi, maxEntries);
    assert EnViPairs(c.enVi) == KeptPairs(en, vi, n);
    forall j | 0 <= j < n && ShortPair((Strip(en[j]), Strip(vi[j])))
      ensures (Strip(en[j]), Strip(vi[j])) in EnViPairs(c.enVi)
    {
      assert all[j] == (Strip(en[j]), Strip(vi[j]));
    }
  }

  /** Lines past the examined count are never read. */
  lemma ParallelCorpusPrefix(en: seq<String>, vi: seq<String>, maxEntries: int)
    ensures var n := ParallelCount(en, vi, maxEntries);
      ParallelCorpus(en, vi, maxEntries) == ParallelCorpus(en[..n], vi[..n], maxEntries)
  {
    var n := ParallelCount(en, vi, maxEntries);
    assert ParallelCount(en[..n], vi[..n], maxEntries) == n;
    assert StrippedPairs(en, vi, n) == StrippedPairs(en[..n], vi[..n], n);
  }

  /** One more line pair adds one mirrored entry pair if it is short,
      nothing otherwise. */
  lemma ParallelStep(en: seq<String>, vi: seq<String>, i: nat)
    requires i < |en| && i < |vi|
    ensures var p := (Strip(en[i]), Strip(vi[i]));
      var c := Entries(KeptPairs(en, vi, i), [], []);
      Entries(KeptPairs(en, vi, i + 1), [], []) ==
        if ShortPair(p) then Corpus(c.enVi + [EnVi(p.0, p.1, [], [], [])], c.viEn + [ViEn(p.1, p.0, [], [])]) else c
  {
    var p := (Strip(en[i]), Strip(vi[i]));
    KeptPairsSnoc(en, vi, i);
    if ShortPair(p) {
      EntriesSnoc(KeptPairs(en, vi, i), p, [], []);
    } else {
      assert KeptPairs(en, vi, i + 1) == KeptPairs(en, vi, i);
    }
  }

  /** The loop of process_parallel_corpus. */
  method ProcessParallelCorpus(en: seq<String>, vi: seq<String>, maxEntries: int) returns (enVi: seq<EnVi>, viEn: seq<ViEn>)
    ensures Corpus(enVi, viEn) == ParallelCorpus(en, vi, maxEntries)
  {
    var n := if maxEntries < 0 then 0 else Min(Min(|en|, |vi|), maxEntries);
    enVi := [];
    viEn := [];
    var i := 0;
    while i < n
      invariant 0 <= i <= n <= |en| && n <= |vi|
      invariant Corpus(enVi, viEn) == Entries(KeptPairs(en, vi, i), [], [])
    {
      ParallelStep(en, vi, i);
      var enLine := Strip(en[i]);
      var viLine := Strip(vi[i]);
      if ShortPhrase(enLine) && ShortPhrase(viLine) {
        enVi := enVi + [EnVi(enLine, viLine, "", "", "")];
        viEn := viEn + [ViEn(viLine, enLine, "", "")];
      }
      i := i + 1;
    }
  }

  // ---------------------------------------------------------------------
  // OPUS corpora
  // ---------------------------------------------------------------------

  /** Each pair with its sides exchanged. */
  function Swap(ps: seq<(String, String)>): (r: seq<(String, String)>)
    ensures |r| == |ps|
    ensures forall i :: 0 <= i < |ps| ==> r[i] == (ps[i].1, ps[i].0)
  {
    seq(|ps|, i requires 0 <= i < |ps| => (ps[i].1, ps[i].0))
  }

  /** _process_parallel_corpus of the OPUS collector: every line pair is
      examined, and the alignment says which file is English. */
  function OpusCorpus(src: seq<String>, tgt: seq<String>, alignment: String): (c: Corpus)
    ensures Mirrored(c)
    ensures forall i :: 0 <= i < |c.enVi| ==>
      && ShortPhrase(c.enVi[i].englishWord) && ShortPhrase(c.enVi[i].vietnameseMeaning)
      && c.enVi[i].wordType == [] && c.enVi[i].pronunciation == [] && c.enVi[i].example == []
  {
    var pairs := KeptPairs(src, tgt, Min(|src|, |tgt|));
    KeptPairsShape(src, tgt, Min(|src|, |tgt|));
    if alignment == "en-vi" then Entries(pairs, [], []) else Entries(Swap(pairs), [], [])
  }

  /** With `en-vi` alignment the collector does what the parallel-corpus
      processor does when the cap does not bite. */
  lemma OpusEnViIsParallel(en: seq<String>, vi: seq<String>, maxEntries: int)
    requires maxEntries >= |en| || maxEntries >= |vi|
    ensures OpusCorpus(en, vi, "en-vi") == ParallelCorpus(en, vi, maxEntries)
  {
    assert ParallelCount(en, vi, maxEntries) == Min(|en|, |vi|);
  }

  /** Filtering with a test blind to the order of a pair commutes with
      swapping. */
  lemma {:induction false} FilterSwap(ps: seq<(String, String)>, p: ((String, String)) -> bool)
    requires forall a, b :: p((a, b)) == p((b, a))
    ensures Seqs.Filter(Swap(ps), p) == Swap(Seqs.Filter(ps, p))
    decreases |ps|
  {
    if ps != [] {
      var x := ps[0];
      FilterSwap(ps[1..], p);
      assert Swap(ps) == [(x.1, x.0)] + Swap(ps[1..]);
      assert (x.0, x.1) == x;
      assert p((x.1, x.0)) == p(x);
      var rest := Seqs.Filter(ps[1..], p);
      if p(x) {
        assert Swap([x] + rest) == [(x.1, x.0)] + Swap(rest);
      }
    }
  }

  /** Any other alignment reads the source file as Vietnamese: giving the
      files the other way round yields the same entries. */
  lemma OpusAlignmentSwapsFiles(vi: seq<String>, en: seq<String>, alignment: String)
    requires alignment != "en-vi"
    ensures OpusCorpus(vi, en, alignment) == OpusCorpus(en, vi, "en-vi")
  {
    var n := Min(|vi|, |en|);
    assert n == Min(|en|, |vi|);
    assert StrippedPairs(vi, en, n) == Swap(StrippedPairs(en, vi, n));
    FilterSwap(StrippedPairs(en, vi, n), ShortPair);
    var kept := KeptPairs(en, vi, n);
    assert Swap(Swap(kept)) == kept;
  }

  // ---------------------------------------------------------------------
  // WordNet synset lines
  // ---------------------------------------------------------------------

  /** The part of speech a synset id's first letter names. */
  function SynsetPos(id: String): (pos: String)
    ensures pos == [] <==> id == [] || id[0] !in {'n', 'v', 'a', 's', 'r'}
  {
    if id == [] then []
    else if id[0] == 'n' then "noun"
    else if id[0] == 'v' then "verb"
    else if id[0] == 'a' || id[0] == 's' then "adjective"
    else if id[0] == 'r' then "adverb"
    else []
  }

  /** The tags WordNet lines carry belong to the English part-of-speech
      vocabulary the StarDict parser converts into. */
  lemma SynsetPosIsEnglishPos(id: String)
    ensures SynsetPos(id) == [] || SynsetPos(id) in StarDictSegment.EnglishPos
  {
    var pos := SynsetPos(id);
    if pos == "noun" { assert StarDictSegment.EnglishPos[0] == pos; }
    else if pos == "verb" { assert StarDictSegment.EnglishPos[2] == pos; }
    else if pos == "adjective" { assert StarDictSegment.EnglishPos[1] == pos; }
    else if pos == "adverb" { assert StarDictSegment.EnglishPos[3] == pos; }
  }

  predicate NonEmpty(s: String) {
    s != []
  }

  /** The Vietnamese words of a synset: the comma-separated pieces of the
      stripped field, stripped, empty ones dropped. */
  function SynsetWords(field: String): seq<String> {
    Seqs.Filter(StripEach(SplitOn(Strip(field), ',')), NonEmpty)
  }

  /** The synset words are non-empty, stripped and comma-free. */
  lemma SynsetWordsShape(field: String)
    ensures var ws := SynsetWords(field);
      forall i :: 0 <= i < |ws| ==> ws[i] != [] && IsStripped(ws[i]) && ',' !in ws[i]
  {
    var pieces := SplitOn(Strip(field), ',');
    var stripped := StripEach(pieces);
    var ws := SynsetWords(field);
    SplitPiecesAvoid(Strip(field), CharIs(','), ',');
    forall i | 0 <= i < |ws| ensures ws[i] != [] && IsStripped(ws[i]) && ',' !in ws[i] {
      var j :| 0 <= j < |stripped| && stripped[j] == ws[i];
      StripKeepsOut(pieces[j], ',');
    }
  }

  /** The English headword standing for a synset. */
  function SynsetWord(id: String): String {
    "wordnet-" + id
  }

  /** The example every entry of a synset carries. */
  function SynsetExample(id: String): String {
    "WordNet synset: " + id
  }

  /** The synset id and words of a WordNet line, None when the line has
      no second tab-separated field. */
  function SynsetOf(line: String): (r: Option<(String, seq<String>)>)
    ensures r.Some? <==> Tab in Strip(line)
    ensures r.Some? ==> var ws := r.value.1;
      forall i :: 0 <= i < |ws| ==> ws[i] != [] && IsStripped(ws[i]) && ',' !in ws[i]
  {
    var parts := SplitOn(Strip(line), Tab);
    SplitOnSplits(Strip(line), Tab);
    if |parts| < 2 then None
    else
      SynsetWordsShape(parts[1]);
      Some((Strip(parts[0]), SynsetWords(parts[1])))
  }

  /** The entry pairs of one synset. */
  function SynsetEntries(id: String, ws: seq<String>): (c: Corpus)
    ensures Mirrored(c) && |c.enVi| == |ws|
    ensures forall i :: 0 <= i < |ws| ==> c.enVi[i] == EnVi(SynsetWord(id), ws[i], SynsetPos(id), [], SynsetExample(id))
  {
    Entries(seq(|ws|, i requires 0 <= i < |ws| => (SynsetWord(id), ws[i])), SynsetPos(id), SynsetExample(id))
  }

  /** One line of the Vietnamese WordNet mapping: an entry pair per
      Vietnamese word of the synset; nothing without a second field. */
  function WordNetLine(line: String): (c: Corpus)
    ensures Mirrored(c)
    ensures c.enVi != [] ==> Tab in Strip(line)
  {
    match SynsetOf(line)
    case None => Corpus([], [])
    case Some((id, ws)) => SynsetEntries(id, ws)
  }

  /** The English word gives the synset id back: distinct synsets never
      share a headword. */
  lemma SynsetWordDecodes(id: String)
    ensures |SynsetWord(id)| >= 8 && SynsetWord(id)[..8] == "wordnet-" && SynsetWord(id)[8..] == id
  {
  }

  /** The synset id of a line that has one. */
  function LineSynset(line: String): String
    requires Tab in Strip(line)
  {
    SynsetOf(line).value.0
  }

  /** Every entry of a line carries the line's synset: in its English
      word, its example and its word type. */
  lemma WordNetLineNames(line: String)
    ensures var c := WordNetLine(line);
      forall i :: 0 <= i < |c.enVi| ==>
        && c.enVi[i].englishWord == SynsetWord(LineSynset(line))
        && c.enVi[i].example == SynsetExample(LineSynset(line))
        && c.enVi[i].wordType == SynsetPos(LineSynset(line))
        && c.enVi[i].pronunciation == []
  {
    var r := SynsetOf(line);
    if r.Some? {
      assert WordNetLine(line) == SynsetEntries(r.value.0, r.value.1);
    }
  }

  /** Every entry of a line carries one non-empty, stripped, comma-free
      Vietnamese word. */
  lemma WordNetLineWords(line: String)
    ensures var c := WordNetLine(line);
      forall i :: 0 <= i < |c.enVi| ==>
        && c.enVi[i].vietnameseMeaning != [] && IsStripped(c.enVi[i].vietnameseMeaning)
        && ',' !in c.enVi[i].vietnameseMeaning
  {
    var r := SynsetOf(line);
    if r.Some? {
      var ws := r.value.1;
      var c := SynsetEntries(r.value.0, ws);
      assert WordNetLine(line) == c;
      forall i | 0 <= i < |c.enVi| ensures c.enVi[i].vietnameseMeaning == ws[i] {
      }
    }
  }

  /** The field of comma-joined clean words gives the words back. */
  lemma SynsetWordsOfJoin(ws: seq<String>)
    requires forall i :: 0 <= i < |ws| ==> ws[i] != [] && CleanField(ws[i]) && ',' !in ws[i]
    requires ws != []
    ensures SynsetWords(Join(ws, [','])) == ws
  {
    var field := Join(ws, [',']);
    assert IsStripped(field) by {
      JoinEnds(ws, [',']);
    }
    StripKeepsStripped(field);
    assert SplitOn(Strip(field), ',') == ws by {
      SplitOnJoin(ws, ',');
    }
    StripEachStripped(ws);
    Seqs.FilterAllPass(ws, NonEmpty);
  }

  /** Two clean fields joined by a tab split back into themselves. */
  lemma TwoFieldLine(id: String, field: String)
    requires id != [] && CleanField(id) && field != [] && CleanField(field)
    ensures Strip(id + [Tab] + field) == id + [Tab] + field
    ensures SplitOn(id + [Tab] + field, Tab) == [id, field]
  {
    var line := id + [Tab] + field;
    assert line[0] == id[0] && line[|line| - 1] == field[|field| - 1];
    StripKeepsStripped(line);
    assert Join([id, field], [Tab]) == line;
    SplitOnJoin([id, field], Tab);
  }

  /** Comma-joined clean words make a clean field. */
  lemma CommaJoinClean(ws: seq<String>)
    requires ws != [] && forall i :: 0 <= i < |ws| ==> ws[i] != [] && CleanField(ws[i])
    ensures Join(ws, [',']) != [] && CleanField(Join(ws, [',']))
  {
    JoinAvoids(ws, [','], Tab);
    JoinEnds(ws, [',']);
  }

  /** A line written from a synset id and its words parses back to them. */
  lemma SynsetOfRoundTrip(id: String, ws: seq<String>)
    requires id != [] && CleanField(id)
    requires ws != [] && forall i :: 0 <= i < |ws| ==> ws[i] != [] && CleanField(ws[i]) && ',' !in ws[i]
    ensures SynsetOf(id + [Tab] + Join(ws, [','])) == Some((id, ws))
  {
    var field := Join(ws, [',']);
    SynsetWordsOfJoin(ws);
    CommaJoinClean(ws);
    TwoFieldLine(id, field);
    StripKeepsStripped(id);
  }

  /** A line written from a synset id and its words reads back as one
      entry per word, in order. */
  lemma WordNetLineRoundTrip(id: String, ws: seq<String>)
    requires id != [] && CleanField(id)
    requires ws != [] && forall i :: 0 <= i < |ws| ==> ws[i] != [] && CleanField(ws[i]) && ',' !in ws[i]
    ensures var c := WordNetLine(id + [Tab] + Join(ws, [',']));
      && |c.enVi| == |ws|
      && forall i :: 0 <= i < |ws| ==>
        c.enVi[i] == EnVi(SynsetWord(id), ws[i], SynsetPos(id), [], SynsetExample(id))
  {
    SynsetOfRoundTrip(id, ws);
    assert WordNetLine(id + [Tab] + Join(ws, [','])) == SynsetEntries(id, ws);
  }

  // ---------------------------------------------------------------------
  // Entry validity
  // ---------------------------------------------------------------------

  /** An EN-VI entry as the dictionary the importers hand to the database. */
  function EnViRecord(e: EnVi): Utils.Entry {
    map["english_word" := Utils.Str(e.englishWord), "vietnamese_meaning" := Utils.Str(e.vietnameseMeaning),
        "word_type" := Utils.Str(e.wordType), "pronunciation" := Utils.Str(e.pronunciation),
        "example" := Utils.Str(e.example)]
  }

  /** A VI-EN entry as a dictionary. */
  function ViEnRecord(e: ViEn): Utils.Entry {
    map["vietnamese_word" := Utils.Str(e.vietnameseWord), "english_meaning" := Utils.Str(e.englishMeaning),
        "word_type" := Utils.Str(e.wordType), "example" := Utils.Str(e.example)]
  }

  /** Every entry of both lists passes is_valid_word_entry. */
  predicate AllValid(c: Corpus) {
    && (forall i :: 0 <= i < |c.enVi| ==> Utils.IsValidWordEntry(EnViRecord(c.enVi[i]), "en_vi"))
    && (forall i :: 0 <= i < |c.viEn| ==> Utils.IsValidWordEntry(ViEnRecord(c.viEn[i]), "vi_en"))
  }

  lemma EnViRecordValid(e: EnVi)
    ensures Utils.IsValidWordEntry(EnViRecord(e), "en_vi") <==> e.englishWord != [] && e.vietnameseMeaning != []
  {
    assert "english_word" != "vietnamese_meaning";
    assert Utils.RequiredKeys("en_vi") == ("english_word", "vietnamese_meaning");
  }

  lemma ViEnRecordValid(e: ViEn)
    ensures Utils.IsValidWordEntry(ViEnRecord(e), "vi_en") <==> e.vietnameseWord != [] && e.englishMeaning != []
  {
    assert "vietnamese_word" != "english_meaning";
    assert "vi_en" != "en_vi";
  }

  /** A mirrored corpus whose EN-VI entries have a word and a meaning is
      valid in both directions. */
  lemma MirroredValid(c: Corpus)
    requires Mirrored(c)
    requires forall i :: 0 <= i < |c.enVi| ==> c.enVi[i].englishWord != [] && c.enVi[i].vietnameseMeaning != []
    ensures AllValid(c)
  {
    forall i | 0 <= i < |c.enVi| ensures Utils.IsValidWordEntry(EnViRecord(c.enVi[i]), "en_vi") {
      EnViRecordValid(c.enVi[i]);
    }
    forall i | 0 <= i < |c.viEn| ensures Utils.IsValidWordEntry(ViEnRecord(c.viEn[i]), "vi_en") {
      ViEnRecordValid(c.viEn[i]);
    }
  }

  lemma ShortPhraseNonEmpty(s: String)
    requires ShortPhrase(s)
    ensures s != []
  {
  }

  /** Parallel-corpus entries always pass is_valid_word_entry. */
  lemma ParallelCorpusValid(en: seq<String>, vi: seq<String>, maxEntries: int)
    ensures AllValid(ParallelCorpus(en, vi, maxEntries))
  {
    var c := ParallelCorpus(en, vi, maxEntries);
    forall i | 0 <= i < |c.enVi| ensures c.enVi[i].englishWord != [] && c.enVi[i].vietnameseMeaning != [] {
      ShortPhraseNonEmpty(c.enVi[i].englishWord);
      ShortPhraseNonEmpty(c.enVi[i].vietnameseMeaning);
    }
    MirroredValid(c);
  }

  /** WordNet entries always pass is_valid_word_entry. */
  lemma WordNetLineValid(line: String)
    ensures AllValid(WordNetLine(line))
  {
    WordNetLineWords(line);
    WordNetLineNames(line);
    MirroredValid(WordNetLine(line));
  }
}

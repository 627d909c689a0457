/** DictionaryManager: how dictionary files are named and paired with
    their `.ifo`, which sources are dropped as samples, the decision of
    `check_dictionary_quality`, and `_combine_data_prioritizing_vi`, the
    merge of all collectors' results that puts the English-Vietnamese
    sources first. */
module DictionaryManager {
  import opened Optional
  import opened Text
  import Seqs
  import opened Records
  import StarDictImport

  // ---------------------------------------------------------------------
  // Dictionary files
  // ---------------------------------------------------------------------

  /** `os.path.basename`: what follows the last '/'. */
  function Basename(path: String): (b: String)
    ensures '/' !in b && |b| <= |path| && b == path[|path| - |b|..]
    ensures |b| < |path| ==> path[|path| - |b| - 1] == '/'
    decreases |path|
  {
    if path == [] || path[|path| - 1] == '/' then []
    else
      var init := Basename(path[..|path| - 1]);
      assert path[..|path| - 1][|path| - 1 - |init|..] + [path[|path| - 1]] == path[|path| - |init| - 1..];
      init + [path[|path| - 1]]
  }

  lemma {:induction false} BasenameAfterSlash(dir: String, name: String)
    requires '/' !in name
    ensures Basename(dir + "/" + name) == name
    decreases |name|
  {
    var p := dir + "/" + name;
    if name == [] {
      assert p[|p| - 1] == '/';
    } else {
      var init := name[..|name| - 1];
      assert p[..|p| - 1] == dir + "/" + init;
      assert p[|p| - 1] == name[|name| - 1];
      BasenameAfterSlash(dir, init);
      assert init + [name[|name| - 1]] == name;
    }
  }

  /** The source name of a dictionary file: its base name up to the first '.'. */
  function SourceName(dictFile: String): (name: String)
    ensures '.' !in name && '/' !in name
  {
    var parts := SplitOn(Basename(dictFile), '.');
    assert parts[0] in parts;
    PieceOfSplitOn(Basename(dictFile), '.');
    parts[0]
  }

  /** The first piece of `s.split(c)` is a prefix of `s` without `c`. */
  lemma {:induction false} PieceOfSplitOn(s: String, c: char)
    ensures var p := SplitOn(s, c)[0]; |p| <= |s| && p == s[..|p|] && c !in p
    decreases |s|
  {
    if s != [] {
      PieceOfSplitOn(s[1..], c);
    }
  }

  /** `s.replace(pat, rep)` passes over a prefix that cannot start an
      occurrence. */
  lemma {:induction false} ReplaceAllSkip(p: String, x: String, pat: String, rep: String)
    requires pat != [] && pat[0] !in p
    ensures ReplaceAll(p + x, pat, rep) == p + ReplaceAll(x, pat, rep)
    decreases |p|
  {
    if p != [] {
      var s := p + x;
      assert s[0] == p[0];
      assert s[1..] == p[1..] + x;
      if |s| >= |pat| {
        assert s[..|pat|][0] == p[0];
      }
      ReplaceAllSkip(p[1..], x, pat, rep);
      assert [p[0]] + p[1..] == p;
    } else {
      assert p + x == x;
    }
  }

  lemma ReplaceWhole(pat: String, rep: String)
    requires pat != []
    ensures ReplaceAll(pat, pat, rep) == rep
  {
    assert pat[..|pat|] == pat;
    assert pat[|pat|..] == [];
    assert rep + [] == rep;
  }

  /** A file `base.dict.dz` or `base.dict` is paired with `base.ifo`, for a
      path `base` without dots. */
  lemma IfoPathOfDictFile(base: String)
    requires '.' !in base
    ensures StarDictImport.IfoPathFor(base + ".dict.dz") == base + ".ifo"
    ensures StarDictImport.IfoPathFor(base + ".dict") == base + ".ifo"
  {
    ReplaceAllSkip(base, ".dict.dz", ".dict.dz", ".ifo");
    ReplaceWhole(".dict.dz", ".ifo");
    ReplaceAllSkip(base, ".ifo", ".dict", ".ifo");
    ReplaceAllSkip(base, ".dict", ".dict.dz", ".ifo");
    ReplaceAllSkip(base, ".dict", ".dict", ".ifo");
    ReplaceWhole(".dict", ".ifo");
  }

  /** The base name of `dir/stem.ext` is `stem.ext`. */
  lemma BasenameOfFile(dir: String, stem: String, ext: String)
    requires '/' !in stem && '/' !in ext
    ensures Basename(dir + "/" + stem + "." + ext) == stem + "." + ext
  {
    var head := dir + "/";
    var file := stem + "." + ext;
    Seqs.AppendAssoc(head, stem, ".");
    Seqs.AppendAssoc(head, stem + ".", ext);
    assert '/' !in file;
    BasenameAfterSlash(dir, file);
  }

  /** The file `dir/stem.ext` is named `stem`, for a stem without dots and
      slashes. */
  lemma SourceNameOfDictFile(dir: String, stem: String, ext: String)
    requires '.' !in stem && '/' !in stem && '/' !in ext
    ensures SourceName(dir + "/" + stem + "." + ext) == stem
  {
    BasenameOfFile(dir, stem, ext);
    assert stem + "." + ext == stem + ("." + ext);
    SplitOnPrefix(stem, "." + ext, '.');
    assert SplitOn("." + ext, '.')[0] == [];
    assert stem + [] == stem;
  }

  // ---------------------------------------------------------------------
  // Dropping sample sources
  // ---------------------------------------------------------------------

  /** A discovered dictionary source: its name (absent key = None), the
      dictionary file and the `.ifo` file if it exists. */
  datatype DictSource = DictSource(name: Option<String>, dict: String, ifo: Option<String>)

  /** The lowercased name, "" when absent, mentions one of the six sample
      patterns. */
  predicate IsSampleSource(s: DictSource) {
    StarDictImport.MentionsAny(s.name.GetOr(""), StarDictImport.SamplePatterns)
  }

  /** `filter_dictionary_sources`. */
  function FilterSources(sources: seq<DictSource>): (r: seq<DictSource>)
    ensures forall s :: s in r ==> s in sources && !IsSampleSource(s)
  {
    Seqs.Filter(sources, (s: DictSource) => !IsSampleSource(s))
  }

  /** Exactly the non-sample sources are kept, in their original order. */
  lemma FilterSourcesKeeps(sources: seq<DictSource>)
    ensures Seqs.IsSubseq(FilterSources(sources), sources)
    ensures forall s :: s in sources ==> (s in FilterSources(sources) <==> !IsSampleSource(s))
  {
    Seqs.FilterKeeps(sources, (s: DictSource) => !IsSampleSource(s));
    forall s | s in sources && !IsSampleSource(s) ensures s in FilterSources(sources) {
      var j :| 0 <= j < |sources| && sources[j] == s;
    }
  }

  // ---------------------------------------------------------------------
  // check_dictionary_quality
  // ---------------------------------------------------------------------

  /** The patterns of the quality check: the import's list without "local". */
  const QualityPatterns: seq<String> := ["sample", "mẫu", "test", "simple", "basic"]

  /** One row of `SELECT source, COUNT(*) ... GROUP BY source`. */
  datatype SourceCount = SourceCount(source: String, count: nat)

  predicate IsSampleName(g: SourceCount) {
    exists k | 0 <= k < |QualityPatterns| :: Contains(Lower(g.source), QualityPatterns[k])
  }

  /** The decision of `check_dictionary_quality`: no dictionary loaded,
      fewer than 100 rows, or no more sources than sample-named ones all
      fail it. `sourceCount` is `COUNT(DISTINCT source)`. */
  function QualityOk(loaded: bool, total: nat, sourceCount: nat, groups: seq<SourceCount>): (ok: bool)
    ensures ok ==> loaded && total >= 100
    ensures loaded && total >= 100 && sourceCount > |groups| ==> ok
    ensures loaded && total >= 100 && (forall j :: 0 <= j < |groups| ==> !IsSampleName(groups[j])) ==> ok
  {
    if !loaded || total < 100 then false
    else
      var samples := Seqs.Filter(groups, IsSampleName);
      assert samples != [] ==> IsSampleName(samples[0]) && samples[0] in groups;
      !(samples != [] && sourceCount <= |samples|)
  }

  /** With one group per distinct source, the check fails exactly when the
      store is small or every source is sample-named. */
  lemma QualityRule(loaded: bool, total: nat, groups: seq<SourceCount>)
    ensures QualityOk(loaded, total, |groups|, groups) <==>
      loaded && total >= 100 && (groups == [] || exists j :: 0 <= j < |groups| && !IsSampleName(groups[j]))
  {
    var samples := Seqs.Filter(groups, IsSampleName);
    Seqs.FilterKeeps(groups, IsSampleName);
    Seqs.SubseqLength(samples, groups);
    if groups != [] && forall j :: 0 <= j < |groups| ==> IsSampleName(groups[j]) {
      Seqs.FilterAllPass(groups, IsSampleName);
      assert groups[0] in samples;
    } else if exists j :: 0 <= j < |groups| && !IsSampleName(groups[j]) {
      var j :| 0 <= j < |groups| && !IsSampleName(groups[j]);
      FilterShorter(groups, IsSampleName, j);
    }
  }

  /** A filter that drops something is shorter. */
  lemma {:induction false} FilterShorter<T>(xs: seq<T>, p: T -> bool, j: nat)
    requires j < |xs| && !p(xs[j])
    ensures |Seqs.Filter(xs, p)| < |xs|
    decreases |xs|
  {
    if j > 0 {
      FilterShorter(xs[1..], p, j - 1);
    }
  }

  // ---------------------------------------------------------------------
  // _combine_data_prioritizing_vi
  // ---------------------------------------------------------------------

  /** The collectors' results by key; None is a falsy value or a missing key. */
  datatype DataSources = DataSources(
    stardict: Option<Data>,
    vdict: Option<Data>,
    oxford: Option<Data>,
    wordnet: Option<Data>,
    wiktionary: Option<Data>)

  /** The three lists the stages build. */
  datatype Partial = Partial(pronunciations: seq<String>, definitions: seq<Def>, examples: seq<Ex>)

  /** The combined record; synonyms and antonyms come out of Python sets,
      so only their elements are determined. The source's `etymologies`
      key is always the empty list and is not represented. */
  datatype Combined = Combined(
    word: String,
    pronunciations: seq<String>,
    definitions: seq<Def>,
    examples: seq<Ex>,
    synonyms: set<String>,
    antonyms: set<String>)

  /** `d.get('pos')`, the key of the existing definitions. */
  function PosOf(d: Def): Option<String> {
    d.pos
  }

  /** `definition.get('pos', 'unknown')`, the key of a candidate. */
  function NewPos(d: Def): Option<String> {
    Some(d.pos.GetOr("unknown"))
  }

  /** The part-of-speech novelty rule: a candidate is appended when its
      part of speech is neither among the existing definitions' nor among
      those appended before it. */
  function AddNewPos(defs: seq<Def>, candidates: seq<Def>): (r: seq<Def>)
    ensures |defs| <= |r| && r[..|defs|] == defs
    ensures r == defs + Seqs.FirstUnseen(Seqs.KeySet(defs, PosOf), candidates, NewPos)
  {
    Seqs.AppendUnseenIsFirstUnseen(defs, Seqs.KeySet(defs, PosOf), candidates, NewPos);
    Seqs.AppendUnseen(defs, Seqs.KeySet(defs, PosOf), candidates, NewPos)
  }

  /** The example rule: a candidate with a non-empty text not yet among the
      texts is appended. */
  function AddNewTexts(examples: seq<Ex>, candidates: seq<Ex>): (r: seq<Ex>)
    ensures |examples| <= |r| && r[..|examples|] == examples
    ensures r == examples + Seqs.FirstUnseen(Seqs.KeySet(examples, TextOf), Seqs.Filter(candidates, HasText), TextOf)
  {
    Seqs.AppendUnseenIsFirstUnseen(examples, Seqs.KeySet(examples, TextOf), Seqs.Filter(candidates, HasText), TextOf);
    Seqs.AppendUnseen(examples, Seqs.KeySet(examples, TextOf), Seqs.Filter(candidates, HasText), TextOf)
  }

  /** At most one definition per new part of speech, and one for each:
      what is appended comes from the candidates in order, carries a part
      of speech not among the existing ones, no two the same, and every
      candidate's part of speech is covered afterwards. */
  lemma AddNewPosRule(defs: seq<Def>, candidates: seq<Def>)
    ensures var added := AddNewPos(defs, candidates)[|defs|..];
      && Seqs.IsSubseq(added, candidates)
      && (forall d :: d in added ==> NewPos(d) !in Seqs.KeySet(defs, PosOf))
      && Seqs.KeysDistinct(added, NewPos)
      && (forall j :: 0 <= j < |candidates| ==>
            NewPos(candidates[j]) in Seqs.KeySet(defs, PosOf) + Seqs.KeySet(added, NewPos))
  {
    var seen := Seqs.KeySet(defs, PosOf);
    var r := AddNewPos(defs, candidates);
    Seqs.AppendUnseenSubseq(defs, seen, candidates, NewPos);
    Seqs.AppendUnseenDistinct(defs, seen, candidates, NewPos);
    Seqs.AppendUnseenCovers(defs, seen, candidates, NewPos);
    forall d | d in r[|defs|..] ensures NewPos(d) !in seen {
      var i :| 0 <= i < |r[|defs|..]| && r[|defs|..][i] == d;
      assert d == r[|defs| + i];
    }
  }

  /** Everything appended has a non-empty text that the list lacked. */
  lemma AddedTextsAreNew(examples: seq<Ex>, candidates: seq<Ex>)
    ensures forall e :: e in AddNewTexts(examples, candidates)[|examples|..] ==>
      HasText(e) && TextOf(e) !in Seqs.KeySet(examples, TextOf)
  {
    var seen := Seqs.KeySet(examples, TextOf);
    var texted := Seqs.Filter(candidates, HasText);
    var added := AddNewTexts(examples, candidates)[|examples|..];
    Seqs.AppendUnseenSubseq(examples, seen, texted, TextOf);
    Seqs.SubseqMembers(added, texted);
    forall e | e in added ensures HasText(e) && TextOf(e) !in seen {
      var i :| 0 <= i < |added| && added[i] == e;
      assert e == AddNewTexts(examples, candidates)[|examples| + i];
      var k :| 0 <= k < |texted| && texted[k] == e;
    }
  }

  /** Every candidate with a text has its text in the result. */
  lemma AddNewTextsCovers(examples: seq<Ex>, candidates: seq<Ex>)
    ensures forall j :: 0 <= j < |candidates| && HasText(candidates[j]) ==>
      TextOf(candidates[j]) in Seqs.KeySet(AddNewTexts(examples, candidates), TextOf)
  {
    var texted := Seqs.Filter(candidates, HasText);
    Seqs.FilterKeeps(candidates, HasText);
    Seqs.AppendUnseenCoversAll(examples, texted, TextOf);
    forall j | 0 <= j < |candidates| && HasText(candidates[j])
      ensures TextOf(candidates[j]) in Seqs.KeySet(AddNewTexts(examples, candidates), TextOf)
    {
      var k :| 0 <= k < |texted| && texted[k] == candidates[j];
    }
  }

  /** What is appended has a non-empty text new to the list, no two the
      same, taken from the candidates in order; every candidate with a
      text has its text in the result. */
  lemma AddNewTextsRule(examples: seq<Ex>, candidates: seq<Ex>)
    ensures var added := AddNewTexts(examples, candidates)[|examples|..];
      && Seqs.IsSubseq(added, candidates)
      && (forall e :: e in added ==> HasText(e) && TextOf(e) !in Seqs.KeySet(examples, TextOf))
      && Seqs.KeysDistinct(added, TextOf)
      && (forall j :: 0 <= j < |candidates| && HasText(candidates[j]) ==>
            TextOf(candidates[j]) in Seqs.KeySet(AddNewTexts(examples, candidates), TextOf))
  {
    var seen := Seqs.KeySet(examples, TextOf);
    var texted := Seqs.Filter(candidates, HasText);
    Seqs.FilterKeeps(candidates, HasText);
    Seqs.AppendUnseenSubseq(examples, seen, texted, TextOf);
    SubseqTrans(AddNewTexts(examples, candidates)[|examples|..], texted, candidates);
    Seqs.AppendUnseenDistinct(examples, seen, texted, TextOf);
    AddedTextsAreNew(examples, candidates);
    AddNewTextsCovers(examples, candidates);
  }

  lemma {:induction false} SubseqTrans<T>(a: seq<T>, b: seq<T>, c: seq<T>)
    requires Seqs.IsSubseq(a, b) && Seqs.IsSubseq(b, c)
    ensures Seqs.IsSubseq(a, c)
    decreases |c|
  {
    if a != [] && b != [] && c != [] {
      if b[0] == c[0] && Seqs.IsSubseq(b[1..], c[1..]) {
        if a[0] == b[0] && Seqs.IsSubseq(a[1..], b[1..]) {
          SubseqTrans(a[1..], b[1..], c[1..]);
        } else {
          SubseqTrans(a, b[1..], c[1..]);
          Seqs.SubseqDropHead(a, c);
        }
      } else {
        SubseqTrans(a, b, c[1..]);
        Seqs.SubseqDropHead(a, c);
      }
    }
  }

  /** Priority 1: StarDict's lists, copied in order. */
  function StarDictStage(sd: Option<Data>): (p: Partial)
    ensures sd.None? ==> p.pronunciations == [] && p.definitions == [] && p.examples == []
    ensures sd.Some? ==>
      p.pronunciations == sd.value.pronunciations && p.definitions == sd.value.definitions && p.examples == sd.value.examples
  {
    if sd.None? then Partial([], [], [])
    else Partial(sd.value.pronunciations, sd.value.definitions, sd.value.examples)
  }

  /** Priority 2: VDict's pronunciations only when there are none yet,
      definitions by the novelty rule, examples by the text rule. */
  function VDictStage(p: Partial, vd: Option<Data>): (r: Partial)
    ensures p.pronunciations != [] ==> r.pronunciations == p.pronunciations
    ensures |p.definitions| <= |r.definitions| && r.definitions[..|p.definitions|] == p.definitions
    ensures |p.examples| <= |r.examples| && r.examples[..|p.examples|] == p.examples
  {
    if vd.None? then p
    else
      Partial(
        if p.pronunciations == [] then vd.value.pronunciations else p.pronunciations,
        AddNewPos(p.definitions, vd.value.definitions),
        AddNewTexts(p.examples, vd.value.examples))
  }

  /** `definition_vi`, when absent or empty, becomes the translation of
      `definition` (absent = ""). */
  function FillDefinition(translate: String -> String, d: Def): (r: Def)
    ensures NewPos(r) == NewPos(d) && r.definitionVi.Some?
  {
    if d.definitionVi.None? || d.definitionVi == Some("") then d.(definitionVi := Some(translate(d.definition.GetOr(""))))
    else d
  }

  /** `text_vi`, when absent or empty, becomes the translation of the text. */
  function FillExample(translate: String -> String, e: Ex): (r: Ex)
    ensures TextOf(r) == TextOf(e) && r.textVi.Some?
  {
    if e.textVi.None? || e.textVi == Some("") then e.(textVi := Some(translate(TextOf(e))))
    else e
  }

  /** Priority 3, one English source: as VDict, but what is appended is
      translated where it lacks Vietnamese. The translator only runs on
      appended entries; since the rules look at neither `definition_vi` nor
      `text_vi`, filling every candidate first appends the same entries. */
  function EnglishStage(p: Partial, src: Option<Data>, translate: String -> String): (r: Partial)
    ensures p.pronunciations != [] ==> r.pronunciations == p.pronunciations
    ensures |p.definitions| <= |r.definitions| && r.definitions[..|p.definitions|] == p.definitions
    ensures |p.examples| <= |r.examples| && r.examples[..|p.examples|] == p.examples
  {
    if src.None? then p
    else
      var s := src.value;
      Partial(
        if p.pronunciations == [] then s.pronunciations else p.pronunciations,
        AddNewPos(p.definitions, seq(|s.definitions|, i requires 0 <= i < |s.definitions| =>
          FillDefinition(translate, s.definitions[i]))),
        AddNewTexts(p.examples, seq(|s.examples|, i requires 0 <= i < |s.examples| =>
          FillExample(translate, s.examples[i]))))
  }

  /** The English sources, consulted in the order oxford, wordnet,
      wiktionary, and only when the first two priorities gave no
      definition. */
  function EnglishStages(p: Partial, ds: DataSources, translate: String -> String): (r: Partial)
    ensures p.definitions != [] ==> r == p
    ensures p.pronunciations != [] ==> r.pronunciations == p.pronunciations
    ensures |p.examples| <= |r.examples| && r.examples[..|p.examples|] == p.examples
  {
    if p.definitions != [] then p
    else
      var p1 := EnglishStage(p, ds.oxford, translate);
      var p2 := EnglishStage(p1, ds.wordnet, translate);
      var p3 := EnglishStage(p2, ds.wiktionary, translate);
      assert p2.examples[..|p1.examples|] == p1.examples;
      assert p3.examples[..|p1.examples|] == p1.examples by {
        assert p3.examples[..|p2.examples|][..|p1.examples|] == p3.examples[..|p1.examples|];
      }
      assert p3.examples[..|p.examples|] == p.examples by {
        assert p3.examples[..|p1.examples|][..|p.examples|] == p3.examples[..|p.examples|];
      }
      p3
  }

  predicate AllFalsy(ds: DataSources) {
    ds.stardict.None? && ds.vdict.None? && ds.oxford.None? && ds.wordnet.None? && ds.wiktionary.None?
  }

  /** `_combine_data_prioritizing_vi`; `translate` is the translator. The
      English sources are consulted only when the English-Vietnamese ones
      gave no definition; otherwise the three lists are theirs alone. */
  function Combine(word: String, ds: DataSources, translate: String -> String): (r: Option<Combined>)
    ensures r.None? <==> AllFalsy(ds)
    ensures r.Some? ==> r.value.word == word
    ensures r.Some? && VDictStage(StarDictStage(ds.stardict), ds.vdict).definitions != [] ==>
      var p := VDictStage(StarDictStage(ds.stardict), ds.vdict);
      r.value.pronunciations == p.pronunciations && r.value.definitions == p.definitions && r.value.examples == p.examples
  {
    if AllFalsy(ds) then None
    else
      var p := EnglishStages(VDictStage(StarDictStage(ds.stardict), ds.vdict), ds, translate);
      var syn := if ds.wordnet.Some? then set x | x in ds.wordnet.value.synonyms else {};
      var ant := if ds.wordnet.Some? then set x | x in ds.wordnet.value.antonyms else {};
      Some(Combined(word, p.pronunciations, p.definitions, p.examples, syn, ant))
  }

  /** StarDict comes first: its definitions and examples open the result
      in their order, and its pronunciations, when it has any, are the
      result's. */
  lemma CombineStarDictFirst(word: String, ds: DataSources, translate: String -> String)
    requires ds.stardict.Some?
    ensures var r := Combine(word, ds, translate).value; var sd := ds.stardict.value;
      && |sd.definitions| <= |r.definitions| && r.definitions[..|sd.definitions|] == sd.definitions
      && |sd.examples| <= |r.examples| && r.examples[..|sd.examples|] == sd.examples
      && (sd.pronunciations != [] ==> r.pronunciations == sd.pronunciations)
  {
    var sd := ds.stardict.value;
    var p1 := StarDictStage(ds.stardict);
    var p2 := VDictStage(p1, ds.vdict);
    var p3 := EnglishStages(p2, ds, translate);
    if sd.definitions != [] {
      assert p2.definitions[..|sd.definitions|] == sd.definitions;
      assert p2.definitions != [];
    } else {
      assert p3.definitions[..0] == [];
    }
    assert p3.examples[..|sd.examples|] == sd.examples by {
      assert p3.examples[..|p2.examples|][..|sd.examples|] == p3.examples[..|sd.examples|];
    }
  }

  /** Whatever the sources, the combined lists obey the two rules: VDict
      adds only definitions of new parts of speech, and only examples with
      a new, non-empty text. */
  lemma CombineVDictRules(word: String, ds: DataSources, translate: String -> String)
    requires ds.vdict.Some?
    ensures var p1 := StarDictStage(ds.stardict); var p2 := VDictStage(p1, ds.vdict);
      && (forall d :: d in p2.definitions[|p1.definitions|..] ==> NewPos(d) !in Seqs.KeySet(p1.definitions, PosOf))
      && (forall e :: e in p2.examples[|p1.examples|..] ==> HasText(e) && TextOf(e) !in Seqs.KeySet(p1.examples, TextOf))
  {
    var p1 := StarDictStage(ds.stardict);
    AddNewPosRule(p1.definitions, ds.vdict.value.definitions);
    AddNewTextsRule(p1.examples, ds.vdict.value.examples);
  }

  /** One English source follows the VDict rules, and what it appends is
      translated: every appended definition carries a part of speech not
      among the existing ones, no two the same, and has `definition_vi`;
      every appended example has a non-empty text new to the list and has
      `text_vi`; each is a filled-in entry of the source. */
  lemma EnglishStageRule(p: Partial, src: Option<Data>, translate: String -> String)
    requires src.Some?
    ensures var r := EnglishStage(p, src, translate); var s := src.value;
      && (forall d :: d in r.definitions[|p.definitions|..] ==>
            && NewPos(d) !in Seqs.KeySet(p.definitions, PosOf)
            && d.definitionVi.Some?
            && exists j :: 0 <= j < |s.definitions| && d == FillDefinition(translate, s.definitions[j]))
      && Seqs.KeysDistinct(r.definitions[|p.definitions|..], NewPos)
      && (forall e :: e in r.examples[|p.examples|..] ==>
            && HasText(e) && TextOf(e) !in Seqs.KeySet(p.examples, TextOf)
            && e.textVi.Some?
            && exists j :: 0 <= j < |s.examples| && e == FillExample(translate, s.examples[j]))
  {
    var s := src.value;
    var filledDefs := seq(|s.definitions|, i requires 0 <= i < |s.definitions| => FillDefinition(translate, s.definitions[i]));
    var filledExs := seq(|s.examples|, i requires 0 <= i < |s.examples| => FillExample(translate, s.examples[i]));
    var r := EnglishStage(p, src, translate);
    assert r.definitions == AddNewPos(p.definitions, filledDefs);
    assert r.examples == AddNewTexts(p.examples, filledExs);
    AddNewPosRule(p.definitions, filledDefs);
    AddNewTextsRule(p.examples, filledExs);
    var addedDefs := r.definitions[|p.definitions|..];
    var addedExs := r.examples[|p.examples|..];
    Seqs.SubseqMembers(addedDefs, filledDefs);
    Seqs.SubseqMembers(addedExs, filledExs);
    forall d | d in addedDefs
      ensures d.definitionVi.Some? && exists j :: 0 <= j < |s.definitions| && d == FillDefinition(translate, s.definitions[j])
    {
      var k :| 0 <= k < |filledDefs| && filledDefs[k] == d;
    }
    forall e | e in addedExs
      ensures e.textVi.Some? && exists j :: 0 <= j < |s.examples| && e == FillExample(translate, s.examples[j])
    {
      var k :| 0 <= k < |filledExs| && filledExs[k] == e;
    }
  }

  /** All definitions translated, and the examples from index `n` on
      translated and non-empty. */
  predicate TranslatedFrom(p: Partial, n: nat) {
    && (forall d :: d in p.definitions ==> d.definitionVi.Some?)
    && n <= |p.examples|
    && (forall k :: n <= k < |p.examples| ==> HasText(p.examples[k]) && p.examples[k].textVi.Some?)
  }

  /** An English source keeps `TranslatedFrom`. */
  lemma EnglishStageTranslated(p: Partial, src: Option<Data>, translate: String -> String, n: nat)
    requires TranslatedFrom(p, n)
    ensures TranslatedFrom(EnglishStage(p, src, translate), n)
  {
    if src.Some? {
      var r := EnglishStage(p, src, translate);
      EnglishStageRule(p, src, translate);
      forall d | d in r.definitions ensures d.definitionVi.Some? {
        var i :| 0 <= i < |r.definitions| && r.definitions[i] == d;
        if i < |p.definitions| {
          assert d == r.definitions[..|p.definitions|][i];
        } else {
          assert d == r.definitions[|p.definitions|..][i - |p.definitions|];
        }
      }
      forall k | n <= k < |r.examples| ensures HasText(r.examples[k]) && r.examples[k].textVi.Some? {
        if k < |p.examples| {
          assert r.examples[k] == r.examples[..|p.examples|][k];
        } else {
          assert r.examples[k] == r.examples[|p.examples|..][k - |p.examples|];
        }
      }
    }
  }

  /** When StarDict and VDict gave no definition, every definition of the
      combined result comes from an English source and carries
      `definition_vi`, and every example appended after theirs has a
      non-empty text and `text_vi`. */
  lemma CombineEnglishTranslated(word: String, ds: DataSources, translate: String -> String)
    requires VDictStage(StarDictStage(ds.stardict), ds.vdict).definitions == []
    ensures var p := VDictStage(StarDictStage(ds.stardict), ds.vdict); var r := Combine(word, ds, translate);
      r.Some? ==>
        && (forall d :: d in r.value.definitions ==> d.definitionVi.Some?)
        && |p.examples| <= |r.value.examples|
        && (forall k :: |p.examples| <= k < |r.value.examples| ==>
              HasText(r.value.examples[k]) && r.value.examples[k].textVi.Some?)
  {
    var p := VDictStage(StarDictStage(ds.stardict), ds.vdict);
    var n := |p.examples|;
    assert TranslatedFrom(p, n);
    var p1 := EnglishStage(p, ds.oxford, translate);
    var p2 := EnglishStage(p1, ds.wordnet, translate);
    EnglishStageTranslated(p, ds.oxford, translate, n);
    EnglishStageTranslated(p1, ds.wordnet, translate, n);
    EnglishStageTranslated(p2, ds.wiktionary, translate, n);
  }
}

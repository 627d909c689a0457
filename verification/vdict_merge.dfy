/** VDictScraper._merge_data and the None rule of VDictScraper.get_word_data:
    the online collectors' results are merged into one record by appending,
    each list deduplicated on its own key. */
module VDictMerge {
  import opened Optional
  import opened Text
  import Seqs
  import opened Records

  /** The record being built: the word and the three merged lists
      (synonyms and antonyms are never filled here). */
  datatype Target = Target(word: String, pronunciations: seq<String>, definitions: seq<Def>, examples: seq<Ex>)

  /** A definition repeats another when `definition_vi` and `pos` agree, an
      absent key reading as "". */
  function DefKey(d: Def): (String, String) {
    (d.definitionVi.GetOr(""), d.pos.GetOr(""))
  }

  /** `_merge_data(target, source)`; `source` is None when it is falsy. */
  function Merge(target: Target, source: Option<Data>): (r: Target)
    ensures source.None? ==> r == target
    ensures r.word == target.word
    ensures |target.pronunciations| <= |r.pronunciations|
    ensures r.pronunciations[..|target.pronunciations|] == target.pronunciations
    ensures |target.definitions| <= |r.definitions| && r.definitions[..|target.definitions|] == target.definitions
    ensures |target.examples| <= |r.examples| && r.examples[..|target.examples|] == target.examples
  {
    if source.None? then target
    else
      var s := source.value;
      Target(
        target.word,
        Seqs.AppendUnseen(target.pronunciations, Seqs.KeySet(target.pronunciations, Seqs.Id), s.pronunciations, Seqs.Id),
        Seqs.AppendUnseen(target.definitions, Seqs.KeySet(target.definitions, DefKey), s.definitions, DefKey),
        Seqs.AppendUnseen(target.examples, Seqs.KeySet(target.examples, TextOf), s.examples, TextOf))
  }

  /** Lists without repeats stay without repeats. */
  lemma MergeKeepsDistinct(target: Target, source: Option<Data>)
    requires Seqs.KeysDistinct(target.pronunciations, Seqs.Id)
    requires Seqs.KeysDistinct(target.definitions, DefKey)
    requires Seqs.KeysDistinct(target.examples, TextOf)
    ensures Seqs.KeysDistinct(Merge(target, source).pronunciations, Seqs.Id)
    ensures Seqs.KeysDistinct(Merge(target, source).definitions, DefKey)
    ensures Seqs.KeysDistinct(Merge(target, source).examples, TextOf)
  {
    if source.Some? {
      var s := source.value;
      Seqs.AppendUnseenKeepsDistinct(target.pronunciations, s.pronunciations, Seqs.Id);
      Seqs.AppendUnseenKeepsDistinct(target.definitions, s.definitions, DefKey);
      Seqs.AppendUnseenKeepsDistinct(target.examples, s.examples, TextOf);
    }
  }

  /** The definition rule: a source definition is appended exactly when
      its key is neither the target's nor the key of an earlier source
      definition (`FirstUnseen`); so what is appended is taken from the
      source, in order, each with a key the target did not have and no two
      with one key, and every source definition's key is in the result. */
  lemma MergeDefinitions(target: Target, s: Data)
    ensures var added := Merge(target, Some(s)).definitions[|target.definitions|..];
      && added == Seqs.FirstUnseen(Seqs.KeySet(target.definitions, DefKey), s.definitions, DefKey)
      && Seqs.IsSubseq(added, s.definitions)
      && (forall d :: d in added ==> DefKey(d) !in Seqs.KeySet(target.definitions, DefKey))
      && Seqs.KeysDistinct(added, DefKey)
      && (forall j :: 0 <= j < |s.definitions| ==>
            DefKey(s.definitions[j]) in Seqs.KeySet(Merge(target, Some(s)).definitions, DefKey))
  {
    var seen := Seqs.KeySet(target.definitions, DefKey);
    var r := Seqs.AppendUnseen(target.definitions, seen, s.definitions, DefKey);
    Seqs.AppendUnseenSubseq(target.definitions, seen, s.definitions, DefKey);
    Seqs.AppendUnseenDistinct(target.definitions, seen, s.definitions, DefKey);
    Seqs.AppendUnseenCoversAll(target.definitions, s.definitions, DefKey);
    Seqs.AppendUnseenIsFirstUnseen(target.definitions, seen, s.definitions, DefKey);
    forall d | d in r[|target.definitions|..] ensures DefKey(d) !in seen {
      var i :| 0 <= i < |r[|target.definitions|..]| && r[|target.definitions|..][i] == d;
      assert d == r[|target.definitions| + i];
    }
  }

  /** The example rule, the same selection keyed by `text` alone: an
      example whose text the target or an earlier source example already
      has is never appended, whatever its `text_vi`. */
  lemma MergeExamples(target: Target, s: Data)
    ensures var added := Merge(target, Some(s)).examples[|target.examples|..];
      && added == Seqs.FirstUnseen(Seqs.KeySet(target.examples, TextOf), s.examples, TextOf)
      && Seqs.IsSubseq(added, s.examples)
      && (forall e :: e in added ==> TextOf(e) !in Seqs.KeySet(target.examples, TextOf))
      && Seqs.KeysDistinct(added, TextOf)
      && (forall j :: 0 <= j < |s.examples| ==>
            TextOf(s.examples[j]) in Seqs.KeySet(Merge(target, Some(s)).examples, TextOf))
  {
    var seen := Seqs.KeySet(target.examples, TextOf);
    var r := Seqs.AppendUnseen(target.examples, seen, s.examples, TextOf);
    Seqs.AppendUnseenSubseq(target.examples, seen, s.examples, TextOf);
    Seqs.AppendUnseenDistinct(target.examples, seen, s.examples, TextOf);
    Seqs.AppendUnseenCoversAll(target.examples, s.examples, TextOf);
    Seqs.AppendUnseenIsFirstUnseen(target.examples, seen, s.examples, TextOf);
    forall e | e in r[|target.examples|..] ensures TextOf(e) !in seen {
      var i :| 0 <= i < |r[|target.examples|..]| && r[|target.examples|..][i] == e;
      assert e == r[|target.examples| + i];
    }
  }

  /** Merging the same source twice is merging it once. */
  lemma MergeIdempotent(target: Target, source: Option<Data>)
    ensures Merge(Merge(target, source), source) == Merge(target, source)
  {
    if source.Some? {
      var s := source.value;
      Seqs.AppendUnseenTwice(target.pronunciations, s.pronunciations, Seqs.Id);
      Seqs.AppendUnseenTwice(target.definitions, s.definitions, DefKey);
      Seqs.AppendUnseenTwice(target.examples, s.examples, TextOf);
    }
  }

  /** Into an empty list, the first element is always appended. */
  lemma AppendUnseenEmpty<T, K>(xs: seq<T>, key: T -> K)
    ensures Seqs.AppendUnseen([], {}, xs, key) == [] <==> xs == []
  {
    if xs != [] {
      assert key(xs[0]) !in {};
      var r := Seqs.AppendUnseen([xs[0]], {key(xs[0])}, xs[1..], key);
      assert r[..1] == [xs[0]];
    }
  }

  /** Merging into a record without definitions and examples leaves a
      list empty exactly when the source's list is empty. */
  lemma MergeIntoEmpty(target: Target, s: Data)
    requires target.definitions == [] && target.examples == []
    ensures Merge(target, Some(s)).definitions == [] <==> s.definitions == []
    ensures Merge(target, Some(s)).examples == [] <==> s.examples == []
  {
    assert Seqs.KeySet([], DefKey) == {};
    assert Seqs.KeySet([], TextOf) == {};
    AppendUnseenEmpty(s.definitions, DefKey);
    AppendUnseenEmpty(s.examples, TextOf);
  }

  /** VDictScraper.get_word_data: both online sources merged into an empty
      record; None when the result has neither definitions nor examples. */
  function GetWordData(word: String, vdict: Option<Data>, tracau: Option<Data>): (r: Option<Target>)
    ensures r.Some? ==> r.value.word == word && (r.value.definitions != [] || r.value.examples != [])
  {
    var merged := Merge(Merge(Target(word, [], [], []), vdict), tracau);
    if merged.definitions == [] && merged.examples == [] then None else Some(merged)
  }

  /** The record is None exactly when neither source brings a definition
      or an example. */
  lemma GetWordDataNone(word: String, vdict: Option<Data>, tracau: Option<Data>)
    ensures GetWordData(word, vdict, tracau).None? <==>
      && (vdict.None? || (vdict.value.definitions == [] && vdict.value.examples == []))
      && (tracau.None? || (tracau.value.definitions == [] && tracau.value.examples == []))
  {
    var empty := Target(word, [], [], []);
    var first := Merge(empty, vdict);
    if vdict.Some? {
      MergeIntoEmpty(empty, vdict.value);
    }
    var second := Merge(first, tracau);
    if tracau.Some? {
      if first.definitions == [] && first.examples == [] {
        MergeIntoEmpty(first, tracau.value);
      }
    }
  }
}

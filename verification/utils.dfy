/** The string and batching helpers of utils.py. */
module Utils {
  import opened Optional
  import opened Text

  // ---------------------------------------------------------------------
  // clean_text
  // ---------------------------------------------------------------------

  lemma {:induction false} TrimLeftAllSpace(t: String)
    requires AllSpace(t)
    ensures TrimLeft(t) == []
    decreases |t|
  {
    if t != [] {
      TrimLeftAllSpace(t[1..]);
    }
  }

  lemma WordsAllSpace(t: String)
    requires AllSpace(t)
    ensures Words(t) == []
  {
    TrimLeftAllSpace(t);
  }

  /** One step of `split()` on a string that starts with a word. */
  lemma WordsStep(u: String)
    requires u != [] && !IsSpace(u[0])
    ensures Words(u) == [TakeWord(u)] + Words(u[|TakeWord(u)|..])
  {
    TrimLeftOfNonSpace(u);
  }

  /** `split()` ignores trailing whitespace. */
  lemma {:induction false} WordsAppendSpace(s: String, t: String)
    requires AllSpace(t)
    ensures Words(s + t) == Words(s)
    decreases |s|, 1
  {
    if AllSpace(s) {
      assert AllSpace(s + t);
      WordsAllSpace(s + t);
      WordsAllSpace(s);
    } else {
      TrimLeftAppend(s, t);
      var u := TrimLeft(s);
      assert Words(s) == Words(u);
      assert Words(s + t) == Words(u + t);
      WordsAppendSpaceWord(u, t);
    }
  }

  lemma {:induction false} WordsAppendSpaceWord(u: String, t: String)
    requires AllSpace(t)
    requires u != [] && !IsSpace(u[0])
    ensures Words(u + t) == Words(u)
    decreases |u|, 0
  {
    var w := TakeWord(u);
    var v := u[|w|..];
    assert u == w + v;
    WordsOfWordThen(w, v);
    assert u + t == w + (v + t);
    WordsOfWordThen(w, v + t);
    WordsAppendSpace(v, t);
  }

  lemma WordsOfStrip(s: String)
    ensures Words(Strip(s)) == Words(s)
  {
    var t := TrimLeft(s);
    var r := TrimRight(t);
    assert t == r + t[|r|..];
    WordsAppendSpace(r, t[|r|..]);
    TrimLeftOfNonSpace(t);
  }

  /** utils.clean_text: the empty string for falsy input, otherwise the
      whitespace-separated tokens of the stripped text joined by single
      spaces. The result keeps the same words and is single-spaced. */
  function CleanText(text: String): (r: String)
    ensures SingleSpaced(r)
    ensures Words(r) == Words(text)
  {
    if text == [] then []
    else
      var t := Strip(text);
      WordsOfStrip(text);
      JoinWordsSingleSpaced(Words(t));
      WordsOfJoin(Words(t));
      Join(Words(t), " ")
  }

  /** clean_text is the single-space join of the words of its input. */
  lemma CleanTextIsJoin(text: String)
    ensures CleanText(text) == Join(Words(text), " ")
  {
    if text != [] {
      WordsOfStrip(text);
    }
  }

  /** clean_text only sees the words. */
  lemma CleanTextSameWords(a: String, b: String)
    requires Words(a) == Words(b)
    ensures CleanText(a) == CleanText(b)
  {
    CleanTextIsJoin(a);
    CleanTextIsJoin(b);
  }

  lemma CleanTextIdempotent(text: String)
    ensures CleanText(CleanText(text)) == CleanText(text)
  {
    var once := CleanText(text);
    if once != [] {
      WordsOfStrip(once);
      WordsOfStrip(text);
    }
  }

  /** The tail of a single-spaced string after a word and its space is
      single-spaced. */
  lemma SingleSpacedTail(s: String, k: nat)
    requires SingleSpaced(s)
    requires 0 < k <= |s| && IsSpace(s[k - 1])
    ensures SingleSpaced(s[k..])
  {
    var rest := s[k..];
    forall i | 0 <= i < |rest| && IsSpace(rest[i])
      ensures rest[i] == ' ' && 0 < i < |rest| - 1 && !IsSpace(rest[i - 1]) && !IsSpace(rest[i + 1])
    {
      assert rest[i] == s[k + i];
      assert rest[i + 1] == s[k + i + 1];
      if i > 0 { assert rest[i - 1] == s[k + i - 1]; }
    }
  }

  /** A non-empty single-spaced string is a word, or a word, one space and
      a single-spaced rest that starts with a word. */
  lemma SingleSpacedFirstWord(s: String) returns (w: String, rest: String)
    requires SingleSpaced(s) && s != []
    ensures IsWord(w)
    ensures s == w || (s == w + ([' '] + rest) && SingleSpaced(rest) && rest != [] && !IsSpace(rest[0]))
  {
    w := TakeWord(s);
    rest := [];
    if |w| < |s| {
      rest := s[|w| + 1..];
      assert s[|w|] == ' ';
      assert s == w + ([' '] + rest);
      assert rest[0] == s[|w| + 1];
      SingleSpacedTail(s, |w| + 1);
    } else {
      assert w == s;
    }
  }

  lemma WordsAfterWordAndSpace(w: String, rest: String)
    requires IsWord(w)
    requires rest != [] && !IsSpace(rest[0])
    ensures Words(w + ([' '] + rest)) == [w] + Words(rest)
    ensures Words(rest) != []
  {
    WordsOfWordThen(w, [' '] + rest);
    WordsSkipSpace(' ', rest);
    TrimLeftOfNonSpace(rest);
  }

  lemma JoinCons(w: String, ws: seq<String>, rest: String)
    requires ws != [] && Join(ws, " ") == rest
    ensures Join([w] + ws, " ") == w + ([' '] + rest)
  {
    assert ([w] + ws)[1..] == ws;
  }

  /** Joining the words back is undisturbed by a word and one space in
      front. */
  lemma JoinWordsStep(w: String, rest: String)
    requires IsWord(w)
    requires rest != [] && !IsSpace(rest[0])
    requires Join(Words(rest), " ") == rest
    ensures Join(Words(w + ([' '] + rest)), " ") == w + ([' '] + rest)
  {
    WordsAfterWordAndSpace(w, rest);
    JoinCons(w, Words(rest), rest);
  }

  /** A single-spaced string is exactly the single-space join of its words. */
  lemma {:induction false} SingleSpacedIsJoin(s: String)
    requires SingleSpaced(s)
    ensures Join(Words(s), " ") == s
    decreases |s|
  {
    if s != [] {
      var w, rest := SingleSpacedFirstWord(s);
      if s == w {
        WordsOfWordThen(w, []);
        assert w + [] == s;
      } else {
        assert Join(Words(rest), " ") == rest by { SingleSpacedIsJoin(rest); }
        JoinWordsStep(w, rest);
      }
    }
  }

  /** clean_text changes exactly the strings that are not already
      single-spaced. */
  lemma CleanTextFixedPoints(text: String)
    ensures CleanText(text) == text <==> SingleSpaced(text)
  {
    if SingleSpaced(text) && text != [] {
      SingleSpacedIsJoin(text);
      WordsOfStrip(text);
      JoinWordsSingleSpaced(Words(text));
      WordsOfJoin(Words(text));
      WordsOfJoin(Words(Strip(text)));
    }
  }

  // ---------------------------------------------------------------------
  // escape_sql
  // ---------------------------------------------------------------------

  /** utils.escape_sql: doubles every single quote; the empty string for
      falsy input. */
  function EscapeSql(text: String): (r: String)
    ensures |r| == |text| + CountChar(text, '\'')
  {
    if text == [] then [] else EscapeQuotes(text)
  }

  function EscapeQuotes(s: String): (r: String)
    ensures r == ReplaceAll(s, "'", "''")
    ensures |r| == |s| + CountChar(s, '\'')
    decreases |s|
  {
    if s == [] then []
    else if s[0] == '\'' then "''" + EscapeQuotes(s[1..])
    else [s[0]] + EscapeQuotes(s[1..])
  }

  lemma {:induction false} EscapeQuotesRoundTrip(s: String)
    ensures ReplaceAll(EscapeQuotes(s), "''", "'") == s
    decreases |s|
  {
    if s != [] {
      EscapeQuotesRoundTrip(s[1..]);
      var e := EscapeQuotes(s);
      var tail := EscapeQuotes(s[1..]);
      if s[0] == '\'' {
        assert e == "''" + tail;
        assert e[..2] == "''";
        assert e[2..] == tail;
      } else {
        assert e == [s[0]] + tail;
        if |e| >= 2 { assert e[0] != '\''; assert e[..2] != "''"; }
        assert e[1..] == tail;
      }
      assert s == [s[0]] + s[1..];
    }
  }

  /** Replacing `''` by `'` recovers the input of escape_sql. */
  lemma EscapeSqlRoundTrip(text: String)
    ensures ReplaceAll(EscapeSql(text), "''", "'") == text
  {
    EscapeQuotesRoundTrip(text);
  }

  // ---------------------------------------------------------------------
  // normalize_word
  // ---------------------------------------------------------------------

  lemma LowerIsLower(s: String)
    ensures forall i :: 0 <= i < |Lower(s)| ==> LowerChar(Lower(s)[i]) == Lower(s)[i]
  {
    forall i | 0 <= i < |Lower(s)|
      ensures LowerChar(Lower(s)[i]) == Lower(s)[i]
    {
      LowerCharIdempotent(s[i]);
    }
  }

  /** utils.normalize_word: lower-cased and stripped; the empty string for
      falsy input. */
  function NormalizeWord(word: String): (r: String)
    ensures IsStripped(r)
    ensures forall i :: 0 <= i < |r| ==> LowerChar(r[i]) == r[i]
    ensures Words(r) == Words(Lower(word))
  {
    if word == [] then []
    else
      StripLower(word);
      WordsOfStrip(Lower(word));
      LowerIsLower(Strip(word));
      Strip(Lower(word))
  }

  lemma NormalizeWordIdempotent(word: String)
    ensures NormalizeWord(NormalizeWord(word)) == NormalizeWord(word)
  {
    var once := NormalizeWord(word);
    if once != [] {
      assert Lower(once) == once;
      StripKeepsStripped(once);
    }
  }

  // ---------------------------------------------------------------------
  // is_valid_word_entry
  // ---------------------------------------------------------------------

  /** A value stored in an entry dictionary: a string, or any other object
      with its Python truthiness. */
  datatype Value = Str(s: String) | NonStr(truthy: bool)

  type Entry = map<String, Value>

  function Get(entry: Entry, k: String): Option<Value> {
    if k in entry then Some(entry[k]) else None
  }

  predicate Truthy(v: Option<Value>) {
    match v
    case None => false
    case Some(Str(s)) => s != []
    case Some(NonStr(t)) => t
  }

  predicate IsStr(v: Option<Value>) {
    v.Some? && v.value.Str?
  }

  /** The two keys an entry of the given direction must carry. */
  function RequiredKeys(entryType: String): (String, String) {
    if entryType == "en_vi" then ("english_word", "vietnamese_meaning")
    else ("vietnamese_word", "english_meaning")
  }

  /** utils.is_valid_word_entry, read as a truth value: both required
      fields are non-empty strings. */
  function IsValidWordEntry(entry: Entry, entryType: String): (ok: bool)
    ensures ok <==>
      (var (a, b) := RequiredKeys(entryType);
       && a in entry && entry[a].Str? && entry[a].s != []
       && b in entry && entry[b].Str? && entry[b].s != [])
  {
    var (a, b) := RequiredKeys(entryType);
    Truthy(Get(entry, a)) && Truthy(Get(entry, b)) && IsStr(Get(entry, a)) && IsStr(Get(entry, b))
  }

  // ---------------------------------------------------------------------
  // batch_process
  // ---------------------------------------------------------------------

  /** `items[i:i+n]` for i = 0, n, 2n, ... below `len(items)`. */
  function Chunks<T>(items: seq<T>, n: nat): seq<seq<T>>
    requires n > 0
    decreases |items|
  {
    if items == [] then []
    else if |items| <= n then [items]
    else [items[..n]] + Chunks(items[n..], n)
  }

  /** `process(c)` for each chunk, concatenated. */
  function ConcatMap<T, U>(process: seq<T> -> seq<U>, chunks: seq<seq<T>>): seq<U>
    decreases |chunks|
  {
    if chunks == [] then [] else process(chunks[0]) + ConcatMap(process, chunks[1..])
  }

  /** The chunks partition the items: in order, all of size n except a
      non-empty last one. */
  lemma {:induction false} ChunksPartition<T>(items: seq<T>, n: nat)
    requires n > 0
    ensures var cs := Chunks(items, n);
      && ConcatMap(c => c, cs) == items
      && (forall k :: 0 <= k < |cs| - 1 ==> |cs[k]| == n)
      && (forall k :: 0 <= k < |cs| ==> 0 < |cs[k]| <= n)
    decreases |items|
  {
    if items != [] && |items| > n {
      ChunksPartition(items[n..], n);
      assert items == items[..n] + items[n..];
      var cs := Chunks(items, n);
      assert cs[1..] == Chunks(items[n..], n);
    }
  }

  /** Batching is invisible to a process function that distributes over
      concatenation. */
  lemma {:induction false} BatchingTransparent<T, U>(items: seq<T>, process: seq<T> -> seq<U>, n: nat)
    requires n > 0
    requires process([]) == []
    requires forall a, b :: process(a + b) == process(a) + process(b)
    ensures ConcatMap(process, Chunks(items, n)) == process(items)
    decreases |items|
  {
    if items != [] && |items| > n {
      BatchingTransparent(items[n..], process, n);
      assert items == items[..n] + items[n..];
      assert process(items) == process(items[..n]) + process(items[n..]);
    } else if items != [] {
      assert process(items + []) == process(items) + process([]);
      assert items + [] == items;
    }
  }

  /** utils.batch_process. A zero batch size makes `range` raise, which the
      precondition excludes; a negative one yields no batch at all. */
  method BatchProcess<T, U>(items: seq<T>, process: seq<T> -> seq<U>, batchSize: int) returns (results: seq<U>)
    requires batchSize != 0
    ensures batchSize < 0 ==> results == []
    ensures batchSize > 0 ==> results == ConcatMap(process, Chunks(items, batchSize))
  {
    results := [];
    if batchSize < 0 {
      return;
    }
    var i := 0;
    while i < |items|
      invariant 0 <= i <= |items|
      invariant results + ConcatMap(process, Chunks(items[i..], batchSize)) == ConcatMap(process, Chunks(items, batchSize))
    {
      var end := if i + batchSize < |items| then i + batchSize else |items|;
      var batch := items[i..end];
      var rest := items[i..];
      if |rest| <= batchSize {
        assert batch == rest;
        assert Chunks(rest, batchSize) == [batch];
        assert items[end..] == [];
      } else {
        assert rest[..batchSize] == batch;
        assert rest[batchSize..] == items[end..];
      }
      results := results + process(batch);
      i := end;
    }
    assert items[i..] == [];
  }
}

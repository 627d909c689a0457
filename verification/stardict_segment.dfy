/** StarDictAnhViet.get_word_data for one stored definition, and
    _convert_pos_to_english: pronunciation extraction, the part-of-speech
    marker families, the spans they delimit, sense splitting, example
    markers, the bilingual example split, and the fallback when no marker
    family matches. */
module StarDictSegment {
  import opened Optional
  import opened Text
  import Seqs
  import Patterns

  // ---------------------------------------------------------------------
  // Parts of speech
  // ---------------------------------------------------------------------

  /** The ten Vietnamese part-of-speech names of the marker patterns, in
      the order of their alternation. */
  const VietPos: seq<String> := 
    ["danh từ", "tính từ", "động từ", "trạng từ", "giới từ",
     "liên từ", "đại từ", "thán từ", "từ hạn định", "mạo từ"]

  /** Their English names, position by position. */
  const EnglishPos: seq<String> :=
    ["noun", "adjective", "verb", "adverb", "preposition", "conjunction", "pronoun", "interjection",
     "determiner", "article"]

  const Unknown: String := "unknown"

  /** `_convert_pos_to_english`: a table lookup with default "unknown". */
  function ConvertPos(vi: String): (en: String)
    ensures en == Unknown || en in EnglishPos
    ensures en == Unknown <==> vi !in VietPos
  {
    var k := Seqs.FirstWhere(VietPos, (n: String) => n == vi, 0);
    if k.Some? then EnglishPos[k.value] else Unknown
  }

  /** The table, entry by entry. */
  lemma ConvertPosTable()
    ensures forall k :: 0 <= k < |VietPos| ==> ConvertPos(VietPos[k]) == EnglishPos[k]
  {
    forall k | 0 <= k < |VietPos|
      ensures ConvertPos(VietPos[k]) == EnglishPos[k]
    {
      var r := Seqs.FirstWhere(VietPos, (n: String) => n == VietPos[k], 0);
      assert forall i, j :: 0 <= i < j < |VietPos| ==> VietPos[i] != VietPos[j];
      assert r == Some(k);
    }
  }

  // ---------------------------------------------------------------------
  // Pronunciation
  // ---------------------------------------------------------------------

  /** A pronunciation pattern: a delimited group, or the labelled rest of
      a line. */
  datatype PronPattern = Delimited(open: char, close: char) | Labelled

  /** `/([^/]+)/`, `\[([^\]]+)\]`, `\/([^\/]+)\/` (the first one again) and
      `pronunciation: (.+)`, in the order they are tried. */
  const PronPatterns: seq<PronPattern> :=
    [Delimited('/', '/'), Delimited('[', ']'), Delimited('/', '/'), Labelled]

  /** `re.search(p, s).group(1)`: the group of the leftmost match. */
  function SearchGroup(s: String, p: PronPattern): (g: Option<String>)
    ensures g.Some? ==> g.value != []
  {
    match p
    case Delimited(open, close) =>
      var r := Patterns.SearchDelimited(s, open, close, 0);
      if r.None? then None else Some(s[r.value + 1..Patterns.DelimitedClose(s, r.value, open, close)])
    case Labelled =>
      var r := Patterns.SearchLabel(s, 0);
      if r.None? then None else Some(Patterns.LabelGroup(s, r.value))
  }

  /** The first pattern of the list that matches `s`; the third pattern
      repeats the first, so it is never the one used. */
  function FirstPronPattern(s: String): (r: Option<nat>)
    ensures r != Some(2)
  {
    Seqs.FirstWhere(PronPatterns, (p: PronPattern) => SearchGroup(s, p).Some?, 0)
  }

  /** The pronunciation loop for one definition: the stripped group of the
      first pattern that matches. An empty result still stops the loop but
      is never recorded. */
  function Pronunciation(s: String): (r: Option<String>)
    ensures r.Some? <==> exists k :: 0 <= k < |PronPatterns| && SearchGroup(s, PronPatterns[k]).Some?
    ensures r.Some? ==> IsStripped(r.value)
  {
    var k := FirstPronPattern(s);
    if k.None? then None else Some(Strip(SearchGroup(s, PronPatterns[k.value]).value))
  }

  /** `re.sub(p, '', s)` for one pattern. */
  function SubPattern(s: String, p: PronPattern): (r: String)
    ensures |r| <= |s|
  {
    match p
    case Delimited(open, close) => Patterns.SubDelimited(s, open, close, "")
    case Labelled => Patterns.SubLabel(s)
  }

  /** The fallback's loop deleting each pronunciation pattern in turn. */
  function SubAll(s: String, ps: seq<PronPattern>): (r: String)
    ensures |r| <= |s|
    decreases |ps|
  {
    if ps == [] then s else SubAll(SubPattern(s, ps[0]), ps[1..])
  }

  lemma SubPatternKeeps(s: String, p: PronPattern)
    requires SearchGroup(s, p).None?
    ensures SubPattern(s, p) == s
  {
    match p
    case Delimited(open, close) =>
      Patterns.UnmatchedIff(s, open, close);
      Patterns.SubDelimitedKeepsUnmatched(s, open, close, "");
    case Labelled =>
      Patterns.SubLabelKeepsUnlabelled(s);
  }

  /** Deletion and search agree: text in which no pronunciation pattern
      matches comes out of the deletions unchanged. */
  lemma {:induction false} SubAllKeeps(s: String, ps: seq<PronPattern>)
    requires forall k :: 0 <= k < |ps| ==> SearchGroup(s, ps[k]).None?
    ensures SubAll(s, ps) == s
    decreases |ps|
  {
    if ps != [] {
      SubPatternKeeps(s, ps[0]);
      SubAllKeeps(s, ps[1..]);
    }
  }

  lemma NoPronunciationKeepsText(s: String)
    requires Pronunciation(s).None?
    ensures SubAll(s, PronPatterns) == s
  {
    SubAllKeeps(s, PronPatterns);
  }

  // ---------------------------------------------------------------------
  // Part-of-speech markers
  // ---------------------------------------------------------------------

  /** The six marker families in the order tried: `*pos*`, `@pos@`,
      `<pos>`, `[pos]`, `(pos)`, and a bare name at the very start followed
      by `,`, `:` or whitespace. */
  datatype Family = Wrapped(open: char, close: char) | Leading

  const Families: seq<Family> :=
    [Wrapped('*', '*'), Wrapped('@', '@'), Wrapped('<', '>'), Wrapped('[', ']'), Wrapped('(', ')'), Leading]

  /** The character a family accepts right after the name. */
  predicate Follows(f: Family, c: char) {
    match f
    case Wrapped(_, close) => c == close
    case Leading => c == ',' || c == ':' || IsSpace(c)
  }

  /** `name` sits at `at` and is followed by a character the family accepts. */
  predicate NameFits(s: String, at: nat, f: Family, name: String) {
    ContainsAt(s, name, at) && at + |name| < |s| && Follows(f, s[at + |name|])
  }

  /** One marker: where its match starts and ends, and the position of the
      name inside in `VietPos`. */
  datatype Marker = Marker(start: nat, end: nat, k: nat)

  /** The alternation over the names: the first name from position `k` of
      `VietPos` on that fits at `at`. */
  function FirstFit(s: String, at: nat, f: Family, k: nat): (r: Option<nat>)
    ensures r.Some? ==> k <= r.value < |VietPos| && NameFits(s, at, f, VietPos[r.value])
    ensures forall j :: k <= j < |VietPos| && (r.None? || j < r.value) ==> !NameFits(s, at, f, VietPos[j])
    decreases |VietPos| - k
  {
    if k >= |VietPos| then None
    else if NameFits(s, at, f, VietPos[k]) then Some(k)
    else FirstFit(s, at, f, k + 1)
  }

  /** The family's pattern matched at `i`, with the alternation taking the
      first name that fits. */
  function MarkerAt(s: String, i: nat, f: Family): (m: Option<Marker>)
    ensures m.Some? ==> m.value.start == i < m.value.end <= |s| && m.value.k < 10
    ensures f.Leading? && i > 0 ==> m.None?
  {
    var at := if f.Leading? then 0 else i + 1;
    if f.Leading? && i > 0 then None
    else if f.Wrapped? && !(i < |s| && s[i] == f.open) then None
    else
      var k := FirstFit(s, at, f, 0);
      if k.None? then None
      else Some(Marker(i, at + |VietPos[k.value]| + 1, k.value))
  }

  /** Markers in text order, inside `s`, none overlapping. */
  predicate Ordered(s: String, ms: seq<Marker>) {
    && (forall j :: 0 <= j < |ms| ==> ms[j].start < ms[j].end <= |s|)
    && (forall j :: 0 <= j < |ms| - 1 ==> ms[j].end <= ms[j + 1].start)
  }

  /** `re.finditer`: the matches from `from` on, each search resuming at the
      end of the previous match. */
  function FindMarkers(s: String, f: Family, from: nat): (ms: seq<Marker>)
    ensures Ordered(s, ms)
    ensures forall j :: 0 <= j < |ms| ==> from <= ms[j].start && MarkerAt(s, ms[j].start, f) == Some(ms[j])
    decreases |s| - from
  {
    if from >= |s| then []
    else
      var m := MarkerAt(s, from, f);
      if m.Some? then [m.value] + FindMarkers(s, f, m.value.end)
      else FindMarkers(s, f, from + 1)
  }

  /** The marker a matching position `p` lies in. */
  lemma {:induction false} CoveringMarker(s: String, f: Family, from: nat, p: nat) returns (j: nat)
    requires from <= p < |s| && MarkerAt(s, p, f).Some?
    ensures j < |FindMarkers(s, f, from)|
    ensures FindMarkers(s, f, from)[j].start <= p < FindMarkers(s, f, from)[j].end
    decreases |s| - from
  {
    var m := MarkerAt(s, from, f);
    if m.Some? {
      if p >= m.value.end {
        var k := CoveringMarker(s, f, m.value.end, p);
        j := k + 1;
        assert FindMarkers(s, f, from)[j] == FindMarkers(s, f, m.value.end)[k];
      } else {
        j := 0;
      }
    } else {
      j := CoveringMarker(s, f, from + 1, p);
    }
  }

  /** No match is skipped: every position from `from` on where the family
      matches is the start of a reported marker or lies inside one. */
  lemma FindMarkersComplete(s: String, f: Family, from: nat, p: nat)
    requires from <= p < |s| && MarkerAt(s, p, f).Some?
    ensures exists j :: (0 <= j < |FindMarkers(s, f, from)| &&
      FindMarkers(s, f, from)[j].start <= p < FindMarkers(s, f, from)[j].end)
  {
    var j := CoveringMarker(s, f, from, p);
  }

  /** The bare-name family is anchored at the start of the text. */
  lemma {:induction false} LeadingNotLater(s: String, from: nat)
    requires from > 0
    ensures FindMarkers(s, Leading, from) == []
    decreases |s| - from
  {
    if from < |s| {
      LeadingNotLater(s, from + 1);
    }
  }

  /** So it yields at most one marker. */
  lemma LeadingAtMostOne(s: String)
    ensures |FindMarkers(s, Leading, 0)| <= 1
  {
    var m := MarkerAt(s, 0, Leading);
    if s != [] && m.Some? {
      LeadingNotLater(s, m.value.end);
    } else if s != [] {
      LeadingNotLater(s, 1);
    }
  }

  /** The family used: the first, in list order, with at least one match. */
  function ChooseFamily(s: String): (r: Option<nat>)
    ensures r.Some? ==> r.value < |Families| && FindMarkers(s, Families[r.value], 0) != []
    ensures forall j :: 0 <= j < |Families| && (r.None? || j < r.value) ==> FindMarkers(s, Families[j], 0) == []
  {
    Seqs.FirstWhere(Families, (f: Family) => FindMarkers(s, f, 0) != [], 0)
  }

  // ---------------------------------------------------------------------
  // Spans
  // ---------------------------------------------------------------------

  lemma OrderedTail(s: String, ms: seq<Marker>)
    requires ms != [] && Ordered(s, ms)
    ensures Ordered(s, ms[1..])
  {
    forall j | 0 <= j < |ms| - 2
      ensures ms[1..][j].end <= ms[1..][j + 1].start
    {
      assert ms[1..][j] == ms[j + 1] && ms[1..][j + 1] == ms[j + 2];
    }
  }

  /** The text a marker owns: from its end to the next marker's start, or
      to the end of the text. */
  function RawSpans(s: String, ms: seq<Marker>): (spans: seq<String>)
    requires Ordered(s, ms)
    ensures |spans| == |ms|
    decreases |ms|
  {
    if ms == [] then []
    else
      var stop := if |ms| > 1 then ms[1].start else |s|;
      OrderedTail(s, ms);
      [s[ms[0].end..stop]] + RawSpans(s, ms[1..])
  }

  /** Markers and spans put back together, in order. */
  function Interleave(s: String, ms: seq<Marker>, spans: seq<String>): String
    requires Ordered(s, ms) && |spans| == |ms|
    decreases |ms|
  {
    if ms == [] then []
    else
      OrderedTail(s, ms);
      s[ms[0].start..ms[0].end] + spans[0] + Interleave(s, ms[1..], spans[1..])
  }

  /** Slicing loses only the text before the first marker: markers and
      spans rebuild the rest exactly. */
  lemma {:induction false} RawSpansRebuild(s: String, ms: seq<Marker>)
    requires Ordered(s, ms) && ms != []
    ensures Interleave(s, ms, RawSpans(s, ms)) == s[ms[0].start..]
    decreases |ms|
  {
    OrderedTail(s, ms);
    var spans := RawSpans(s, ms);
    var a := ms[0].start;
    var b := ms[0].end;
    if |ms| == 1 {
      assert spans[0] == s[b..|s|] == s[b..];
      assert Interleave(s, ms[1..], spans[1..]) == [];
      assert s[a..b] + s[b..] == s[a..];
    } else {
      var c := ms[1].start;
      assert spans[1..] == RawSpans(s, ms[1..]);
      RawSpansRebuild(s, ms[1..]);
      assert Interleave(s, ms[1..], spans[1..]) == s[c..];
      assert s[a..b] + s[b..c] + s[c..] == s[a..];
    }
  }

  // ---------------------------------------------------------------------
  // Senses
  // ---------------------------------------------------------------------

  /** The separators of `re.split(r';|◦|•|·|※|,(?![^(]*\))', ...)` other
      than the comma. */
  const SenseSeps: String := ";◦•·※"

  /** The lookahead `[^(]*\)`: a `)` comes before any `(`. */
  predicate CloseAhead(u: String)
    decreases |u|
  {
    u != [] && (u[0] == ')' || (u[0] != '(' && CloseAhead(u[1..])))
  }

  lemma {:induction false} CloseAheadIff(u: String)
    ensures CloseAhead(u) <==>
      exists k :: 0 <= k < |u| && u[k] == ')' && forall j :: 0 <= j < k ==> u[j] != '('
    decreases |u|
  {
    if u != [] {
      CloseAheadIff(u[1..]);
      if CloseAhead(u) && u[0] != ')' {
        var k :| 0 <= k < |u[1..]| && u[1..][k] == ')' && forall j :: 0 <= j < k ==> u[1..][j] != '(';
        assert u[k + 1] == ')';
        forall j | 0 <= j < k + 1
          ensures u[j] != '('
        {
          if j > 0 { assert u[j] == u[1..][j - 1]; }
        }
      }
      if !CloseAhead(u) {
        forall k | 0 <= k < |u| && u[k] == ')'
          ensures exists j :: 0 <= j < k && u[j] == '('
        {
          if u[0] == '(' {
            assert k > 0;
          } else {
            assert u[1..][k - 1] == ')';
            var j :| 0 <= j < k - 1 && u[1..][j] == '(';
            assert u[j + 1] == '(';
          }
        }
      }
    }
  }

  /** A split point of the sense split: one of the five separators, or a
      comma not inside a parenthesis that closes later. */
  predicate IsSenseSep(t: String) {
    t != [] && (t[0] in SenseSeps || (t[0] == ',' && !CloseAhead(t[1..])))
  }

  /** The non-empty stripped pieces of a split, in order. */
  function Pieces(s: String, isSep: String -> bool): (r: seq<String>)
    ensures forall i :: 0 <= i < |r| ==> r[i] != [] && IsStripped(r[i])
  {
    var r := Seqs.Filter(StripEach(SplitWhere(s, isSep)), (x: String) => x != []);
    assert forall i :: 0 <= i < |r| ==> r[i] in StripEach(SplitWhere(s, isSep));
    r
  }

  /** The senses of one span. */
  function Senses(part: String): (r: seq<String>)
    ensures forall i :: 0 <= i < |r| ==> r[i] != [] && IsStripped(r[i])
  {
    Pieces(part, IsSenseSep)
  }

  /** A piece of a split avoids every character at which the split always
      cuts, and so does its stripped form. */
  lemma PiecesAvoid(s: String, isSep: String -> bool, c: char)
    requires forall t: String :: |t| > 0 && t[0] == c ==> isSep(t)
    ensures forall i :: 0 <= i < |Pieces(s, isSep)| ==> c !in Pieces(s, isSep)[i]
  {
    var parts := SplitWhere(s, isSep);
    SplitPiecesAvoid(s, isSep, c);
    var stripped := StripEach(parts);
    forall i | 0 <= i < |stripped|
      ensures c !in stripped[i]
    {
      StripKeepsOut(parts[i], c);
    }
    var r := Pieces(s, isSep);
    forall i | 0 <= i < |r|
      ensures c !in r[i]
    {
      assert r[i] in stripped;
    }
  }

  /** No sense holds one of the five separator characters. */
  lemma SensesAvoidSeparators(part: String)
    ensures forall i, c :: 0 <= i < |Senses(part)| && c in SenseSeps ==> c !in Senses(part)[i]
  {
    forall c | c in SenseSeps
      ensures forall i :: 0 <= i < |Senses(part)| ==> c !in Senses(part)[i]
    {
      PiecesAvoid(part, IsSenseSep, c);
    }
  }

  // ---------------------------------------------------------------------
  // Examples inside a sense
  // ---------------------------------------------------------------------

  /** The example markers in the order tried. */
  const ExampleMarkers: seq<String> := [": ", " => ", "Ex: ", "VD: ", "e.g. ", "Ex. "]

  /** The marker used: the first of the list that occurs anywhere in the
      sense, wherever it occurs. */
  function ChosenMarker(m: String): (r: Option<nat>)
    ensures r.Some? ==> r.value < |ExampleMarkers| && Contains(m, ExampleMarkers[r.value])
    ensures forall j :: 0 <= j < |ExampleMarkers| && (r.None? || j < r.value) ==> !Contains(m, ExampleMarkers[j])
  {
    Seqs.FirstWhere(ExampleMarkers, (mk: String) => Contains(m, mk), 0)
  }

  /** A sense split into its meaning and its example phrases. */
  datatype SenseParts = SenseParts(meaning: String, examples: seq<String>)

  /** The split points of `re.split(r';|\|', ...)`. */
  predicate IsItemSep(t: String) {
    t != [] && (t[0] == ';' || t[0] == '|')
  }

  /** `meaning.split(marker, 1)` at the first occurrence of the chosen
      marker; the meaning is the stripped text before it, the examples the
      non-empty stripped pieces after it. */
  function SplitExamples(m: String): (r: SenseParts)
    ensures ChosenMarker(m).None? ==> r == SenseParts(m, [])
    ensures forall i :: 0 <= i < |r.examples| ==> r.examples[i] != [] && IsStripped(r.examples[i])
  {
    var k := ChosenMarker(m);
    if k.None? then SenseParts(m, [])
    else
      var mk := ExampleMarkers[k.value];
      ContainsIffIndexOf(m, mk);
      var p := IndexOf(m, mk, 0).value;
      SenseParts(Strip(m[..p]), Pieces(m[p + |mk|..], IsItemSep))
  }

  lemma MarkersNonEmpty()
    ensures forall k :: 0 <= k < |ExampleMarkers| ==> |ExampleMarkers[k]| >= 2
  {
    forall k | 0 <= k < |ExampleMarkers|
      ensures |ExampleMarkers[k]| >= 2
    {
      if k == 0 {} else if k == 1 {} else if k == 2 {} else if k == 3 {} else if k == 4 {} else {}
    }
  }

  /** An occurrence inside a slice is an occurrence in the whole. */
  lemma ContainsInSlice(m: String, lo: nat, hi: nat, pat: String, i: nat)
    requires lo <= hi <= |m| && ContainsAt(m[lo..hi], pat, i)
    ensures ContainsAt(m, pat, lo + i) && lo + i + |pat| <= hi
  {
    forall k | 0 <= k < |pat|
      ensures m[lo + i + k] == pat[k]
    {
      assert m[lo..hi][i..i + |pat|][k] == pat[k];
    }
    assert m[lo + i..lo + i + |pat|] == pat;
  }

  /** A slice ending before the first occurrence of `pat` does not contain
      it. */
  lemma SliceAvoids(m: String, lo: nat, hi: nat, pat: String)
    requires pat != [] && lo <= hi <= |m| && forall i :: 0 <= i < hi ==> !ContainsAt(m, pat, i)
    ensures !Contains(m[lo..hi], pat)
  {
    if Contains(m[lo..hi], pat) {
      var i :| 0 <= i <= hi - lo && ContainsAt(m[lo..hi], pat, i);
      ContainsInSlice(m, lo, hi, pat, i);
      assert false;
    }
  }

  /** The stripped text before the first occurrence of `pat` does not
      contain it. */
  lemma StripBeforeFirst(m: String, pat: String, p: nat)
    requires pat != [] && p <= |m| && forall i :: 0 <= i < p ==> !ContainsAt(m, pat, i)
    ensures !Contains(Strip(m[..p]), pat)
  {
    var pre := m[..p];
    var a := StripIsInfix(pre);
    var n := |Strip(pre)|;
    assert Strip(pre) == m[a..a + n] by {
      assert pre[a..a + n] == m[a..a + n];
    }
    SliceAvoids(m, a, a + n, pat);
  }

  /** The meaning stops before the first occurrence of the chosen marker,
      and no marker earlier in the list occurs at all. */
  lemma SplitExamplesAtFirst(m: String)
    requires ChosenMarker(m).Some?
    ensures forall j :: 0 <= j < ChosenMarker(m).value ==> !Contains(m, ExampleMarkers[j])
    ensures !Contains(SplitExamples(m).meaning, ExampleMarkers[ChosenMarker(m).value])
  {
    var k := ChosenMarker(m).value;
    var mk := ExampleMarkers[k];
    MarkersNonEmpty();
    ContainsIffIndexOf(m, mk);
    var p := IndexOf(m, mk, 0).value;
    assert SplitExamples(m).meaning == Strip(m[..p]);
    StripBeforeFirst(m, mk, p);
  }

  /** "Ex: " and "VD: " both contain ": ", which comes first in the list,
      so they never act as markers of their own. */
  lemma ColonShadowsExAndVD(m: String)
    requires Contains(m, "Ex: ") || Contains(m, "VD: ")
    ensures ChosenMarker(m) == Some(0)
  {
    var w := if Contains(m, "Ex: ") then "Ex: " else "VD: ";
    var i :| 0 <= i <= |m| && ContainsAt(m, w, i);
    ColonInside(m, w, i);
    assert Contains(m, ExampleMarkers[0]);
  }

  lemma ColonInside(m: String, w: String, i: nat)
    requires ContainsAt(m, w, i) && |w| == 4 && w[2..] == ": "
    ensures ContainsAt(m, ": ", i + 2)
  {
    assert m[i + 2..i + 4] == m[i..i + 4][2..4];
  }

  // ---------------------------------------------------------------------
  // The bilingual split of one example
  // ---------------------------------------------------------------------

  /** The separator characters of `\s+-\s+|\s*:\s*|\s*=\s*|\s*→\s*`: a
      colon, an equals sign or an arrow anywhere, a hyphen only with
      whitespace on both sides. */
  predicate BiSepAt(s: String, j: int) {
    && 0 <= j < |s|
    && (|| s[j] == ':' || s[j] == '=' || s[j] == '→'
        || (s[j] == '-' && 0 < j && j + 1 < |s| && IsSpace(s[j - 1]) && IsSpace(s[j + 1])))
  }

  /** The leftmost separator character at or after `from`. */
  function FindBiSep(s: String, from: nat): (r: Option<nat>)
    ensures r.Some? ==> from <= r.value && BiSepAt(s, r.value)
    ensures r.Some? ==> forall j :: from <= j < r.value ==> !BiSepAt(s, j)
    ensures r.None? ==> forall j :: from <= j ==> !BiSepAt(s, j)
    decreases |s| - from
  {
    if from >= |s| then None
    else if BiSepAt(s, from) then Some(from)
    else FindBiSep(s, from + 1)
  }

  /** `re.split(..., example, 1)` then `strip()` of both sides. The
      leftmost match of the pattern is the whitespace run around the
      leftmost separator character (none of the separators is whitespace,
      so a later separator's match starts after an earlier one); the
      whitespace it swallows is what `strip()` removes anyway, so the split
      is taken at the separator character itself. */
  function SplitBilingual(ex: String): (r: (String, String))
    ensures IsStripped(r.0) && IsStripped(r.1)
    ensures FindBiSep(ex, 0).None? ==> r == (Strip(ex), [])
  {
    var f := FindBiSep(ex, 0);
    if f.None? then (Strip(ex), [])
    else (Strip(ex[..f.value]), Strip(ex[f.value + 1..]))
  }

  /** The English side holds no colon, equals sign or arrow: the split is
      at the leftmost separator. */
  lemma EnglishSideHasNoSeparator(ex: String)
    ensures ':' !in SplitBilingual(ex).0 && '=' !in SplitBilingual(ex).0 && '→' !in SplitBilingual(ex).0
  {
    var f := FindBiSep(ex, 0);
    var pre := if f.None? then ex else ex[..f.value];
    assert SplitBilingual(ex).0 == Strip(pre);
    forall k | 0 <= k < |pre|
      ensures pre[k] != ':' && pre[k] != '=' && pre[k] != '→'
    {
      assert pre[k] == ex[k];
      assert !BiSepAt(ex, k);
    }
    StripKeepsOut(pre, ':');
    StripKeepsOut(pre, '=');
    StripKeepsOut(pre, '→');
  }

  // ---------------------------------------------------------------------
  // Definitions and examples of the marked branch
  // ---------------------------------------------------------------------

  /** A definition as appended to `word_data['definitions']`. */
  datatype Definition = Definition(word: String, meaning: String, pos: String, source: String)

  /** An example as appended to `word_data['examples']`. */
  datatype Example = Example(text: String, textVi: String, pos: String, source: String)

  /** The examples of one sense: each phrase split into its two sides,
      dropped when the English side is empty. */
  function ExamplesOf(phrases: seq<String>, pos: String, source: String): (r: seq<Example>)
    ensures |r| <= |phrases|
    ensures forall e :: e in r ==> e.text != [] && e.pos == pos && e.source == source
    decreases |phrases|
  {
    if phrases == [] then []
    else
      var (en, vi) := SplitBilingual(phrases[0]);
      (if en != [] then [Example(en, vi, pos, source)] else []) + ExamplesOf(phrases[1..], pos, source)
  }

  /** One definition per sense, in order. */
  function SenseDefinitions(word: String, senses: seq<String>, pos: String, source: String): (r: seq<Definition>)
    ensures |r| == |senses|
    ensures forall i :: 0 <= i < |r| ==>
      r[i] == Definition(word, SplitExamples(senses[i]).meaning, pos, source)
    ensures forall d :: d in r ==> d.word == word && d.pos == pos && d.source == source
    decreases |senses|
  {
    if senses == [] then []
    else
      [Definition(word, SplitExamples(senses[0]).meaning, pos, source)]
      + SenseDefinitions(word, senses[1..], pos, source)
  }

  /** The examples of every sense, in order. */
  function SenseExamples(senses: seq<String>, pos: String, source: String): (r: seq<Example>)
    ensures forall e :: e in r ==> e.text != [] && e.pos == pos && e.source == source
    decreases |senses|
  {
    if senses == [] then []
    else ExamplesOf(SplitExamples(senses[0]).examples, pos, source) + SenseExamples(senses[1..], pos, source)
  }

  /** The definitions of one span: one per sense of the stripped span. */
  function SpanDefinitions(word: String, span: String, pos: String, source: String): (r: seq<Definition>)
    ensures |r| == |Senses(Strip(span))|
    ensures forall d :: d in r ==> d.word == word && d.pos == pos && d.source == source
  {
    SenseDefinitions(word, Senses(Strip(span)), pos, source)
  }

  /** The examples of one span. */
  function SpanExamples(span: String, pos: String, source: String): (r: seq<Example>)
    ensures forall e :: e in r ==> e.text != [] && e.pos == pos && e.source == source
  {
    SenseExamples(Senses(Strip(span)), pos, source)
  }

  /** The English part of speech of a marker's name. */
  function MarkerPos(m: Marker): (en: String)
    requires m.k < 10
    ensures en in EnglishPos
  {
    ConvertPos(VietPos[m.k])
  }

  /** The definitions of every span, in order. */
  function MarkedDefinitions(word: String, ms: seq<Marker>, spans: seq<String>, source: String): (r: seq<Definition>)
    requires |spans| == |ms| && forall j :: 0 <= j < |ms| ==> ms[j].k < 10
    ensures forall d :: d in r ==> d.word == word && d.source == source && d.pos in EnglishPos
    decreases |ms|
  {
    if ms == [] then []
    else
      SpanDefinitions(word, spans[0], MarkerPos(ms[0]), source)
      + MarkedDefinitions(word, ms[1..], spans[1..], source)
  }

  /** The examples of every span, in order. */
  function MarkedExamples(ms: seq<Marker>, spans: seq<String>, source: String): (r: seq<Example>)
    requires |spans| == |ms| && forall j :: 0 <= j < |ms| ==> ms[j].k < 10
    ensures forall e :: e in r ==> e.text != [] && e.source == source && e.pos in EnglishPos
    decreases |ms|
  {
    if ms == [] then []
    else
      SpanExamples(spans[0], MarkerPos(ms[0]), source) + MarkedExamples(ms[1..], spans[1..], source)
  }

  /** One definition per sense of every span. */
  lemma {:induction false} MarkedDefinitionsCount(word: String, ms: seq<Marker>, spans: seq<String>, source: String)
    requires |spans| == |ms| && forall j :: 0 <= j < |ms| ==> ms[j].k < 10
    ensures |MarkedDefinitions(word, ms, spans, source)| == SenseCount(spans)
    decreases |ms|
  {
    if ms != [] {
      MarkedDefinitionsCount(word, ms[1..], spans[1..], source);
    }
  }

  /** The number of senses over all spans. */
  function SenseCount(spans: seq<String>): nat
    decreases |spans|
  {
    if spans == [] then 0 else |Senses(Strip(spans[0]))| + SenseCount(spans[1..])
  }

  // ---------------------------------------------------------------------
  // The fallback when no family matches
  // ---------------------------------------------------------------------

  /** The eight names the fallback searches for: "từ hạn định" and "mạo
      từ" are not among them. */
  const SimplePos: seq<String> := VietPos[..8]

  /** Where one of the names occurs, and which. */
  datatype Hit = Hit(at: nat, name: String)

  /** `re.search` for the alternation of the eight names: the leftmost
      position where one of them occurs, and the first name in list order
      there. */
  function FindSimplePos(t: String, from: nat): (h: Option<Hit>)
    ensures h.Some? ==> from <= h.value.at && h.value.name in SimplePos && ContainsAt(t, h.value.name, h.value.at)
    ensures forall p, k :: from <= p && (h.None? || p < h.value.at) && 0 <= k < |SimplePos| ==>
      !ContainsAt(t, SimplePos[k], p)
    decreases |t| + 1 - from
  {
    if from > |t| then None
    else
      var k := Seqs.FirstWhere(SimplePos, (n: String) => ContainsAt(t, n, from), 0);
      if k.Some? then Some(Hit(from, SimplePos[k.value])) else FindSimplePos(t, from + 1)
  }

  /** The single definition of the fallback branch: pronunciations are
      deleted, then the text after the leftmost bare name is the meaning
      (stripped); with no name the whole, unstripped text is. */
  function Fallback(word: String, text: String, source: String): (d: Definition)
    ensures d.word == word && d.source == source
    ensures |d.meaning| <= |text|
  {
    var t := SubAll(text, PronPatterns);
    var h := FindSimplePos(t, 0);
    if h.Some? then Definition(word, Strip(t[h.value.at + |h.value.name|..]), ConvertPos(h.value.name), source)
    else Definition(word, t, Unknown, source)
  }

  /** The fallback never yields "determiner" or "article", and yields
      "unknown" exactly when none of the eight names occurs. */
  lemma FallbackPos(word: String, text: String, source: String)
    ensures Fallback(word, text, source).pos in EnglishPos[..8] || Fallback(word, text, source).pos == Unknown
    ensures Fallback(word, text, source).pos == Unknown <==> FindSimplePos(SubAll(text, PronPatterns), 0).None?
  {
    ConvertPosTable();
    var t := SubAll(text, PronPatterns);
    var h := FindSimplePos(t, 0);
    if h.Some? {
      var k :| 0 <= k < 8 && SimplePos[k] == h.value.name;
      assert VietPos[k] == h.value.name;
    }
  }

  // ---------------------------------------------------------------------
  // One stored definition
  // ---------------------------------------------------------------------

  /** What one stored definition contributes. */
  datatype Segmented = Segmented(pronunciation: Option<String>, definitions: seq<Definition>, examples: seq<Example>)

  /** The body of the loop over looked-up rows for one definition text. */
  function Segment(word: String, text: String, source: String): (r: Segmented)
    ensures r.pronunciation == Pronunciation(text)
    ensures forall d :: d in r.definitions ==> d.word == word && d.source == source && (d.pos == Unknown || d.pos in EnglishPos)
    ensures forall e :: e in r.examples ==> e.text != [] && e.source == source && e.pos in EnglishPos
    ensures ChooseFamily(text).None? ==> r.definitions == [Fallback(word, text, source)] && r.examples == []
  {
    var fam := ChooseFamily(text);
    if fam.None? then Segmented(Pronunciation(text), [Fallback(word, text, source)], [])
    else
      var ms := FindMarkers(text, Families[fam.value], 0);
      var spans := RawSpans(text, ms);
      Segmented(Pronunciation(text), MarkedDefinitions(word, ms, spans, source), MarkedExamples(ms, spans, source))
  }
}

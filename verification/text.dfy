/** Character-level text primitives shared by every parser of the model:
    Python's whitespace class, `strip()`, `split()`, `sep.join`, `lower()`,
    substring search, single-character splitting and `replace`, written out
    over `seq<char>`. */
module Text {
  import opened Optional

  type String = seq<char>

  // ---------------------------------------------------------------------
  // Whitespace
  // ---------------------------------------------------------------------

  /** Python's `str.isspace()` for one character, which is also the class
      `\s` of a `str` regular expression. */
  predicate IsSpace(c: char) {
    var n := c as int;
    (9 <= n <= 13) || (28 <= n <= 32) || n == 0x85 || n == 0xA0 || n == 0x1680
    || (0x2000 <= n <= 0x200A) || n == 0x2028 || n == 0x2029 || n == 0x202F
    || n == 0x205F || n == 0x3000
  }

  predicate NoSpace(s: String) {
    forall i :: 0 <= i < |s| ==> !IsSpace(s[i])
  }

  predicate AllSpace(s: String) {
    forall i :: 0 <= i < |s| ==> IsSpace(s[i])
  }

  /** The length of the leading run of whitespace. */
  function LeadingSpaces(s: String): (n: nat)
    ensures n <= |s|
    ensures forall i :: 0 <= i < n ==> IsSpace(s[i])
    ensures n == |s| || !IsSpace(s[n])
  {
    if s == [] || !IsSpace(s[0]) then 0 else 1 + LeadingSpaces(s[1..])
  }

  /** The length of the trailing run of whitespace. */
  function TrailingSpaces(s: String): (n: nat)
    ensures n <= |s|
    ensures forall i :: |s| - n <= i < |s| ==> IsSpace(s[i])
    ensures n == |s| || !IsSpace(s[|s| - n - 1])
  {
    if s == [] || !IsSpace(s[|s| - 1]) then 0 else 1 + TrailingSpaces(s[..|s| - 1])
  }

  /** Python's `lstrip()`: drops the leading whitespace and nothing else. */
  function TrimLeft(s: String): String {
    s[LeadingSpaces(s)..]
  }

  /** Python's `rstrip()`: drops the trailing whitespace and nothing else. */
  function TrimRight(s: String): String {
    s[..|s| - TrailingSpaces(s)]
  }

  /** Neither end is whitespace. */
  predicate IsStripped(s: String) {
    s == [] || (!IsSpace(s[0]) && !IsSpace(s[|s| - 1]))
  }

  /** Python's `strip()` with no argument. */
  function Strip(s: String): (r: String)
    ensures IsStripped(r)
    ensures |r| <= |s|
  {
    TrimRight(TrimLeft(s))
  }

  lemma StripKeepsStripped(s: String)
    requires IsStripped(s)
    ensures Strip(s) == s
  {
  }

  /** Stripping removes exactly a whitespace prefix and a whitespace suffix. */
  lemma StripIsInfix(s: String) returns (a: nat)
    ensures a + |Strip(s)| <= |s|
    ensures Strip(s) == s[a..a + |Strip(s)|]
    ensures AllSpace(s[..a]) && AllSpace(s[a + |Strip(s)|..])
  {
    var t := TrimLeft(s);
    a := |s| - |t|;
    var r := TrimRight(t);
    assert t[|r|..] == s[a + |r|..];
  }

  /** Each string stripped, as the list comprehensions `[x.strip() for x
      in xs]` do. */
  function StripEach(xs: seq<String>): (r: seq<String>)
    ensures |r| == |xs| && forall i :: 0 <= i < |xs| ==> r[i] == Strip(xs[i])
    decreases |xs|
  {
    if xs == [] then [] else [Strip(xs[0])] + StripEach(xs[1..])
  }

  /** Stripping already stripped strings changes nothing. */
  lemma StripEachStripped(ws: seq<String>)
    requires forall i :: 0 <= i < |ws| ==> IsStripped(ws[i])
    ensures StripEach(ws) == ws
  {
    forall i | 0 <= i < |ws| ensures StripEach(ws)[i] == ws[i] {
      StripKeepsStripped(ws[i]);
    }
  }

  /** Stripping never brings in a character. */
  lemma StripKeepsOut(s: String, c: char)
    requires c !in s
    ensures c !in Strip(s)
  {
    var a := StripIsInfix(s);
  }

  lemma StripEmptyIffAllSpace(s: String)
    ensures Strip(s) == [] <==> AllSpace(s)
  {
    var a := StripIsInfix(s);
    if Strip(s) != [] {
      assert s[a] == Strip(s)[0];
    } else {
      assert s == s[..a] + s[a..];
    }
  }

  lemma TrimLeftSkipsSpace(c: char, s: String)
    requires IsSpace(c)
    ensures TrimLeft([c] + s) == TrimLeft(s)
  {
    assert ([c] + s)[1..] == s;
  }

  lemma TrimLeftOfNonSpace(s: String)
    requires s == [] || !IsSpace(s[0])
    ensures TrimLeft(s) == s
  {
  }

  /** A trailing run of whitespace is invisible to `rstrip()`. */
  lemma TrimRightAppendSpace(s: String, t: String)
    requires AllSpace(t)
    ensures TrimRight(s + t) == TrimRight(s)
    decreases |t|
  {
    if t != [] {
      var u := s + t;
      assert u[..|u| - 1] == s + t[..|t| - 1];
      TrimRightAppendSpace(s, t[..|t| - 1]);
    } else {
      assert s + t == s;
    }
  }

  /** `rstrip()` only looks at the end: a non-blank tail shields the head. */
  lemma TrimRightAppend(s: String, t: String)
    requires !AllSpace(t)
    ensures TrimRight(s + t) == s + TrimRight(t)
    decreases |t|
  {
    var u := s + t;
    if IsSpace(t[|t| - 1]) {
      assert u[..|u| - 1] == s + t[..|t| - 1];
      var i :| 0 <= i < |t| && !IsSpace(t[i]);
      assert t[..|t| - 1][i] == t[i];
      TrimRightAppend(s, t[..|t| - 1]);
    }
  }

  lemma TrimLeftAppend(s: String, t: String)
    requires !AllSpace(s)
    ensures TrimLeft(s + t) == TrimLeft(s) + t
    decreases |s|
  {
    if IsSpace(s[0]) {
      assert (s + t)[1..] == s[1..] + t;
      var i :| 0 <= i < |s| && !IsSpace(s[i]);
      assert s[1..][i - 1] == s[i];
      TrimLeftAppend(s[1..], t);
    }
  }

  // ---------------------------------------------------------------------
  // Words: str.split() and ' '.join
  // ---------------------------------------------------------------------

  predicate IsWord(w: String) {
    w != [] && NoSpace(w)
  }

  /** The length of the leading run of non-whitespace. */
  function WordLength(s: String): (n: nat)
    ensures n <= |s|
    ensures forall i :: 0 <= i < n ==> !IsSpace(s[i])
    ensures n == |s| || IsSpace(s[n])
  {
    if s == [] || IsSpace(s[0]) then 0 else 1 + WordLength(s[1..])
  }

  /** The longest whitespace-free prefix. */
  function TakeWord(s: String): (w: String)
    ensures NoSpace(w)
    ensures s != [] && !IsSpace(s[0]) ==> w != []
  {
    s[..WordLength(s)]
  }

  /** Python's `str.split()` with no separator: the maximal runs of
      non-whitespace, in order. */
  function Words(s: String): (ws: seq<String>)
    ensures forall i :: 0 <= i < |ws| ==> IsWord(ws[i])
    decreases |s|
  {
    var t := TrimLeft(s);
    if t == [] then []
    else
      var w := TakeWord(t);
      var rest := Words(t[|w|..]);
      assert IsWord(w);
      [w] + rest
  }

  /** Python's `sep.join(parts)`. */
  function Join(parts: seq<String>, sep: String): String
  {
    if parts == [] then []
    else if |parts| == 1 then parts[0]
    else parts[0] + sep + Join(parts[1..], sep)
  }

  /** Every whitespace character is a single ' ' between two non-blank
      characters: no leading, trailing or doubled whitespace. */
  predicate SingleSpaced(s: String) {
    forall i :: 0 <= i < |s| && IsSpace(s[i]) ==>
      s[i] == ' ' && 0 < i < |s| - 1 && !IsSpace(s[i - 1]) && !IsSpace(s[i + 1])
  }

  lemma {:induction false} WordLengthOfPrefix(w: String, x: String)
    requires NoSpace(w)
    requires x == [] || IsSpace(x[0])
    ensures WordLength(w + x) == |w|
    decreases |w|
  {
    if w != [] {
      assert (w + x)[1..] == w[1..] + x;
      WordLengthOfPrefix(w[1..], x);
    } else {
      assert w + x == x;
    }
  }

  lemma TakeWordOfPrefix(w: String, x: String)
    requires NoSpace(w)
    requires x == [] || IsSpace(x[0])
    ensures TakeWord(w + x) == w
  {
    WordLengthOfPrefix(w, x);
    assert (w + x)[..|w|] == w;
  }

  lemma WordsSkipSpace(c: char, s: String)
    requires IsSpace(c)
    ensures Words([c] + s) == Words(s)
  {
    TrimLeftSkipsSpace(c, s);
  }

  lemma JoinStartsWithFirst(parts: seq<String>, sep: String)
    requires |parts| > 0
    ensures Join(parts, sep)[..|parts[0]|] == parts[0]
  {
  }

  /** A word followed by whitespace (or nothing) is the first word. */
  lemma WordsOfWordThen(w: String, x: String)
    requires IsWord(w)
    requires x == [] || IsSpace(x[0])
    ensures Words(w + x) == [w] + Words(x)
  {
    TrimLeftOfNonSpace(w + x);
    TakeWordOfPrefix(w, x);
    assert (w + x)[|w|..] == x;
  }

  /** `split()` undoes `' '.join` on whitespace-free, non-empty words. */
  lemma {:induction false} WordsOfJoin(ws: seq<String>)
    requires forall i :: 0 <= i < |ws| ==> IsWord(ws[i])
    ensures Words(Join(ws, " ")) == ws
  {
    if ws == [] {
    } else if |ws| == 1 {
      WordsOfWordThen(ws[0], []);
      assert ws[0] + [] == ws[0];
    } else {
      var rest := Join(ws[1..], " ");
      assert Join(ws, " ") == ws[0] + ([' '] + rest);
      WordsOfWordThen(ws[0], [' '] + rest);
      WordsSkipSpace(' ', rest);
      WordsOfJoin(ws[1..]);
    }
  }

  /** `' '.join` of whitespace-free, non-empty words is single-spaced. */
  lemma {:induction false} JoinWordsSingleSpaced(ws: seq<String>)
    requires forall i :: 0 <= i < |ws| ==> IsWord(ws[i])
    ensures SingleSpaced(Join(ws, " "))
  {
    if |ws| > 1 {
      var w := ws[0];
      var rest := Join(ws[1..], " ");
      JoinWordsSingleSpaced(ws[1..]);
      JoinStartsWithFirst(ws[1..], " ");
      var j := Join(ws, " ");
      assert j == w + [' '] + rest;
      assert rest[0] == ws[1][0];
      forall i | 0 <= i < |j|
        ensures IsSpace(j[i]) ==> j[i] == ' ' && 0 < i < |j| - 1 && !IsSpace(j[i - 1]) && !IsSpace(j[i + 1])
      {
        if i < |w| {
          assert j[i] == w[i];
        } else if i > |w| && IsSpace(j[i]) {
          assert j[i] == rest[i - |w| - 1];
          if i - |w| - 1 > 0 {
            assert j[i - 1] == rest[i - |w| - 2];
          }
          assert j[i + 1] == rest[i - |w|];
        }
      }
    }
  }

  // ---------------------------------------------------------------------
  // Lower case
  // ---------------------------------------------------------------------

  /** Python's `str.lower()` on one character, for the scripts the
      dictionaries use: ASCII, Latin-1 and the Vietnamese letters. */
  function LowerChar(c: char): char
  {
    var n := c as int;
    if 'A' <= c <= 'Z' then (n + 32) as char
    else if 0xC0 <= n <= 0xDE && n != 0xD7 then (n + 32) as char
    else if n == 0x102 || n == 0x110 || n == 0x128 || n == 0x168 || n == 0x1A0 || n == 0x1AF
    then (n + 1) as char
    else if 0x1EA0 <= n <= 0x1EF8 && n % 2 == 0 then (n + 1) as char
    else c
  }

  /** SQLite's `LOWER()`, which folds ASCII letters only. */
  function AsciiLowerChar(c: char): char
  {
    if 'A' <= c <= 'Z' then ((c as int) + 32) as char else c
  }

  function Lower(s: String): (r: String)
    ensures |r| == |s|
  {
    seq(|s|, i requires 0 <= i < |s| => LowerChar(s[i]))
  }

  function AsciiLower(s: String): (r: String)
    ensures |r| == |s|
  {
    seq(|s|, i requires 0 <= i < |s| => AsciiLowerChar(s[i]))
  }

  lemma LowerCharKeepsSpace(c: char)
    ensures IsSpace(LowerChar(c)) == IsSpace(c)
  {
  }

  lemma LowerCharIdempotent(c: char)
    ensures LowerChar(LowerChar(c)) == LowerChar(c)
  {
  }

  lemma LowerAppend(s: String, t: String)
    ensures Lower(s + t) == Lower(s) + Lower(t)
  {
  }

  lemma LowerSlice(s: String, a: nat, b: nat)
    requires a <= b <= |s|
    ensures Lower(s[a..b]) == Lower(s)[a..b]
  {
  }

  lemma TrimLeftLower(s: String)
    ensures TrimLeft(Lower(s)) == Lower(TrimLeft(s))
    decreases |s|
  {
    if s != [] {
      LowerCharKeepsSpace(s[0]);
      if IsSpace(s[0]) {
        LowerSlice(s, 1, |s|);
        assert Lower(s)[1..] == Lower(s[1..]);
        TrimLeftLower(s[1..]);
      }
    }
  }

  lemma TrimRightLower(s: String)
    ensures TrimRight(Lower(s)) == Lower(TrimRight(s))
    decreases |s|
  {
    if s != [] {
      LowerCharKeepsSpace(s[|s| - 1]);
      if IsSpace(s[|s| - 1]) {
        LowerSlice(s, 0, |s| - 1);
        assert Lower(s)[..|s| - 1] == Lower(s[..|s| - 1]);
        TrimRightLower(s[..|s| - 1]);
      }
    }
  }

  /** Lower-casing never creates or removes whitespace, so it commutes
      with `strip()`. */
  lemma StripLower(s: String)
    ensures Strip(Lower(s)) == Lower(Strip(s))
  {
    TrimLeftLower(s);
    TrimRightLower(TrimLeft(s));
  }

  // ---------------------------------------------------------------------
  // Searching
  // ---------------------------------------------------------------------

  /** `pat` occurs in `s` starting at index `i`. */
  predicate ContainsAt(s: String, pat: String, i: int) {
    0 <= i && i + |pat| <= |s| && s[i..i + |pat|] == pat
  }

  /** Python's `pat in s`. */
  predicate Contains(s: String, pat: String) {
    exists i | 0 <= i <= |s| :: ContainsAt(s, pat, i)
  }

  /** Python's `s.find(pat, from)`: the first occurrence at or after `from`. */
  function IndexOf(s: String, pat: String, from: nat): (r: Option<nat>)
    ensures r.Some? ==> from <= r.value && ContainsAt(s, pat, r.value)
    ensures r.Some? ==> forall i :: from <= i < r.value ==> !ContainsAt(s, pat, i)
    ensures r.None? ==> forall i :: from <= i ==> !ContainsAt(s, pat, i)
    decreases |s| - from
  {
    if from + |pat| > |s| then None
    else if s[from..from + |pat|] == pat then Some(from)
    else IndexOf(s, pat, from + 1)
  }

  lemma ContainsIffIndexOf(s: String, pat: String)
    ensures Contains(s, pat) <==> IndexOf(s, pat, 0).Some?
  {
    if IndexOf(s, pat, 0).Some? {
      assert ContainsAt(s, pat, IndexOf(s, pat, 0).value);
    }
  }

  /** The first index at or after `from` holding `c` (`bytes.find`/`str.find`
      for one character). */
  function FindChar(s: String, c: char, from: nat): (r: Option<nat>)
    ensures r.Some? ==> from <= r.value < |s| && s[r.value] == c
    ensures r.Some? ==> forall i :: from <= i < r.value ==> s[i] != c
    ensures r.None? ==> forall i :: from <= i < |s| ==> s[i] != c
    decreases |s| - from
  {
    if from >= |s| then None
    else if s[from] == c then Some(from)
    else FindChar(s, c, from + 1)
  }

  // ---------------------------------------------------------------------
  // Splitting at separator characters
  // ---------------------------------------------------------------------

  /** Splits `s` at every position whose suffix `isSep` accepts, dropping
      the separator character there: `re.split` for a pattern that always
      matches exactly one character, and `str.split(c)` for one character.
      The result always has at least one (possibly empty) piece. */
  function SplitWhere(s: String, isSep: String -> bool): (parts: seq<String>)
    ensures |parts| >= 1
    decreases |s|
  {
    if s == [] then [[]]
    else
      var rest := SplitWhere(s[1..], isSep);
      if isSep(s) then [[]] + rest
      else [[s[0]] + rest[0]] + rest[1..]
  }

  /** The separator characters `SplitWhere` drops, in order. */
  function SplitPoints(s: String, isSep: String -> bool): String
    decreases |s|
  {
    if s == [] then []
    else if isSep(s) then [s[0]] + SplitPoints(s[1..], isSep)
    else SplitPoints(s[1..], isSep)
  }

  /** Puts the dropped separators back between the pieces. */
  function Interleave(parts: seq<String>, seps: String): String
    requires |parts| == |seps| + 1
  {
    if |parts| == 1 then parts[0]
    else parts[0] + [seps[0]] + Interleave(parts[1..], seps[1..])
  }

  /** Splitting loses nothing: the pieces and the separators rebuild the
      input. */
  lemma {:induction false} SplitRoundTrip(s: String, isSep: String -> bool)
    ensures |SplitWhere(s, isSep)| == |SplitPoints(s, isSep)| + 1
    ensures Interleave(SplitWhere(s, isSep), SplitPoints(s, isSep)) == s
    decreases |s|
  {
    if s != [] {
      SplitRoundTrip(s[1..], isSep);
      var rest := SplitWhere(s[1..], isSep);
      var seps := SplitPoints(s[1..], isSep);
      if isSep(s) {
        assert SplitWhere(s, isSep) == [[]] + rest;
        assert ([[]] + rest)[1..] == rest;
      } else {
        var parts := SplitWhere(s, isSep);
        assert parts == [[s[0]] + rest[0]] + rest[1..];
        if |rest| == 1 {
          assert s == [s[0]] + s[1..];
        } else {
          assert parts[1..] == rest[1..];
          assert Interleave(parts, seps) == [s[0]] + (rest[0] + [seps[0]] + Interleave(rest[1..], seps[1..]));
        }
      }
    }
  }

  /** Splitting at one character drops only that character. */
  lemma {:induction false} SplitPointsAreChar(s: String, c: char)
    ensures forall i :: 0 <= i < |SplitPoints(s, CharIs(c))| ==> SplitPoints(s, CharIs(c))[i] == c
    decreases |s|
  {
    if s != [] {
      SplitPointsAreChar(s[1..], c);
    }
  }

  /** A separator character never survives inside a piece. */
  lemma {:induction false} SplitPiecesAvoid(s: String, isSep: String -> bool, c: char)
    requires forall t: String :: |t| > 0 && t[0] == c ==> isSep(t)
    ensures forall k, i :: 0 <= k < |SplitWhere(s, isSep)| && 0 <= i < |SplitWhere(s, isSep)[k]| ==>
      SplitWhere(s, isSep)[k][i] != c
    decreases |s|
  {
    if s != [] {
      SplitPiecesAvoid(s[1..], isSep, c);
    }
  }

  /** The predicate that `str.split(c)` splits at. */
  function CharIs(c: char): String -> bool {
    (t: String) => |t| > 0 && t[0] == c
  }

  /** Python's `s.split(c)` for a single character `c`. */
  function SplitOn(s: String, c: char): (parts: seq<String>)
    ensures |parts| >= 1
  {
    SplitWhere(s, CharIs(c))
  }

  lemma {:induction false} SplitOnWithout(s: String, c: char)
    requires c !in s
    ensures SplitOn(s, c) == [s]
    decreases |s|
  {
    if s != [] {
      SplitOnWithout(s[1..], c);
      assert [s[0]] + s[1..] == s;
    }
  }

  lemma {:induction false} SplitOnPrefix(x: String, y: String, c: char)
    requires c !in x
    ensures SplitOn(x + y, c) == [x + SplitOn(y, c)[0]] + SplitOn(y, c)[1..]
    decreases |x|
  {
    if x == [] {
      assert x + y == y;
      assert x + SplitOn(y, c)[0] == SplitOn(y, c)[0];
      assert [SplitOn(y, c)[0]] + SplitOn(y, c)[1..] == SplitOn(y, c);
    } else {
      assert (x + y)[1..] == x[1..] + y;
      SplitOnPrefix(x[1..], y, c);
      assert [x[0]] + (x[1..] + SplitOn(y, c)[0]) == x + SplitOn(y, c)[0];
    }
  }

  /** `s.split(c)` undoes `c.join(parts)` when no part contains `c`. */
  lemma {:induction false} SplitOnJoin(parts: seq<String>, c: char)
    requires |parts| >= 1
    requires forall k :: 0 <= k < |parts| ==> c !in parts[k]
    ensures SplitOn(Join(parts, [c]), c) == parts
  {
    if |parts| == 1 {
      SplitOnWithout(parts[0], c);
    } else {
      var rest := Join(parts[1..], [c]);
      SplitOnJoin(parts[1..], c);
      assert Join(parts, [c]) == parts[0] + ([c] + rest);
      SplitOnPrefix(parts[0], [c] + rest, c);
      assert ([c] + rest)[1..] == rest;
      assert SplitOn([c] + rest, c) == [[]] + parts[1..];
      assert parts[0] + [] == parts[0];
    }
  }

  /** `s.split(c)` has a second piece exactly when `c` occurs in `s`. */
  lemma {:induction false} SplitOnSplits(s: String, c: char)
    ensures |SplitOn(s, c)| >= 2 <==> c in s
    decreases |s|
  {
    if c !in s {
      SplitOnWithout(s, c);
    } else if s[0] != c {
      assert c in s[1..];
      SplitOnSplits(s[1..], c);
    }
  }

  /** A string that does not start with `c` starts its first piece. */
  lemma SplitOnFirst(s: String, c: char)
    requires s != [] && s[0] != c
    ensures SplitOn(s, c)[0] != [] && SplitOn(s, c)[0][0] == s[0]
  {
  }

  lemma {:induction false} JoinSnoc(parts: seq<String>, x: String, sep: String)
    requires parts != []
    ensures Join(parts + [x], sep) == Join(parts, sep) + sep + x
    decreases |parts|
  {
    if |parts| == 1 {
      assert (parts + [x])[1..] == [x];
    } else {
      assert (parts + [x])[1..] == parts[1..] + [x];
      JoinSnoc(parts[1..], x, sep);
    }
  }

  /** A character in neither the parts nor the separator is not in the join. */
  lemma {:induction false} JoinAvoids(parts: seq<String>, sep: String, c: char)
    requires c !in sep
    requires forall k :: 0 <= k < |parts| ==> c !in parts[k]
    ensures c !in Join(parts, sep)
    decreases |parts|
  {
    if |parts| > 1 {
      JoinAvoids(parts[1..], sep, c);
    }
  }

  /** The join starts with the first part's first character and ends with
      the last part's last character. */
  lemma JoinEnds(parts: seq<String>, sep: String)
    requires parts != [] && parts[0] != [] && parts[|parts| - 1] != []
    ensures var j := Join(parts, sep);
      j != [] && j[0] == parts[0][0] && j[|j| - 1] == parts[|parts| - 1][|parts[|parts| - 1]| - 1]
  {
    JoinStartsWithFirst(parts, sep);
    var j := Join(parts, sep);
    assert j[..|parts[0]|][0] == parts[0][0];
    if |parts| > 1 {
      var init := parts[..|parts| - 1];
      assert init + [parts[|parts| - 1]] == parts;
      JoinSnoc(init, parts[|parts| - 1], sep);
    }
  }

  // ---------------------------------------------------------------------
  // Replacing
  // ---------------------------------------------------------------------

  /** Python's `s.replace(pat, rep)`: every non-overlapping occurrence,
      scanning left to right. */
  function ReplaceAll(s: String, pat: String, rep: String): String
    requires pat != []
    decreases |s|
  {
    if |s| < |pat| then s
    else if s[..|pat|] == pat then rep + ReplaceAll(s[|pat|..], pat, rep)
    else [s[0]] + ReplaceAll(s[1..], pat, rep)
  }

  /** Number of occurrences of `c` in `s`. */
  function CountChar(s: String, c: char): nat
  {
    if s == [] then 0 else (if s[0] == c then 1 else 0) + CountChar(s[1..], c)
  }
}

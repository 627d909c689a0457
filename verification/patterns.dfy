/** Hand-written scanners for the few regular expressions the program
    applies to definition text: a delimited group `o[^c]+c` (the tags
    `<[^>]+>` and the pronunciations `/([^/]+)/` and `\[([^\]]+)\]`), and
    the labelled rest of a line `pronunciation: (.+)`. Each comes with its
    leftmost search (`re.search`) and its deletion or replacement
    (`re.sub`). */
module Patterns {
  import opened Optional
  import opened Text

  // ---------------------------------------------------------------------
  // Delimited groups o[^c]+c
  // ---------------------------------------------------------------------

  /** `o[^c]+c` matches at `i`: `s[i]` is `o` and the first `c` after it is
      not the very next character. */
  predicate DelimitedAt(s: String, i: int, open: char, close: char) {
    && 0 <= i < |s|
    && s[i] == open
    && FindChar(s, close, i + 1).Some?
    && FindChar(s, close, i + 1).value > i + 1
  }

  /** The index of the closing character of the match at `i`. */
  function DelimitedClose(s: String, i: nat, open: char, close: char): (j: nat)
    requires DelimitedAt(s, i, open, close)
    ensures i + 1 < j < |s| && s[j] == close
    ensures forall k :: i < k < j ==> s[k] != close
  {
    FindChar(s, close, i + 1).value
  }

  /** The regular-expression reading: an opening character, one or more
      characters other than the closing one, then the closing one. */
  lemma DelimitedAtIff(s: String, i: nat, open: char, close: char)
    ensures DelimitedAt(s, i, open, close) <==>
      i < |s| && s[i] == open &&
      exists j :: i + 1 < j < |s| && s[j] == close && forall k :: i < k < j ==> s[k] != close
  {
    if i < |s| && s[i] == open {
      var f := FindChar(s, close, i + 1);
      if exists j :: i + 1 < j < |s| && s[j] == close && forall k :: i < k < j ==> s[k] != close {
        var j :| i + 1 < j < |s| && s[j] == close && forall k :: i < k < j ==> s[k] != close;
        assert f.Some?;
      }
      if DelimitedAt(s, i, open, close) {
        var j := f.value;
        assert i + 1 < j < |s| && s[j] == close && forall k :: i < k < j ==> s[k] != close;
      }
    }
  }

  /** `re.search` for `o[^c]+c` from `from`: the leftmost match. */
  function SearchDelimited(s: String, open: char, close: char, from: nat): (r: Option<nat>)
    ensures r.Some? ==> from <= r.value && DelimitedAt(s, r.value, open, close)
    ensures r.Some? ==> forall i :: from <= i < r.value ==> !DelimitedAt(s, i, open, close)
    ensures r.None? ==> forall i :: from <= i ==> !DelimitedAt(s, i, open, close)
    decreases |s| - from
  {
    if from >= |s| then None
    else if DelimitedAt(s, from, open, close) then Some(from)
    else SearchDelimited(s, open, close, from + 1)
  }

  /** `re.sub(o[^c]+c, rep, s)`: every match, scanning left to right and
      resuming after each one, becomes `rep`. */
  function SubDelimited(s: String, open: char, close: char, rep: String): (r: String)
    requires |rep| <= 1
    ensures |r| <= |s|
    decreases |s|
  {
    if s == [] then []
    else if DelimitedAt(s, 0, open, close) then
      rep + SubDelimited(s[DelimitedClose(s, 0, open, close) + 1..], open, close, rep)
    else [s[0]] + SubDelimited(s[1..], open, close, rep)
  }

  /** No match anywhere, stated without the search: every opening character
      is directly followed by the closing one or has no closing one after
      it. */
  predicate Unmatched(s: String, open: char, close: char) {
    forall i :: 0 <= i < |s| && s[i] == open ==>
      (i + 1 < |s| && s[i + 1] == close) || NoCloseAfter(s, close, i)
  }

  /** No `close` after index `i`. */
  predicate NoCloseAfter(s: String, close: char, i: int) {
    forall k :: 0 <= k < |s| && i < k ==> s[k] != close
  }

  /** `Unmatched` is exactly "the pattern matches nowhere". */
  lemma UnmatchedIff(s: String, open: char, close: char)
    ensures Unmatched(s, open, close) <==> forall i :: 0 <= i < |s| ==> !DelimitedAt(s, i, open, close)
  {
    if Unmatched(s, open, close) {
      forall i | 0 <= i < |s| && s[i] == open
        ensures !DelimitedAt(s, i, open, close)
      {
        var f := FindChar(s, close, i + 1);
        if i + 1 < |s| && s[i + 1] == close {
          assert f.Some? && f.value <= i + 1;
        } else {
          assert NoCloseAfter(s, close, i);
          assert f.None?;
        }
      }
      assert forall i :: 0 <= i < |s| ==> !DelimitedAt(s, i, open, close);
    }
    if forall i :: 0 <= i < |s| ==> !DelimitedAt(s, i, open, close) {
      forall i | 0 <= i < |s| && s[i] == open
        ensures (i + 1 < |s| && s[i + 1] == close) || NoCloseAfter(s, close, i)
      {
        assert !DelimitedAt(s, i, open, close);
        var f := FindChar(s, close, i + 1);
        if f.Some? {
          assert f.value == i + 1;
        } else {
          assert NoCloseAfter(s, close, i);
        }
      }
      assert Unmatched(s, open, close);
    }
  }

  lemma {:induction false} SubDelimitedNoNewClose(s: String, open: char, close: char, rep: String)
    requires |rep| <= 1 && close !in rep
    requires forall k :: 0 <= k < |s| ==> s[k] != close
    ensures forall k :: 0 <= k < |SubDelimited(s, open, close, rep)| ==> SubDelimited(s, open, close, rep)[k] != close
    decreases |s|
  {
    if s != [] {
      assert FindChar(s, close, 1).None?;
      SubDelimitedNoNewClose(s[1..], open, close, rep);
    }
  }

  lemma UnmatchedCons(c: char, t: String, open: char, close: char)
    requires Unmatched(t, open, close)
    requires c == open ==> (t != [] && t[0] == close) || NoCloseAfter(t, close, -1)
    ensures Unmatched([c] + t, open, close)
  {
    var s := [c] + t;
    forall i | 0 <= i < |s| && s[i] == open
      ensures (i + 1 < |s| && s[i + 1] == close) || NoCloseAfter(s, close, i)
    {
      if i > 0 {
        assert s[i] == t[i - 1];
        forall k | 0 <= k < |s| && i < k ensures s[k] == t[k - 1] { }
      }
    }
  }

  lemma UnmatchedTail(s: String, open: char, close: char)
    requires s != [] && Unmatched(s, open, close)
    ensures Unmatched(s[1..], open, close)
  {
    var t := s[1..];
    forall i | 0 <= i < |t| && t[i] == open
      ensures (i + 1 < |t| && t[i + 1] == close) || NoCloseAfter(t, close, i)
    {
      assert s[i + 1] == open;
      assert (i + 2 < |s| && s[i + 2] == close) || NoCloseAfter(s, close, i + 1);
      if i + 2 < |s| && s[i + 2] == close {
        assert t[i + 1] == s[i + 2];
      } else {
        forall k | 0 <= k < |t| && i < k
          ensures t[k] != close
        {
          assert t[k] == s[k + 1];
        }
      }
    }
  }

  /** The substitution leaves no match behind, provided the opening and
      closing characters differ and the replacement holds neither. With
      equal delimiters (`/([^/]+)/`) a deletion can bring a new match
      together, so the substitution is not idempotent there. */
  lemma {:induction false} SubDelimitedLeavesNoMatch(s: String, open: char, close: char, rep: String)
    requires open != close && |rep| <= 1 && open !in rep && close !in rep
    ensures Unmatched(SubDelimited(s, open, close, rep), open, close)
    decreases |s|
  {
    if s != [] {
      if DelimitedAt(s, 0, open, close) {
        var rest := s[DelimitedClose(s, 0, open, close) + 1..];
        SubDelimitedLeavesNoMatch(rest, open, close, rep);
        if rep != [] {
          UnmatchedCons(rep[0], SubDelimited(rest, open, close, rep), open, close);
          assert [rep[0]] == rep;
        } else {
          assert rep + SubDelimited(rest, open, close, rep) == SubDelimited(rest, open, close, rep);
        }
      } else {
        var f := FindChar(s, close, 1);
        var t := SubDelimited(s[1..], open, close, rep);
        SubDelimitedLeavesNoMatch(s[1..], open, close, rep);
        if s[0] == open {
          if f.None? {
            SubDelimitedNoNewClose(s[1..], open, close, rep);
          } else {
            assert s[1] == close;
            assert s[1..][0] == close;
            assert !DelimitedAt(s[1..], 0, open, close);
          }
        }
        UnmatchedCons(s[0], t, open, close);
      }
    }
  }

  /** Text without a match passes through unchanged. */
  lemma {:induction false} SubDelimitedKeepsUnmatched(s: String, open: char, close: char, rep: String)
    requires |rep| <= 1 && Unmatched(s, open, close)
    ensures SubDelimited(s, open, close, rep) == s
    decreases |s|
  {
    if s != [] {
      var f := FindChar(s, close, 1);
      assert !DelimitedAt(s, 0, open, close) by {
        if s[0] == open && f.Some? {
          assert s[f.value] == close;
          assert (1 < |s| && s[1] == close) || NoCloseAfter(s, close, 0);
        }
      }
      UnmatchedTail(s, open, close);
      SubDelimitedKeepsUnmatched(s[1..], open, close, rep);
      assert [s[0]] + s[1..] == s;
    }
  }

  lemma SubDelimitedIdempotent(s: String, open: char, close: char, rep: String)
    requires open != close && |rep| <= 1 && open !in rep && close !in rep
    ensures SubDelimited(SubDelimited(s, open, close, rep), open, close, rep) == SubDelimited(s, open, close, rep)
  {
    SubDelimitedLeavesNoMatch(s, open, close, rep);
    SubDelimitedKeepsUnmatched(SubDelimited(s, open, close, rep), open, close, rep);
  }

  // ---------------------------------------------------------------------
  // The labelled rest of a line: pronunciation: (.+)
  // ---------------------------------------------------------------------

  const PronLabel: String := "pronunciation: "

  /** `pronunciation: (.+)` matches at `i`: the label, then at least one
      character that is not a line break. */
  predicate LabelAt(s: String, i: int) {
    ContainsAt(s, PronLabel, i) && i + |PronLabel| < |s| && s[i + |PronLabel|] != '\n'
  }

  /** Where `.+` stops: the next line break, or the end of the text. */
  function LineEnd(s: String, from: nat): (e: nat)
    requires from <= |s|
    ensures from <= e <= |s|
    ensures forall k :: from <= k < e ==> s[k] != '\n'
    ensures e < |s| ==> s[e] == '\n'
  {
    var f := FindChar(s, '\n', from);
    if f.Some? then f.value else |s|
  }

  /** `re.search` for the label from `from`: the leftmost match. */
  function SearchLabel(s: String, from: nat): (r: Option<nat>)
    ensures r.Some? ==> from <= r.value && LabelAt(s, r.value)
    ensures r.Some? ==> forall i :: from <= i < r.value ==> !LabelAt(s, i)
    ensures r.None? ==> forall i :: from <= i ==> !LabelAt(s, i)
    decreases |s| - from
  {
    if from >= |s| then None
    else if LabelAt(s, from) then Some(from)
    else SearchLabel(s, from + 1)
  }

  /** The group of the match at `i`: the rest of its line. */
  function LabelGroup(s: String, i: nat): (g: String)
    requires LabelAt(s, i)
    ensures g != [] && '\n' !in g
  {
    var e := LineEnd(s, i + |PronLabel|);
    s[i + |PronLabel|..e]
  }

  /** `re.sub(r'pronunciation: (.+)', '', s)`: each match, the label up to
      the end of its line, is deleted. */
  function SubLabel(s: String): (r: String)
    ensures |r| <= |s|
    decreases |s|
  {
    if s == [] then []
    else if LabelAt(s, 0) then SubLabel(s[LineEnd(s, |PronLabel|)..])
    else [s[0]] + SubLabel(s[1..])
  }

  lemma LabelAtShift(s: String, i: nat)
    requires s != []
    ensures LabelAt(s[1..], i) <==> LabelAt(s, i + 1)
  {
    if ContainsAt(s, PronLabel, i + 1) {
      assert s[1..][i..i + |PronLabel|] == s[i + 1..i + 1 + |PronLabel|];
    }
    if ContainsAt(s[1..], PronLabel, i) {
      assert s[1..][i..i + |PronLabel|] == s[i + 1..i + 1 + |PronLabel|];
    }
  }

  /** Text without a match passes through unchanged. */
  lemma {:induction false} SubLabelKeepsUnlabelled(s: String)
    requires forall i :: 0 <= i < |s| ==> !LabelAt(s, i)
    ensures SubLabel(s) == s
    decreases |s|
  {
    if s != [] {
      forall i | 0 <= i < |s| - 1
        ensures !LabelAt(s[1..], i)
      {
        LabelAtShift(s, i);
      }
      SubLabelKeepsUnlabelled(s[1..]);
      assert [s[0]] + s[1..] == s;
    }
  }

  /** A match deletes at least the label and one more character. */
  lemma SubLabelShrinks(s: String)
    requires SearchLabel(s, 0).Some?
    ensures |SubLabel(s)| <= |s| - |PronLabel| - 1
  {
    var i := SearchLabel(s, 0).value;
    SubLabelFrom(s, i);
  }

  lemma {:induction false} SubLabelFrom(s: String, i: nat)
    requires LabelAt(s, i)
    ensures |SubLabel(s)| <= |s| - |PronLabel| - 1
    decreases i
  {
    if i == 0 {
      assert LineEnd(s, |PronLabel|) > |PronLabel|;
    } else {
      if !LabelAt(s, 0) {
        LabelAtShift(s, i - 1);
        SubLabelFrom(s[1..], i - 1);
      }
    }
  }
}

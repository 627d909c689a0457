/** Order-preserving collection helpers the program uses over and over:
    appending only elements whose key has not been seen yet (the loops that
    test `x not in target` or a `seen` set before `append`), filtering, and
    concatenation. */
module Seqs {
  import opened Optional

  /** No two elements share a key. */
  predicate KeysDistinct<T, K(==)>(xs: seq<T>, key: T -> K) {
    forall i, j :: 0 <= i < j < |xs| ==> key(xs[i]) != key(xs[j])
  }

  /** The keys of the elements of `xs`. */
  function KeySet<T, K>(xs: seq<T>, key: T -> K): set<K> {
    set i | 0 <= i < |xs| :: key(xs[i])
  }

  /** `a` is obtained from `b` by deleting elements. */
  predicate IsSubseq<T(==)>(a: seq<T>, b: seq<T>)
    decreases |b|
  {
    if a == [] then true
    else if b == [] then false
    else (a[0] == b[0] && IsSubseq(a[1..], b[1..])) || IsSubseq(a, b[1..])
  }

  /** The identity, as the key of lists deduplicated on their elements. */
  function Id<T>(x: T): T {
    x
  }

  lemma KeySetId<T>(xs: seq<T>)
    ensures forall x :: x in KeySet(xs, Id) <==> x in xs
  {
    forall x | x in xs ensures x in KeySet(xs, Id) {
      var i :| 0 <= i < |xs| && xs[i] == x;
      assert Id(xs[i]) == x;
    }
  }

  lemma KeySetAppend<T, K>(a: seq<T>, b: seq<T>, key: T -> K)
    ensures KeySet(a + b, key) == KeySet(a, key) + KeySet(b, key)
  {
    var ab := a + b;
    forall k | k in KeySet(ab, key) ensures k in KeySet(a, key) + KeySet(b, key) {
      var i :| 0 <= i < |ab| && key(ab[i]) == k;
      if i < |a| { assert ab[i] == a[i]; } else { assert ab[i] == b[i - |a|]; }
    }
    forall k | k in KeySet(a, key) + KeySet(b, key) ensures k in KeySet(ab, key) {
      if k in KeySet(a, key) {
        var i :| 0 <= i < |a| && key(a[i]) == k;
        assert ab[i] == a[i];
      } else {
        var i :| 0 <= i < |b| && key(b[i]) == k;
        assert ab[|a| + i] == b[i];
      }
    }
  }

  lemma SubseqDropHead<T>(a: seq<T>, b: seq<T>)
    requires b != [] && IsSubseq(a, b[1..])
    ensures IsSubseq(a, b)
  {
  }

  /** Appends, in order, each element of `xs` whose key is neither in `seen`
      nor the key of an element appended before it; `acc` is kept as is. */
  function AppendUnseen<T, K(==)>(acc: seq<T>, seen: set<K>, xs: seq<T>, key: T -> K): (r: seq<T>)
    ensures |acc| <= |r| && r[..|acc|] == acc
    ensures forall i :: |acc| <= i < |r| ==> key(r[i]) !in seen
    decreases |xs|
  {
    if xs == [] then acc
    else if key(xs[0]) in seen then AppendUnseen(acc, seen, xs[1..], key)
    else AppendUnseen(acc + [xs[0]], seen + {key(xs[0])}, xs[1..], key)
  }

  /** The appended elements have pairwise different keys. */
  lemma {:induction false} AppendUnseenDistinct<T, K>(acc: seq<T>, seen: set<K>, xs: seq<T>, key: T -> K)
    ensures KeysDistinct(AppendUnseen(acc, seen, xs, key)[|acc|..], key)
    decreases |xs|
  {
    if xs != [] {
      var k := key(xs[0]);
      if k in seen {
        AppendUnseenDistinct(acc, seen, xs[1..], key);
      } else {
        var acc' := acc + [xs[0]];
        var r := AppendUnseen(acc', seen + {k}, xs[1..], key);
        AppendUnseenDistinct(acc', seen + {k}, xs[1..], key);
        var tail := r[|acc|..];
        assert tail[0] == xs[0] by { assert r[|acc|] == acc'[|acc|]; }
        forall i, j | 0 <= i < j < |tail| ensures key(tail[i]) != key(tail[j]) {
          assert tail[j] == r[|acc| + j];
          if i > 0 {
            assert tail[i] == r[|acc'|..][i - 1];
            assert tail[j] == r[|acc'|..][j - 1];
          }
        }
      }
    }
  }

  /** The appended elements occur in `xs`, in the same order. */
  lemma {:induction false} AppendUnseenSubseq<T, K>(acc: seq<T>, seen: set<K>, xs: seq<T>, key: T -> K)
    ensures IsSubseq(AppendUnseen(acc, seen, xs, key)[|acc|..], xs)
    decreases |xs|
  {
    var r := AppendUnseen(acc, seen, xs, key);
    if xs == [] {
      assert r[|acc|..] == [];
    } else {
      var k := key(xs[0]);
      if k in seen {
        AppendUnseenSubseq(acc, seen, xs[1..], key);
        SubseqDropHead(r[|acc|..], xs);
      } else {
        var acc' := acc + [xs[0]];
        AppendUnseenSubseq(acc', seen + {k}, xs[1..], key);
        assert r[|acc|] == acc'[|acc|];
        assert r[|acc|..][1..] == r[|acc'|..];
      }
    }
  }

  /** Every key of `xs` ends up seen: in `seen` or among the appended. */
  lemma {:induction false} AppendUnseenCovers<T, K>(acc: seq<T>, seen: set<K>, xs: seq<T>, key: T -> K)
    ensures forall j :: 0 <= j < |xs| ==>
      key(xs[j]) in seen + KeySet(AppendUnseen(acc, seen, xs, key)[|acc|..], key)
    decreases |xs|
  {
    if xs != [] {
      var r := AppendUnseen(acc, seen, xs, key);
      var k := key(xs[0]);
      if k in seen {
        AppendUnseenCovers(acc, seen, xs[1..], key);
        forall j | 0 <= j < |xs| ensures key(xs[j]) in seen + KeySet(r[|acc|..], key) {
          if j > 0 { assert xs[j] == xs[1..][j - 1]; }
        }
      } else {
        var acc' := acc + [xs[0]];
        AppendUnseenCovers(acc', seen + {k}, xs[1..], key);
        assert r[|acc|] == acc'[|acc|];
        assert r[|acc|..] == [xs[0]] + r[|acc'|..];
        KeySetAppend([xs[0]], r[|acc'|..], key);
        assert KeySet([xs[0]], key) == {k};
        forall j | 0 <= j < |xs| ensures key(xs[j]) in seen + KeySet(r[|acc|..], key) {
          if j > 0 { assert xs[j] == xs[1..][j - 1]; }
        }
      }
    }
  }

  /** Nothing is appended when every key of `xs` is already seen. */
  lemma {:induction false} AppendUnseenAllSeen<T, K>(acc: seq<T>, seen: set<K>, xs: seq<T>, key: T -> K)
    requires forall j :: 0 <= j < |xs| ==> key(xs[j]) in seen
    ensures AppendUnseen(acc, seen, xs, key) == acc
    decreases |xs|
  {
    if xs != [] {
      AppendUnseenAllSeen(acc, seen, xs[1..], key);
    }
  }

  /** Appending to a list whose keys are distinct, with `seen` its key set,
      keeps the keys distinct. */
  lemma AppendUnseenKeepsDistinct<T, K>(acc: seq<T>, xs: seq<T>, key: T -> K)
    requires KeysDistinct(acc, key)
    ensures KeysDistinct(AppendUnseen(acc, KeySet(acc, key), xs, key), key)
  {
    var r := AppendUnseen(acc, KeySet(acc, key), xs, key);
    AppendUnseenDistinct(acc, KeySet(acc, key), xs, key);
    forall i, j | 0 <= i < j < |r| ensures key(r[i]) != key(r[j]) {
      if j < |acc| {
        assert r[i] == acc[i] && r[j] == acc[j];
      } else if i < |acc| {
        assert r[i] == acc[i];
        assert key(r[i]) in KeySet(acc, key);
      } else {
        assert r[i] == r[|acc|..][i - |acc|];
        assert r[j] == r[|acc|..][j - |acc|];
      }
    }
  }

  /** Appending to a list, with `seen` its key set: afterwards every key of
      `xs` is a key of the result. */
  lemma AppendUnseenCoversAll<T, K>(acc: seq<T>, xs: seq<T>, key: T -> K)
    ensures forall j :: 0 <= j < |xs| ==>
      key(xs[j]) in KeySet(AppendUnseen(acc, KeySet(acc, key), xs, key), key)
  {
    var r := AppendUnseen(acc, KeySet(acc, key), xs, key);
    AppendUnseenCovers(acc, KeySet(acc, key), xs, key);
    assert r == acc + r[|acc|..];
    KeySetAppend(acc, r[|acc|..], key);
  }

  /** So appending the same elements a second time changes nothing. */
  lemma AppendUnseenTwice<T, K>(acc: seq<T>, xs: seq<T>, key: T -> K)
    ensures var r := AppendUnseen(acc, KeySet(acc, key), xs, key);
      AppendUnseen(r, KeySet(r, key), xs, key) == r
  {
    var r := AppendUnseen(acc, KeySet(acc, key), xs, key);
    AppendUnseenCoversAll(acc, xs, key);
    AppendUnseenAllSeen(r, KeySet(r, key), xs, key);
  }

  /** One more input element: it is appended iff its key is still unseen. */
  lemma {:induction false} AppendUnseenSnoc<T, K>(acc: seq<T>, seen: set<K>, xs: seq<T>, x: T, key: T -> K)
    ensures AppendUnseen(acc, seen, xs + [x], key) ==
      var r := AppendUnseen(acc, seen, xs, key);
      if key(x) in seen + KeySet(r[|acc|..], key) then r else r + [x]
    decreases |xs|
  {
    var r := AppendUnseen(acc, seen, xs, key);
    if xs == [] {
      assert r[|acc|..] == [];
      assert [x][1..] == [];
    } else {
      assert (xs + [x])[1..] == xs[1..] + [x];
      var k := key(xs[0]);
      if k in seen {
        AppendUnseenSnoc(acc, seen, xs[1..], x, key);
      } else {
        var acc' := acc + [xs[0]];
        AppendUnseenSnoc(acc', seen + {k}, xs[1..], x, key);
        assert r[|acc|] == acc'[|acc|];
        assert r[|acc|..] == [xs[0]] + r[|acc'|..];
        KeySetAppend([xs[0]], r[|acc'|..], key);
        assert KeySet([xs[0]], key) == {k};
      }
    }
  }

  /** The reference meaning of "append what is not there yet": element
      `xs[j]` is kept exactly when its key is neither in `seen` nor the key
      of an earlier element `xs[i]`, i < j. */
  function FirstUnseen<T, K(==)>(seen: set<K>, xs: seq<T>, key: T -> K): seq<T>
    decreases |xs|
  {
    if xs == [] then []
    else
      var init := xs[..|xs| - 1];
      var x := xs[|xs| - 1];
      FirstUnseen(seen, init, key) + (if key(x) in seen + KeySet(init, key) then [] else [x])
  }

  /** "Deduplicate, keeping the first": nothing is seen beforehand. */
  function FirstOccurrences<T, K(==)>(xs: seq<T>, key: T -> K): seq<T> {
    FirstUnseen({}, xs, key)
  }

  /** The kept keys are the keys of `xs` that were not seen before. */
  lemma {:induction false} FirstUnseenKeys<T, K>(seen: set<K>, xs: seq<T>, key: T -> K)
    ensures KeySet(FirstUnseen(seen, xs, key), key) == KeySet(xs, key) - seen
    decreases |xs|
  {
    if xs != [] {
      var init := xs[..|xs| - 1];
      var x := xs[|xs| - 1];
      FirstUnseenKeys(seen, init, key);
      assert xs == init + [x];
      KeySetAppend(init, [x], key);
      assert KeySet([x], key) == {key(x)};
      var tail := if key(x) in seen + KeySet(init, key) then [] else [x];
      KeySetAppend(FirstUnseen(seen, init, key), tail, key);
      if tail == [] { assert KeySet(tail, key) == {}; }
    }
  }

  lemma FirstOccurrencesKeys<T, K>(xs: seq<T>, key: T -> K)
    ensures KeySet(FirstOccurrences(xs, key), key) == KeySet(xs, key)
  {
    FirstUnseenKeys({}, xs, key);
  }

  /** The append loop keeps `acc` and adds exactly the reference selection. */
  lemma {:induction false} AppendUnseenIsFirstUnseen<T, K>(acc: seq<T>, seen: set<K>, xs: seq<T>, key: T -> K)
    ensures AppendUnseen(acc, seen, xs, key) == acc + FirstUnseen(seen, xs, key)
    decreases |xs|
  {
    if xs == [] {
      assert acc + [] == acc;
    } else {
      var init := xs[..|xs| - 1];
      var x := xs[|xs| - 1];
      assert xs == init + [x];
      AppendUnseenIsFirstUnseen(acc, seen, init, key);
      AppendUnseenSnoc(acc, seen, init, x, key);
      var f := FirstUnseen(seen, init, key);
      var r := AppendUnseen(acc, seen, init, key);
      assert r[|acc|..] == f;
      FirstUnseenKeys(seen, init, key);
      assert seen + KeySet(f, key) == seen + KeySet(init, key);
      AppendAssoc(acc, f, [x]);
    }
  }

  /** The two halves of a concatenation. */
  lemma AppendParts<T>(a: seq<T>, b: seq<T>)
    ensures (a + b)[0..|a|] == a && (a + b)[|a|..] == b
  {
  }

  /** Concatenation regrouped, as a fact to call where the solver would
      otherwise compare long sequences element by element. */
  lemma AppendAssoc<T>(a: seq<T>, b: seq<T>, c: seq<T>)
    ensures a + (b + c) == (a + b) + c
  {
  }

  /** Appending the unseen elements of `xs` to nothing keeps exactly the
      first occurrence of every key. */
  lemma AppendUnseenIsFirstOccurrences<T, K>(xs: seq<T>, key: T -> K)
    ensures AppendUnseen([], {}, xs, key) == FirstOccurrences(xs, key)
  {
    AppendUnseenIsFirstUnseen([], {}, xs, key);
    assert [] + FirstUnseen({}, xs, key) == FirstUnseen({}, xs, key);
  }

  /** Every element of a subsequence is an element of the whole. */
  lemma {:induction false} SubseqMembers<T>(a: seq<T>, b: seq<T>)
    requires IsSubseq(a, b)
    ensures forall x :: x in a ==> x in b
    decreases |b|
  {
    if a != [] {
      if a[0] == b[0] && IsSubseq(a[1..], b[1..]) {
        SubseqMembers(a[1..], b[1..]);
        forall x | x in a ensures x in b {
          if x == a[0] {
            assert b[0] == x;
          } else {
            var i :| 0 <= i < |a| && a[i] == x;
            assert a[1..][i - 1] == x;
            assert x in b[1..];
            var j :| 0 <= j < |b[1..]| && b[1..][j] == x;
            assert b[j + 1] == x;
          }
        }
      } else {
        SubseqMembers(a, b[1..]);
        forall x | x in a ensures x in b {
          var j :| 0 <= j < |b[1..]| && b[1..][j] == x;
          assert b[j + 1] == x;
        }
      }
    }
  }

  /** A subsequence is no longer than the whole. */
  lemma {:induction false} SubseqLength<T>(a: seq<T>, b: seq<T>)
    requires IsSubseq(a, b)
    ensures |a| <= |b|
    decreases |b|
  {
    if a != [] {
      if a[0] == b[0] && IsSubseq(a[1..], b[1..]) {
        SubseqLength(a[1..], b[1..]);
      } else {
        SubseqLength(a, b[1..]);
      }
    }
  }

  /** The reference deduplication keeps one element per key, taken from the
      input in order. */
  lemma FirstOccurrencesDistinct<T, K>(xs: seq<T>, key: T -> K)
    ensures KeysDistinct(FirstOccurrences(xs, key), key)
    ensures IsSubseq(FirstOccurrences(xs, key), xs)
    ensures forall x :: x in FirstOccurrences(xs, key) ==> x in xs
  {
    AppendUnseenIsFirstOccurrences(xs, key);
    AppendUnseenDistinct([], {}, xs, key);
    AppendUnseenSubseq([], {}, xs, key);
    var r := AppendUnseen([], {}, xs, key);
    assert r[0..] == r;
    SubseqMembers(r, xs);
  }

  /** The deduplication loop of the program: a `seen` set of keys and an
      output list, each element appended the first time its key shows up. */
  method DedupKeepFirst<T, K(==)>(xs: seq<T>, key: T -> K) returns (out: seq<T>)
    ensures out == FirstOccurrences(xs, key)
    ensures KeysDistinct(out, key)
    ensures KeySet(out, key) == KeySet(xs, key)
  {
    out := [];
    var seen: set<K> := {};
    var i := 0;
    while i < |xs|
      invariant 0 <= i <= |xs|
      invariant out == AppendUnseen([], {}, xs[..i], key)
      invariant seen == KeySet(out, key)
    {
      var x := xs[i];
      AppendUnseenSnoc([], {}, xs[..i], x, key);
      assert xs[..i + 1] == xs[..i] + [x];
      assert out[0..] == out;
      if key(x) !in seen {
        KeySetAppend(out, [x], key);
        assert KeySet([x], key) == {key(x)};
        out := out + [x];
        seen := seen + {key(x)};
      }
      i := i + 1;
    }
    assert xs[..i] == xs;
    AppendUnseenIsFirstOccurrences(xs, key);
    AppendUnseenDistinct([], {}, xs, key);
    assert out[0..] == out;
    FirstOccurrencesKeys(xs, key);
  }

  /** Python's `[x for x in xs if p(x)]`. */
  function Filter<T>(xs: seq<T>, p: T -> bool): (r: seq<T>)
    ensures forall i :: 0 <= i < |r| ==> p(r[i]) && r[i] in xs
    ensures |r| <= |xs|
    decreases |xs|
  {
    if xs == [] then [] else (if p(xs[0]) then [xs[0]] else []) + Filter(xs[1..], p)
  }

  /** The filter drops nothing that satisfies `p` and keeps the order. */
  lemma {:induction false} FilterKeeps<T>(xs: seq<T>, p: T -> bool)
    ensures IsSubseq(Filter(xs, p), xs)
    ensures forall j :: 0 <= j < |xs| && p(xs[j]) ==> xs[j] in Filter(xs, p)
    decreases |xs|
  {
    if xs != [] {
      FilterKeeps(xs[1..], p);
      var r := Filter(xs, p);
      var rest := Filter(xs[1..], p);
      if p(xs[0]) {
        assert r == [xs[0]] + rest;
        assert r[1..] == rest;
      } else {
        assert r == rest;
        SubseqDropHead(r, xs);
      }
      forall j | 0 <= j < |xs| && p(xs[j]) ensures xs[j] in r {
        if j > 0 { assert xs[j] == xs[1..][j - 1]; }
      }
    }
  }

  /** Filtering a list with one more element. */
  lemma {:induction false} FilterSnoc<T>(xs: seq<T>, x: T, p: T -> bool)
    ensures Filter(xs + [x], p) == Filter(xs, p) + (if p(x) then [x] else [])
    decreases |xs|
  {
    if xs == [] {
      assert [x][1..] == [];
    } else {
      assert (xs + [x])[1..] == xs[1..] + [x];
      FilterSnoc(xs[1..], x, p);
    }
  }

  /** A filter every element passes keeps the list as is. */
  lemma {:induction false} FilterAllPass<T>(xs: seq<T>, p: T -> bool)
    requires forall i :: 0 <= i < |xs| ==> p(xs[i])
    ensures Filter(xs, p) == xs
    decreases |xs|
  {
    if xs != [] {
      FilterAllPass(xs[1..], p);
      assert [xs[0]] + xs[1..] == xs;
    }
  }

  /** Concatenation of a list of lists, in order. */
  function Concat<T>(xss: seq<seq<T>>): seq<T>
    decreases |xss|
  {
    if xss == [] then [] else xss[0] + Concat(xss[1..])
  }

  lemma ConcatSnoc<T>(xss: seq<seq<T>>, ys: seq<T>)
    ensures Concat(xss + [ys]) == Concat(xss) + ys
    decreases |xss|
  {
    if xss == [] {
      assert [ys][1..] == [];
    } else {
      assert (xss + [ys])[1..] == xss[1..] + [ys];
      ConcatSnoc(xss[1..], ys);
    }
  }

  /** The index of the first element, from `k` on, that satisfies `p`: the
      "try each in order, stop at the first that applies" loops. */
  function FirstWhere<T>(xs: seq<T>, p: T -> bool, k: nat): (r: Option<nat>)
    ensures r.Some? ==> k <= r.value < |xs| && p(xs[r.value])
    ensures forall j :: k <= j < |xs| && (r.None? || j < r.value) ==> !p(xs[j])
    decreases |xs| - k
  {
    if k >= |xs| then None
    else if p(xs[k]) then Some(k)
    else FirstWhere(xs, p, k + 1)
  }
}
